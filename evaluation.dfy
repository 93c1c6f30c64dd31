/** The positional evaluator: each piece of the scored player adds its
    cell's weight, each opponent piece subtracts it.  The weights are the
    source's table multiplied by 2, so that the half-integer 7.5 becomes 15
    and every value is an integer. */
module Evaluator {
  import opened Board

  /** An 8x8 table of integer weights. */
  type WeightTable = t: seq<seq<int>> | |t| == 8 && forall i :: 0 <= i < 8 ==> |t[i]| == 8
    witness seq(8, _ => seq(8, _ => 0))

  /** position_weights, scaled by 2: corners 200, edges next to a corner -40,
      the diagonal neighbours of a corner -100, and so on. */
  const POSITION_WEIGHTS: WeightTable := [
    [200, -40, 20, 15, 15, 20, -40, 200],
    [-40, -100, -4, -4, -4, -4, -100, -40],
    [20, -4, -2, -2, -2, -2, -4, 20],
    [20, -4, -2, -2, -2, -2, -4, 20],
    [20, -4, -2, -2, -2, -2, -4, 20],
    [20, -4, -2, -2, -2, -2, -4, 20],
    [-40, -100, -4, -4, -4, -4, -100, -40],
    [200, -40, 20, 15, 15, 20, -40, 200]
  ]

  /** The sum of the magnitudes of all weights (958 in the source's units). */
  const WEIGHT_MASS: int := 1916

  function Abs(v: int): nat {
    if v < 0 then -v else v
  }

  /** What one cell adds to the score of `player`: +w for its own piece,
      -w for an opponent piece, nothing for an empty cell. */
  function Contribution(cell: Cell, player: Player, w: int): int {
    if cell == player then w else if cell == Opponent(player) then -w else 0
  }

  /** The contributions of cells (x, 0) .. (x, n-1). */
  function EvalCells(b: Board, player: Player, x: nat, n: nat): int
    requires x < 8 && n <= 8
  {
    if n == 0 then 0
    else EvalCells(b, player, x, n - 1) + Contribution(b[x][n - 1], player, POSITION_WEIGHTS[x][n - 1])
  }

  /** The contributions of rows 0 .. n-1. */
  function EvalRows(b: Board, player: Player, n: nat): int
    requires n <= 8
  {
    if n == 0 then 0 else EvalRows(b, player, n - 1) + EvalCells(b, player, n - 1, |b[n - 1]|)
  }

  /** evaluate_board(game, player), in units of half a source point, summed
      over the board's own rows (8 of them). */
  function Evaluation(b: Board, player: Player): int {
    EvalRows(b, player, |b|)
  }

  /** The weight magnitudes of cells (x, 0) .. (x, n-1). */
  function MassCells(x: nat, n: nat): nat
    requires x < 8 && n <= 8
  {
    if n == 0 then 0 else MassCells(x, n - 1) + Abs(POSITION_WEIGHTS[x][n - 1])
  }

  /** The weight magnitudes of rows 0 .. n-1. */
  function MassRows(n: nat): nat
    requires n <= 8
  {
    if n == 0 then 0 else MassRows(n - 1) + MassCells(n - 1, |POSITION_WEIGHTS[n - 1]|)
  }

  // ------------------------------------------------------------ zero sum

  lemma {:induction false} CellsZeroSum(b: Board, player: Player, x: nat, n: nat)
    requires x < 8 && n <= 8
    ensures EvalCells(b, player, x, n) == -EvalCells(b, Opponent(player), x, n)
  {
    if n > 0 {
      CellsZeroSum(b, player, x, n - 1);
    }
  }

  lemma {:induction false} RowsZeroSum(b: Board, player: Player, n: nat)
    requires n <= 8
    ensures EvalRows(b, player, n) == -EvalRows(b, Opponent(player), n)
  {
    if n > 0 {
      RowsZeroSum(b, player, n - 1);
      CellsZeroSum(b, player, n - 1, |b[n - 1]|);
    }
  }

  /** The evaluation is zero-sum: what one colour gains the other loses. */
  lemma ZeroSum(b: Board, player: Player)
    ensures Evaluation(b, player) == -Evaluation(b, Opponent(player))
  {
    RowsZeroSum(b, player, |b|);
  }

  // -------------------------------------------------------- empty board

  lemma {:induction false} EmptyCells(b: Board, player: Player, x: nat, n: nat)
    requires x < 8 && n <= 8
    requires forall j :: 0 <= j < 8 ==> b[x][j] == Empty
    ensures EvalCells(b, player, x, n) == 0
  {
    if n > 0 {
      EmptyCells(b, player, x, n - 1);
    }
  }

  lemma {:induction false} EmptyRows(b: Board, player: Player, n: nat)
    requires n <= 8
    requires forall i, j :: 0 <= i < 8 && 0 <= j < 8 ==> b[i][j] == Empty
    ensures EvalRows(b, player, n) == 0
  {
    if n > 0 {
      EmptyRows(b, player, n - 1);
      EmptyCells(b, player, n - 1, |b[n - 1]|);
    }
  }

  /** A board with no pieces scores 0 for either colour. */
  lemma EmptyScoresZero(b: Board, player: Player)
    requires forall i, j :: 0 <= i < 8 && 0 <= j < 8 ==> b[i][j] == Empty
    ensures Evaluation(b, player) == 0
  {
    EmptyRows(b, player, |b|);
  }

  // ------------------------------------------------------------- bound

  lemma {:induction false} CellsBound(b: Board, player: Player, x: nat, n: nat)
    requires x < 8 && n <= 8
    ensures Abs(EvalCells(b, player, x, n)) <= MassCells(x, n)
  {
    if n > 0 {
      CellsBound(b, player, x, n - 1);
    }
  }

  lemma {:induction false} RowsBound(b: Board, player: Player, n: nat)
    requires n <= 8
    ensures Abs(EvalRows(b, player, n)) <= MassRows(n)
  {
    if n > 0 {
      RowsBound(b, player, n - 1);
      CellsBound(b, player, n - 1, |b[n - 1]|);
    }
  }

  /** The weight mass of each row: 550 for the edge rows, 296 for the rows
      next to them, 56 for the four middle rows. */
  lemma RowMass(x: nat)
    requires x < 8
    ensures MassCells(x, 8) == if x == 0 || x == 7 then 550 else if x == 1 || x == 6 then 296 else 56
  {
    var w := POSITION_WEIGHTS[x];
    if x == 0 || x == 7 {
      assert w == [200, -40, 20, 15, 15, 20, -40, 200];
    } else if x == 1 || x == 6 {
      assert w == [-40, -100, -4, -4, -4, -4, -100, -40];
    } else {
      assert w == [20, -4, -2, -2, -2, -2, -4, 20];
    }
    assert MassCells(x, 8) == Abs(w[0]) + Abs(w[1]) + Abs(w[2]) + Abs(w[3]) + Abs(w[4]) + Abs(w[5]) + Abs(w[6]) + Abs(w[7]);
  }

  lemma TableMass()
    ensures MassRows(8) == WEIGHT_MASS
  {
    forall x | 0 <= x < 8
      ensures MassCells(x, 8) == if x == 0 || x == 7 then 550 else if x == 1 || x == 6 then 296 else 56
    {
      RowMass(x);
    }
    assert MassRows(2) == 846;
    assert MassRows(4) == 958;
    assert MassRows(6) == 1070;
  }

  lemma MassOfBoard(b: Board)
    ensures MassRows(|b|) == WEIGHT_MASS
  {
    TableMass();
  }

  lemma EvaluationMass(b: Board, player: Player)
    ensures Abs(Evaluation(b, player)) <= MassRows(|b|)
  {
    RowsBound(b, player, |b|);
  }

  /** Every evaluation lies within the total weight mass, 1916 (958 unscaled)
      either way. */
  lemma EvaluationBound(b: Board, player: Player)
    ensures Abs(Evaluation(b, player)) <= WEIGHT_MASS
  {
    EvaluationMass(b, player);
    MassOfBoard(b);
  }

  // ---------------------------------------------------------- symmetry

  /** The weight table is symmetric under reflection in either middle axis. */
  lemma WeightSymmetry(x: int, y: int)
    requires OnBoard(x, y)
    ensures POSITION_WEIGHTS[x][y] == POSITION_WEIGHTS[7 - x][y]
    ensures POSITION_WEIGHTS[x][y] == POSITION_WEIGHTS[x][7 - y]
  {
  }
}
