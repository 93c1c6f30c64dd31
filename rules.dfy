/** Move legality, the move list, move application and the terminal test,
    as functions on board values, with the lemmas that characterise them. */
module Rules {
  import opened Board

  // -------------------------------------------------------------- walking

  /** A bound on the steps left before the walk from (x, y) leaves the board. */
  function StepsLeft(x: int, y: int, d: Direction): int {
    if d.0 > 0 then 8 - x else if d.0 < 0 then x + 1 else if d.1 > 0 then 8 - y else y + 1
  }

  /** The number of consecutive cells holding c met when walking from (x, y)
      in direction d, (x, y) included: the source's inner while loop. */
  function Run(b: Board, c: Cell, x: int, y: int, d: Direction): nat
    decreases StepsLeft(x, y, d)
  {
    if OnBoard(x, y) && b[x][y] == c then 1 + Run(b, c, x + d.0, y + d.1, d) else 0
  }

  /** One cell of c on the board: the run goes on past it, and the walk has
      fewer steps left. */
  lemma RunStep(b: Board, c: Cell, x: int, y: int, d: Direction)
    requires OnBoard(x, y) && b[x][y] == c
    ensures Run(b, c, x, y, d) == 1 + Run(b, c, x + d.0, y + d.1, d)
    ensures 0 <= StepsLeft(x + d.0, y + d.1, d) < StepsLeft(x, y, d)
  {
  }

  /** Run counts exactly the leading c cells of the ray. */
  lemma {:induction false} RunSpec(b: Board, c: Cell, x: int, y: int, d: Direction)
    ensures forall k :: 0 <= k < Run(b, c, x, y, d) ==> Holds(b, RayCell(x, y, d, k), c)
    ensures !Holds(b, RayCell(x, y, d, Run(b, c, x, y, d)), c)
    decreases StepsLeft(x, y, d)
  {
    if OnBoard(x, y) && b[x][y] == c {
      RunStep(b, c, x, y, d);
      RunSpec(b, c, x + d.0, y + d.1, d);
      RunShiftSpec(b, c, x, y, x + d.0, y + d.1, d, Run(b, c, x + d.0, y + d.1, d));
    }
  }

  /** If the n cells from the next one (nx, ny) along d hold c and the one
      after does not, then with (x, y) holding c the same holds for n + 1 cells from (x, y). */
  lemma RunShiftSpec(b: Board, c: Cell, x: int, y: int, nx: int, ny: int, d: Direction, n: int)
    requires OnBoard(x, y) && b[x][y] == c && (nx, ny) == (x + d.0, y + d.1)
    requires forall k :: 0 <= k < n ==> Holds(b, RayCell(nx, ny, d, k), c)
    requires !Holds(b, RayCell(nx, ny, d, n), c)
    ensures forall k :: 0 <= k < n + 1 ==> Holds(b, RayCell(x, y, d, k), c)
    ensures !Holds(b, RayCell(x, y, d, n + 1), c)
  {
    forall k | 0 <= k < n + 1
      ensures Holds(b, RayCell(x, y, d, k), c)
    {
      if k > 0 {
        RayShift(x, y, d, k - 1);
      }
    }
    RayShift(x, y, d, n);
  }

  /** The length of the opponent run next to (x, y) in direction d. */
  function RunLength(b: Board, p: Player, x: int, y: int, d: Direction): nat {
    Run(b, Opponent(p), x + d.0, y + d.1, d)
  }

  lemma RunLengthSpec(b: Board, p: Player, x: int, y: int, d: Direction)
    ensures forall k :: 1 <= k <= RunLength(b, p, x, y, d) ==>
              Holds(b, RayCell(x, y, d, k), Opponent(p))
    ensures !Holds(b, RayCell(x, y, d, RunLength(b, p, x, y, d) + 1), Opponent(p))
  {
    var n := RunLength(b, p, x, y, d);
    RunSpec(b, Opponent(p), x + d.0, y + d.1, d);
    forall k | 1 <= k <= n + 1
      ensures RayCell(x, y, d, k) == RayCell(x + d.0, y + d.1, d, k - 1)
    {
      RayShift(x, y, d, k - 1);
    }
  }

  /** The cell just past the opponent run is on the board and holds p
      (the test the source makes after the walk). */
  predicate Closes(b: Board, p: Player, x: int, y: int, d: Direction) {
    Holds(b, RayCell(x, y, d, RunLength(b, p, x, y, d) + 1), p)
  }

  /** Direction d captures: a non-empty opponent run closed by p. */
  predicate Brackets(b: Board, p: Player, x: int, y: int, d: Direction) {
    RunLength(b, p, x, y, d) >= 1 && Closes(b, p, x, y, d)
  }

  /** is_valid_move: on the board, empty, and some direction captures. */
  predicate Legal(b: Board, p: Player, x: int, y: int) {
    OnBoard(x, y) && b[x][y] == Empty &&
    exists i :: 0 <= i < |DIRECTIONS| && Brackets(b, p, x, y, DIRECTIONS[i])
  }

  // ------------------------------------------- independent characterisation

  /** Cells 1 .. n-1 of the ray all hold the opponent. */
  predicate OpponentSpan(b: Board, p: Player, x: int, y: int, d: Direction, n: int) {
    forall k :: 1 <= k < n ==> Holds(b, RayCell(x, y, d, k), Opponent(p))
  }

  /** Along d, one or more opponent pieces and then, at distance n, a piece of p. */
  predicate Sandwich(b: Board, p: Player, x: int, y: int, d: Direction, n: int) {
    n >= 2 && OpponentSpan(b, p, x, y, d, n) && Holds(b, RayCell(x, y, d, n), p)
  }

  /** A sandwich along d can only end just past the opponent run. */
  lemma SandwichUnique(b: Board, p: Player, x: int, y: int, d: Direction, n: int)
    requires Sandwich(b, p, x, y, d, n)
    ensures n == RunLength(b, p, x, y, d) + 1 && Closes(b, p, x, y, d)
  {
    var len := RunLength(b, p, x, y, d);
    RunLengthSpec(b, p, x, y, d);
    assert len >= n ==> Holds(b, RayCell(x, y, d, n), Opponent(p));
    assert len + 1 < n ==> Holds(b, RayCell(x, y, d, len + 1), Opponent(p));
  }

  lemma BracketsIff(b: Board, p: Player, x: int, y: int, d: Direction)
    ensures Brackets(b, p, x, y, d) <==> exists n :: Sandwich(b, p, x, y, d, n)
  {
    if Brackets(b, p, x, y, d) {
      RunLengthSpec(b, p, x, y, d);
      assert Sandwich(b, p, x, y, d, RunLength(b, p, x, y, d) + 1);
    }
    if exists n :: Sandwich(b, p, x, y, d, n) {
      var n :| Sandwich(b, p, x, y, d, n);
      SandwichUnique(b, p, x, y, d, n);
    }
  }

  /** A move is legal if and only if the cell is on the board and empty and
      some direction holds one or more opponent pieces followed by a piece of p. */
  lemma LegalIff(b: Board, p: Player, x: int, y: int)
    ensures Legal(b, p, x, y) <==>
              OnBoard(x, y) && b[x][y] == Empty &&
              exists i, n :: 0 <= i < 8 && Sandwich(b, p, x, y, DIRECTIONS[i], n)
  {
    forall i | 0 <= i < 8 {
      BracketsIff(b, p, x, y, DIRECTIONS[i]);
    }
  }

  // ------------------------------------------------------------- flipping

  /** The distance of (r, c) from (x, y) along d, if (r, c) is on that ray. */
  function RayIndex(x: int, y: int, d: Direction, r: int, c: int): int {
    if d.0 > 0 then r - x else if d.0 < 0 then x - r else if d.1 > 0 then c - y else y - c
  }

  /** (r, c) lies on the opponent run along d and that run is closed by p. */
  predicate FlippedBy(b: Board, p: Player, x: int, y: int, d: Direction, r: int, c: int) {
    var m := RayIndex(x, y, d, r, c);
    Closes(b, p, x, y, d) && 1 <= m <= RunLength(b, p, x, y, d) && RayCell(x, y, d, m) == (r, c)
  }

  /** (r, c) is flipped by one of the first n directions. */
  predicate FlippedWithin(b: Board, p: Player, x: int, y: int, n: nat, r: int, c: int)
    requires n <= 8
  {
    n > 0 && (FlippedWithin(b, p, x, y, n - 1, r, c) || FlippedBy(b, p, x, y, DIRECTIONS[n - 1], r, c))
  }

  predicate Flipped(b: Board, p: Player, x: int, y: int, r: int, c: int) {
    FlippedWithin(b, p, x, y, |DIRECTIONS|, r, c)
  }

  /** The cell (r, c) once the target is set and the first n directions are done. */
  function CellAfter(b: Board, p: Player, x: int, y: int, n: nat, r: int, c: int): Cell
    requires n <= 8 && OnBoard(r, c)
  {
    if (r, c) == (x, y) || FlippedWithin(b, p, x, y, n, r, c) then p else b[r][c]
  }

  /** Direction n changes only the cells of its own closed run. */
  lemma CellAfterNext(b: Board, p: Player, x: int, y: int, n: nat, r: int, c: int)
    requires n < 8 && OnBoard(r, c)
    ensures CellAfter(b, p, x, y, n + 1, r, c)
            == if FlippedBy(b, p, x, y, DIRECTIONS[n], r, c) then p else CellAfter(b, p, x, y, n, r, c)
  {
  }

  /** The board after make_move: the target set to p and every closed
      opponent run in the eight directions turned to p (once all of
      DIRECTIONS are done). */
  function ApplyMove(b: Board, p: Player, x: int, y: int): Board {
    seq(8, r requires 0 <= r < 8 => seq(8, c requires 0 <= c < 8 => CellAfter(b, p, x, y, |DIRECTIONS|, r, c)))
  }

  /** The cells a move turns over. */
  function FlipMask(b: Board, p: Player, x: int, y: int): seq<seq<bool>> {
    seq(8, r requires 0 <= r < 8 => seq(8, c requires 0 <= c < 8 => Flipped(b, p, x, y, r, c)))
  }

  /** How many pieces a move turns over. */
  function FlipCount(b: Board, p: Player, x: int, y: int): nat {
    CountGrid(FlipMask(b, p, x, y), true)
  }

  /** A flipped cell lies inside a sandwich along d. */
  lemma FlippedBySandwich(b: Board, p: Player, x: int, y: int, d: Direction, r: int, c: int)
    requires FlippedBy(b, p, x, y, d, r, c)
    ensures exists m, n :: 1 <= m < n && RayCell(x, y, d, m) == (r, c) && Sandwich(b, p, x, y, d, n)
  {
    var len := RunLength(b, p, x, y, d);
    RunLengthSpec(b, p, x, y, d);
    assert Sandwich(b, p, x, y, d, len + 1);
    assert RayCell(x, y, d, RayIndex(x, y, d, r, c)) == (r, c);
  }

  /** A cell inside a sandwich along d is flipped by d. */
  lemma SandwichFlipped(b: Board, p: Player, x: int, y: int, d: Direction, r: int, c: int, m: int, n: int)
    requires 1 <= m < n && RayCell(x, y, d, m) == (r, c) && Sandwich(b, p, x, y, d, n)
    ensures FlippedBy(b, p, x, y, d, r, c)
  {
    SandwichUnique(b, p, x, y, d, n);
    assert RayIndex(x, y, d, r, c) == m;
  }

  lemma FlippedByIff(b: Board, p: Player, x: int, y: int, d: Direction, r: int, c: int)
    ensures FlippedBy(b, p, x, y, d, r, c) <==>
              exists m, n :: 1 <= m < n && RayCell(x, y, d, m) == (r, c) && Sandwich(b, p, x, y, d, n)
  {
    if FlippedBy(b, p, x, y, d, r, c) {
      FlippedBySandwich(b, p, x, y, d, r, c);
    }
    if exists m, n :: 1 <= m < n && RayCell(x, y, d, m) == (r, c) && Sandwich(b, p, x, y, d, n) {
      var m, n :| 1 <= m < n && RayCell(x, y, d, m) == (r, c) && Sandwich(b, p, x, y, d, n);
      SandwichFlipped(b, p, x, y, d, r, c, m, n);
    }
  }

  lemma {:induction false} FlippedWithinIff(b: Board, p: Player, x: int, y: int, n: nat, r: int, c: int)
    requires n <= 8
    ensures FlippedWithin(b, p, x, y, n, r, c) <==>
              exists i :: 0 <= i < n && FlippedBy(b, p, x, y, DIRECTIONS[i], r, c)
  {
    if n > 0 {
      FlippedWithinIff(b, p, x, y, n - 1, r, c);
    }
  }

  /** (r, c) lies on an opponent run, next to (x, y), that a piece of p closes. */
  ghost predicate Bracketed(b: Board, p: Player, x: int, y: int, r: int, c: int) {
    exists i, m, n :: 0 <= i < 8 && 1 <= m < n &&
      RayCell(x, y, DIRECTIONS[i], m) == (r, c) && Sandwich(b, p, x, y, DIRECTIONS[i], n)
  }

  /** The flipped cells are exactly the bracketed ones. */
  lemma FlippedIff(b: Board, p: Player, x: int, y: int, r: int, c: int)
    ensures Flipped(b, p, x, y, r, c) <==> Bracketed(b, p, x, y, r, c)
  {
    FlippedWithinIff(b, p, x, y, |DIRECTIONS|, r, c);
    forall i | 0 <= i < 8 {
      FlippedByIff(b, p, x, y, DIRECTIONS[i], r, c);
    }
  }

  /** What make_move does to each cell: the target becomes p, a cell turns to p
      exactly when it is bracketed (it then held the opponent), nothing else changes. */
  lemma ApplyMoveCells(b: Board, p: Player, x: int, y: int)
    requires OnBoard(x, y)
    ensures ApplyMove(b, p, x, y)[x][y] == p
    ensures forall r, c :: OnBoard(r, c) && (r, c) != (x, y) ==>
              ApplyMove(b, p, x, y)[r][c] == if Bracketed(b, p, x, y, r, c) then p else b[r][c]
    ensures forall r, c :: OnBoard(r, c) && (r, c) != (x, y) ==>
              (ApplyMove(b, p, x, y)[r][c] != b[r][c] <==> Bracketed(b, p, x, y, r, c))
    ensures forall r, c :: OnBoard(r, c) && Bracketed(b, p, x, y, r, c) ==>
              (r, c) != (x, y) && b[r][c] == Opponent(p)
  {
    forall r, c | OnBoard(r, c)
      ensures ApplyMove(b, p, x, y)[r][c] == CellAfter(b, p, x, y, |DIRECTIONS|, r, c)
      ensures Flipped(b, p, x, y, r, c) <==> Bracketed(b, p, x, y, r, c)
      ensures Bracketed(b, p, x, y, r, c) ==> (r, c) != (x, y) && b[r][c] == Opponent(p)
    {
      FlippedIff(b, p, x, y, r, c);
      if Bracketed(b, p, x, y, r, c) {
        var i, m, n :| 0 <= i < 8 && 1 <= m < n &&
          RayCell(x, y, DIRECTIONS[i], m) == (r, c) && Sandwich(b, p, x, y, DIRECTIONS[i], n);
        assert Holds(b, RayCell(x, y, DIRECTIONS[i], m), Opponent(p));
      }
    }
  }

  // ------------------------------------------------- rays from one cell

  /** The eight directions are pairwise distinct. */
  lemma DirectionsDistinct()
    ensures forall i, j :: 0 <= i < j < 8 ==> DIRECTIONS[i] != DIRECTIONS[j]
  {
  }

  /** Two rays from the same cell meet, away from it, only where they coincide. */
  lemma RayDisjoint(x: int, y: int, d1: Direction, m1: int, d2: Direction, m2: int)
    requires m1 >= 1 && m2 >= 1
    requires RayCell(x, y, d1, m1) == RayCell(x, y, d2, m2)
    ensures d1 == d2 && m1 == m2
  {
  }

  /** (r, c) lies one or more steps from (x, y) along d. */
  predicate OnRay(x: int, y: int, d: Direction, r: int, c: int) {
    var m := RayIndex(x, y, d, r, c);
    m >= 1 && RayCell(x, y, d, m) == (r, c)
  }

  lemma RayIndexOf(x: int, y: int, d: Direction, m: int)
    ensures RayIndex(x, y, d, RayCell(x, y, d, m).0, RayCell(x, y, d, m).1) == m
  {
  }

  /** A cell on the ray of direction k is not the target and is untouched by
      the first k directions. */
  lemma OffEarlierRays(b: Board, p: Player, x: int, y: int, k: nat, r: int, c: int)
    requires k < 8 && OnBoard(r, c) && OnRay(x, y, DIRECTIONS[k], r, c)
    ensures CellAfter(b, p, x, y, k, r, c) == b[r][c]
  {
    var m := RayIndex(x, y, DIRECTIONS[k], r, c);
    FlippedWithinIff(b, p, x, y, k, r, c);
    if i :| 0 <= i < k && FlippedBy(b, p, x, y, DIRECTIONS[i], r, c) {
      RayDisjoint(x, y, DIRECTIONS[i], RayIndex(x, y, DIRECTIONS[i], r, c), DIRECTIONS[k], m);
      DirectionsDistinct();
      assert false;
    }
  }

  /** The walk from cell k of a ray sees the same run on boards that agree on the ray. */
  lemma {:induction false} RunFrame(b1: Board, b2: Board, c: Cell, xs: int, ys: int, d: Direction, k: int)
    requires k >= 1
    requires forall r, s :: OnBoard(r, s) && OnRay(xs, ys, d, r, s) ==> b1[r][s] == b2[r][s]
    ensures Run(b1, c, RayCell(xs, ys, d, k).0, RayCell(xs, ys, d, k).1, d) ==
            Run(b2, c, RayCell(xs, ys, d, k).0, RayCell(xs, ys, d, k).1, d)
    decreases StepsLeft(RayCell(xs, ys, d, k).0, RayCell(xs, ys, d, k).1, d)
  {
    var (x, y) := RayCell(xs, ys, d, k);
    RayIndexOf(xs, ys, d, k);
    assert RayCell(xs, ys, d, k + 1) == (x + d.0, y + d.1);
    if OnBoard(x, y) && b1[x][y] == c {
      RunFrame(b1, b2, c, xs, ys, d, k + 1);
    }
  }

  /** The cells 1 .. RunLength of a closed ray are exactly the cells that ray flips. */
  lemma RunCells(b: Board, p: Player, x: int, y: int, d: Direction, pieces: seq<Move>)
    requires Closes(b, p, x, y, d) && |pieces| == RunLength(b, p, x, y, d)
    requires forall t :: 0 <= t < |pieces| ==> pieces[t] == RayCell(x, y, d, t + 1)
    ensures forall r, c :: (r, c) in pieces <==> FlippedBy(b, p, x, y, d, r, c)
  {
    forall r, c
      ensures (r, c) in pieces <==> FlippedBy(b, p, x, y, d, r, c)
    {
      if (r, c) in pieces {
        var s :| 0 <= s < |pieces| && pieces[s] == (r, c);
        RayIndexOf(x, y, d, s + 1);
      }
      if FlippedBy(b, p, x, y, d, r, c) {
        var m := RayIndex(x, y, d, r, c);
        assert pieces[m - 1] == (r, c);
      }
    }
  }

  /** Boards that agree along the ray of d agree on its run and on whether it is closed. */
  lemma RayFrame(b1: Board, b2: Board, p: Player, xs: int, ys: int, d: Direction)
    requires forall r, s :: OnBoard(r, s) && OnRay(xs, ys, d, r, s) ==> b1[r][s] == b2[r][s]
    ensures RunLength(b1, p, xs, ys, d) == RunLength(b2, p, xs, ys, d)
    ensures Closes(b1, p, xs, ys, d) == Closes(b2, p, xs, ys, d)
  {
    RunFrame(b1, b2, Opponent(p), xs, ys, d, 1);
    var n := RunLength(b1, p, xs, ys, d);
    RayIndexOf(xs, ys, d, n + 1);
  }

  // --------------------------------------------------------------- counts

  lemma {:induction false} CountRowPositive<T>(row: seq<T>, j: nat, v: T)
    requires j < |row| && row[j] == v
    ensures CountRow(row, v) >= 1
  {
    if j > 0 {
      CountRowPositive(row[1..], j - 1, v);
    }
  }

  lemma {:induction false} CountGridPositive<T>(g: seq<seq<T>>, i: nat, j: nat, v: T)
    requires i < |g| && j < |g[i]| && g[i][j] == v
    ensures CountGrid(g, v) >= 1
  {
    if i > 0 {
      CountGridPositive(g[1..], i - 1, j, v);
    } else {
      CountRowPositive(g[0], j, v);
    }
  }

  /** A legal move turns over at least one piece. */
  lemma LegalFlips(b: Board, p: Player, x: int, y: int)
    requires Legal(b, p, x, y)
    ensures FlipCount(b, p, x, y) >= 1
  {
    var i :| 0 <= i < |DIRECTIONS| && Brackets(b, p, x, y, DIRECTIONS[i]);
    var d := DIRECTIONS[i];
    var cell := RayCell(x, y, d, 1);
    RunLengthSpec(b, p, x, y, d);
    assert RayIndex(x, y, d, cell.0, cell.1) == 1;
    assert FlippedBy(b, p, x, y, d, cell.0, cell.1);
    FlippedWithinIff(b, p, x, y, |DIRECTIONS|, cell.0, cell.1);
    CountGridPositive(FlipMask(b, p, x, y), cell.0, cell.1, true);
  }

  /** Piece counts after a legal move: one empty cell fewer, the mover gains
      1 + k pieces and the opponent loses k, where k >= 1 pieces are turned. */
  lemma MoveCounts(b: Board, p: Player, x: int, y: int)
    requires Legal(b, p, x, y)
    ensures FlipCount(b, p, x, y) >= 1
    ensures CountGrid(ApplyMove(b, p, x, y), Empty) == CountGrid(b, Empty) - 1
    ensures CountGrid(ApplyMove(b, p, x, y), p) == CountGrid(b, p) + 1 + FlipCount(b, p, x, y)
    ensures CountGrid(ApplyMove(b, p, x, y), Opponent(p))
            == CountGrid(b, Opponent(p)) - FlipCount(b, p, x, y)
  {
    LegalFlips(b, p, x, y);
    MoveColourCount(b, p, x, y, Empty);
    MoveColourCount(b, p, x, y, p);
    MoveColourCount(b, p, x, y, Opponent(p));
  }

  /** After the piece is placed, the move recolours exactly the masked cells,
      each from the opponent's colour to p's. */
  lemma MoveMask(b: Board, p: Player, x: int, y: int)
    requires OnBoard(x, y)
    ensures forall r, c :: 0 <= r < 8 && 0 <= c < 8 ==>
              if FlipMask(b, p, x, y)[r][c] then Place(b, x, y, p)[r][c] == Opponent(p) && ApplyMove(b, p, x, y)[r][c] == p
              else ApplyMove(b, p, x, y)[r][c] == Place(b, x, y, p)[r][c]
  {
    ApplyMoveCells(b, p, x, y);
    forall r, c | 0 <= r < 8 && 0 <= c < 8
      ensures if FlipMask(b, p, x, y)[r][c] then Place(b, x, y, p)[r][c] == Opponent(p) && ApplyMove(b, p, x, y)[r][c] == p
              else ApplyMove(b, p, x, y)[r][c] == Place(b, x, y, p)[r][c]
    {
      FlippedIff(b, p, x, y, r, c);
    }
  }

  /** The count of one colour after a move: the placed piece, then the flips. */
  lemma MoveColourCount(b: Board, p: Player, x: int, y: int, v: Cell)
    requires OnBoard(x, y)
    ensures CountGrid(ApplyMove(b, p, x, y), v)
            == CountGrid(b, v) - (if b[x][y] == v then 1 else 0) + (if p == v then 1 else 0)
               + (if v == p then FlipCount(b, p, x, y) else 0)
               - (if v == Opponent(p) then FlipCount(b, p, x, y) else 0)
  {
    MoveMask(b, p, x, y);
    RecolorGrid(Place(b, x, y, p), ApplyMove(b, p, x, y), FlipMask(b, p, x, y), Opponent(p), p, v);
    PlaceCount(b, x, y, p, v);
  }

  /** get_score after a legal move: black + white rises by exactly one. */
  lemma ScoreAfterMove(b: Board, p: Player, x: int, y: int)
    requires Legal(b, p, x, y)
    ensures Score(ApplyMove(b, p, x, y)).0 + Score(ApplyMove(b, p, x, y)).1 == Score(b).0 + Score(b).1 + 1
    ensures CountGrid(ApplyMove(b, p, x, y), Empty) + Score(ApplyMove(b, p, x, y)).0
            + Score(ApplyMove(b, p, x, y)).1 == 64
  {
    MoveCounts(b, p, x, y);
    CellTotal(ApplyMove(b, p, x, y));
  }

  // ------------------------------------------------------------ move list

  /** Row-major position of a cell. */
  function Key(m: Move): int {
    8 * m.0 + m.1
  }

  /** The legal cells (x, 0) .. (x, n-1), in increasing column order. */
  function MovesInRow(b: Board, p: Player, x: int, n: nat): (ms: seq<Move>)
    requires 0 <= x < 8 && n <= 8
    ensures forall m :: m in ms <==> m.0 == x && m.1 < n && Legal(b, p, m.0, m.1)
    ensures forall i, j :: 0 <= i < j < |ms| ==> ms[i].1 < ms[j].1
  {
    if n == 0 then []
    else
      var prev := MovesInRow(b, p, x, n - 1);
      RowAppend(b, p, x, n, prev);
      prev + (if Legal(b, p, x, n - 1) then [(x, n - 1)] else [])
  }

  /** The legal cells of (x, 0) .. (x, n-2) followed by (x, n-1) when it is
      legal are the legal cells of (x, 0) .. (x, n-1), still in column order. */
  lemma RowAppend(b: Board, p: Player, x: int, n: nat, prev: seq<Move>)
    requires 0 <= x < 8 && 1 <= n <= 8
    requires forall m :: m in prev <==> m.0 == x && m.1 < n - 1 && Legal(b, p, m.0, m.1)
    requires forall i, j :: 0 <= i < j < |prev| ==> prev[i].1 < prev[j].1
    ensures var ms := prev + (if Legal(b, p, x, n - 1) then [(x, n - 1)] else []);
            (forall m :: m in ms <==> m.0 == x && m.1 < n && Legal(b, p, m.0, m.1)) &&
            (forall i, j :: 0 <= i < j < |ms| ==> ms[i].1 < ms[j].1)
  {
    forall i | 0 <= i < |prev|
      ensures prev[i].1 < n - 1
    {
      assert prev[i] in prev;
    }
  }

  /** The legal cells in rows 0 .. n-1, in row-major order. */
  function MovesInRows(b: Board, p: Player, n: nat): (ms: seq<Move>)
    requires n <= 8
    ensures forall m :: m in ms <==> m.0 < n && Legal(b, p, m.0, m.1)
    ensures forall i :: 0 <= i < |ms| ==> 0 <= ms[i].0 < n && 0 <= ms[i].1 < 8
    ensures forall i, j :: 0 <= i < j < |ms| ==> Key(ms[i]) < Key(ms[j])
  {
    if n == 0 then []
    else
      var rows := MovesInRows(b, p, n - 1);
      var row := MovesInRow(b, p, n - 1, |b[n - 1]|);
      RowsConcat(b, p, n, rows, row);
      rows + row
  }

  /** The legal cells of rows 0 .. n-2 followed by those of row n-1 are the
      legal cells of rows 0 .. n-1, still in row-major order. */
  lemma RowsConcat(b: Board, p: Player, n: nat, rows: seq<Move>, row: seq<Move>)
    requires 1 <= n <= 8
    requires forall m :: m in rows <==> m.0 < n - 1 && Legal(b, p, m.0, m.1)
    requires forall i :: 0 <= i < |rows| ==> 0 <= rows[i].0 < n - 1 && 0 <= rows[i].1 < 8
    requires SortedByKey(rows)
    requires forall m :: m in row <==> m.0 == n - 1 && m.1 < 8 && Legal(b, p, m.0, m.1)
    requires forall i, j :: 0 <= i < j < |row| ==> row[i].1 < row[j].1
    ensures forall m :: m in rows + row <==> m.0 < n && Legal(b, p, m.0, m.1)
    ensures forall i :: 0 <= i < |rows + row| ==> 0 <= (rows + row)[i].0 < n && 0 <= (rows + row)[i].1 < 8
    ensures SortedByKey(rows + row)
  {
    forall j | 0 <= j < |row|
      ensures row[j].0 == n - 1 && 0 <= row[j].1 < 8
    {
      assert row[j] in row;
    }
    SortedConcat(rows, row, 8 * (n - 1));
  }

  predicate SortedByKey(ms: seq<Move>) {
    forall i, j :: 0 <= i < j < |ms| ==> Key(ms[i]) < Key(ms[j])
  }

  lemma SortedConcat(a: seq<Move>, c: seq<Move>, bound: int)
    requires SortedByKey(a) && SortedByKey(c)
    requires forall i :: 0 <= i < |a| ==> Key(a[i]) < bound
    requires forall j :: 0 <= j < |c| ==> bound <= Key(c[j])
    ensures SortedByKey(a + c)
  {
    var s := a + c;
    forall i, j | 0 <= i < j < |s|
      ensures Key(s[i]) < Key(s[j])
    {
      if j < |a| {
        assert s[i] == a[i] && s[j] == a[j];
      } else if i < |a| {
        assert s[i] == a[i] && s[j] == c[j - |a|];
      } else {
        assert s[i] == c[i - |a|] && s[j] == c[j - |a|];
      }
    }
  }

  /** valid_moves: every legal cell, each once, in row-major order.  The
      rows and columns are counted by the board's own dimensions (8 each). */
  function ValidMoves(b: Board, p: Player): (ms: seq<Move>)
    ensures forall m :: m in ms <==> Legal(b, p, m.0, m.1)
    ensures forall i, j :: 0 <= i < j < |ms| ==> Key(ms[i]) < Key(ms[j])
    ensures forall i, j :: 0 <= i < j < |ms| ==> ms[i] != ms[j]
  {
    MovesInRows(b, p, |b|)
  }

  /** is_game_over: neither colour has a legal move. */
  predicate IsGameOver(b: Board) {
    ValidMoves(b, Black) == [] && ValidMoves(b, White) == []
  }

  /** Every legal cell is in the move list. */
  lemma LegalInMoves(b: Board, p: Player, x: int, y: int)
    requires Legal(b, p, x, y)
    ensures (x, y) in ValidMoves(b, p)
  {
  }

  /** An empty move list means no cell is legal. */
  lemma NoMovesNoLegal(b: Board, p: Player, x: int, y: int)
    requires ValidMoves(b, p) == []
    ensures !Legal(b, p, x, y)
  {
    if Legal(b, p, x, y) {
      LegalInMoves(b, p, x, y);
    }
  }

  /** A non-empty move list starts with a legal cell. */
  lemma MovesGiveLegal(b: Board, p: Player)
    requires ValidMoves(b, p) != []
    ensures Legal(b, p, ValidMoves(b, p)[0].0, ValidMoves(b, p)[0].1)
  {
    assert ValidMoves(b, p)[0] in ValidMoves(b, p);
  }

  /** A colour has no move exactly when no cell is legal for it. */
  lemma NoMovesIff(b: Board, p: Player)
    ensures ValidMoves(b, p) == [] <==> forall x, y :: !Legal(b, p, x, y)
  {
    if ValidMoves(b, p) == [] {
      forall x, y
        ensures !Legal(b, p, x, y)
      {
        NoMovesNoLegal(b, p, x, y);
      }
    } else {
      MovesGiveLegal(b, p);
    }
  }

  /** is_game_over holds exactly when no cell is legal for either colour. */
  lemma GameOverIff(b: Board)
    ensures IsGameOver(b) <==> forall x, y :: !Legal(b, Black, x, y) && !Legal(b, White, x, y)
  {
    NoMovesIff(b, Black);
    NoMovesIff(b, White);
  }
}
