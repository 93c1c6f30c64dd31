/** The 8x8 Othello grid: cell values, players, coordinates, the eight
    compass directions, piece counts and the standard start position. */
module Board {

  datatype Option<T> = None | Some(value: T)

  /** A cell of the grid: the source encodes these as 0, 1 and 2. */
  datatype Cell = Empty | Black | White

  /** A player is one of the two piece colours. */
  type Player = c: Cell | c != Empty witness Black

  /** A coordinate (row, column); any integers, so that off-board
      positions can be asked about and rejected. */
  type Move = (int, int)

  /** The other colour (black for white, white for black). */
  function Opponent(p: Player): (q: Player)
    ensures q != p
  {
    if p == White then Black else White
  }

  predicate IsGrid(g: seq<seq<Cell>>) {
    |g| == 8 && forall i :: 0 <= i < 8 ==> |g[i]| == 8
  }

  /** The board: exactly 8 rows of exactly 8 cells, indexed board[row][col]. */
  type Board = g: seq<seq<Cell>> | IsGrid(g) witness seq(8, _ => seq(8, _ => Empty))

  predicate OnBoard(x: int, y: int) {
    0 <= x < 8 && 0 <= y < 8
  }

  /** A compass direction: a unit step in each coordinate, not both zero. */
  predicate IsDirection(d: (int, int)) {
    -1 <= d.0 <= 1 && -1 <= d.1 <= 1 && d != (0, 0)
  }

  type Direction = d: (int, int) | IsDirection(d) witness (0, 1)

  /** The eight directions, in the order the source scans them. */
  const DIRECTIONS: seq<Direction> :=
    [(-1, -1), (-1, 0), (-1, 1), (0, -1), (0, 1), (1, -1), (1, 0), (1, 1)]

  /** a + m * da for a unit step da, written without multiplication. */
  function Step(a: int, da: int, m: int): int {
    if da > 0 then a + m else if da < 0 then a - m else a
  }

  /** The cell m steps away from (x, y) in direction d. */
  function RayCell(x: int, y: int, d: Direction, m: int): Move {
    (Step(x, d.0, m), Step(y, d.1, m))
  }

  /** Stepping once along d and then k more times is stepping k + 1 times. */
  lemma RayShift(x: int, y: int, d: Direction, k: int)
    ensures RayCell(x + d.0, y + d.1, d, k) == RayCell(x, y, d, k + 1)
  {
  }

  /** One more step along d moves the ray cell by d. */
  lemma RayNext(x: int, y: int, d: Direction, m: int)
    ensures RayCell(x, y, d, m + 1) == (RayCell(x, y, d, m).0 + d.0, RayCell(x, y, d, m).1 + d.1)
  {
  }

  /** The position pos is on the board and holds v. */
  predicate Holds(b: Board, pos: Move, v: Cell) {
    OnBoard(pos.0, pos.1) && b[pos.0][pos.1] == v
  }

  /** The board with one cell overwritten. */
  function Place(b: Board, x: int, y: int, v: Cell): (r: Board)
    requires OnBoard(x, y)
    ensures forall i, j :: OnBoard(i, j) ==> r[i][j] == if (i, j) == (x, y) then v else b[i][j]
  {
    b[x := b[x][y := v]]
  }

  /** Boards that agree on every cell are equal. */
  lemma SameCells(b1: Board, b2: Board)
    requires forall i, j :: 0 <= i < 8 && 0 <= j < 8 ==> b1[i][j] == b2[i][j]
    ensures b1 == b2
  {
    forall i | 0 <= i < 8
      ensures b1[i] == b2[i]
    {
    }
  }

  // ---------------------------------------------------------------- counts

  /** Occurrences of v in a row (the source's row.count(v)). */
  function CountRow<T(==)>(row: seq<T>, v: T): (n: nat)
    ensures n <= |row|
  {
    if row == [] then 0 else (if row[0] == v then 1 else 0) + CountRow(row[1..], v)
  }

  /** Occurrences of v in a grid: the sum over rows of CountRow. */
  function CountGrid<T(==)>(g: seq<seq<T>>, v: T): nat {
    if g == [] then 0 else CountRow(g[0], v) + CountGrid(g[1..], v)
  }

  /** get_score: the numbers of black and of white pieces. */
  function Score(b: Board): (int, int) {
    (CountGrid(b, Black), CountGrid(b, White))
  }

  lemma {:induction false} RowTotal(row: seq<Cell>)
    ensures CountRow(row, Empty) + CountRow(row, Black) + CountRow(row, White) == |row|
  {
    if row != [] {
      RowTotal(row[1..]);
      assert CountRow(row, Empty) == (if row[0] == Empty then 1 else 0) + CountRow(row[1..], Empty);
    }
  }

  lemma {:induction false} GridTotal(g: seq<seq<Cell>>)
    requires forall i :: 0 <= i < |g| ==> |g[i]| == 8
    ensures CountGrid(g, Empty) + CountGrid(g, Black) + CountGrid(g, White) == 8 * |g|
  {
    if g != [] {
      RowTotal(g[0]);
      GridTotal(g[1..]);
    }
  }

  /** Every board has 64 cells, each empty, black or white. */
  lemma CellTotal(b: Board)
    ensures CountGrid(b, Empty) + CountGrid(b, Black) + CountGrid(b, White) == 64
  {
    GridTotal(b);
  }

  /** Overwriting one cell of a row changes each count by at most one. */
  lemma {:induction false} CountRowUpdate<T>(row: seq<T>, j: nat, v: T, c: T)
    requires j < |row|
    ensures CountRow(row[j := v], c)
            == CountRow(row, c) - (if row[j] == c then 1 else 0) + (if v == c then 1 else 0)
  {
    if j > 0 {
      assert row[j := v][1..] == row[1..][j - 1 := v];
      CountRowUpdate(row[1..], j - 1, v, c);
    } else {
      assert row[j := v][1..] == row[1..];
    }
  }

  lemma {:induction false} CountGridUpdate<T>(g: seq<seq<T>>, i: nat, j: nat, v: T, c: T)
    requires i < |g| && j < |g[i]|
    ensures CountGrid(g[i := g[i][j := v]], c)
            == CountGrid(g, c) - (if g[i][j] == c then 1 else 0) + (if v == c then 1 else 0)
  {
    if i > 0 {
      assert g[i := g[i][j := v]][1..] == g[1..][i - 1 := g[1..][i - 1][j := v]];
      CountGridUpdate(g[1..], i - 1, j, v, c);
    } else {
      assert g[i := g[i][j := v]][1..] == g[1..];
      CountRowUpdate(g[0], j, v, c);
    }
  }

  /** Placing v on a cell: the count of c changes by the cell's old and new value. */
  lemma PlaceCount(b: Board, x: int, y: int, v: Cell, c: Cell)
    requires OnBoard(x, y)
    ensures CountGrid(Place(b, x, y, v), c)
            == CountGrid(b, c) - (if b[x][y] == c then 1 else 0) + (if v == c then 1 else 0)
  {
    CountGridUpdate(b, x, y, v, c);
  }

  /** Recolouring: where the mask m is set, a holds `from` and a2 holds `to`;
      elsewhere a2 agrees with a.  Then every count moves by the mask's size. */
  lemma {:induction false} RecolorRow<T>(a: seq<T>, a2: seq<T>, m: seq<bool>, from: T, to: T, c: T)
    requires |a| == |a2| == |m|
    requires forall j :: 0 <= j < |m| ==> if m[j] then a[j] == from && a2[j] == to else a2[j] == a[j]
    ensures CountRow(a2, c)
            == CountRow(a, c) + (if c == to then CountRow(m, true) else 0)
                              - (if c == from then CountRow(m, true) else 0)
  {
    if m != [] {
      RecolorRow(a[1..], a2[1..], m[1..], from, to, c);
    }
  }

  lemma {:induction false} RecolorGrid<T>(a: seq<seq<T>>, a2: seq<seq<T>>, m: seq<seq<bool>>, from: T, to: T, c: T)
    requires |a| == |a2| == |m|
    requires forall i :: 0 <= i < |m| ==> |a[i]| == |a2[i]| == |m[i]|
    requires forall i, j :: 0 <= i < |m| && 0 <= j < |m[i]| ==>
               if m[i][j] then a[i][j] == from && a2[i][j] == to else a2[i][j] == a[i][j]
    ensures CountGrid(a2, c)
            == CountGrid(a, c) + (if c == to then CountGrid(m, true) else 0)
                               - (if c == from then CountGrid(m, true) else 0)
  {
    if m != [] {
      RecolorRow(a[0], a2[0], m[0], from, to, c);
      RecolorGrid(a[1..], a2[1..], m[1..], from, to, c);
    }
  }

  /** A row holding only v has |row| occurrences of v and none of anything else. */
  lemma {:induction false} UniformRow<T>(row: seq<T>, v: T, c: T)
    requires forall j :: 0 <= j < |row| ==> row[j] == v
    ensures CountRow(row, c) == if c == v then |row| else 0
  {
    if row != [] {
      UniformRow(row[1..], v, c);
    }
  }

  lemma {:induction false} UniformGrid<T>(g: seq<seq<T>>, v: T, c: T)
    requires forall i :: 0 <= i < |g| ==> |g[i]| == 8
    requires forall i, j :: 0 <= i < |g| && 0 <= j < 8 ==> g[i][j] == v
    ensures CountGrid(g, c) == if c == v then 8 * |g| else 0
  {
    if g != [] {
      UniformRow(g[0], v, c);
      UniformGrid(g[1..], v, c);
    }
  }

  // ------------------------------------------------------- start position

  function EmptyBoard(): Board {
    seq(8, _ => seq(8, _ => Empty))
  }

  /** The start position as the constructor builds it: an empty grid, then
      white on (3,3) and (4,4), then black on (3,4) and (4,3). */
  function InitialBoard(): Board {
    Place(Place(Place(Place(EmptyBoard(), 3, 3, White), 4, 4, White), 3, 4, Black), 4, 3, Black)
  }
}
