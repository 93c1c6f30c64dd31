/** Facts about the start position: where the four pieces stand, black's
    four opening moves, and the position after black plays (2, 3). */
module Opening {
  import opened Board
  import opened Rules

  /** The start position, cell by cell. */
  function StartCell(i: int, j: int): Cell {
    if (i, j) == (3, 4) || (i, j) == (4, 3) then Black
    else if (i, j) == (3, 3) || (i, j) == (4, 4) then White
    else Empty
  }

  /** b holds the start position. */
  predicate IsStart(b: Board) {
    forall i, j :: 0 <= i < 8 && 0 <= j < 8 ==> b[i][j] == StartCell(i, j)
  }

  /** The constructor's grid holds black on (3,4) and (4,3), white on (3,3)
      and (4,4), and nothing elsewhere. */
  lemma InitialCells()
    ensures IsStart(InitialBoard())
  {
    var e := EmptyBoard();
    assert forall i, j :: OnBoard(i, j) ==> e[i][j] == Empty;
    var b1 := Place(e, 3, 3, White);
    var b2 := Place(b1, 4, 4, White);
    var b3 := Place(b2, 3, 4, Black);
    assert InitialBoard() == Place(b3, 4, 3, Black);
  }

  /** Each colour's count in the start position. */
  lemma InitialCount(c: Cell)
    ensures CountGrid(InitialBoard(), c) == if c == Empty then 60 else 2
  {
    var e := EmptyBoard();
    assert forall i, j :: 0 <= i < 8 && 0 <= j < 8 ==> e[i][j] == Empty;
    UniformGrid(e, Empty, c);
    var b1 := Place(e, 3, 3, White);
    PlaceCount(e, 3, 3, White, c);
    var b2 := Place(b1, 4, 4, White);
    PlaceCount(b1, 4, 4, White, c);
    var b3 := Place(b2, 3, 4, Black);
    PlaceCount(b2, 3, 4, Black, c);
    PlaceCount(b3, 4, 3, Black, c);
  }

  /** The start position has two black pieces, two white ones and 60 empty cells. */
  lemma InitialCounts()
    ensures Score(InitialBoard()) == (2, 2)
    ensures CountGrid(InitialBoard(), Empty) == 60
  {
    InitialCount(Empty);
    InitialCount(Black);
    InitialCount(White);
  }

  /** A single opponent piece followed by one of p's is a capture of length one. */
  lemma CaptureOne(b: Board, p: Player, x: int, y: int, d: Direction)
    requires Holds(b, RayCell(x, y, d, 1), Opponent(p))
    requires Holds(b, RayCell(x, y, d, 2), p)
    ensures RunLength(b, p, x, y, d) == 1 && Brackets(b, p, x, y, d)
  {
    RunLengthSpec(b, p, x, y, d);
  }

  /** In the start position a black capture must start next to a white piece
      and close on a black one one step further on, so it is one of four cells. */
  lemma OpeningBracket(b: Board, x: int, y: int, d: Direction)
    requires IsStart(b)
    requires Brackets(b, Black, x, y, d)
    ensures (x, y) in [(2, 3), (3, 2), (4, 5), (5, 4)]
  {
    RunLengthSpec(b, Black, x, y, d);
    var n := RunLength(b, Black, x, y, d);
    var c1 := RayCell(x, y, d, 1);
    var c2 := RayCell(x, y, d, 2);
    assert Holds(b, c1, White);
    assert StartCell(c1.0, c1.1) == White;
    assert Holds(b, c2, if n == 1 then Black else White);
    assert StartCell(c2.0, c2.1) != Empty;
  }

  /** In the start position black has no legal move outside those four cells. */
  lemma OpeningOnly(b: Board, x: int, y: int)
    requires IsStart(b) && Legal(b, Black, x, y)
    ensures (x, y) in [(2, 3), (3, 2), (4, 5), (5, 4)]
  {
    var i :| 0 <= i < |DIRECTIONS| && Brackets(b, Black, x, y, DIRECTIONS[i]);
    OpeningBracket(b, x, y, DIRECTIONS[i]);
  }

  /** Each of the four cells captures one white piece in the start position. */
  lemma OpeningCaptures(b: Board, x: int, y: int)
    requires IsStart(b) && (x, y) in [(2, 3), (3, 2), (4, 5), (5, 4)]
    ensures Legal(b, Black, x, y)
  {
    var i := if (x, y) == (2, 3) then 6 else if (x, y) == (3, 2) then 4 else if (x, y) == (4, 5) then 3 else 1;
    CaptureOne(b, Black, x, y, DIRECTIONS[i]);
  }

  /** In the start position black may play exactly (2,3), (3,2), (4,5) and (5,4). */
  lemma OpeningLegal(b: Board, x: int, y: int)
    requires IsStart(b)
    ensures Legal(b, Black, x, y) <==> (x, y) in [(2, 3), (3, 2), (4, 5), (5, 4)]
  {
    if Legal(b, Black, x, y) {
      OpeningOnly(b, x, y);
    }
    if (x, y) in [(2, 3), (3, 2), (4, 5), (5, 4)] {
      OpeningCaptures(b, x, y);
    }
  }

  /** Every member of a strictly sorted list other than its head has a larger key. */
  lemma SortedHead(a: seq<Move>, m: Move)
    requires SortedByKey(a) && m in a
    ensures m == a[0] || Key(a[0]) < Key(m)
  {
    var i :| 0 <= i < |a| && a[i] == m;
    assert i == 0 || Key(a[0]) < Key(a[i]);
  }

  /** The tail of a strictly sorted list holds every member except the head. */
  lemma SortedTail(a: seq<Move>, m: Move)
    requires SortedByKey(a) && a != []
    ensures m in a[1..] <==> m in a && m != a[0]
  {
    if m in a[1..] {
      var k :| 0 <= k < |a| - 1 && a[1..][k] == m;
      assert Key(a[0]) < Key(a[k + 1]);
    }
    if m in a && m != a[0] {
      var k :| 0 <= k < |a| && a[k] == m;
      assert a[1..][k - 1] == m;
    }
  }

  /** Two move lists sorted strictly by row-major key with the same members are equal. */
  lemma {:induction false} SortedUnique(a: seq<Move>, c: seq<Move>)
    requires SortedByKey(a) && SortedByKey(c)
    requires forall m :: m in a <==> m in c
    ensures a == c
  {
    assert c == [] || c[0] in a;
    assert a == [] || a[0] in c;
    if a != [] && c != [] {
      SortedHead(a, c[0]);
      SortedHead(c, a[0]);
      forall m
        ensures m in a[1..] <==> m in c[1..]
      {
        SortedTail(a, m);
        SortedTail(c, m);
      }
      assert SortedByKey(a[1..]) && SortedByKey(c[1..]);
      SortedUnique(a[1..], c[1..]);
      assert a == [a[0]] + a[1..] && c == [c[0]] + c[1..];
    }
  }

  /** valid_moves is the only list of the legal cells sorted by row-major key. */
  lemma MovesUnique(b: Board, p: Player, want: seq<Move>)
    requires SortedByKey(want)
    requires forall m :: m in want <==> Legal(b, p, m.0, m.1)
    ensures ValidMoves(b, p) == want
  {
    SortedUnique(ValidMoves(b, p), want);
  }

  lemma OpeningSorted()
    ensures SortedByKey([(2, 3), (3, 2), (4, 5), (5, 4)])
  {
  }

  /** From the start position black's valid_moves is [(2,3), (3,2), (4,5), (5,4)]. */
  lemma StartMoves(b: Board)
    requires IsStart(b)
    ensures ValidMoves(b, Black) == [(2, 3), (3, 2), (4, 5), (5, 4)]
  {
    var want: seq<Move> := [(2, 3), (3, 2), (4, 5), (5, 4)];
    forall m: Move
      ensures m in want <==> Legal(b, Black, m.0, m.1)
    {
      OpeningLegal(b, m.0, m.1);
    }
    OpeningSorted();
    MovesUnique(b, Black, want);
  }

  /** Black's opening moves are exactly (2,3), (3,2), (4,5) and (5,4), in that order. */
  lemma OpeningMoves()
    ensures ValidMoves(InitialBoard(), Black) == [(2, 3), (3, 2), (4, 5), (5, 4)]
  {
    InitialCells();
    StartMoves(InitialBoard());
  }

  /** From (2, 3) only the southward ray captures, turning over (3, 3) alone
      (the south-east ray is closed at once by (3, 4) but holds no white piece). */
  lemma FirstMoveRays(b: Board)
    requires IsStart(b)
    ensures RunLength(b, Black, 2, 3, (1, 0)) == 1
    ensures forall i ::
              (0 <= i < 8 && Closes(b, Black, 2, 3, DIRECTIONS[i]) && RunLength(b, Black, 2, 3, DIRECTIONS[i]) >= 1)
              ==> DIRECTIONS[i] == (1, 0)
  {
    CaptureOne(b, Black, 2, 3, (1, 0));
    forall i | 0 <= i < 8 && Closes(b, Black, 2, 3, DIRECTIONS[i]) && RunLength(b, Black, 2, 3, DIRECTIONS[i]) >= 1
      ensures DIRECTIONS[i] == (1, 0)
    {
      var d := DIRECTIONS[i];
      RunLengthSpec(b, Black, 2, 3, d);
      var n := RunLength(b, Black, 2, 3, d);
      var c1 := RayCell(2, 3, d, 1);
      var e := RayCell(2, 3, d, n + 1);
      assert StartCell(e.0, e.1) == Black;
      assert StartCell(c1.0, c1.1) == White;
    }
  }

  /** Black playing (2, 3) from the start turns over (3, 3) and no other cell. */
  lemma FirstMoveFlips(b: Board, r: int, c: int)
    requires IsStart(b)
    ensures Flipped(b, Black, 2, 3, r, c) <==> (r, c) == (3, 3)
  {
    FirstMoveRays(b);
    FlippedWithinIff(b, Black, 2, 3, |DIRECTIONS|, r, c);
    assert FlippedBy(b, Black, 2, 3, DIRECTIONS[6], 3, 3);
    if Flipped(b, Black, 2, 3, r, c) {
      var i :| 0 <= i < 8 && FlippedBy(b, Black, 2, 3, DIRECTIONS[i], r, c);
      assert (r, c) == (3, 3);
    }
  }

  /** One cell of the board after black plays (2, 3) from the start. */
  lemma FirstMoveCell(b: Board, r: int, c: int)
    requires IsStart(b) && OnBoard(r, c)
    ensures ApplyMove(b, Black, 2, 3)[r][c] ==
              (if (r, c) == (2, 3) || (r, c) == (3, 3) then Black else StartCell(r, c))
  {
    FirstMoveFlips(b, r, c);
    assert ApplyMove(b, Black, 2, 3)[r][c] == CellAfter(b, Black, 2, 3, |DIRECTIONS|, r, c);
  }

  /** Black playing (2, 3) from the start turns (3, 3) and nothing else. */
  lemma FirstMoveCells(b: Board)
    requires IsStart(b)
    ensures Legal(b, Black, 2, 3)
    ensures forall r, c :: OnBoard(r, c) ==>
              ApplyMove(b, Black, 2, 3)[r][c] ==
                (if (r, c) == (2, 3) || (r, c) == (3, 3) then Black else StartCell(r, c))
  {
    OpeningCaptures(b, 2, 3);
    forall r, c | OnBoard(r, c)
      ensures ApplyMove(b, Black, 2, 3)[r][c] ==
                (if (r, c) == (2, 3) || (r, c) == (3, 3) then Black else StartCell(r, c))
    {
      FirstMoveCell(b, r, c);
    }
  }

  /** Black playing (2, 3) from the start position gives get_score (4, 1). */
  lemma FirstMoveCounts(b: Board)
    requires IsStart(b)
    requires Score(b) == (2, 2)
    ensures Legal(b, Black, 2, 3)
    ensures Score(ApplyMove(b, Black, 2, 3)) == (4, 1)
  {
    OpeningCaptures(b, 2, 3);
    MoveCounts(b, Black, 2, 3);
    FirstMoveCell(b, 4, 4);
    CountGridPositive(ApplyMove(b, Black, 2, 3), 4, 4, White);
  }

  /** After black plays (2, 3) from the start, get_score is (4, 1). */
  lemma FirstMoveScore()
    ensures Legal(InitialBoard(), Black, 2, 3)
    ensures Score(ApplyMove(InitialBoard(), Black, 2, 3)) == (4, 1)
  {
    InitialCells();
    InitialCounts();
    FirstMoveCounts(InitialBoard());
  }
}
