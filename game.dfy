/** The game object: an 8x8 grid of cells and the colour to move, with the
    move check, the move itself, the evaluator and the search written as
    loops over that grid.  Each method is proved against the board
    functions of Rules, Evaluator and Search. */
module Engine {
  import opened Board
  import opened Rules
  import opened Opening
  import opened Evaluator
  import Search

  class Game {
    /** The grid, reassigned cell by cell as make_move writes it. */
    var board: Board
    var currentPlayer: Player

    /** othello_game(): an empty grid with the four centre pieces, black to move. */
    constructor ()
      ensures board == InitialBoard() && currentPlayer == Black
    {
      var g := EmptyBoard();
      g := Place(g, 3, 3, White);
      g := Place(g, 4, 4, White);
      g := Place(g, 3, 4, Black);
      g := Place(g, 4, 3, Black);
      board := g;
      currentPlayer := Black;
    }

    /** The copy the search makes of a game: the rows copied and the colour
        to move carried over. */
    constructor Copy(other: Game)
      ensures board == other.board && currentPlayer == other.currentPlayer
    {
      board := other.board;
      currentPlayer := other.currentPlayer;
    }

    /** is_valid_move(player, x, y): on the board, empty, and some direction
        holds a non-empty opponent run closed by a piece of `player`. */
    method IsValidMove(player: Player, xStart: int, yStart: int) returns (ok: bool)
      ensures ok == Legal(board, player, xStart, yStart)
    {
      if !OnBoard(xStart, yStart) || board[xStart][yStart] != Empty {
        return false;
      }
      var k := 0;
      while k < |DIRECTIONS|
        invariant 0 <= k <= 8
        invariant forall i :: 0 <= i < k ==> !Brackets(board, player, xStart, yStart, DIRECTIONS[i])
      {
        var captures := Captures(board, player, xStart, yStart, DIRECTIONS[k]);
        if captures {
          return true;
        }
        k := k + 1;
      }
      assert !Legal(board, player, xStart, yStart);
      return false;
    }

    /** make_move(player, x, y): refuses an illegal move and changes nothing;
        otherwise places the piece, turns every closed run, passes the turn
        to the opponent and reports success. */
    method MakeMove(player: Player, xStart: int, yStart: int) returns (ok: bool)
      modifies this
      ensures ok == Legal(old(board), player, xStart, yStart)
      ensures ok ==> board == ApplyMove(old(board), player, xStart, yStart) && currentPlayer == Opponent(player)
      ensures !ok ==> board == old(board) && currentPlayer == old(currentPlayer)
    {
      ok := IsValidMove(player, xStart, yStart);
      if !ok {
        return;
      }
      ghost var b0 := board;
      board := Place(board, xStart, yStart, player);
      var opponent := Opponent(player);
      var k := 0;
      while k < |DIRECTIONS|
        invariant 0 <= k <= 8
        invariant forall r, c :: 0 <= r < 8 && 0 <= c < 8 ==> board[r][c] == CellAfter(b0, player, xStart, yStart, k, r, c)
      {
        FlipDirection(b0, player, xStart, yStart, k);
        k := k + 1;
      }
      currentPlayer := opponent;
      SameCells(board, ApplyMove(b0, player, xStart, yStart));
    }

    /** One turn of make_move's loop over the directions: walk the opponent
        run along DIRECTIONS[k] and, if a piece of `player` closes it, turn it. */
    method FlipDirection(ghost b0: Board, player: Player, xStart: int, yStart: int, k: nat)
      requires k < 8
      requires forall r, c :: 0 <= r < 8 && 0 <= c < 8 ==> board[r][c] == CellAfter(b0, player, xStart, yStart, k, r, c)
      modifies this
      ensures currentPlayer == old(currentPlayer)
      ensures forall r, c :: 0 <= r < 8 && 0 <= c < 8 ==> board[r][c] == CellAfter(b0, player, xStart, yStart, k + 1, r, c)
    {
      var d := DIRECTIONS[k];
      ghost var now := board;
      forall r, c | OnBoard(r, c) && OnRay(xStart, yStart, d, r, c)
        ensures now[r][c] == b0[r][c]
      {
        OffEarlierRays(b0, player, xStart, yStart, k, r, c);
      }
      RayFrame(now, b0, player, xStart, yStart, d);
      var pieces, x, y := Walk(board, Opponent(player), xStart, yStart, d);
      if OnBoard(x, y) && board[x][y] == player {
        FlipRun(b0, player, xStart, yStart, k, pieces);
      } else {
        forall r, c | 0 <= r < 8 && 0 <= c < 8
          ensures board[r][c] == CellAfter(b0, player, xStart, yStart, k + 1, r, c)
        {
          CellAfterNext(b0, player, xStart, yStart, k, r, c);
        }
      }
    }

    /** The `for fx, fy in pieces_to_flip` loop of make_move, once the run of
        direction k is known to be closed. */
    method FlipRun(ghost b0: Board, player: Player, xStart: int, yStart: int, k: nat, pieces: seq<Move>)
      requires k < 8
      requires Closes(b0, player, xStart, yStart, DIRECTIONS[k])
      requires |pieces| == RunLength(b0, player, xStart, yStart, DIRECTIONS[k])
      requires forall t :: 0 <= t < |pieces| ==> pieces[t] == RayCell(xStart, yStart, DIRECTIONS[k], t + 1) && OnBoard(pieces[t].0, pieces[t].1)
      requires forall r, c :: 0 <= r < 8 && 0 <= c < 8 ==> board[r][c] == CellAfter(b0, player, xStart, yStart, k, r, c)
      modifies this
      ensures currentPlayer == old(currentPlayer)
      ensures forall r, c :: 0 <= r < 8 && 0 <= c < 8 ==> board[r][c] == CellAfter(b0, player, xStart, yStart, k + 1, r, c)
    {
      var d := DIRECTIONS[k];
      var t := 0;
      while t < |pieces|
        invariant 0 <= t <= |pieces|
        invariant currentPlayer == old(currentPlayer)
        invariant forall r, c :: 0 <= r < 8 && 0 <= c < 8 ==>
                    board[r][c] == if (r, c) in pieces[..t] then player else CellAfter(b0, player, xStart, yStart, k, r, c)
      {
        var (fx, fy) := pieces[t];
        board := Place(board, fx, fy, player);
        assert pieces[..t + 1] == pieces[..t] + [pieces[t]];
        t := t + 1;
      }
      assert pieces[..t] == pieces;
      RunCells(b0, player, xStart, yStart, d, pieces);
      forall r, c | 0 <= r < 8 && 0 <= c < 8
        ensures board[r][c] == CellAfter(b0, player, xStart, yStart, k + 1, r, c)
      {
        CellAfterNext(b0, player, xStart, yStart, k, r, c);
      }
    }

    /** best_move(player, depth): the move the search picks for `player`;
        it leaves this game unchanged. */
    method BestMove(player: Player, depth: nat) returns (move: Option<Move>)
      ensures move == Search.BestMove(Search.OTHELLO, board, player, depth)
      ensures depth >= 1 ==> (move == None <==> ValidMoves(board, player) == [])
      ensures depth >= 1 && move != None ==> move.value in ValidMoves(board, player)
    {
      OthelloImplements();
      var value, m := Minimax(Search.OTHELLO, this, player, depth, true, -Search.INFINITY, Search.INFINITY);
      if depth >= 1 {
        Search.BestMoveChoice(board, player, depth);
      }
      return m;
    }
  }

  /** The inner while loop of is_valid_move and make_move: from the cell
      next to (xStart, yStart) along d, collect the run of `opponent`
      pieces of the board b and stop on the first cell past it. */
  method Walk(b: Board, opponent: Cell, xStart: int, yStart: int, d: Direction) returns (pieces: seq<Move>, x: int, y: int)
    ensures |pieces| == Run(b, opponent, xStart + d.0, yStart + d.1, d)
    ensures forall t :: 0 <= t < |pieces| ==>
              pieces[t] == RayCell(xStart, yStart, d, t + 1) && Holds(b, pieces[t], opponent)
    ensures (x, y) == RayCell(xStart, yStart, d, |pieces| + 1)
  {
    x, y := xStart + d.0, yStart + d.1;
    pieces := [];
    while OnBoard(x, y) && b[x][y] == opponent
      invariant (x, y) == RayCell(xStart, yStart, d, |pieces| + 1)
      invariant |pieces| + Run(b, opponent, x, y, d) == Run(b, opponent, xStart + d.0, yStart + d.1, d)
      invariant forall t :: 0 <= t < |pieces| ==>
                  pieces[t] == RayCell(xStart, yStart, d, t + 1) && Holds(b, pieces[t], opponent)
      decreases StepsLeft(x, y, d)
    {
      WalkStep(b, opponent, xStart, yStart, d, pieces, x, y);
      pieces := pieces + [(x, y)];
      x, y := x + d.0, y + d.1;
    }
  }

  /** One turn of is_valid_move's loop over the directions: walk the
      opponent run along d and report whether it is non-empty and closed by
      a piece of `player`. */
  method Captures(b: Board, player: Player, xStart: int, yStart: int, d: Direction) returns (captures: bool)
    ensures captures == Brackets(b, player, xStart, yStart, d)
  {
    var pieces, x, y := Walk(b, Opponent(player), xStart, yStart, d);
    captures := |pieces| > 0 && OnBoard(x, y) && b[x][y] == player;
  }

  /** One pass of Walk's loop: the cell (x, y) joins the run, the walk moves
      one step on along d, and the run still to come shrinks by one. */
  lemma WalkStep(b: Board, opponent: Cell, xStart: int, yStart: int, d: Direction, pieces: seq<Move>, x: int, y: int)
    requires OnBoard(x, y) && b[x][y] == opponent
    requires (x, y) == RayCell(xStart, yStart, d, |pieces| + 1)
    requires forall t :: 0 <= t < |pieces| ==>
               pieces[t] == RayCell(xStart, yStart, d, t + 1) && Holds(b, pieces[t], opponent)
    ensures (x + d.0, y + d.1) == RayCell(xStart, yStart, d, |pieces| + 2)
    ensures Run(b, opponent, x, y, d) == 1 + Run(b, opponent, x + d.0, y + d.1, d)
    ensures 0 <= StepsLeft(x + d.0, y + d.1, d) < StepsLeft(x, y, d)
    ensures forall t :: 0 <= t < |pieces| + 1 ==>
              (pieces + [(x, y)])[t] == RayCell(xStart, yStart, d, t + 1) && Holds(b, (pieces + [(x, y)])[t], opponent)
  {
    RayNext(xStart, yStart, d, |pieces| + 1);
    RunStep(b, opponent, x, y, d);
  }

  /** evaluate_board(game, player): the weighted piece difference, summed
      row by row and cell by cell. */
  method EvaluateBoard(game: Game, player: Player) returns (score: int)
    ensures score == Evaluation(game.board, player)
  {
    var opponent := Opponent(player);
    score := 0;
    var x := 0;
    while x < 8
      invariant 0 <= x <= 8
      invariant score == EvalRows(game.board, player, x)
    {
      var y := 0;
      while y < 8
        invariant 0 <= y <= 8
        invariant score == EvalRows(game.board, player, x) + EvalCells(game.board, player, x, y)
      {
        if game.board[x][y] == player {
          score := score + POSITION_WEIGHTS[x][y];
        } else if game.board[x][y] == opponent {
          score := score - POSITION_WEIGHTS[x][y];
        }
        y := y + 1;
      }
      x := x + 1;
    }
  }

  /** g's four operations are is_game_over, valid_moves, make_move and
      evaluate_board.  Each agreement is used only on the positions where
      the game's own operation has been called. */
  ghost predicate Implements(g: Search.Rulebook) {
    (forall b {:trigger IsGameOver(b)} :: g.over(b) == IsGameOver(b)) &&
    (forall b, p {:trigger ValidMoves(b, p)} :: g.moves(b, p) == ValidMoves(b, p)) &&
    (forall b, p {:trigger Evaluation(b, p)} :: g.eval(b, p) == Evaluation(b, p)) &&
    (forall b, p, x, y {:trigger ApplyMove(b, p, x, y)} :: g.play(b, p, (x, y)) == ApplyMove(b, p, x, y))
  }

  lemma OthelloImplements()
    ensures Implements(Search.OTHELLO)
  {
  }

  /** The nested minimax of best_move, searching for `me`: the same leaves,
      pass rule, strict improvement and cut-off as Search.AlphaBeta, which it
      computes.  Each child is searched on a fresh copy of the game, so the
      game passed in is never changed. */
  method Minimax(ghost g: Search.Rulebook, game: Game, me: Player, depth: nat, maximizing: bool, alpha: int, beta: int)
    returns (value: int, move: Option<Move>)
    requires Implements(g)
    ensures (value, move) == Search.AlphaBeta(g, game.board, me, depth, maximizing, alpha, beta)
    decreases depth, 2
  {
    ghost var b := game.board;
    if depth == 0 || IsGameOver(game.board) {
      value := EvaluateBoard(game, me);
      Leaf(g, b, me, depth, maximizing, alpha, beta);
      return value, None;
    }
    var mover := if maximizing then me else Opponent(me);
    var validMoves := ValidMoves(game.board, mover);
    if validMoves == [] {
      value, move := PassTurn(g, game, me, depth, maximizing, alpha, beta);
      return;
    }
    Inner(g, b, me, depth, maximizing, alpha, beta, validMoves);
    value, move := MoveLoop(g, game, me, depth, maximizing, validMoves, alpha, beta);
  }

  /** A node whose mover has no move: the turn passes to the other colour,
      one ply is spent, and no move is returned. */
  method PassTurn(ghost g: Search.Rulebook, game: Game, me: Player, depth: nat, maximizing: bool, alpha: int, beta: int)
    returns (value: int, move: Option<Move>)
    requires Implements(g) && depth >= 1
    requires !g.over(game.board) && g.moves(game.board, Search.Mover(me, maximizing)) == []
    ensures (value, move) == Search.AlphaBeta(g, game.board, me, depth, maximizing, alpha, beta)
    decreases depth, 1
  {
    value, move := Minimax(g, game, me, depth - 1, !maximizing, alpha, beta);
    move := None;
  }

  /** The `for move in valid_moves` loop of minimax: each child is searched
      with the current window, the first strictly better value is kept, the
      window is narrowed, and the loop stops as soon as beta <= alpha. */
  method MoveLoop(ghost g: Search.Rulebook, game: Game, me: Player, depth: nat, maximizing: bool,
                  validMoves: seq<Move>, alpha: int, beta: int) returns (value: int, move: Option<Move>)
    requires Implements(g) && depth >= 1
    requires forall m :: m in validMoves ==> Legal(game.board, Search.Mover(me, maximizing), m.0, m.1)
    ensures (value, move)
            == Search.Prune(g, game.board, me, depth, maximizing, validMoves, 0, alpha, beta, Search.Initial(maximizing), None)
    decreases depth, 1
  {
    ghost var b := game.board;
    var bestVal := if maximizing then -Search.INFINITY else Search.INFINITY;
    var bestMv: Option<Move> := None;
    var a, bt := alpha, beta;
    var i := 0;
    while i < |validMoves|
      invariant 0 <= i <= |validMoves|
      invariant game.board == b
      invariant Search.Prune(g, b, me, depth, maximizing, validMoves, i, a, bt, bestVal, bestMv)
                == Search.Prune(g, b, me, depth, maximizing, validMoves, 0, alpha, beta, Search.Initial(maximizing), None)
    {
      var mv := validMoves[i];
      var eval := SearchChild(g, game, me, depth, maximizing, mv, a, bt);
      ghost var a0, bt0, val0, mv0 := a, bt, bestVal, bestMv;
      if maximizing {
        if eval > bestVal {
          bestVal, bestMv := eval, Some(mv);
        }
        a := Search.Max(a, eval);
      } else {
        if eval < bestVal {
          bestVal, bestMv := eval, Some(mv);
        }
        bt := Search.Min(bt, eval);
      }
      Search.PruneTurn(g, b, me, depth, maximizing, validMoves, i, a0, bt0, val0, mv0, eval, a, bt, bestVal, bestMv);
      if bt <= a {
        break;
      }
      i := i + 1;
    }
    return bestVal, bestMv;
  }

  /** One child of the move loop: the mover plays mv on a copy of the game
      and the copy is searched one ply deeper with the node's current window. */
  method SearchChild(ghost g: Search.Rulebook, game: Game, me: Player, depth: nat, maximizing: bool, mv: Move,
                     alpha: int, beta: int) returns (eval: int)
    requires Implements(g) && depth >= 1
    requires Legal(game.board, Search.Mover(me, maximizing), mv.0, mv.1)
    ensures eval == Search.AlphaBeta(g, Search.Child(g, game.board, me, maximizing, mv), me, depth - 1,
                                     !maximizing, alpha, beta).0
    decreases depth, 0
  {
    var mover := if maximizing then me else Opponent(me);
    assert mv == (mv.0, mv.1);
    var nextGame := new Game.Copy(game);
    var ok := nextGame.MakeMove(mover, mv.0, mv.1);
    var reply;
    eval, reply := Minimax(g, nextGame, me, depth - 1, !maximizing, alpha, beta);
  }

  /** A node at depth 0 or at a finished game is scored where it stands. */
  lemma Leaf(g: Search.Rulebook, b: Board, me: Player, depth: nat, maximizing: bool, alpha: int, beta: int)
    requires Implements(g)
    requires depth == 0 || IsGameOver(b)
    ensures Search.AlphaBeta(g, b, me, depth, maximizing, alpha, beta) == (Evaluation(b, me), None)
  {
  }

  /** Any other node runs the move loop over the mover's valid moves. */
  lemma Inner(g: Search.Rulebook, b: Board, me: Player, depth: nat, maximizing: bool, alpha: int, beta: int,
              moves: seq<Move>)
    requires Implements(g)
    requires depth > 0 && !IsGameOver(b) && moves == ValidMoves(b, Search.Mover(me, maximizing)) && moves != []
    ensures Search.AlphaBeta(g, b, me, depth, maximizing, alpha, beta)
            == Search.Prune(g, b, me, depth, maximizing, moves, 0, alpha, beta, Search.Initial(maximizing), None)
  {
  }
}
