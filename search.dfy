/** The fixed-depth game-tree search behind best_move.  Minimax / Scan is a
    plain minimax with no pruning; AlphaBeta / Prune follows the inner
    function of best_move step by step (alpha and beta tightened after each
    child, a cut-off as soon as beta <= alpha).  Both keep the searching
    player `me` as the fixed perspective, charge one ply for a forced pass,
    and keep the first strictly better move. */
module Search {
  import opened Board
  import opened Rules
  import opened Evaluator

  /** Stands for the source's float infinities: beyond every evaluation. */
  const INFINITY: int := 2000

  /** The four operations of the game that the search calls: the terminal
      test, the move list of a colour, a move played on a copy, and the
      evaluation from a colour's side. */
  datatype Rulebook = Rulebook(
    over: Board -> bool,
    moves: (Board, Player) -> seq<Move>,
    play: (Board, Player, Move) -> Board,
    eval: (Board, Player) -> int)

  /** Othello's rules: is_game_over, valid_moves, make_move and evaluate_board. */
  const OTHELLO: Rulebook :=
    Rulebook(IsGameOver, ValidMoves, (b: Board, p: Player, m: Move) => ApplyMove(b, p, m.0, m.1), Evaluation)

  /** What the search relies on: evaluations are bounded and zero-sum, and a
      finished game offers no moves. */
  ghost predicate WellFormed(g: Rulebook) {
    (forall b, p :: -WEIGHT_MASS <= g.eval(b, p) <= WEIGHT_MASS) &&
    (forall b, p :: g.eval(b, Opponent(p)) == -g.eval(b, p)) &&
    (forall b, p :: g.over(b) ==> g.moves(b, p) == [])
  }

  lemma OthelloWellFormed()
    ensures WellFormed(OTHELLO)
  {
    forall b, p
      ensures -WEIGHT_MASS <= OTHELLO.eval(b, p) <= WEIGHT_MASS
      ensures OTHELLO.eval(b, Opponent(p)) == -OTHELLO.eval(b, p)
    {
      EvaluationBound(b, p);
      ZeroSum(b, p);
      assert Opponent(Opponent(p)) == p;
    }
  }

  function Max(a: int, b: int): int {
    if a >= b then a else b
  }

  function Min(a: int, b: int): int {
    if a <= b then a else b
  }

  /** The colour to move at a maximizing or minimizing node. */
  function Mover(me: Player, maximizing: bool): Player {
    if maximizing then me else Opponent(me)
  }

  /** The starting best value of a node: -infinity when maximizing, +infinity otherwise. */
  function Initial(maximizing: bool): int {
    if maximizing then -INFINITY else INFINITY
  }

  /** v strictly improves on best for this kind of node. */
  predicate Better(maximizing: bool, v: int, best: int) {
    if maximizing then v > best else v < best
  }

  /** The position after the mover of this node plays m (on a copy). */
  function Child(g: Rulebook, b: Board, me: Player, maximizing: bool, m: Move): Board {
    g.play(b, Mover(me, maximizing), m)
  }

  // --------------------------------------------------- unpruned reference

  /** Plain minimax with the same leaves, pass rule and tie-break. */
  function Minimax(g: Rulebook, b: Board, me: Player, depth: nat, maximizing: bool): (int, Option<Move>)
    decreases depth, 1, 0
  {
    if depth == 0 || g.over(b) then (g.eval(b, me), None)
    else
      var moves := g.moves(b, Mover(me, maximizing));
      if moves == [] then (Minimax(g, b, me, depth - 1, !maximizing).0, None)
      else Scan(g, b, me, depth, maximizing, moves, 0, Initial(maximizing), None)
  }

  /** The minimax value of the position after move m. */
  function ChildValue(g: Rulebook, b: Board, me: Player, depth: nat, maximizing: bool, m: Move): int
    requires depth >= 1
    decreases depth, 0, 0
  {
    Minimax(g, Child(g, b, me, maximizing, m), me, depth - 1, !maximizing).0
  }

  /** Visits moves[i..], keeping the first strictly better child. */
  function Scan(g: Rulebook, b: Board, me: Player, depth: nat, maximizing: bool, moves: seq<Move>, i: nat,
                bestVal: int, bestMv: Option<Move>): (int, Option<Move>)
    requires depth >= 1 && i <= |moves|
    decreases depth, 0, |moves| - i
  {
    if i == |moves| then (bestVal, bestMv)
    else
      var v := ChildValue(g, b, me, depth, maximizing, moves[i]);
      if Better(maximizing, v, bestVal) then Scan(g, b, me, depth, maximizing, moves, i + 1, v, Some(moves[i]))
      else Scan(g, b, me, depth, maximizing, moves, i + 1, bestVal, bestMv)
  }

  // ------------------------------------------------------ pruned search

  /** minimax(game, depth, maximizing, alpha, beta) as best_move defines it. */
  function AlphaBeta(g: Rulebook, b: Board, me: Player, depth: nat, maximizing: bool, alpha: int, beta: int): (int, Option<Move>)
    decreases depth, 1, 0
  {
    if depth == 0 || g.over(b) then (g.eval(b, me), None)
    else
      var moves := g.moves(b, Mover(me, maximizing));
      if moves == [] then (AlphaBeta(g, b, me, depth - 1, !maximizing, alpha, beta).0, None)
      else Prune(g, b, me, depth, maximizing, moves, 0, alpha, beta, Initial(maximizing), None)
  }

  /** The move loop of minimax from moves[i] on, with the current window. */
  function Prune(g: Rulebook, b: Board, me: Player, depth: nat, maximizing: bool, moves: seq<Move>, i: nat,
                 alpha: int, beta: int, bestVal: int, bestMv: Option<Move>): (int, Option<Move>)
    requires depth >= 1 && i <= |moves|
    decreases depth, 0, |moves| - i
  {
    if i == |moves| then (bestVal, bestMv)
    else
      var v := AlphaBeta(g, Child(g, b, me, maximizing, moves[i]), me, depth - 1, !maximizing, alpha, beta).0;
      var better := Better(maximizing, v, bestVal);
      var val := if better then v else bestVal;
      var mv := if better then Some(moves[i]) else bestMv;
      var a := if maximizing then Max(alpha, v) else alpha;
      var bt := if maximizing then beta else Min(beta, v);
      if bt <= a then (val, mv)
      else Prune(g, b, me, depth, maximizing, moves, i + 1, a, bt, val, mv)
  }

  /** best_move(player, depth): the move chosen at a maximizing root with an
      unbounded window. */
  function BestMove(g: Rulebook, b: Board, me: Player, depth: nat): Option<Move> {
    AlphaBeta(g, b, me, depth, true, -INFINITY, INFINITY).1
  }

  /** One turn of the pruned loop, given the child's value v: the running
      best and the window are updated, and the loop stops or goes on. */
  lemma PruneTurn(g: Rulebook, b: Board, me: Player, depth: nat, maximizing: bool, moves: seq<Move>, i: nat,
                  alpha: int, beta: int, bestVal: int, bestMv: Option<Move>, v: int,
                  alpha': int, beta': int, bestVal': int, bestMv': Option<Move>)
    requires depth >= 1 && i < |moves|
    requires v == AlphaBeta(g, Child(g, b, me, maximizing, moves[i]), me, depth - 1, !maximizing, alpha, beta).0
    requires Better(maximizing, v, bestVal) ==> bestVal' == v && bestMv' == Some(moves[i])
    requires !Better(maximizing, v, bestVal) ==> bestVal' == bestVal && bestMv' == bestMv
    requires alpha' == (if maximizing then Max(alpha, v) else alpha)
    requires beta' == (if maximizing then beta else Min(beta, v))
    ensures beta' <= alpha' ==>
              Prune(g, b, me, depth, maximizing, moves, i, alpha, beta, bestVal, bestMv) == (bestVal', bestMv')
    ensures alpha' < beta' ==>
              Prune(g, b, me, depth, maximizing, moves, i, alpha, beta, bestVal, bestMv)
              == Prune(g, b, me, depth, maximizing, moves, i + 1, alpha', beta', bestVal', bestMv')
  {
  }

  /** One turn of the unpruned scan, given the child's value v. */
  lemma ScanTurn(g: Rulebook, b: Board, me: Player, depth: nat, maximizing: bool, moves: seq<Move>, i: nat,
                 bestVal: int, bestMv: Option<Move>, v: int, bestVal': int, bestMv': Option<Move>)
    requires depth >= 1 && i < |moves|
    requires v == ChildValue(g, b, me, depth, maximizing, moves[i])
    requires Better(maximizing, v, bestVal) ==> bestVal' == v && bestMv' == Some(moves[i])
    requires !Better(maximizing, v, bestVal) ==> bestVal' == bestVal && bestMv' == bestMv
    ensures Scan(g, b, me, depth, maximizing, moves, i, bestVal, bestMv)
            == Scan(g, b, me, depth, maximizing, moves, i + 1, bestVal', bestMv')
  {
  }

  // ------------------------------------------------------------- bounds

  lemma {:induction false} MinimaxBounded(g: Rulebook, b: Board, me: Player, depth: nat, maximizing: bool)
    requires WellFormed(g)
    ensures -WEIGHT_MASS <= Minimax(g, b, me, depth, maximizing).0 <= WEIGHT_MASS
    decreases depth, 1, 0
  {
    if depth == 0 || g.over(b) {
    } else {
      var moves := g.moves(b, Mover(me, maximizing));
      if moves == [] {
        MinimaxBounded(g, b, me, depth - 1, !maximizing);
      } else {
        ScanBounded(g, b, me, depth, maximizing, moves, 0, Initial(maximizing), None);
      }
    }
  }

  lemma {:induction false} ScanBounded(g: Rulebook, b: Board, me: Player, depth: nat, maximizing: bool,
                                       moves: seq<Move>, i: nat, bestVal: int, bestMv: Option<Move>)
    requires WellFormed(g)
    requires depth >= 1 && i <= |moves|
    requires (-WEIGHT_MASS <= bestVal <= WEIGHT_MASS) || (i < |moves| && bestVal == Initial(maximizing))
    ensures -WEIGHT_MASS <= Scan(g, b, me, depth, maximizing, moves, i, bestVal, bestMv).0 <= WEIGHT_MASS
    decreases depth, 0, |moves| - i
  {
    if i < |moves| {
      var v := ChildValue(g, b, me, depth, maximizing, moves[i]);
      MinimaxBounded(g, Child(g, b, me, maximizing, moves[i]), me, depth - 1, !maximizing);
      if Better(maximizing, v, bestVal) {
        ScanBounded(g, b, me, depth, maximizing, moves, i + 1, v, Some(moves[i]));
      } else {
        ScanBounded(g, b, me, depth, maximizing, moves, i + 1, bestVal, bestMv);
      }
    }
  }

  /** A maximizing scan never ends below its running best; a minimizing one never above. */
  lemma {:induction false} ScanMonotone(g: Rulebook, b: Board, me: Player, depth: nat, maximizing: bool,
                                        moves: seq<Move>, i: nat, bestVal: int, bestMv: Option<Move>)
    requires depth >= 1 && i <= |moves|
    ensures !Better(maximizing, bestVal, Scan(g, b, me, depth, maximizing, moves, i, bestVal, bestMv).0)
    decreases |moves| - i
  {
    if i < |moves| {
      var v := ChildValue(g, b, me, depth, maximizing, moves[i]);
      if Better(maximizing, v, bestVal) {
        ScanMonotone(g, b, me, depth, maximizing, moves, i + 1, v, Some(moves[i]));
      } else {
        ScanMonotone(g, b, me, depth, maximizing, moves, i + 1, bestVal, bestMv);
      }
    }
  }

  // ---------------------------------------------------------- fail-soft

  /** What a fail-soft alpha-beta value r says about the true value v of a
      node searched with window (alpha, beta): exact inside the window, an
      upper bound at or below alpha, a lower bound at or above beta. */
  predicate Bounds(r: int, v: int, alpha: int, beta: int) {
    (v <= alpha ==> v <= r <= alpha) &&
    (alpha < v < beta ==> r == v) &&
    (beta <= v ==> beta <= r <= v)
  }

  /** Alpha-beta with any window inside the infinities is fail-soft with
      respect to plain minimax. */
  lemma {:induction false} FailSoft(g: Rulebook, b: Board, me: Player, depth: nat, maximizing: bool,
                                    alpha: int, beta: int)
    requires -INFINITY <= alpha < beta <= INFINITY
    ensures Bounds(AlphaBeta(g, b, me, depth, maximizing, alpha, beta).0, Minimax(g, b, me, depth, maximizing).0,
                   alpha, beta)
    decreases depth, 1, 0
  {
    if depth == 0 || g.over(b) {
    } else {
      var moves := g.moves(b, Mover(me, maximizing));
      if moves == [] {
        FailSoft(g, b, me, depth - 1, !maximizing, alpha, beta);
      } else {
        PruneAgrees(g, b, me, depth, maximizing, moves, 0, alpha, beta, alpha, beta,
                    Initial(maximizing), None, Initial(maximizing), None);
      }
    }
  }

  /** The invariant of the move loop: the node's window is (alpha0, beta0), the
      current one is (a, bt), best is the loop's running value and sBest the
      running value of the unpruned scan over the same moves. */
  predicate LoopInv(maximizing: bool, alpha0: int, beta0: int, a: int, bt: int, best: int, sBest: int) {
    a < bt &&
    if maximizing then
      bt == beta0 && a == Max(alpha0, best) &&
      ((sBest <= alpha0 && sBest <= best <= alpha0) || (alpha0 < sBest && best == sBest))
    else
      a == alpha0 && bt == Min(beta0, best) &&
      ((beta0 <= sBest && beta0 <= best <= sBest) || (sBest < beta0 && best == sBest))
  }

  /** One step of the loop: if the child's pruned value r is fail-soft for its
      true value c in the current window, the invariant survives, or the loop
      cuts off on a strictly better r that bounds the node from the right side. */
  lemma LoopStep(maximizing: bool, alpha0: int, beta0: int, a: int, bt: int, best: int, sBest: int, r: int, c: int)
    requires LoopInv(maximizing, alpha0, beta0, a, bt, best, sBest)
    requires Bounds(r, c, a, bt)
    ensures var best' := if Better(maximizing, r, best) then r else best;
            var sBest' := if Better(maximizing, c, sBest) then c else sBest;
            var a' := if maximizing then Max(a, r) else a;
            var bt' := if maximizing then bt else Min(bt, r);
            if bt' <= a' then
              Better(maximizing, r, best) &&
              (if maximizing then beta0 <= r <= c else c <= r <= alpha0)
            else LoopInv(maximizing, alpha0, beta0, a', bt', best', sBest')
  {
  }

  /** At a cut-off the node's pruned value is its running best, and any
      scan result the unpruned loop can still reach is fail-soft for it. */
  lemma CutBounds(maximizing: bool, alpha0: int, beta0: int, a: int, bt: int, best: int, sBest: int,
                  r: int, c: int, s: int)
    requires LoopInv(maximizing, alpha0, beta0, a, bt, best, sBest)
    requires Bounds(r, c, a, bt)
    requires (if maximizing then bt else Min(bt, r)) <= (if maximizing then Max(a, r) else a)
    requires !Better(maximizing, if Better(maximizing, c, sBest) then c else sBest, s)
    ensures Bounds(if Better(maximizing, r, best) then r else best, s, alpha0, beta0)
  {
    LoopStep(maximizing, alpha0, beta0, a, bt, best, sBest, r, c);
  }

  lemma {:induction false} PruneAgrees(g: Rulebook, b: Board, me: Player, depth: nat, maximizing: bool,
                                       moves: seq<Move>, i: nat, alpha0: int, beta0: int, a: int, bt: int,
                                       best: int, bm: Option<Move>, sBest: int, sm: Option<Move>)
    requires depth >= 1 && i <= |moves|
    requires -INFINITY <= alpha0 < beta0 <= INFINITY
    requires LoopInv(maximizing, alpha0, beta0, a, bt, best, sBest)
    ensures Bounds(Prune(g, b, me, depth, maximizing, moves, i, a, bt, best, bm).0,
                   Scan(g, b, me, depth, maximizing, moves, i, sBest, sm).0, alpha0, beta0)
    decreases depth, 0, |moves| - i
  {
    if i < |moves| {
      var child := Child(g, b, me, maximizing, moves[i]);
      var r := AlphaBeta(g, child, me, depth - 1, !maximizing, a, bt).0;
      var c := ChildValue(g, b, me, depth, maximizing, moves[i]);
      FailSoft(g, child, me, depth - 1, !maximizing, a, bt);
      var best' := if Better(maximizing, r, best) then r else best;
      var bm' := if Better(maximizing, r, best) then Some(moves[i]) else bm;
      var sBest' := if Better(maximizing, c, sBest) then c else sBest;
      var sm' := if Better(maximizing, c, sBest) then Some(moves[i]) else sm;
      var a' := if maximizing then Max(a, r) else a;
      var bt' := if maximizing then bt else Min(bt, r);
      PruneTurn(g, b, me, depth, maximizing, moves, i, a, bt, best, bm, r, a', bt', best', bm');
      ScanTurn(g, b, me, depth, maximizing, moves, i, sBest, sm, c, sBest', sm');
      if bt' <= a' {
        ScanMonotone(g, b, me, depth, maximizing, moves, i + 1, sBest', sm');
        CutBounds(maximizing, alpha0, beta0, a, bt, best, sBest, r, c,
                  Scan(g, b, me, depth, maximizing, moves, i + 1, sBest', sm').0);
      } else {
        LoopStep(maximizing, alpha0, beta0, a, bt, best, sBest, r, c);
        PruneAgrees(g, b, me, depth, maximizing, moves, i + 1, alpha0, beta0, a', bt', best', bm', sBest', sm');
      }
    }
  }

  // ----------------------------------------------------- root agreement

  /** At a maximizing root with window (-infinity, +infinity) the loop never
      cuts off and keeps the same value and move as the unpruned scan. */
  lemma {:induction false} RootScan(g: Rulebook, b: Board, me: Player, depth: nat, moves: seq<Move>, i: nat,
                                    best: int, bm: Option<Move>)
    requires WellFormed(g)
    requires depth >= 1 && i <= |moves|
    requires best == -INFINITY || -WEIGHT_MASS <= best <= WEIGHT_MASS
    ensures Prune(g, b, me, depth, true, moves, i, best, INFINITY, best, bm) ==
            Scan(g, b, me, depth, true, moves, i, best, bm)
    decreases |moves| - i
  {
    if i < |moves| {
      var child := Child(g, b, me, true, moves[i]);
      var r := AlphaBeta(g, child, me, depth - 1, false, best, INFINITY).0;
      var c := ChildValue(g, b, me, depth, true, moves[i]);
      FailSoft(g, child, me, depth - 1, false, best, INFINITY);
      MinimaxBounded(g, child, me, depth - 1, false);
      if c > best {
        assert r == c;
        RootScan(g, b, me, depth, moves, i + 1, c, Some(moves[i]));
      } else {
        assert r <= best;
        RootScan(g, b, me, depth, moves, i + 1, best, bm);
      }
    }
  }

  /** Pruning changes neither the value nor the move chosen at the root. */
  lemma RootAgrees(g: Rulebook, b: Board, me: Player, depth: nat)
    requires WellFormed(g)
    ensures AlphaBeta(g, b, me, depth, true, -INFINITY, INFINITY) == Minimax(g, b, me, depth, true)
  {
    if depth > 0 && !g.over(b) {
      var moves := g.moves(b, me);
      if moves == [] {
        FailSoft(g, b, me, depth - 1, false, -INFINITY, INFINITY);
        MinimaxBounded(g, b, me, depth - 1, false);
      } else {
        RootScan(g, b, me, depth, moves, 0, -INFINITY, None);
      }
    }
  }

  // ---------------------------------------------------- the chosen move

  /** The scan ends on its running best or on the first child that beats
      it and is not beaten by any later child: the first best move. */
  lemma {:induction false} ScanArgmax(g: Rulebook, b: Board, me: Player, depth: nat, maximizing: bool,
                                      moves: seq<Move>, i: nat, bestVal: int, bestMv: Option<Move>)
    requires depth >= 1 && i <= |moves|
    ensures var res := Scan(g, b, me, depth, maximizing, moves, i, bestVal, bestMv);
            !Better(maximizing, res.0, bestVal) ==> res == (bestVal, bestMv)
    ensures var res := Scan(g, b, me, depth, maximizing, moves, i, bestVal, bestMv);
            forall k :: i <= k < |moves| ==>
              !Better(maximizing, ChildValue(g, b, me, depth, maximizing, moves[k]), res.0)
    ensures var res := Scan(g, b, me, depth, maximizing, moves, i, bestVal, bestMv);
            Better(maximizing, res.0, bestVal) ==>
              exists k :: i <= k < |moves| && res == (ChildValue(g, b, me, depth, maximizing, moves[k]), Some(moves[k])) &&
                forall j :: i <= j < k ==> Better(maximizing, res.0, ChildValue(g, b, me, depth, maximizing, moves[j]))
    decreases |moves| - i
  {
    if i < |moves| {
      var v := ChildValue(g, b, me, depth, maximizing, moves[i]);
      if Better(maximizing, v, bestVal) {
        ScanArgmax(g, b, me, depth, maximizing, moves, i + 1, v, Some(moves[i]));
        ScanMonotone(g, b, me, depth, maximizing, moves, i + 1, v, Some(moves[i]));
        var res := Scan(g, b, me, depth, maximizing, moves, i + 1, v, Some(moves[i]));
        if Better(maximizing, res.0, v) {
          var k :| i + 1 <= k < |moves| && res == (ChildValue(g, b, me, depth, maximizing, moves[k]), Some(moves[k])) &&
                forall j :: i + 1 <= j < k ==> Better(maximizing, res.0, ChildValue(g, b, me, depth, maximizing, moves[j]));
          assert forall j :: i <= j < k ==> Better(maximizing, res.0, ChildValue(g, b, me, depth, maximizing, moves[j]));
        } else {
          assert res == (v, Some(moves[i]));
        }
      } else {
        ScanArgmax(g, b, me, depth, maximizing, moves, i + 1, bestVal, bestMv);
      }
    }
  }

  /** With depth >= 1 the root returns None exactly when the player has no
      move, and otherwise the first of its moves whose minimax value is the
      largest. */
  lemma RootChoice(g: Rulebook, b: Board, me: Player, depth: nat)
    requires WellFormed(g) && depth >= 1
    ensures BestMove(g, b, me, depth) == None <==> g.moves(b, me) == []
    ensures BestMove(g, b, me, depth) != None ==>
              var moves := g.moves(b, me);
              var value := Minimax(g, b, me, depth, true).0;
              exists k :: 0 <= k < |moves| && BestMove(g, b, me, depth) == Some(moves[k]) &&
                ChildValue(g, b, me, depth, true, moves[k]) == value &&
                (forall j :: 0 <= j < |moves| ==> ChildValue(g, b, me, depth, true, moves[j]) <= value) &&
                (forall j :: 0 <= j < k ==> ChildValue(g, b, me, depth, true, moves[j]) < value)
  {
    RootAgrees(g, b, me, depth);
    var moves := g.moves(b, me);
    if !g.over(b) && moves != [] {
      ScanArgmax(g, b, me, depth, true, moves, 0, -INFINITY, None);
      ScanBounded(g, b, me, depth, true, moves, 0, -INFINITY, None);
    }
  }

  // ------------------------------------------------------- perspective

  /** Searching for the opponent with the node kinds swapped negates every
      value and chooses the same moves: leaves are always scored from one
      fixed side and the tie-break does not depend on which side that is. */
  lemma {:induction false} Perspective(g: Rulebook, b: Board, me: Player, depth: nat, maximizing: bool)
    requires WellFormed(g)
    ensures Minimax(g, b, Opponent(me), depth, !maximizing) ==
            (-Minimax(g, b, me, depth, maximizing).0, Minimax(g, b, me, depth, maximizing).1)
    decreases depth, 1, 0
  {
    assert Mover(Opponent(me), !maximizing) == Mover(me, maximizing);
    if depth == 0 || g.over(b) {
    } else {
      var moves := g.moves(b, Mover(me, maximizing));
      if moves == [] {
        Perspective(g, b, me, depth - 1, !maximizing);
      } else {
        ScanPerspective(g, b, me, depth, maximizing, moves, 0, Initial(maximizing), None);
      }
    }
  }

  lemma {:induction false} ScanPerspective(g: Rulebook, b: Board, me: Player, depth: nat, maximizing: bool,
                                           moves: seq<Move>, i: nat, bestVal: int, bestMv: Option<Move>)
    requires WellFormed(g)
    requires depth >= 1 && i <= |moves|
    ensures Scan(g, b, Opponent(me), depth, !maximizing, moves, i, -bestVal, bestMv) ==
            (-Scan(g, b, me, depth, maximizing, moves, i, bestVal, bestMv).0,
             Scan(g, b, me, depth, maximizing, moves, i, bestVal, bestMv).1)
    decreases depth, 0, |moves| - i
  {
    if i < |moves| {
      var v := ChildValue(g, b, me, depth, maximizing, moves[i]);
      assert Child(g, b, Opponent(me), !maximizing, moves[i]) == Child(g, b, me, maximizing, moves[i]);
      Perspective(g, Child(g, b, me, maximizing, moves[i]), me, depth - 1, !maximizing);
      assert ChildValue(g, b, Opponent(me), depth, !maximizing, moves[i]) == -v;
      if Better(maximizing, v, bestVal) {
        ScanPerspective(g, b, me, depth, maximizing, moves, i + 1, v, Some(moves[i]));
      } else {
        ScanPerspective(g, b, me, depth, maximizing, moves, i + 1, bestVal, bestMv);
      }
    }
  }

  // ------------------------------------------------------ Othello itself

  /** best_move on an Othello position, depth >= 1: None exactly when the
      player has no valid move, otherwise one of its valid moves (the first of
      largest minimax value, by RootChoice). */
  lemma BestMoveChoice(b: Board, me: Player, depth: nat)
    requires depth >= 1
    ensures BestMove(OTHELLO, b, me, depth) == None <==> ValidMoves(b, me) == []
    ensures BestMove(OTHELLO, b, me, depth) != None ==> BestMove(OTHELLO, b, me, depth).value in ValidMoves(b, me)
  {
    OthelloWellFormed();
    RootChoice(OTHELLO, b, me, depth);
    assert OTHELLO.moves(b, me) == ValidMoves(b, me);
  }

  /** On Othello positions the pruned root search returns exactly what plain
      minimax returns. */
  lemma OthelloRootAgrees(b: Board, me: Player, depth: nat)
    ensures AlphaBeta(OTHELLO, b, me, depth, true, -INFINITY, INFINITY) == Minimax(OTHELLO, b, me, depth, true)
  {
    OthelloWellFormed();
    RootAgrees(OTHELLO, b, me, depth);
  }
}
