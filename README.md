# Othello engine and alpha-beta bot, in Dafny

This project models the game engine of `Othello_Bot.py`: the 8x8 board and its
start position, move legality along the eight compass directions, the row-major
list of legal moves, playing a move with its flips, the piece count, the
end-of-game test, the positional evaluator, and the fixed-depth minimax with
alpha-beta pruning behind `best_move`.

There are six modules:

- `Board` (board.dfy) holds the cells, players, directions, rays, the `Place`
  update, piece counts and the start grid.
- `Rules` (rules.dfy) defines legality (`Legal`), the move list
  (`ValidMoves`), the board after a move (`ApplyMove`) and the end of the game
  (`IsGameOver`). All of these are functions on board values. Lemmas tie each
  one to an independent description: a "sandwich" (one or more opponent pieces,
  then one of the mover's), the set of bracketed cells, and the piece counts.
- `Opening` (opening.dfy) proves facts about the start position: black's
  four opening moves, and the position after black plays (2, 3).
- `Evaluator` (evaluation.dfy) holds the weight table and the evaluation.
  It proves that the evaluation is zero-sum, that it is bounded, and that the
  table is symmetric.
- `Search` (search.dfy) defines the search over a `Rulebook`, which supplies
  the game's four operations. `Minimax`/`Scan` is plain minimax without
  pruning, and serves as the reference. `AlphaBeta`/`Prune` follows the code's
  inner `minimax` step by step. The lemmas prove that the two agree at the
  root, and they also pin down the move that is chosen.
- `Engine` (game.dfy) holds the class `Game`, with fields `board` and
  `currentPlayer`. Its methods are the source's loops.
  - `IsValidMove` and `MakeMove` use the direction loop, the `while` walk
    along a ray (`Walk`), and the flip loop.
  - `EvaluateBoard` is the double `for` loop.
  - `Minimax` is the recursive search. The move loop updates the best value,
    the best move and the window, and breaks on a cut-off. Each child is
    searched on a fresh `Game.Copy`.
  - Each method is proved equal to its function in `Rules`, `Evaluator` or
    `Search`.

Weights are the source's table multiplied by 2, so that 7.5 becomes 15 and
every value is an integer.

## Model

| member | source | states |
|---|---|---|
| Board.Opponent | Othello_Bot.py:41-42 | the opponent of a colour is the other colour, never the colour itself |
| Board.Place | Othello_Bot.py:69 | writing one cell sets that cell to the new value and leaves every other cell as it was |
| Board.CountRow | Othello_Bot.py:89-90 | a row never holds more occurrences of a value than it has cells |
| Board.CellTotal | Othello_Bot.py:88-91 | on any board the empty, black and white counts add up to 64 |
| Board.PlaceCount | Othello_Bot.py:69 | writing one cell changes a colour's count by at most one: down if the old value had that colour, up if the new value has it |
| Rules.RunSpec | Othello_Bot.py:53-56 | the walk stops exactly at the first cell along the ray that is off the board or does not hold the walked colour; every cell before it holds that colour |
| Rules.RunLengthSpec | Othello_Bot.py:50-56 | cells 1 to n along the direction hold the opponent, and cell n+1 does not, where n is the length of the collected run |
| Rules.SandwichUnique | Othello_Bot.py:53-59 | if the mover's piece lies past an unbroken opponent run, it can only be the cell just past that whole run, which is the cell line 58 tests |
| Rules.BracketsIff | Othello_Bot.py:50-59 | one direction of the loop captures if and only if it has one or more opponent pieces followed by a piece of the mover on the board |
| Rules.LegalIff | Othello_Bot.py:44-60 | is_valid_move holds if and only if the cell is on the board, is empty, and some of the eight directions holds one or more opponent pieces followed by the mover's piece |
| Rules.CellAfterNext | Othello_Bot.py:72-83 | one more direction of make_move's loop turns exactly the cells that direction flips and keeps all others |
| Rules.FlippedByIff | Othello_Bot.py:72-83 | a cell is flipped along a direction if and only if it lies strictly inside a sandwich along that direction |
| Rules.FlippedWithinIff | Othello_Bot.py:72-83 | a cell is flipped by the first n directions if and only if one of them flips it |
| Rules.FlippedIff | Othello_Bot.py:72-83 | the cells make_move turns are exactly those between the new piece and a piece of the mover, along an unbroken opponent run in one of the eight directions |
| Rules.ApplyMoveCells | Othello_Bot.py:69-83 | after the move the target holds the mover and every other cell changes if and only if it is bracketed; a changed cell becomes the mover's, and a bracketed cell held the opponent before |
| Rules.RayDisjoint | Othello_Bot.py:72-83 | two rays from the same cell share a cell only if they have the same direction and distance, so the eight directions flip disjoint sets of cells |
| Rules.OffEarlierRays | Othello_Bot.py:72-83 | when direction k is walked, the earlier directions have not changed any cell of its ray |
| Rules.RayFrame | Othello_Bot.py:72-81 | the run length and the closing test along a ray depend only on the cells of that ray |
| Rules.RunFrame | Othello_Bot.py:76-79 | the walk along a ray gives the same length on two boards that agree on that ray |
| Rules.RunCells | Othello_Bot.py:74-83 | the collected pieces_to_flip of a closed direction are exactly the cells that direction flips |
| Rules.LegalFlips | Othello_Bot.py:58-59 | a legal move turns over at least one piece |
| Rules.MoveColourCount | Othello_Bot.py:69-83 | each colour's count after the move is its count before, adjusted for the placed piece and the flipped pieces |
| Rules.MoveCounts | Othello_Bot.py:53-83 | after a legal move with k flips, k is at least 1, the empties drop by 1, the mover gains 1+k pieces and the opponent loses k |
| Rules.ScoreAfterMove | Othello_Bot.py:88-91 | after a legal move get_score's black+white rises by exactly 1, and black+white+empty stays 64 |
| Rules.MovesInRow | Othello_Bot.py:63 | the row's list holds exactly the legal cells of that row below the bound, in increasing column order |
| Rules.MovesInRows | Othello_Bot.py:63 | the list for the first n rows holds exactly the legal cells of those rows, in strictly increasing row-major order |
| Rules.ValidMoves | Othello_Bot.py:62-63 | valid_moves holds exactly the legal cells, in strictly increasing row-major order and so without duplicates |
| Rules.LegalInMoves | Othello_Bot.py:62-63 | every legal cell appears in valid_moves |
| Rules.NoMovesNoLegal | Othello_Bot.py:62-63 | an empty valid_moves leaves no legal cell |
| Rules.MovesGiveLegal | Othello_Bot.py:62-63 | the first entry of a non-empty valid_moves is a legal move |
| Rules.NoMovesIff | Othello_Bot.py:62-63 | valid_moves is empty if and only if no cell is legal |
| Rules.GameOverIff | Othello_Bot.py:93-94 | is_game_over holds if and only if neither colour has a legal cell |
| Opening.InitialCells | Othello_Bot.py:32-35 | the start grid has black on (3,4) and (4,3), white on (3,3) and (4,4), and every other cell empty |
| Opening.InitialCounts | Othello_Bot.py:32-35 | in the start position get_score is (2, 2) and 60 cells are empty |
| Opening.CaptureOne | Othello_Bot.py:53-59 | a single opponent piece followed by the mover's piece is a capture of length one |
| Opening.OpeningBracket | Othello_Bot.py:49-59 | in the start position a black capture can only start from (2,3), (3,2), (4,5) or (5,4) |
| Opening.OpeningLegal | Othello_Bot.py:44-60 | in the start position black may play a cell if and only if it is one of (2,3), (3,2), (4,5), (5,4) |
| Opening.SortedUnique | Othello_Bot.py:63 | two lists in strictly increasing row-major order with the same members are equal |
| Opening.MovesUnique | Othello_Bot.py:62-63 | a list in strictly increasing row-major order that holds exactly the legal cells is valid_moves itself |
| Opening.StartMoves | Othello_Bot.py:62-63 | on any board holding the start position, black's valid_moves is [(2,3),(3,2),(4,5),(5,4)] |
| Opening.OpeningMoves | Othello_Bot.py:32-36 | black's valid_moves on the constructor's board is exactly [(2,3),(3,2),(4,5),(5,4)] |
| Opening.FirstMoveRays | Othello_Bot.py:72-83 | from the start position, black's move at (2,3) captures only southwards, over one piece |
| Opening.FirstMoveFlips | Othello_Bot.py:72-83 | black's move at (2,3) in the start position flips exactly the cell (3,3) |
| Opening.FirstMoveCells | Othello_Bot.py:65-83 | black's move at (2,3) is legal, and afterwards (2,3) and (3,3) are black while every other cell keeps its start value |
| Opening.FirstMoveScore | Othello_Bot.py:65-91 | playing (2,3) from the constructor's board is legal and makes get_score (4, 1) |
| Evaluator.ZeroSum | Othello_Bot.py:20-29 | a board's evaluation for one colour is the negation of its evaluation for the other |
| Evaluator.EmptyScoresZero | Othello_Bot.py:20-29 | a board with no pieces evaluates to 0 |
| Evaluator.RowMass | Othello_Bot.py:10-17 | the weight magnitudes of one row total 550 for the edge rows, 296 for the rows next to them, and 56 for the middle rows |
| Evaluator.TableMass | Othello_Bot.py:9-18 | the weight magnitudes of the whole table total 1916, which is 958 in the source's units |
| Evaluator.EvaluationBound | Othello_Bot.py:9-29 | the absolute value of every evaluation is at most 1916, which is 958 in the source's units |
| Evaluator.WeightSymmetry | Othello_Bot.py:9-18 | the weight table satisfies w[x][y] == w[7-x][y] == w[x][7-y] |
| Search.OthelloWellFormed | Othello_Bot.py:20-29 | Othello's evaluation is bounded and zero-sum, and a finished game offers no moves |
| Search.PruneTurn | Othello_Bot.py:114-128 | one pass of the loop body either stops the loop with the updated best value and move, or carries on with the updated window |
| Search.ScanTurn | Othello_Bot.py:116-125 | one pass of the unpruned loop keeps the first strictly better child |
| Search.MinimaxBounded | Othello_Bot.py:97-130 | every minimax value lies within the evaluation bound, so the ±2000 start values are always replaced |
| Search.ScanBounded | Othello_Bot.py:105-130 | the unpruned move loop returns a value within the evaluation bound |
| Search.ScanMonotone | Othello_Bot.py:116-125 | the move loop never ends with a value worse than the best it started with |
| Search.FailSoft | Othello_Bot.py:97-130 | with any window inside the infinities, the pruned value equals the true minimax value when that value lies strictly inside the window; otherwise it lies between the true value and the nearer bound |
| Search.LoopStep | Othello_Bot.py:116-128 | one pass of the pruned loop keeps the relation between its running best and the unpruned one, or breaks on a value that bounds the node from the right side |
| Search.CutBounds | Othello_Bot.py:127-128 | a break leaves a value that bounds the unpruned value from the side of the window it left |
| Search.PruneAgrees | Othello_Bot.py:108-130 | the pruned move loop is fail-soft with respect to the unpruned loop over the same moves |
| Search.RootScan | Othello_Bot.py:108-132 | at a maximizing node with beta at +∞, the pruned loop returns exactly the unpruned loop's value and move |
| Search.RootAgrees | Othello_Bot.py:97-133 | the root call with the full window gives the same value and chosen move as unpruned minimax with the same first-strictly-better tie-break |
| Search.ScanArgmax | Othello_Bot.py:108-125 | the unpruned move loop returns the first child of best value: no child beats it, and every earlier child is strictly worse |
| Search.RootChoice | Othello_Bot.py:105-133 | for depth at least 1, the chosen move is None if and only if the root player has no move; otherwise it is the first move of maximal minimax value |
| Search.Perspective | Othello_Bot.py:97-103 | searching for the opponent, with the roles swapped, negates every value and chooses the same moves |
| Search.ScanPerspective | Othello_Bot.py:108-125 | the unpruned move loop for the opponent, with the roles swapped, negates the value and picks the same move |
| Search.BestMoveChoice | Othello_Bot.py:96-133 | for depth at least 1, best_move returns None if and only if valid_moves(player) is empty, and otherwise one of those moves |
| Search.OthelloRootAgrees | Othello_Bot.py:97-133 | for Othello, pruning does not change the root value or the chosen move |
| Engine.Game.constructor | Othello_Bot.py:32-36 | the new game holds the start position with black to move |
| Engine.Game.Copy | Othello_Bot.py:109-111 | the copy has the same cells and the same colour to move as the original |
| Engine.Game.IsValidMove | Othello_Bot.py:44-60 | the direction loop answers exactly Legal for the current board |
| Engine.Game.MakeMove | Othello_Bot.py:65-86 | an illegal move returns false and leaves board and currentPlayer unchanged; a legal one returns true, leaves the board as ApplyMove describes and passes the turn to the opponent |
| Engine.Game.FlipDirection | Othello_Bot.py:72-83 | one direction of make_move flips exactly that direction's bracketed run and keeps currentPlayer |
| Engine.Game.FlipRun | Othello_Bot.py:81-83 | turning the collected pieces makes the board that direction's CellAfter state |
| Engine.Game.BestMove | Othello_Bot.py:96-133 | the result is the search's choice; for depth at least 1 it is None if and only if there is no valid move, and otherwise a valid move; the game is not modified |
| Engine.Walk | Othello_Bot.py:50-56 | the walk collects the cells 1..n along the direction, all holding the walked colour, where n is the run length, and stops on cell n+1 |
| Engine.Captures | Othello_Bot.py:50-59 | one direction of is_valid_move reports a capture exactly when that direction brackets |
| Engine.WalkStep | Othello_Bot.py:53-56 | one pass of the walk adds the current cell to the run and shortens the run still to come by one |
| Engine.EvaluateBoard | Othello_Bot.py:20-29 | the double loop computes exactly the board's evaluation for the given player |
| Engine.Minimax | Othello_Bot.py:97-130 | the recursive search on a game object computes Search.AlphaBeta of its board and leaves the game unchanged |
| Engine.PassTurn | Othello_Bot.py:101-103 | a node whose mover has no move returns the value one ply deeper for the other side, and no move |
| Engine.MoveLoop | Othello_Bot.py:105-130 | the move loop with its break computes Search.Prune over the valid moves |
| Engine.SearchChild | Othello_Bot.py:108-114 | one child is made by playing the move on a copy, and is searched one ply deeper with the current window |
| Engine.Leaf | Othello_Bot.py:98-99 | at depth 0 or at a finished game, the node is scored from the searching player's side, with no move |
| Engine.Inner | Othello_Bot.py:101-108 | any other node with moves runs the move loop over the mover's valid moves |

## Left out

- The GUI class `othello_gui`, its `handle_turns` turn sequencing and the tkinter main loop are not modelled: they are presentation and timer code, not engine logic.
- Floats: the weights are modelled as integers equal to twice the source's values, because 7.5 is not an integer. Scaling by 2 preserves every comparison, so the chosen moves and the zero-sum property are those of the source. The bound 1916 corresponds to the source's 958.
- `float('-inf')` and `float('inf')` are modelled as -2000 and +2000 (`Search.INFINITY`). These lie beyond every evaluation (bound 1916), so every comparison against them comes out as it does with the infinities.
- Object allocation and aliasing: the board is a value (a sequence of rows) held in a field and reassigned cell by cell. The row copy `[row[:] for row in game.board]` becomes `Game.Copy`, which shares nothing mutable, so aliasing between rows is not modelled.
- `Player` is restricted to black and white. The source only ever passes those two colours. `get_opponent` would map the empty value to white, and that case is not modelled.
- `depth` is a natural number. A negative depth, which the source would recurse on until the game ends, is not modelled.
- The search is written once over a `Rulebook` of the game's four operations (terminal test, move list, a move played on a copy, and evaluation). `Engine.Implements` ties a rulebook to Othello's functions.
- `is_on_board`, `get_opponent`, `valid_moves`, `get_score` and `is_game_over` are modelled as functions on the board value (`OnBoard`, `Opponent`, `ValidMoves`, `Score`, `IsGameOver`), because they only compute. `Search.BestMove` and the engine's loops call these functions directly.
- `current_player` plays no part in the search. The copy carries it over, and `MakeMove` sets it; the search never reads it.
- `make_move`'s return value inside the search is not used. The move comes from valid_moves, so it is legal, as in the source.
- Evaluator.WeightSymmetry: covers only the reflections in the two middle axes, because the table is not symmetric under transposition (w[0][3] is 7.5 but w[3][0] is 10).
- Line 81 of make_move does not repeat line 58's "run is non-empty" test. `Engine.Game.FlipDirection` models the line as written: an empty run flips nothing, so `Rules.CellAfterNext` covers that case unchanged.
