# Chess AI search core

A Dafny model of the move-choosing engine of the AI chess opponent
(`src/utils/chessAI.js` with the weights of `src/config/aiSettings.js`):

- `evaluatePosition`: a static score from White's point of view. Checkmate
  gives the ±10,000,000 sentinel. Any draw gives 0. Otherwise the score adds:
  - material from the piece values, plus a pawn-advancement bonus
  - a mobility differential weighted by 5
  - a centre-control term over d4, d5, e4 and e5, weighted by 4
- `minimax`: depth-limited search with alpha-beta pruning over one shared,
  mutable game. Each move is made, searched and taken back.
- `findBestMove`: the root loop. It returns the only legal move at once.
  Otherwise it searches a shuffled move list with the full window and keeps
  the first strictly best move.
- `getBestMove`: maps difficulty to search depth. At difficulty 1 and 2 it
  sometimes plays a random legal move.

The rules engine (chess.js, in the 0.x API that `chessAI.js` calls) is an
injected capability. `ChessRules.Rules<P>` holds the engine's queries as
total functions of an abstract position type.
The engine's mutable game is the class `ChessRules.Game`. It keeps a stack
of positions and the list of moves made, so `move`/`undo` are push and pop.

The search is proved against plain minimax, `Search.Value`, over the same
move order:
- `Minimax` is fail-soft. Inside the window its result equals the minimax
  value. Outside the window it is a bound on the correct side.
- Under the full window (−∞, +∞) the result is exactly the minimax value.
- The value does not depend on the move order.
- So the move `findBestMove` picks attains the minimax value of the
  position, whatever shuffle was used.

Colour symmetry of the evaluation is proved only in part:
- Material, pawn advancement and the centre term are colour-symmetric.
  Mirroring the board and swapping the side to move negates them.
- The whole score is symmetric when the mobility weight is not positive.
  It is also symmetric when both positions have the same move count and the
  same probe count.
- The mobility probe plays the dummy move e3 to hand the move over. The
  engine accepts that move for one side far more often than for the other.
  So with the configured weight of 5 the score is not symmetric in general.
- `Evaluator.EvaluationMirrorExactly` gives the exact condition. Mirrored
  positions score negated if and only if the game is over, or the mobility
  weight is off, or both positions have the same difference between their
  own move count and their probed count.

It is also proved that the checkmate sentinel dominates every heuristic
score: with the configured weights, and at most 1000 legal moves for each
side (real chess positions have far fewer), a position that is not
checkmate scores strictly between −Mate and +Mate. A finished game scores
only −Mate, 0 or +Mate.

Modules:
- `Scores`: the extended scores −∞ / n / +∞.
- `Settings`: the weights.
- `Board`: pieces, the 8×8 board and its colour mirror.
- `ChessRules`: the engine interface and the game object.
- `Evaluator`: `evaluatePosition`.
- `Search`: minimax and `findBestMove`.
- `Selector`: `getBestMove`.

## Model

| member | source | states |
|---|---|---|
| Board.PieceValue | src/utils/chessAI.js:7-14 | The piece values in centipawns. Every piece is worth at least a pawn (100), and only a pawn is worth exactly 100. No piece but the king is worth more than 900. The king (20,000) outweighs a whole starting army without it (4000). |
| Board.GetMirror | src/utils/chessAI.js:76 | game.get on the colour-mirrored board returns the occupant of the square on rank 9 − r of the original board, with its colour swapped. |
| Evaluator.ProbeMobility | src/utils/chessAI.js:62-65 | The opponent count is taken on a fresh game at the position, after `move('e3')`. When the engine accepts the string (a legal move it reads as e3, "e3+" included), the count is the moves after that move. When it refuses, the count is the side to move's own number of moves. |
| Evaluator.MobilityTerm | src/utils/chessAI.js:57-70 | The mobility term is 0 when the weight is not positive. It is also 0 whenever the engine refuses 'e3', because the probe then counts the same side twice. |
| Evaluator.Evaluation | src/utils/chessAI.js:21-85 | The score of a position. Checkmate gives −10,000,000 with White to move and +10,000,000 otherwise. Otherwise any draw flag gives 0. With both optional weights off, the score is the material and pawn sum. When the engine refuses 'e3', the score is the material and pawn sum plus the centre term, with no mobility part. |
| Evaluator.FinishedGameScore | src/utils/chessAI.js:98-99 | A position where game_over holds (checkmate or any draw) evaluates to −10,000,000, 0 or +10,000,000 and nothing else. |
| Evaluator.EvaluatePosition | src/utils/chessAI.js:21-85 | The returned score is the evaluation. White to move and mated gives −10,000,000; Black mated gives +10,000,000. Otherwise any draw flag (draw, stalemate, threefold) gives 0. Otherwise the score is material and pawn advancement over all 64 squares, plus the weighted mobility differential, plus the weighted centre term. The centre term is 0 when its weight is not positive. |
| Evaluator.SquareScoreBound | src/utils/chessAI.js:7-14 | One occupied square adds at most a king's 20,000 in either direction. |
| Evaluator.MaterialBound | src/utils/chessAI.js:36-55 | The material and pawn sum of k rows lies within ±20,000·8·k. |
| Evaluator.SquareScoreMirror | src/utils/chessAI.js:38-52 | A piece of the other colour on the mirrored row (7 − i) adds exactly the negation. This holds for the pawn bonus too: (7 − i)·10 for White against i·10 for Black. |
| Evaluator.RowScoreMirror | src/utils/chessAI.js:37-54 | A recoloured row placed at the mirrored row index scores the negation of the original row. |
| Evaluator.MaterialMirror | src/utils/chessAI.js:36-55 | Colour-mirroring the board negates the material and pawn-advancement sum. |
| Evaluator.CentreSquaresSum | src/utils/chessAI.js:73-82 | The centre term is the sum of the bonuses on d4, d5, e4 and e5. |
| Evaluator.CentreMirror | src/utils/chessAI.js:73-82 | Colour-mirroring the board negates the centre term, for any weight. |
| Evaluator.CentreTermScales | src/utils/chessAI.js:73-82 | The centre term is the weight times the unit-weight term when the weight is positive, and 0 otherwise. The unit-weight term lies in [−40, 40]. |
| Evaluator.EvaluationMirror | src/utils/chessAI.js:21-85 | Conditional score symmetry. Take a position whose board is the colour mirror of another's, with the other side to move and the same end-of-game flags. If the two also have the same move count and the same probe count, the evaluation is the negation of the other's, under any weights. |
| Evaluator.EvaluationMirrorNoMobility | src/utils/chessAI.js:21-85 | With the mobility weight not positive, a position and its colour mirror score negated. No condition on their move lists is needed. |
| Evaluator.EvaluationAsymmetric | src/utils/chessAI.js:62-67 | One case where the symmetry fails. Suppose the engine accepts 'e3' in p and the probe count changes, but the engine refuses 'e3' in p's colour mirror. Then, with a positive mobility weight, the mirror does not score −Evaluation(p). |
| Evaluator.EvaluationMirrorExactly | src/utils/chessAI.js:21-85 | Take mirrored positions with the other side to move and the same end-of-game flags. Their scores are negated if and only if the game is over, or the mobility weight is not positive, or both positions have the same difference between their own move count and their probed count. |
| Evaluator.SentinelDominates | src/utils/chessAI.js:23-25 | With the configured weights, a position that is not checkmate scores strictly between −10,000,000 and +10,000,000 when each side has at most 1000 moves. |
| Scores.Max | src/utils/chessAI.js:110 | Math.max: an upper bound of both arguments that is one of them. |
| Scores.Min | src/utils/chessAI.js:123 | Math.min: a lower bound of both arguments that is one of them. |
| ChessRules.Accepted | src/utils/chessAI.js:64 | What game.move(san) plays. When the engine reads the string as a legal move of the position, that move is played. Otherwise nothing is played (None). Any move played is legal and is the one read from the string. |
| ChessRules.Game.TryMove | src/utils/chessAI.js:64 | game.move with a typed string. It returns the accepted move and pushes it with its position. When nothing is accepted it returns None and leaves the stack and the history as they were. |
| ChessRules.Game.Move | src/utils/chessAI.js:107 | game.move with a move taken from game.moves(). It appends the move to the history and pushes the position it leads to. The stack stays in step with the history. |
| ChessRules.Game.Undo | src/utils/chessAI.js:109 | game.undo pops the last move and its position. With no history it changes nothing. |
| Search.FullWindow | src/utils/chessAI.js:157-163 | A fail-soft result under the window (−∞, +∞) is the exact value. |
| Search.MaxStep | src/utils/chessAI.js:110-114 | A maximizing iteration either keeps the loop invariant for the longer prefix or, at the cutoff, bounds the node from below by beta. |
| Search.MinStep | src/utils/chessAI.js:123-127 | The same for the minimizing loop, with the bound taken against alpha. |
| Search.MaxDone | src/utils/chessAI.js:116 | A maximizing loop that saw every move returns a fail-soft result for the node. |
| Search.MaxCutoff | src/utils/chessAI.js:112-113 | A beta cutoff returns a fail-soft lower bound. |
| Search.MinDone | src/utils/chessAI.js:129 | A minimizing loop that saw every move returns a fail-soft result for the node. |
| Search.MinCutoff | src/utils/chessAI.js:125-126 | An alpha cutoff returns a fail-soft upper bound. |
| Search.PrefixBound | src/utils/chessAI.js:105-116 | The best over a prefix of the moves is no better than the best over all of them. |
| Search.MaxIteration | src/utils/chessAI.js:106-115 | One pass of the maximizing loop keeps its invariant, or at a cutoff gives the node's fail-soft bound. |
| Search.MinIteration | src/utils/chessAI.js:119-128 | One pass of the minimizing loop keeps its invariant, or at a cutoff gives the node's fail-soft bound. |
| Search.Minimax | src/utils/chessAI.js:96-131 | Leaves the game as it found it. At depth 0 or in a finished game it returns exactly evaluatePosition, whatever the window. Otherwise the result is fail-soft against the plain minimax value: exact strictly inside (alpha, beta), a bound no higher than alpha below the window, and a bound no lower than beta above it. Under (−∞, +∞) the result equals the value. |
| Search.MaxNode | src/utils/chessAI.js:104-116 | Leaves the game unchanged. The result is fail-soft against the maximum over the children in move order. |
| Search.MinNode | src/utils/chessAI.js:117-130 | Leaves the game unchanged. The result is fail-soft against the minimum over the children in move order. |
| Search.Explore | src/utils/chessAI.js:107-109 | Move, search, undo leaves the game unchanged. The result is fail-soft against the child's value. |
| Search.ValueFinite | src/utils/chessAI.js:98-131 | When every position without moves is over, every minimax value is finite. The ±Infinity starting bounds never escape. |
| Search.ChildrenFinite | src/utils/chessAI.js:102-130 | Over a nonempty move list the folded best of finite child values is finite. |
| Search.ChildrenIsBest | src/utils/chessAI.js:104-130 | The folded best is beaten neither by the starting bound nor by any child. It is either the starting bound or some child's value. |
| Search.ChildrenPermutation | src/utils/chessAI.js:152 | Any permutation of the moves gives the same minimax value. Shuffling cannot change the score. |
| Search.RootChoice | src/utils/chessAI.js:155-177 | The root loop ends holding a score no child beats. If it holds a move, that move is the first in the shuffled order whose value is strictly best, and the score is that value. If it holds no move, the score is still the starting bound. |
| Search.RootScore | src/utils/chessAI.js:155-177 | The score the root loop keeps is the plain minimax best over the children. |
| Search.ChosenMoveIsOptimal | src/utils/chessAI.js:139-180 | In a position that is not over, the chosen move is legal and its value is the minimax value of the position at the requested depth, for every shuffle. |
| Search.FindBestMove | src/utils/chessAI.js:139-180 | Leaves the game unchanged. With one legal move it returns that move. Otherwise it returns the root loop's choice over the shuffled moves at depth − 1. Any move returned is legal. In a consistent engine, a move is always returned when moves exist. |
| Selector.SearchDepth | src/utils/chessAI.js:190-198 | Difficulties 1–5 search at their own depth. Anything else falls back to depth 3. The depth is always within 1..5. |
| Selector.RandomIndex | src/utils/chessAI.js:203 | floor(r·len) is a valid index for a draw r in [0, 1). |
| Selector.RandomMove | src/utils/chessAI.js:202-203 | Returns a legal move exactly when one exists. |
| Selector.DefaultLevel | src/config/aiSettings.js:4 | The default difficulty searches at depth 3 and never plays randomly. |
| Selector.GetBestMove | src/utils/chessAI.js:188-207 | Leaves the game unchanged. At difficulty below 3 with a first draw below 0.3, it returns the randomly indexed move. Otherwise it returns findBestMove's result at the mapped depth. With exactly one legal move it returns that move on either path. Any move returned is legal. In a consistent engine, a move is returned whenever moves exist. |

## Left out

- The chess rules are not modelled. Move generation, move application and the end-of-game flags are the uninterpreted functions of `ChessRules.Rules`. So is the engine's reading of a typed move string (`parse`), such as the SAN reader that accepts "e3" for a listed "e3+".
- The interface follows the chess.js 0.x API that `src/utils/chessAI.js` calls: `in_checkmate`, `in_draw`, `in_stalemate`, `in_threefold_repetition`, and `game_over` as checkmate or draw. In that API `move` returns null and changes nothing on an illegal move. `src/components/ChessGame.js` imports the later API (`isGameOver`, `isCheckmate`), where an illegal `move` throws instead. That behaviour is not modelled.
- The mobility probe's fresh game is set up from the position alone. The FEN clone in the source drops the move history, which affects only repetition draws, never the list of legal moves, so the clone is modelled as a new game at the same position.
- Evaluator.EvaluationMirror: holds only for two positions with equal move counts and equal probe counts. The e3 probe gives the colour-mirrored position a different count whenever the engine accepts 'e3' for one side but not the other. Example: White Ke1 and Pe2 against Black Ke8, White to move, scores 110 + 5·(6 − 5) = 115. Its mirror, Black Ke8 and Pe7 against White Ke1, Black to move, cannot play e3, so its mobility term is 0 and it scores −110, not −115. `Evaluator.EvaluationMirrorExactly` gives the exact condition, and `Evaluator.EvaluationAsymmetric` is one case of it. Unconditional symmetry is proved only without the mobility term (`Evaluator.EvaluationMirrorNoMobility`).
- The random sort on line 152 is modelled as an arbitrary permutation of the moves, passed in. That it is non-uniform is not modelled.
- The two Math.random() draws of getBestMove are passed in as reals in [0, 1).
- Scores are exact integers, not IEEE doubles. Every sum the evaluator forms stays far below 2^53, so nothing is rounded.
- The JavaScript default arguments are not modelled. `findBestMove` defaults depth to 3 and `getBestMove` defaults difficulty to `defaultDifficulty`. `Selector.DefaultLevel` states what the default difficulty does.
- Non-numeric difficulty keys, such as the string "2" looking up the depth table, are not modelled. Difficulty is an integer.
- ChessRules.Game.Move: requires a move from game.moves(), which is what every search call passes. The engine's handling of other strings is modelled by `ChessRules.Game.TryMove`.
- Search.FindBestMove: requires depth ≥ 1. With depth 0 the source calls minimax at depth −1, which never reaches zero and searches until the game ends. getBestMove always passes 1..5.
- Search.Minimax: requires alpha < beta. Every call in the source meets this: the root passes (−∞, +∞), and a child is searched only while the window is still open.
- The piece-square tables and the unused weights (material, position, kingProtection, pawnStructure), the opening book and the time control in `src/config/aiSettings.js` are never read by the search and are not modelled.
- The user-interface files (`src/App.js`, `src/components/ChessGame.js`) are not part of this model.
