# Chess core: board, pawn promotion and alpha-beta search

This project models the core of a two-player chess program in Dafny and proves
properties of the model:

- the 8×8 board, written in place (`Board.cs`);
- the pawn-promotion move (`Moves/PawnPromotion.cs`);
- the computer player (`AI.cs`). This covers the depth-3 minimax search with
  alpha-beta pruning and the leaf evaluation it scores positions with.

Modules:

- `Pieces`: the value types (player, piece kind, piece, position).
- `Layout`: the board as a value. A `Grid` is 64 optional pieces in row-major
  order, so cell `8*row + column` is square (row, column). The module also
  holds counting, the row-major scan, check detection and the `Counting`
  tally.
- `Boards`: the `Board` class over an `array2`, written in place. Each method is
  specified against the row-major snapshot `Cells()`.
- `Promotion`: the `PawnPromotionMove` value and its `Execute`, which rewrites
  a `Board`.
- `Search`: the search over an abstract game, given by a record of
  functions. It gives:
  - `AlphaBeta`: the pruned search, exactly as the program runs it;
  - `Minimax`: the unpruned reference;
  - `Search` and `GetBestMove`: the imperative search, proved equal to
    `AlphaBeta`.
- `Evaluation`: `EvaluateBoard` and its six terms. `ChessGame` plugs the
  evaluation into the search.

Some things the program calls are not part of this model:

- Piece move generation (`GetMoves`) and king-capture detection
  (`CanCaptureOpponentKing`) become two function parameters (`PieceRules`).
  A move is represented by the square it reaches.
- `GameState` follows the same approach. The search takes five function
  parameters: four from `GameState` (its legal-move list, making a move on a
  copy, game over, and the player to move) plus the leaf evaluation. `Evaluation.GameState` holds what the evaluation reads: the
  board, the player to move and the result.

Three points where the code differs from what a reader might expect:

- A search leaf is scored for the leaf state's own player to move.
- The material term is White minus Black, whatever player is evaluated.
- The development term looks at row 0 for White.

`EvaluateBoard` adds into a C# `int`. The code has no overflow guard:
every addition wraps modulo 2^32 (`Wrap32`). `CheckmateScoreWraps`
shows the effect: a won checkmate plus a positive remainder comes out
negative.

## Model

| member | source | states |
|---|---|---|
| Layout.IsInside | ChessLogic/Board.cs:62-65 | a position is inside exactly when its column is in 0..7 and its row-major index 8·row+column names one of the 64 cells |
| Layout.InsideIffOnBoard | ChessLogic/Board.cs:62-65 | a position is inside exactly when it is one of the 64 squares with row and column in 0..7 |
| Layout.CountUpdate | ChessLogic/Board.cs:57-60 | writing one cell changes a piece count only by what leaves that cell and what enters it |
| Layout.ScanSpec | ChessLogic/Board.cs:72-86 | the scan lists every selected cell exactly once, in strictly increasing row-major order, and no other cell |
| Layout.PiecePositionsForSpec | ChessLogic/Board.cs:88-91 | PiecePositions filtered to colour p, in order: the squares of exactly p's pieces, row-major, each once |
| Layout.InCheckSpec | ChessLogic/Board.cs:93-100 | p is in check iff some cell holds a piece of p's opponent that can capture p's king from there |
| Layout.Counting.Increment | ChessLogic/Board.cs:121 | the total and the tally of exactly the given colour and type each grow by one; every other tally is unchanged |
| Layout.TallyOfScan | ChessLogic/Board.cs:114-125 | tallying the occupied squares gives, per colour and type, the number of cells holding such a piece, and in total the number of occupied cells |
| Boards.StartCellShape | ChessLogic/Board.cs:30-55 | in the starting layout rows 0-1 are Black, rows 6-7 White, rows 2-5 empty, and the kings stand on cells 4 and 60 |
| Boards.StartGridPieceCount | ChessLogic/Board.cs:23-55 | the starting layout holds exactly 32 pieces, none on rows 2-5 |
| Boards.StartGridWhiteCount | ChessLogic/Board.cs:41-54 | White starts with 16 pieces |
| Boards.StartGridBlackCount | ChessLogic/Board.cs:32-53 | Black starts with 16 pieces |
| Boards.StartGridWhiteKing | ChessLogic/Board.cs:45 | White starts with exactly one king |
| Boards.StartGridBlackKing | ChessLogic/Board.cs:36 | Black starts with exactly one king |
| Boards.Board.constructor | ChessLogic/Board.cs:9 | a new board is 8×8 with every cell empty |
| Boards.Board.Get | ChessLogic/Board.cs:11-21 | the indexer reads the cell at row-major index 8·row+column |
| Boards.Board.Set | ChessLogic/Board.cs:11-15 | the row/column setter changes exactly the addressed cell; the other 63 keep their contents |
| Boards.Board.PlacePiece | ChessLogic/Board.cs:57-60 | exactly the cell at pos changes, to the given piece; the other 63 keep their contents |
| Boards.Board.Initial | ChessLogic/Board.cs:23-28 | a fresh board whose cells are the starting layout: Black R N B Q K B N R on row 0 and pawns on row 1, White pawns on row 6 and R N B Q K B N R on row 7, rows 2-5 empty |
| Boards.Board.AddStartPieces | ChessLogic/Board.cs:30-55 | rows 0, 1, 6 and 7 get the starting pieces, unmoved; rows 2-5 keep their contents |
| Boards.Board.PlaceBackRank | ChessLogic/Board.cs:32-48 | one row receives rook, knight, bishop, queen, king, bishop, knight, rook of one colour; no other cell changes |
| Boards.Board.IsEmpty | ChessLogic/Board.cs:67-70 | a square is empty iff PiecePositions does not list it |
| Boards.Board.PiecePositions | ChessLogic/Board.cs:72-86 | the nested row/column loop yields exactly the scan of occupied cells in row-major order |
| Boards.Board.PiecePositionsFor | ChessLogic/Board.cs:88-91 | the filter of PiecePositions by colour equals the row-major scan of that colour's pieces |
| Boards.Board.IsInCheck | ChessLogic/Board.cs:93-100 | true iff some opposing piece can capture the king from its square |
| Boards.Board.Copy | ChessLogic/Board.cs:102-112 | a new board, separate from the original, with every cell equal to the original's |
| Boards.Board.CopyThenPlace | ChessLogic/Board.cs:102-112 | writing to a copy leaves the original unchanged |
| Boards.Board.CountPieces | ChessLogic/Board.cs:114-125 | each (colour, type) tally equals the number of cells holding such a piece, and the total the number of occupied cells |
| Boards.Board.InsufficientMaterial | ChessLogic/Board.cs:127-137 | true iff exactly two pieces are on the board, whatever they are |
| Promotion.PromotedCells | ChessLogic/Moves/PawnPromotion.cs:15-23 | after a promotion the target holds a moved Queen of the pawn's colour, the source is empty unless it is the target, and no other cell changes |
| Promotion.PromotionDiscardsTarget | ChessLogic/Moves/PawnPromotion.cs:22 | whatever stood on the target, of any colour or kind, has no effect on the result |
| Promotion.PromotionPieceCount | ChessLogic/Moves/PawnPromotion.cs:15-23 | the number of pieces is kept, less one exactly when the target was occupied by another square's piece |
| Promotion.PawnPromotionMove.Type | ChessLogic/Moves/PawnPromotion.cs:5-13 | a promotion move (its source and target squares are the value's two fields) reports the pawn-promotion kind |
| Promotion.PawnPromotionMove.Execute | ChessLogic/Moves/PawnPromotion.cs:15-23 | with a piece on the source: source cleared, then a moved Queen of its colour on the target, nothing else changed; with an empty source the program fails, modelled as false with the board unchanged |
| Search.AlphaBeta | ChessLogic/AI.cs:16-75 | every score the search returns is a C# int |
| Search.AlphaBetaFailSoft | ChessLogic/AI.cs:16-75 | for any window inside the int range, a score at or below alpha bounds the minimax value from above, one at or above beta bounds it from below, and one strictly inside the window is exact |
| Search.MaxLoopFailSoft | ChessLogic/AI.cs:27-48 | while alpha is the node's alpha raised to the best score so far, the rest of the maximizing loop returns a fail-soft bound on the maximum over all children for the node's window |
| Search.MinLoopFailSoft | ChessLogic/AI.cs:52-73 | while beta is the node's beta lowered to the best score so far, the rest of the minimizing loop returns a fail-soft bound on the minimum over all children for the node's window |
| Search.RootScoreIsMinimax | ChessLogic/AI.cs:9-14 | from the window (int.MinValue, int.MaxValue) the pruned score equals the unpruned minimax value |
| Search.RootLoopAgrees | ChessLogic/AI.cs:27-48 | at the root the pruned loop picks the same move and score as the unpruned first-strict-maximum choice |
| Search.RootChoiceIsMinimax | ChessLogic/AI.cs:9-14 | the depth-3 full-window search returns exactly the move and score that unpruned minimax picks |
| Search.RootChoiceSpec | ChessLogic/AI.cs:27-48 | the unpruned choice scores the minimax value; its move is null iff that value is int.MinValue, and otherwise is the first legal move reaching it, every earlier move scoring strictly less |
| Search.MaxLoopSelection | ChessLogic/AI.cs:27-48 | the maximizing branch keeps its move unless a strictly higher score appears, and any move it returns is one it examined |
| Search.MinLoopSelection | ChessLogic/AI.cs:52-73 | the minimizing branch keeps its move unless a strictly lower score appears, and any move it returns is one it examined |
| Search.AlphaBetaMoveSpec | ChessLogic/AI.cs:16-75 | a leaf (depth 0 or game over) returns null and the evaluation for the state's player to move; a maximizing node returns null iff its score is int.MinValue, a minimizing node iff it is int.MaxValue; a non-null move is a legal move |
| Search.MaxLoopStopsAtCutoff | ChessLogic/AI.cs:41-45 | once beta <= alpha the maximizing loop stops: moves after the cutoff do not affect the result |
| Search.MinLoopStopsAtCutoff | ChessLogic/AI.cs:66-70 | once beta <= alpha the minimizing loop stops: moves after the cutoff do not affect the result |
| Search.Search | ChessLogic/AI.cs:16-75 | the recursive loop with running alpha and beta, strict improvement and break on cutoff computes AlphaBeta; alpha never decreases in the max branch and beta never increases in the min branch |
| Search.GetBestMove | ChessLogic/AI.cs:11-14 | the move is the first best move of unpruned depth-3 minimax, is legal when non-null, and is null when the game is over |
| Evaluation.Wrap32 | ChessLogic/AI.cs:77-99 | C# int wrap-around: the result is in range, congruent modulo 2^32 to its argument, and equal to it when it is in range |
| Evaluation.WrapAdd | ChessLogic/AI.cs:79-98 | wrapping after an addition to a wrapped total equals wrapping the exact total |
| Evaluation.MaterialAdvantage | ChessLogic/AI.cs:101-104 | a material term is a multiple of 10, positive exactly when White has more of that piece and zero exactly when the counts are equal |
| Evaluation.MaterialSpec | ChessLogic/AI.cs:81-104 | the five material terms add up to 10 × (White's non-king pieces − Black's), and do not depend on the evaluated player |
| Evaluation.Distance | ChessLogic/AI.cs:117 | a square's distance to (3, 3) lies in [0, 8] and is 0 only at (3, 3) |
| Evaluation.CenterControlBounds | ChessLogic/AI.cs:106-132 | each cell adds at most 8 in either direction |
| Evaluation.CenterControlSwap | ChessLogic/AI.cs:106-132 | with two colours, evaluating for the other player negates the center score |
| Evaluation.CenterControlScore | ChessLogic/AI.cs:106-132 | the double loop sums +distance over the player's pieces and −distance over the others |
| Evaluation.MobilityScore | ChessLogic/AI.cs:134-148 | the loop adds the number of pseudo-legal moves of each of the player's pieces, wrapping as a C# int; it is non-negative while that total fits |
| Evaluation.Development | ChessLogic/AI.cs:150-166 | ten points per own pawn on row 0 (White) or 7 (Black): a multiple of 10 in [0, 80] |
| Evaluation.DevelopmentScore | ChessLogic/AI.cs:150-166 | the column loop computes Development |
| Evaluation.CheckAndMate | ChessLogic/AI.cs:168-191 | int.MaxValue exactly when the player has won by checkmate and int.MinValue exactly when someone else has; in a running game the term is nonzero iff the player is in check, and positive iff it is also the player to move |
| Evaluation.CheckAndMateCases | ChessLogic/AI.cs:168-191 | checkmate: int.MaxValue to the winner, int.MinValue otherwise; stalemate or insufficient material: 0; a running game with the player in check: +1073741823 to the player to move, −1073741823 otherwise; else 0 |
| Evaluation.KingSafetyScore | ChessLogic/AI.cs:193-215 | −10 iff some opposing piece has a pseudo-legal move onto the player's king, otherwise 0 |
| Evaluation.AccumulateIsWrappedSum | ChessLogic/AI.cs:79-98 | a run of wrapping `+=` gives the exact sum wrapped once |
| Evaluation.ScoreSpec | ChessLogic/AI.cs:77-99 | the exact sum is material plus center, mobility, development, check-and-mate and king-safety terms |
| Evaluation.EvaluateBoard | ChessLogic/AI.cs:77-99 | the wrapped exact sum of the terms: equal to the exact sum when it fits in an int and otherwise differs from it by a multiple of 2^32 |
| Evaluation.CheckmateScoreWraps | ChessLogic/AI.cs:94 | a checkmate won by the player plus a positive remainder wraps past int.MaxValue to a negative score |
| Evaluation.ChessLeaf | ChessLogic/AI.cs:18-21 | in the chess search, at depth 0 or once the game has a result, a node of any window and either side answers null and EvaluateBoard for the state's own player to move |
| Evaluation.BestMove | ChessLogic/AI.cs:11-14 | on a chess state the chosen move is the first best move of depth-3 minimax, legal when non-null, and null once the game has a result |

## Left out

- `ChessUI/MainWindow.xaml.cs` and `ChessUI/ModeMenu.xaml.cs` are not part of this model. They are the window rendering, input handling and menus around the core.
- `GameState`, the `Piece` subclasses, `Counting` and `Position` are not part of this model.
  - Piece move generation and king capture are function parameters (`PieceRules`) with no rules invented.
  - `GameState` is the `Game` record of the search, or the plain `Evaluation.GameState` value.
  - `Counting` is a value with three fields.
- The other move variants (normal, double pawn advance, en passant, castling) are not modelled; only their names appear in `MoveType`.
- `GetMoves` yields move objects. They are represented by their target squares, which is all that `MobilityScore` (via their count) and `KingSafetyScore` (via `ToPos`) use.
- The search copies the whole state before each move. The model makes each move on a value, so the cost of the copying is not represented.
- `PawnPromotionMove.Execute`: with an empty source square the program throws a null dereference after clearing that (already empty) cell. The model returns false and leaves the board unchanged instead of modelling the exception.
- `Boards.Board.PlaceBackRank`:
  - The program writes each back rank with eight explicit `PlacePiece` calls. The model writes it as a loop over the same files in the same order, with the same pieces.
- `Search.MaxLoopSelection` does not prove that an inner maximizing node returns the first strictly highest move, nor that the returned move's child scored the result. That property is proved at the root only (`RootChoiceSpec`, `RootLoopAgrees`), since inner nodes discard their move: the recursive calls in `AI.cs` keep only `.Score` (lines 35 and 60). Inner nodes get the strict-improvement and legality facts.
- `Search.MinLoopSelection` does not prove that a minimizing node returns the first strictly lowest move, for the same reason.
- `Boards.Board.Get`, `Boards.Board.Set`, `Boards.Board.PlacePiece`, `Boards.Board.IsEmpty` and `Promotion.PawnPromotionMove` rule out off-board positions by a precondition (`Set`) or by the `Square` type (the others). In C# those accessors take any coordinates and throw an index-out-of-range exception off the board. Within the core every position passed to them comes from a 0..7 loop, from `PiecePositions` or from a move's squares.
- `Evaluation.MobilityScore`: the score is non-negative only while the move total fits in an int. Beyond that the C# sum wraps.
- `Evaluation.EvaluateBoard` is specified on the exact sum of its terms and then wrapped once. `AccumulateIsWrappedSum` shows that this equals wrapping at every `+=`.
- `Evaluation.MaterialAdvantage` is computed over unbounded integers. The C# product cannot overflow, because each piece count is at most 64.
