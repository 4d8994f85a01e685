# coding-primer in Dafny

A model of the logic in the coding-primer teaching projects, with proofs about it. It covers five parts:

- **Tetris engine.** The board grid with collision, placement and line clearing. Square piece grids that flip and rotate. The two-bag piece queue. The score table and the level progression. The game object, whose moves, flips, rotations with wall kicks, steps, drops and ticks are each proved to lead to the state a value-level rule prescribes (module `TetrisRules`). The rules keep the game invariant: unless the game is over, the falling piece overlaps neither a wall nor a filled slot.
- **Tic-tac-toe board** (`tictactoe2`). Win detection on the 3-by-3 corner, the range test and the fullness test.
- **Two 2D shape libraries.** The simulator's (`swerve/.../Shape.java`) and the visualizer's (`swervevisualizer/.../Shape.java`), each modelled as written. Both test segment intersection by Cramer's rule, with the determinant and parameters as in the source. Both test point-in-polygon by ray-crossing parity, rectangle containment, and intersection over all edge pairs. Coordinates are `real`.
- **Small numeric state.** The PID controller with its continuous-range error wrap. `Utils.modBetween`, with Java's `(int)` cast written out as truncation toward zero saturated at the 32-bit bounds. The rigid body's Euler step, friction and impulse. The algebraic part of `Vector2`.
- **Scene graph.** Entities with parent and children, kept in step by `addChild`, `removeChild`, `adopt` and `destroy`. A traversal updates the active part of the tree, parent first.

Some behaviours of the shape libraries look unintended, but they are modelled as written and proved:
- In the simulator a ray that passes exactly through a corner crosses no edge. So the centre of a square polygon is reported outside (`SwerveShapes.SquareCentreMissed`).
- The visualizer's rectangle test compares half of each coordinate with the full width. Its hit region is therefore four times as wide and high as the rectangle (`VisualizerShapes.RectangleHitRegion`).
- The visualizer's polygon test reports an even number of crossings as inside (`VisualizerShapes.TriangleOriginOutside`), although its own comment says an even count means outside.
- The visualizer's segment test checks only the parameter along the first segment, so the second segment acts as an infinite line (`VisualizerShapes.MeetingTheLine`).

Where the code throws an `IllegalArgumentException`, the model returns `None`, `null` or `false` and leaves the state as it was. This applies to `Score.calculateScore`, `Board.place`, `Bag.peekPiecePrototype`, the `Piece` string constructor, `Entity.addChild` and `Entity.removeChild`.

## Model

| member | source | states |
|---|---|---|
| TetrisPosition.Position.constructor | tetris/app/src/main/java/tetris/Position.java:19-22 | the coordinates are stored as given |
| TetrisPosition.Position.SetX | tetris/app/src/main/java/tetris/Position.java:32-34 | x takes the new value and y is unchanged |
| TetrisPosition.Position.SetY | tetris/app/src/main/java/tetris/Position.java:36-38 | y takes the new value and x is unchanged |
| TetrisPosition.Position.Add | tetris/app/src/main/java/tetris/Position.java:40-43 | each coordinate grows by its delta |
| TetrisScore.CalculateScore | tetris/app/src/main/java/tetris/Score.java:10-35 | points exist exactly for 0..4 lines: 0, 40, 100, 300 and 1200 points, zero exactly for zero lines; any other count, negative included, is the error case |
| TetrisScore.MoreLinesMorePoints | tetris/app/src/main/java/tetris/Score.java:19-29 | clearing more lines at once earns strictly more |
| TetrisScore.TogetherBeatsSeparately | tetris/app/src/main/java/tetris/Score.java:19-29 | two to four lines cleared together beat the same lines cleared one by one |
| TetrisScore.Score.constructor | tetris/app/src/main/java/tetris/Score.java:8 | the score starts at 0 |
| TetrisScore.Score.Clear | tetris/app/src/main/java/tetris/Score.java:37-39 | the score grows by exactly the table's points (a natural number, so it never falls); an out-of-table count is refused and nothing changes |
| TetrisLevel.LevelStep | tetris/app/src/main/java/tetris/Level.java:12-18 | the level rises by one exactly when the lines still to go reach zero, and otherwise stays |
| TetrisLevel.StartProgress | tetris/app/src/main/java/tetris/Level.java:9-10 | level 1 with 10 lines to go is the state after no cleared lines |
| TetrisLevel.StepKeepsProgress | tetris/app/src/main/java/tetris/Level.java:12-18 | with at most four lines per clear, the lines to go stay positive, and level n is left exactly when the total reaches 10 + 20 + ... + 10n |
| TetrisLevel.Level.constructor | tetris/app/src/main/java/tetris/Level.java:9-10 | level 1, 10 lines to the next level |
| TetrisLevel.Level.Clear | tetris/app/src/main/java/tetris/Level.java:12-18 | the new level and lines to go are those of LevelStep |
| TetrisPiece.Flipped | tetris/app/src/main/java/tetris/Piece.java:52-60 | the result is a square grid of the same size |
| TetrisPiece.FlipTwiceRestores | tetris/app/src/main/java/tetris/Piece.java:52-60 | flipping twice gives the original grid |
| TetrisPiece.RotateLeftUndoesRight | tetris/app/src/main/java/tetris/Piece.java:67-90 | a left turn undoes a right turn |
| TetrisPiece.RotateRightUndoesLeft | tetris/app/src/main/java/tetris/Piece.java:67-90 | a right turn undoes a left turn |
| TetrisPiece.RotateRightTwiceIsHalfTurn | tetris/app/src/main/java/tetris/Piece.java:67-75 | two right turns map slot (y, x) to (size-1-y, size-1-x) |
| TetrisPiece.RotateRightFourTimesRestores | tetris/app/src/main/java/tetris/Piece.java:67-75 | four right turns give the original grid |
| TetrisPiece.FlipKeepsFilledCount | tetris/app/src/main/java/tetris/Piece.java:52-60 | flipping keeps the number of filled slots |
| TetrisPiece.RotateRightKeepsFilledCount | tetris/app/src/main/java/tetris/Piece.java:67-75 | a right turn keeps the number of filled slots |
| TetrisPiece.RotateLeftKeepsFilledCount | tetris/app/src/main/java/tetris/Piece.java:82-90 | a left turn keeps the number of filled slots |
| TetrisPiece.LayoutGridAt | tetris/app/src/main/java/tetris/Piece.java:34-36 | character i of the layout decides slot (i / size, i % size): filled iff it is '.' |
| TetrisPiece.Piece.Share | tetris/app/src/main/java/tetris/Piece.java:17-20 | the piece holds the given grid object itself |
| TetrisPiece.Piece.Layout | tetris/app/src/main/java/tetris/Piece.java:23-37 | a fresh grid whose contents are LayoutGrid of the string |
| TetrisPiece.Piece.ParseSlots | tetris/app/src/main/java/tetris/Piece.java:33-36 | the loop over the string fills every slot as LayoutGrid says |
| TetrisPiece.Piece.FromLayout | tetris/app/src/main/java/tetris/Piece.java:23-37 | a piece exists exactly when size * size is the layout's length; the error case otherwise |
| TetrisPiece.Piece.Clone | tetris/app/src/main/java/tetris/Piece.java:39-41 | a new piece that shares the same grid object and contents |
| TetrisPiece.Piece.Get | tetris/app/src/main/java/tetris/Piece.java:47-50 | reads row y, column x |
| TetrisPiece.Piece.Flip | tetris/app/src/main/java/tetris/Piece.java:52-60 | a fresh grid holding Flipped of the old contents; the old grid object, which a clone may share, is never written |
| TetrisPiece.Piece.RotateRight | tetris/app/src/main/java/tetris/Piece.java:67-75 | a fresh grid holding RotatedRight of the old contents |
| TetrisPiece.Piece.RotateLeft | tetris/app/src/main/java/tetris/Piece.java:82-90 | a fresh grid holding RotatedLeft of the old contents |
| TetrisBoard.EmptyRows | tetris/app/src/main/java/tetris/Board.java:25-33 | height rows of width empty slots |
| TetrisBoard.NoHitsInBounds | tetris/app/src/main/java/tetris/Board.java:114-130 | a piece that does not collide lies wholly on the board |
| TetrisBoard.ClearRow | tetris/app/src/main/java/tetris/Board.java:52-75 | cleared iff the row is full; if not, nothing changes; if so, row 0 is empty, rows 1..y hold the old rows 0..y-1, and rows below y are unchanged |
| TetrisBoard.PlaceFrom | tetris/app/src/main/java/tetris/Board.java:88-107 | the rows cleared number at most the piece rows that hold a filled slot, since only such a row is checked for clearing; so at most the piece size |
| TetrisBoard.FilledRowsFrom | tetris/app/src/main/java/tetris/Board.java:92-100 | the number of piece rows from py on with a filled slot (the rows marked modified), at most the rows left |
| TetrisBoard.SpawnWithinWidth | tetris/app/src/main/java/tetris/Board.java:137-139 | a piece no wider than the board spawns inside it |
| TetrisBoard.SpawnFitsEmptyBoard | tetris/app/src/main/java/tetris/Board.java:114-139 | on an empty board a piece that fits the board's size does not collide at its spawn |
| TetrisBoard.PlaceKeepsNoFullRows | tetris/app/src/main/java/tetris/Board.java:81-108 | placing a piece keeps a board free of full rows |
| TetrisBoard.PlaceRowKeepsNoFullRows | tetris/app/src/main/java/tetris/Board.java:90-104 | placing one piece row keeps a board free of full rows |
| TetrisBoard.PlaceKeepsRowsBelow | tetris/app/src/main/java/tetris/Board.java:90-105 | rows below the piece's square are never touched |
| TetrisBoard.Board.constructor | tetris/app/src/main/java/tetris/Board.java:25-33 | every slot is empty |
| TetrisBoard.Board.Get | tetris/app/src/main/java/tetris/Board.java:43-46 | a slot of a new board reads empty, and a filled slot lies in a row that is not empty |
| TetrisBoard.Board.Set | tetris/app/src/main/java/tetris/Board.java:48-50 | only slot (x, y) changes |
| TetrisBoard.Board.TryToClearRow | tetris/app/src/main/java/tetris/Board.java:52-75 | the new rows and the flag are those of ClearRow |
| TetrisBoard.Board.Collides | tetris/app/src/main/java/tetris/Board.java:114-130 | true iff some filled piece slot falls outside the board or on a filled slot; the board is not modified |
| TetrisBoard.Board.Place | tetris/app/src/main/java/tetris/Board.java:81-108 | refused (and nothing changes) exactly when the piece collides; otherwise the new rows and the count are those of PlaceFrom |
| TetrisBoard.Board.StampPieceRow | tetris/app/src/main/java/tetris/Board.java:92-98 | every filled slot of the piece row is written as filled; the row counts as modified iff it has a filled slot |
| TetrisBoard.Board.NextPiecePosition | tetris/app/src/main/java/tetris/Board.java:137-139 | (width / 2 - size / 2, 0) |
| TetrisRowAliasing.SetAsWritten | tetris/app/src/main/java/tetris/Board.java:48-50 | writes through the row reference, so every slot sharing that array changes; the rows keep their references |
| TetrisRowAliasing.ClearRowAsWritten | tetris/app/src/main/java/tetris/Board.java:52-75 | the as-written clear keeps the store sound and the row count, and clears iff the row is full |
| TetrisRowAliasing.ClearSharesTopRows | tetris/app/src/main/java/tetris/Board.java:66-71 | after a clear as written, slots 0 and 1 refer to one row array |
| TetrisRowAliasing.ClearAsWrittenLosesTopRow | tetris/app/src/main/java/tetris/Board.java:61-72 | the clear as written equals the intended clear except that row 1 is emptied |
| TetrisRowAliasing.SharedRowCounterexample | tetris/app/src/main/java/tetris/Board.java:48-50 | a concrete board where a later write to row 0 also fills row 1 |
| TetrisBag.PrototypeSize | tetris/app/src/main/java/tetris/Bag.java:17-26 | every prototype has size between 2 and 4 |
| TetrisBag.RearrangedBag | tetris/app/src/main/java/tetris/Bag.java:40-45 | a rearrangement of a bag is a bag |
| TetrisBag.Overwritten | tetris/app/src/main/java/tetris/Bag.java:30-34 | every entry after the shuffle as written is one of the original entries |
| TetrisBag.ShuffleAsWritten | tetris/app/src/main/java/tetris/Bag.java:30-34 | the array after the loop is Overwritten of the old contents |
| TetrisBag.ShuffleAsWrittenLosesFirstPiece | tetris/app/src/main/java/tetris/Bag.java:30-45 | piece 0 never survives the shuffle as written, so no generated bag is a bag |
| TetrisBag.ShuffleAsWrittenExample | tetris/app/src/main/java/tetris/Bag.java:30-34 | with every pick 0 the bag is [6, 1, 2, 3, 4, 5, 6] |
| TetrisBag.Shuffle | tetris/app/src/main/java/tetris/Bag.java:30-34 | the intended shuffle keeps each entry exactly as often as before |
| TetrisBag.GeneratePieceIndices | tetris/app/src/main/java/tetris/Bag.java:40-45 | the intended generator: a fresh array holding each of the seven pieces once (the generator as written, which never yields piece 0, is GeneratePieceIndicesAsWritten) |
| TetrisBag.GeneratePieceIndicesAsWritten | tetris/app/src/main/java/tetris/Bag.java:40-45 | the as-written shuffle applied to 0..6 |
| TetrisBag.Upcoming | tetris/app/src/main/java/tetris/Bag.java:36-38 | the rest of this bag and then the next bag |
| TetrisBag.NextIndex | tetris/app/src/main/java/tetris/Bag.java:48 | the piece index read before the increment, the first upcoming piece |
| TetrisBag.Advanced | tetris/app/src/main/java/tetris/Bag.java:50-55 | the index stays within 0..6; at the end of the bag the next bag becomes current and a new one is made |
| TetrisBag.NextKeepsUpcomingOrder | tetris/app/src/main/java/tetris/Bag.java:47-57 | after a draw, the pieces that were to come after the drawn one are still to come, in order |
| TetrisBag.FreshBagHasEveryPiece | tetris/app/src/main/java/tetris/Bag.java:47-57 | from the start of a bag the next seven pieces are all seven |
| TetrisBag.PeekIndex | tetris/app/src/main/java/tetris/Bag.java:59-70 | defined exactly for in-range offsets; for n >= 0 it is the n-th upcoming piece |
| TetrisBag.UpcomingAfterDraws | tetris/app/src/main/java/tetris/Bag.java:47-57 | after k draws, the pieces that were upcoming from position k on are still upcoming, in order |
| TetrisBag.PeekIsNthDraw | tetris/app/src/main/java/tetris/Bag.java:47-70 | for every run of n draws within the two bags, the preview at offset n is the piece the (n+1)-th draw returns |
| TetrisBag.Bag.constructor | tetris/app/src/main/java/tetris/Bag.java:77-79 | a valid bag at index 0 |
| TetrisBag.Bag.MakePrototypes | tetris/app/src/main/java/tetris/Bag.java:17-25 | the seven pieces, each with its layout's grid |
| TetrisBag.Bag.Reset | tetris/app/src/main/java/tetris/Bag.java:72-75 | two new bags; the index is unchanged |
| TetrisBag.Bag.NextPiece | tetris/app/src/main/java/tetris/Bag.java:47-57 | a clone of the prototype of NextIndex; the bag state moves on as Advanced says |
| TetrisBag.Bag.PeekPiecePrototype | tetris/app/src/main/java/tetris/Bag.java:59-70 | the prototype at PeekIndex; the error case exactly where PeekIndex has none; nothing changes |
| TetrisRules.TicksPerUpdate | tetris/app/src/main/java/tetris/Game.java:48-50 | at least 1; 20 - level up to level 19 |
| TetrisRules.Move | tetris/app/src/main/java/tetris/Game.java:169-179 | the game invariant is kept |
| TetrisRules.Flip | tetris/app/src/main/java/tetris/Game.java:181-193 | the game invariant is kept |
| TetrisRules.FirstKick | tetris/app/src/main/java/tetris/Game.java:224-238 | a kick found fits, and its distance lies between the start distance and the size |
| TetrisRules.FirstKickIsFirst | tetris/app/src/main/java/tetris/Game.java:224-238 | kicks are tried -d before +d with d rising: every shorter kick fails both ways, a right kick is taken only if the left one fails, and none is found iff all fail |
| TetrisRules.TurnBackRestores | tetris/app/src/main/java/tetris/Game.java:240-243 | turning back undoes the turn |
| TetrisRules.Kicked | tetris/app/src/main/java/tetris/Game.java:210-247 | the game invariant is kept |
| TetrisRules.Rotate | tetris/app/src/main/java/tetris/Game.java:210-247 | the game invariant is kept |
| TetrisRules.Landed | tetris/app/src/main/java/tetris/Game.java:140-150 | the board has no full rows; the level progression is kept |
| TetrisRules.Spawned | tetris/app/src/main/java/tetris/Game.java:152-162 | the game invariant holds for the new piece: the game is over whenever it does not fit where it spawns |
| TetrisRules.Stepped | tetris/app/src/main/java/tetris/Game.java:135-167 | the game invariant is kept |
| TetrisRules.FirstCollision | tetris/app/src/main/java/tetris/Game.java:119-127 | a collision found lies below the board's height, and the piece fits one row above it |
| TetrisRules.FirstCollisionIsFirst | tetris/app/src/main/java/tetris/Game.java:119-127 | the piece fits at every offset before the one found, or at every offset if none is found |
| TetrisRules.Dropped | tetris/app/src/main/java/tetris/Game.java:113-128 | the game invariant is kept |
| TetrisRules.DropBlocked | tetris/app/src/main/java/tetris/Game.java:114-117 | a piece that cannot fall steps where it is |
| TetrisRules.DropFalls | tetris/app/src/main/java/tetris/Game.java:119-126 | the piece falls to just above its first collision and steps there |
| TetrisRules.DropStays | tetris/app/src/main/java/tetris/Game.java:119-128 | with no collision below the board's height, nothing happens |
| TetrisRules.Updated | tetris/app/src/main/java/tetris/Game.java:79-86 | the game invariant is kept |
| TetrisRules.UpdatedAsWritten | tetris/app/src/main/java/tetris/Game.java:79-86 | the game invariant is kept |
| TetrisRules.ResetEstablishesInv | tetris/app/src/main/java/tetris/Game.java:62-74 | a reset game satisfies the invariant and is not over |
| TetrisRules.LandingClearsAtMostFour | tetris/app/src/main/java/tetris/Game.java:140-148 | under the invariant a landing piece lies on the board (so the throw in place cannot happen) and clears at most four lines (so the throw in the score cannot happen) |
| TetrisRules.StepMonotone | tetris/app/src/main/java/tetris/Game.java:135-167 | score, lines and level never fall, and the level rises by at most one per step |
| TetrisRules.StepGameOver | tetris/app/src/main/java/tetris/Game.java:140-162 | the game becomes over iff the piece lands and the next one cannot spawn |
| TetrisRules.GameOverIsFinal | tetris/app/src/main/java/tetris/Game.java:135-138 | once over, a step changes nothing, and a drop or tick changes only the position and the counter |
| TetrisRules.UpdateApproachesStep | tetris/app/src/main/java/tetris/Game.java:79-86 | each tick without a step brings the next step one tick closer |
| TetrisRules.UpdateStepsWhenDue | tetris/app/src/main/java/tetris/Game.java:79-86 | once the counter reaches the period, a tick steps and restarts the counter |
| TetrisRules.LevelUpOvertakesCounter | tetris/app/src/main/java/tetris/Game.java:113-128 | a step that raises the level, taken with the counter at the period, leaves the counter past the new period |
| TetrisRules.UpdateAsWrittenStalls | tetris/app/src/main/java/tetris/Game.java:79-86 | as written, once the counter is past the period, no later tick steps |
| TetrisRules.ResetAsWrittenStaysOver | tetris/app/src/main/java/tetris/Game.java:62-74 | a reset as written of a finished game stays finished, and its steps change nothing |
| TetrisGame.Game.Deal | tetris/app/src/main/java/tetris/Game.java:66-73 | a new empty board, a new bag, its first piece at the spawn, and a zero score at level 1 |
| TetrisGame.Game.constructor | tetris/app/src/main/java/tetris/Game.java:52-54 | the new game satisfies the reset rule |
| TetrisGame.Game.Reset | tetris/app/src/main/java/tetris/Game.java:62-74 | the new state satisfies the reset rule, including not over |
| TetrisGame.Game.Install | tetris/app/src/main/java/tetris/Game.java:63-73 | the fields of a new game |
| TetrisGame.Game.Update | tetris/app/src/main/java/tetris/Game.java:79-86 | the new state is Updated of the old one; the bag moves on when the step lands |
| TetrisGame.Game.StepAndRestart | tetris/app/src/main/java/tetris/Game.java:80-82 | a step followed by a zero counter |
| TetrisGame.Game.RotateRight | tetris/app/src/main/java/tetris/Game.java:89-91 | Rotate to the right |
| TetrisGame.Game.RotateLeft | tetris/app/src/main/java/tetris/Game.java:93-95 | Rotate to the left |
| TetrisGame.Game.MoveRight | tetris/app/src/main/java/tetris/Game.java:97-99 | Move by (1, 0) |
| TetrisGame.Game.MoveLeft | tetris/app/src/main/java/tetris/Game.java:101-103 | Move by (-1, 0) |
| TetrisGame.Game.MoveDown | tetris/app/src/main/java/tetris/Game.java:105-107 | Move by (0, 1) |
| TetrisGame.Game.Flip | tetris/app/src/main/java/tetris/Game.java:109-111 | the Flip rule |
| TetrisGame.Game.Drop | tetris/app/src/main/java/tetris/Game.java:113-128 | the new state is Dropped of the old one |
| TetrisGame.Game.DropBlockedStep | tetris/app/src/main/java/tetris/Game.java:114-117 | Dropped, in the case where the piece cannot fall |
| TetrisGame.Game.DropFree | tetris/app/src/main/java/tetris/Game.java:119-127 | Dropped, in the case where the piece can fall |
| TetrisGame.Game.FallAndStep | tetris/app/src/main/java/tetris/Game.java:123-124 | a fall of k rows followed by a step |
| TetrisGame.Game.FindCollision | tetris/app/src/main/java/tetris/Game.java:119-127 | the loop finds FirstCollision |
| TetrisGame.Game.Step | tetris/app/src/main/java/tetris/Game.java:135-167 | the new state is Stepped of the old one |
| TetrisGame.Game.Fall | tetris/app/src/main/java/tetris/Game.java:163-166 | the piece is exactly one row lower |
| TetrisGame.Game.Land | tetris/app/src/main/java/tetris/Game.java:140-162 | the AfterPlace rule |
| TetrisGame.Game.PlacePiece | tetris/app/src/main/java/tetris/Game.java:141-150 | the Landed rule |
| TetrisGame.Game.PlaceOnBoard | tetris/app/src/main/java/tetris/Game.java:141-147 | the board and lines after PlaceFrom; at most four lines |
| TetrisGame.Game.ScoreLines | tetris/app/src/main/java/tetris/Game.java:148-150 | score and level take the cleared lines, and the period follows the level |
| TetrisGame.Game.SpawnNextPiece | tetris/app/src/main/java/tetris/Game.java:152-162 | the Spawned rule |
| TetrisGame.Game.Enter | tetris/app/src/main/java/tetris/Game.java:153-161 | the piece is at the spawn; over iff it collides there |
| TetrisGame.Game.DrawPiece | tetris/app/src/main/java/tetris/Game.java:152 | the prototype of the bag's next index |
| TetrisGame.Game.TryToMove | tetris/app/src/main/java/tetris/Game.java:169-179 | the new state is Move of the old one |
| TetrisGame.Game.TryToFlip | tetris/app/src/main/java/tetris/Game.java:181-193 | the new state is the Flip rule's |
| TetrisGame.Game.TryToRotate | tetris/app/src/main/java/tetris/Game.java:210-247 | the new state is Rotate of the old one |
| TetrisGame.Game.KickOrTurnBack | tetris/app/src/main/java/tetris/Game.java:220-244 | the first kick that fits, or the turn undone |
| TetrisGame.Game.TurnBack | tetris/app/src/main/java/tetris/Game.java:241-243 | the grid is back to what it was before the turn |
| TetrisGame.Game.Turn | tetris/app/src/main/java/tetris/Game.java:211-213 | the grid is turned in the given direction |
| TetrisGame.Game.FindKick | tetris/app/src/main/java/tetris/Game.java:224-238 | the loops find FirstKick |
| TetrisGame.Game.TryKicksAt | tetris/app/src/main/java/tetris/Game.java:225-237 | the kicks at one distance, to the left first |
| TicTacToe.WonByRowColumnOrDiagonal | tictactoe/tictactoe2/Board.java:46-83 | a win is exactly a full row, column or diagonal of the 3-by-3 corner |
| TicTacToe.BlankIsNotWon | tictactoe/tictactoe2/Board.java:8-19 | a blank board is won by nobody |
| TicTacToe.FullAsWrittenMissesDraw | tictactoe/tictactoe2/Board.java:85-95 | a drawn board fails the test as written, which a blank board passes |
| TicTacToe.Board.Grid | tictactoe/tictactoe2/Board.java:5-6 | the grid's cells are the array's |
| TicTacToe.Board.constructor | tictactoe/tictactoe2/Board.java:8-19 | every cell is empty |
| TicTacToe.Board.InRange | tictactoe/tictactoe2/Board.java:34-44 | exactly the indices the array accepts |
| TicTacToe.Board.InRangeAsWritten | tictactoe/tictactoe2/Board.java:34-36 | the intended range plus the column just past the end |
| TicTacToe.Board.InRangeAsWrittenAdmitsPastEnd | tictactoe/tictactoe2/Board.java:34-36 | column cols passes the test as written but is outside the board |
| TicTacToe.Board.Get | tictactoe/tictactoe2/Board.java:38-40 | the cell of the abstract grid; on a new board, the empty mark |
| TicTacToe.Board.Set | tictactoe/tictactoe2/Board.java:42-44 | Get reads the value back; no other cell changes |
| TicTacToe.Board.HasWon | tictactoe/tictactoe2/Board.java:46-83 | true iff the player has won |
| TicTacToe.Board.FullAsWritten | tictactoe/tictactoe2/Board.java:85-95 | true iff every cell is empty |
| TicTacToe.Board.Full | tictactoe/tictactoe2/Board.java:85-95 | true iff no cell is empty |
| Vectors.Vec.UnaryMinus | swerve/app/src/main/java/swervevisualizer/Vector2.java:31-33 | the additive inverse: adding the vector gives zero |
| Vectors.Vec.Dot | swerve/app/src/main/java/swervevisualizer/Vector2.java:35-37 | a vector's product with itself is never negative |
| Vectors.Vec.Plus | swerve/app/src/main/java/swervevisualizer/Vector2.java:39-41 | subtracting the addend from the sum gives back the vector |
| Vectors.Vec.Minus | swerve/app/src/main/java/swervevisualizer/Vector2.java:43-45 | the difference is zero exactly for equal vectors |
| Vectors.Vec.Times | swerve/app/src/main/java/swervevisualizer/Vector2.java:52-54 | scaling by 1 is the identity and by 0 gives zero |
| Vectors.Vec.Divide | swerve/app/src/main/java/swervevisualizer/Vector2.java:56-58 | scaling by the nonzero divisor gives back the vector |
| Vectors.Vec.CrossZ | swerve/app/src/main/java/swervevisualizer/Vector2.java:60-62 | zero for a vector and itself; the dot product with the other vector turned |
| Vectors.Vec.NinetyCounterClockwise | swerve/app/src/main/java/swervevisualizer/Vector2.java:87-89 | orthogonal to the vector and of the same squared length |
| Vectors.MinusUndoesPlus | swerve/app/src/main/java/swervevisualizer/Vector2.java:31-45 | minus undoes plus, and minus is plus of the negation |
| Vectors.DivideUndoesTimes | swerve/app/src/main/java/swervevisualizer/Vector2.java:31-58 | divide undoes times by a nonzero scalar; negation is times -1 |
| Vectors.TimesDistributes | swerve/app/src/main/java/swervevisualizer/Vector2.java:39-54 | a + a k = a (1 + k) |
| Vectors.ProductSymmetries | swerve/app/src/main/java/swervevisualizer/Vector2.java:35-62 | dot is symmetric; crossZ is antisymmetric and zero on equal vectors |
| Vectors.QuarterTurn | swerve/app/src/main/java/swervevisualizer/Vector2.java:60-89 | the quarter turn is orthogonal, twice negates, four times is the identity; crossZ(b) is the dot with b turned |
| Vectors.QuarterTurnIsClockwise | swerve/app/src/main/java/swervevisualizer/Vector2.java:87-89 | (1, 0) goes to (0, -1), and every nonzero vector turns clockwise |
| Vectors.Vector2.constructor | swerve/app/src/main/java/swervevisualizer/Vector2.java:19-21 | the components as given; the angle cache is stale |
| Vectors.Vector2.Update | swerve/app/src/main/java/swervevisualizer/Vector2.java:13-17 | the components as given; the angle cache is stale |
| Vectors.Vector2.PlusEquals | swerve/app/src/main/java/swervevisualizer/Vector2.java:47-50 | the receiver becomes the sum, even when other is the receiver, and is returned |
| Utils.Trunc | swervevisualizer/app/src/main/java/swervevisualizer/Utils.java:13 | truncation toward zero |
| Utils.IntCast | swervevisualizer/app/src/main/java/swervevisualizer/Utils.java:13-17 | a 32-bit value, the truncation where that fits |
| Utils.ModBetween | swervevisualizer/app/src/main/java/swervevisualizer/Utils.java:5-21 | the input shifted by a whole number of widths of the range, and the input itself for an empty range; that the result lands in (min, max] is ModBetweenInRange |
| Utils.ModBetweenShiftsByWholeWidths | swervevisualizer/app/src/main/java/swervevisualizer/Utils.java:10-18 | the result differs from the input by a whole number of widths |
| Utils.ShiftedPosition | swervevisualizer/app/src/main/java/swervevisualizer/Utils.java:13-14 | shifting by k widths moves the position by k |
| Utils.ModBetweenInRange | swervevisualizer/app/src/main/java/swervevisualizer/Utils.java:10-20 | for max > min and an unsaturated cast, the result lies in (min, max] |
| Utils.ModBetweenKeepsInRange | swervevisualizer/app/src/main/java/swervevisualizer/Utils.java:13-18 | inputs already in (min, max] come back unchanged |
| Utils.ModBetweenIdempotent | swervevisualizer/app/src/main/java/swervevisualizer/Utils.java:13-18 | wrapping twice is wrapping once; min maps to max |
| Utils.AngleModulusRadians | swervevisualizer/app/src/main/java/swervevisualizer/Utils.java:23-25 | the wrap over (-pi, pi]; its contract only names that wrap, and its range is stated by AngleModulusInRange |
| Utils.AngleModulusInRange | swervevisualizer/app/src/main/java/swervevisualizer/Utils.java:23-25 | the wrapped angle lies in (-pi, pi] when the cast does not saturate |
| Physics.Rigidbody.constructor | swervevisualizer/app/src/main/java/swervevisualizer/Rigidbody.java:12-33 | the pose, mass and inertia as given, at rest |
| Physics.Rigidbody.SetVelocity | swervevisualizer/app/src/main/java/swervevisualizer/Rigidbody.java:35-37 | only the velocity changes |
| Physics.Rigidbody.SetAngularVelocity | swervevisualizer/app/src/main/java/swervevisualizer/Rigidbody.java:39-41 | only the angular velocity changes |
| Physics.Rigidbody.SetPosition | swervevisualizer/app/src/main/java/swervevisualizer/Rigidbody.java:43-45 | only the position changes |
| Physics.Rigidbody.Update | swervevisualizer/app/src/main/java/swervevisualizer/Rigidbody.java:47-51 | position += velocity dt; the heading is the wrapped sum and lies in (-pi, pi] when the cast does not saturate; the velocities are unchanged |
| Physics.Rigidbody.Wrapped | swervevisualizer/app/src/main/java/swervevisualizer/Rigidbody.java:49-50 | the wrapped angle, in (-pi, pi] when the cast does not saturate |
| Physics.Rigidbody.ApplyFriction | swervevisualizer/app/src/main/java/swervevisualizer/Rigidbody.java:53-61 | both velocities scaled by 1 - friction dt; unchanged without friction |
| Physics.Rigidbody.ApplyImpulse | swervevisualizer/app/src/main/java/swervevisualizer/Rigidbody.java:63-66 | the velocities gain the impulse terms, and nothing else changes; unchanged with no force and no torque |
| Physics.Rigidbody.GetHeadingDegrees | swervevisualizer/app/src/main/java/swervevisualizer/Rigidbody.java:80-82 | a heading of pi is 180 degrees |
| Pid.WrappedError | swerve/app/src/main/java/swerve/PIDController.java:37-47 | the error, or the error moved by one width; unchanged when not continuous |
| Pid.WrappedErrorWithinHalfRange | swerve/app/src/main/java/swerve/PIDController.java:39-47 | an error within one width wraps to within half a width |
| Pid.WrappedErrorIdempotent | swerve/app/src/main/java/swerve/PIDController.java:39-47 | an error within half a width is not wrapped, so wrapping twice is wrapping once |
| Pid.Output | swerve/app/src/main/java/swerve/PIDController.java:50 | zero gains give zero output; a P-only controller gives kP times the error |
| Pid.ConstantErrorWindsUp | swerve/app/src/main/java/swerve/PIDController.java:49 | a constant error held n steps adds n times to the total |
| Pid.PIDController.constructor | swerve/app/src/main/java/swerve/PIDController.java:5-17 | the gains as given, no history, not continuous |
| Pid.PIDController.SetPID | swerve/app/src/main/java/swerve/PIDController.java:19-23 | only the gains change |
| Pid.PIDController.SetContinuous | swerve/app/src/main/java/swerve/PIDController.java:25-29 | continuous over the given range; nothing else changes |
| Pid.PIDController.Reset | swerve/app/src/main/java/swerve/PIDController.java:31-34 | total and previous error are zero and the history is empty; gains and range are untouched |
| Pid.PIDController.Calculate | swerve/app/src/main/java/swerve/PIDController.java:36-53 | the wrapped error joins the history; the total stays its sum and the previous error its last entry; output = kP e + kI total + kD (e - previous) |
| Segments.MeetsExactlyAtCramer | swerve/app/src/main/java/swerve/Shape.java:140-158 | two lines that are not parallel meet at exactly the parameters Cramer's rule gives |
| Segments.Cramer | swerve/app/src/main/java/swerve/Shape.java:148-155 | Cramer's rule for a 2-by-2 system, both directions |
| SwerveShapes.CoordinatesIntersect | swerve/app/src/main/java/swerve/Shape.java:140-158 | a crossing needs a nonzero determinant; what it means is LambdaGamma and CrossingMeansMeeting |
| SwerveShapes.LinesIntersect | swerve/app/src/main/java/swerve/Shape.java:160-176 | crossing segments have non-parallel directions, so neither is a single point |
| SwerveShapes.LambdaGamma | swerve/app/src/main/java/swerve/Shape.java:132-156 | lambda is the meeting parameter along the first segment and gamma one minus the parameter along the second |
| SwerveShapes.CrossingMeansMeeting | swerve/app/src/main/java/swerve/Shape.java:140-158 | true iff the segments are not parallel and meet strictly inside both |
| SwerveShapes.CrossingIsSymmetric | swerve/app/src/main/java/swerve/Shape.java:140-176 | the test does not depend on the order or the direction of the segments |
| SwerveShapes.SharedEndpointDoesNotCross | swerve/app/src/main/java/swerve/Shape.java:156 | segments that only share an endpoint do not cross |
| SwerveShapes.CrossingExamples | swerve/app/src/main/java/swerve/Shape.java:140-158 | the diagonals of a square cross; overlapping collinear segments do not |
| SwerveShapes.Edges.Point | swerve/app/src/main/java/swerve/Shape.java:27-29 | the point at any index around the ring is one of the ring's points |
| SwerveShapes.RingCloses | swerve/app/src/main/java/swerve/Shape.java:27-29 | point(i + n) is point(i), point(n) is point(0), and within the ring the listed points |
| SwerveShapes.Edges.Intersects | swerve/app/src/main/java/swerve/Shape.java:43-63 | true iff some pair of segments crosses, the other ring translated |
| SwerveShapes.Edges.RayCrossings | swerve/app/src/main/java/swerve/Shape.java:224-248 | exactly the segments the ray crosses |
| SwerveShapes.Edges.RayHit | swerve/app/src/main/java/swerve/Shape.java:224-250 | true iff the number of crossed segments is odd |
| SwerveShapes.Corners | swerve/app/src/main/java/swerve/Shape.java:188-202 | four corners, each at half the width and half the height from the centre |
| SwerveShapes.Shape.Hit | swerve/app/src/main/java/swerve/Shape.java:204-250 | the Inside predicate: never for rings and lines; the closed half-extent box for rectangles; odd crossings for polygons |
| SwerveShapes.Shape.Intersects | swerve/app/src/main/java/swerve/Shape.java:121-130 | the edges cross (other translated), or the offset point is inside this shape |
| SwerveShapes.RectangleIsBoxOfCorners | swerve/app/src/main/java/swerve/Shape.java:188-207 | the rectangle's hit region is the box its corners span |
| SwerveShapes.LinesAsShapes | swerve/app/src/main/java/swerve/Shape.java:77-130 | two lines intersect as shapes exactly when the segments cross |
| SwerveShapes.TriangleContainsOrigin | swerve/app/src/main/java/swerve/Shape.java:224-250 | a triangle around the origin contains it |
| SwerveShapes.SquareCentreMissed | swerve/app/src/main/java/swerve/Shape.java:224-250 | the centre of a square polygon is reported outside |
| SwerveShapes.RectangleShape.constructor | swerve/app/src/main/java/swerve/Shape.java:183-186 | the size as given, nothing cached |
| SwerveShapes.RectangleShape.GetEdges | swerve/app/src/main/java/swerve/Shape.java:188-202 | the corners, cached after the first call |
| SwerveShapes.RectangleShape.AsShape | swerve/app/src/main/java/swerve/Shape.java:178-207 | the value shape with the corners as edges |
| VisualizerShapes.CoordinatesIntersect | swervevisualizer/app/src/main/java/swervevisualizer/Shape.java:96-113 | a meeting needs a nonzero determinant; what it means is ParametersOnComponents and MeetingTheLine |
| VisualizerShapes.LinesIntersect | swervevisualizer/app/src/main/java/swervevisualizer/Shape.java:96-113 | a segment meets a line only when their directions are not parallel, so neither is a single point |
| VisualizerShapes.ParametersOnComponents | swervevisualizer/app/src/main/java/swervevisualizer/Shape.java:96-113 | the source's determinant and lambda are Cramer's, and the test is 0 <= lambda <= 1 |
| VisualizerShapes.MeetingTheLine | swervevisualizer/app/src/main/java/swervevisualizer/Shape.java:96-113 | true iff not parallel and the second segment's line meets the first segment, endpoints included |
| VisualizerShapes.LooserThanSwerve | swervevisualizer/app/src/main/java/swervevisualizer/Shape.java:106-112 | every crossing the simulator accepts is accepted here, but not conversely |
| VisualizerShapes.Edges.X | swervevisualizer/app/src/main/java/swervevisualizer/Shape.java:32-34 | the x coordinate at any index around the ring is one of the counted points' |
| VisualizerShapes.Edges.Y | swervevisualizer/app/src/main/java/swervevisualizer/Shape.java:36-38 | the y coordinate at any index around the ring is one of the counted points' |
| VisualizerShapes.Edges.Intersects | swervevisualizer/app/src/main/java/swervevisualizer/Shape.java:40-55 | true iff some wrapped pair of segments passes the test, untranslated |
| VisualizerShapes.Edges.RayCrossings | swervevisualizer/app/src/main/java/swervevisualizer/Shape.java:157-178 | exactly the segments the ray meets |
| VisualizerShapes.Edges.RayHit | swervevisualizer/app/src/main/java/swervevisualizer/Shape.java:157-180 | true iff the number of crossings is even |
| VisualizerShapes.Corners | swervevisualizer/app/src/main/java/swervevisualizer/Shape.java:125-136 | the same four corners, in the same order, as the simulator's |
| VisualizerShapes.Shape.Hit | swervevisualizer/app/src/main/java/swervevisualizer/Shape.java:138-180 | the Inside predicate: never for rings; half of each coordinate within the full extent for rectangles; even crossings for polygons |
| VisualizerShapes.Shape.Intersects | swervevisualizer/app/src/main/java/swervevisualizer/Shape.java:77-93 | the untranslated edges meet, or this centre relative to the other lies in the other |
| VisualizerShapes.RectangleHitRegion | swervevisualizer/app/src/main/java/swervevisualizer/Shape.java:138-141 | the hit region is the box of twice the width and height in each direction |
| VisualizerShapes.EmptyPolygonContainsEverything | swervevisualizer/app/src/main/java/swervevisualizer/Shape.java:157-180 | a polygon with no points contains every point |
| VisualizerShapes.TriangleOriginOutside | swervevisualizer/app/src/main/java/swervevisualizer/Shape.java:157-180 | the origin of a triangle around it is outside here and inside in the simulator |
| VisualizerShapes.RectangleShape.constructor | swervevisualizer/app/src/main/java/swervevisualizer/Shape.java:120-123 | the size as given, nothing cached |
| VisualizerShapes.RectangleShape.GetEdges | swervevisualizer/app/src/main/java/swervevisualizer/Shape.java:125-136 | the corners, cached after the first call |
| Entities.RemoveFirst | swervevisualizer/app/src/main/java/swervevisualizer/Entity.java:104 | the list without one occurrence of the entity, the other entries kept |
| Entities.RemoveFirstDistinct | swervevisualizer/app/src/main/java/swervevisualizer/Entity.java:104 | removing from a list without repeats leaves no copy and no repeats |
| Entities.RemoveAfterAppend | swervevisualizer/app/src/main/java/swervevisualizer/Entity.java:97-120 | removing a child just added gives back the old list |
| Entities.Entity.constructor | swervevisualizer/app/src/main/java/swervevisualizer/Entity.java:128-133 | active and childless; appended to a non-null parent's children; the graph stays consistent |
| Entities.Entity.SetActive | swervevisualizer/app/src/main/java/swervevisualizer/Entity.java:85-87 | only the flag changes |
| Entities.Entity.AddChild | swervevisualizer/app/src/main/java/swervevisualizer/Entity.java:111-120 | accepted iff the child has no parent; then it points at this entity and ends the list; a refused call changes nothing; the graph stays consistent |
| Entities.Entity.RemoveChild | swervevisualizer/app/src/main/java/swervevisualizer/Entity.java:97-105 | accepted iff the child's parent is this entity; then its parent is null and it is out of the list; a refused call changes nothing; the graph stays consistent |
| Entities.Entity.Adopt | swervevisualizer/app/src/main/java/swervevisualizer/Entity.java:89-95 | the child ends with this parent, at the end of the list; its old parent's list loses it; the graph stays consistent |
| Entities.Entity.Destroy | swervevisualizer/app/src/main/java/swervevisualizer/Entity.java:122-126 | no parent afterwards; the old parent's list loses it; the graph stays consistent |
| Entities.Entity.Update | swervevisualizer/app/src/main/java/swervevisualizer/Entity.java:145-153 | the entities updated, in order, are those of the walk: none when inactive, else this entity and then each child's walk |
| Entities.OneParentList | swerve/app/src/main/java/swervevisualizer/Entity.java:138-161 | no entity sits in two children lists, or twice in one |
| Entities.OnlyActiveUpdated | swerve/app/src/main/java/swervevisualizer/Entity.java:186-194 | every updated entity is active |
| Entities.ParentsFirst | swerve/app/src/main/java/swervevisualizer/Entity.java:186-194 | a walk that updates anything starts at the entity, and every other updated entity has its parent updated earlier |
| Entities.AllParentsFirst | swerve/app/src/main/java/swervevisualizer/Entity.java:189-192 | across siblings' walks, an entity's parent is the siblings' parent or comes earlier |

The two `Entity.java` files keep the same parent and children bookkeeping. The swerve copy (swerve/app/src/main/java/swervevisualizer/Entity.java:114-194) and the visualizer copy (lines 75-153) differ only in their transforms, so `Entities` models both.

## Left out

- Floating point: doubles are reals. Rounding, NaN, infinities and the bit-exact `det == 0` tests are not modelled.
- JavaFX drawing: every `draw`, `stroke`, `translate` and `rotate`, and the `Game` drawing constants.
- The console loops and `Board.print`.
- Trigonometry and square roots: `Vector2.magnitude`, `normalize`, `rescale`, `angle`, `rotate`, `fromPolar` and `unitCircle`; `Rigidbody.getHeadingVector`; `Entity.Rotation` and `Transform`.
- Vectors.Vector2: the cached angle itself is not modelled, only its dirty flag.
- Randomness: the index `random.nextInt(i)` draws is the `picks` parameter in the shuffle as written, and a nondeterministic choice in the intended shuffle.
- Java integer overflow: `Position.add`, the score and the line count are unbounded integers.
- Tetris `Piece.getSize` and `Board.getWidth`/`getHeight` are the constant fields `size`, `width` and `height`.
- TetrisBag.Bag: the prototypes are a constant field of each bag rather than a static array. They hold the same seven pieces.
- TetrisBag.GeneratePieceIndices: the bags the class deals come from the intended shuffle and hold all seven pieces. The shuffle as written never deals piece 0 (the O piece); that behaviour is modelled by `GeneratePieceIndicesAsWritten` and `ShuffleAsWrittenLosesFirstPiece`, not by the class.
- TetrisBag.Bag.constructor: builds its bags with the intended shuffle, as `GeneratePieceIndices` above.
- TetrisBag.Bag.Reset: refills its bags with the intended shuffle, as `GeneratePieceIndices` above.
- TetrisRules.UpdateAsWrittenStalls: the tick counters `ticksPerStep` and `ticksSinceLastStep` are unbounded integers. In Java they are `double`s, which hold every whole number up to 2^53 exactly. Past 2^53, `+= 1` no longer changes the counter, so it never wraps back and the stall is permanent in Java as well.
- TetrisGame.Game.Reset: it clears `gameOver`. The reset as written, which does not, is `TetrisRules.ResetAsWrittenRel`.
- TetrisGame.Game.Update: it steps once the counter has reached the period (`>=`). The test as written (`==`) is `TetrisRules.UpdatedAsWritten`.
- TetrisBoard.Board: the rows are values, the intended semantics of the row shift. The reference sharing the shift creates is modelled separately in `TetrisRowAliasing`.
- TetrisBoard.Board.Get: requires an index on the board; Java would throw an `ArrayIndexOutOfBoundsException`.
- TetrisBoard.Board.Set: requires an index on the board; Java would throw an `ArrayIndexOutOfBoundsException`.
- TicTacToe.Board.Get: requires an index on the board; Java would throw an `ArrayIndexOutOfBoundsException`.
- TicTacToe.Board.Set: requires an index on the board; Java would throw an `ArrayIndexOutOfBoundsException`.
- TicTacToe.Board.HasWon: requires at least three rows and three columns, as its fixed indices need.
- TicTacToe: the `App` constants `EMPTY`, `X` and `O` are inlined as `'_'`, `'X'` and `'O'`.
- Vectors.Vec.Divide: requires a nonzero scalar, where Java gives infinities or NaN.
- Physics.Rigidbody.ApplyImpulse: requires nonzero mass and moment of inertia, where Java gives infinities or NaN.
- Physics.Rigidbody: the body's vectors are values, so the aliasing of a `Vector2` passed to `setVelocity` or `setPosition` is not modelled. The visualizer's `Vector2` is not part of this model; the rigid body uses the simulator's vector algebra, which has the same operations.
- Utils.ModBetween: with an empty range Java divides by zero. The model returns the input, which is what every shift by a multiple of zero gives.
- TetrisBag.PeekIndex: gives `None` for every offset outside the two bags. In Java a negative `grabIndex + n` is not caught by the range test but throws `ArrayIndexOutOfBoundsException` at the array read; both are failures, and the model does not tell them apart. The same holds for `TetrisBag.Bag.PeekPiecePrototype`.
- SwerveShapes.Edges.Point: requires a nonempty ring; Java would divide by zero. `Intersects` and `RayHit` on an empty ring return false, as the source's loops, which never run, do.
- SwerveShapes.Shape: a `Line` is a value, so its setters are not modelled.
- VisualizerShapes.Edges: requires both arrays to hold `nPoints` entries (`WellFormed`), where Java would throw an `ArrayIndexOutOfBoundsException`.
- The visualizer `Polygon` constructor is its `Edges` value.
- Pid.PIDController.constructor: `minValue` and `maxValue` start at 0, the Java defaults.
- Entities.Entity.Update: the walk is bounded by a depth `fuel`, because `adopt` can close a cycle, and there the source recurses until its stack overflows. `updateLocal` and its `dt` argument are abstract in the source and are left out: the model returns the entities whose `updateLocal` runs. An `updateLocal` that changes the tree during the walk, which would throw a `ConcurrentModificationException` in Java, is not modelled.
- Entities: the graph an entity belongs to is a ghost set `world`, in which the consistency invariant is stated.
- The Tetris `App`, the Asteroids games, the swerve drive (`Swerve.java`, `SwerveModule.java`), `World.java` and the `Constants` files are not part of this model.

## Findings

| source | as written | input that shows it | evidently intended | confidence | as-written member | corrected member |
|---|---|---|---|---|---|---|
| tetris/app/src/main/java/tetris/Board.java:66-71 | the clear moves row references down, so rows 0 and 1 end up sharing one array; filling row 0 empties row 1 as well | width 1, height 3: fill (0, 2), clear row 2, then set (0, 0): rows 0 and 1 are both filled | rows above move down by value, and row 0 becomes a new empty row | high (not executed) | TetrisRowAliasing.SharedRowCounterexample | TetrisBoard.Board.TryToClearRow |
| tetris/app/src/main/java/tetris/Bag.java:30-34 | `array[random.nextInt(i)] = array[i]` overwrites instead of swapping, and slot 1 always overwrites slot 0 | any picks, for example all zero: the bag [6, 1, 2, 3, 4, 5, 6] | a Fisher-Yates shuffle, a permutation of the seven pieces | high (not executed) | TetrisBag.ShuffleAsWrittenLosesFirstPiece | TetrisBag.GeneratePieceIndices |
| tetris/app/src/main/java/tetris/Game.java:79-86 | a step is due only when the counter equals the period; a drop that raises the level while the counter is at the period leaves the counter past the new, shorter period, and the automatic fall then stops for good, since the `double` counter only grows | level 1 with at most four lines still to go to level 2, the tick counter equal to the period, and a drop whose landing clears those remaining lines | a step is due once the counter has reached the period | medium (not executed) | TetrisRules.UpdateAsWrittenStalls | TetrisRules.UpdateStepsWhenDue |
| tetris/app/src/main/java/tetris/Game.java:62-74 | reset re-creates everything but leaves `gameOver` set, so after a game over the new game never moves | reset after a game over, then any step | a reset game is not over | high (not executed) | TetrisRules.ResetAsWrittenStaysOver | TetrisRules.ResetEstablishesInv |
| tictactoe/tictactoe2/Board.java:34-36 | the column bound is inclusive | a move at column `cols` on row 0 passes the range test, and the `get` that App.java:43 then calls throws | `col < cols` | high (not executed) | TicTacToe.Board.InRangeAsWrittenAdmitsPastEnd | TicTacToe.Board.InRange |
| tictactoe/tictactoe2/Board.java:85-95 | `full` returns false at the first non-empty cell, so it holds exactly when the board is blank | the drawn board X O X / X O O / O X X is not "full", and a blank board is | true exactly when no cell is empty | high (not executed) | TicTacToe.FullAsWrittenMissesDraw | TicTacToe.Board.Full |
