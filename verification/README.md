# TetrisForTwo rules engine in Dafny

This project models the game rules of TetrisForTwo, a two-player falling-block game, and proves properties of them. The game has two modes. In versus mode, each player has an engine with a 10×20 board, a falling tetromino, a queued next piece, a score and a game-over flag. In co-op mode, both players steer single-cell pieces on one shared board towards a common score limit. A small session store holds the phase (ready, playing, ended) and the mode.

| file | module | models |
|---|---|---|
| `wrappers.dfy` | `Wrappers` | `Option` |
| `catalog.dfy` | `Catalog` | `client/src/lib/constants.ts`: board size, the seven shapes and colours, and the control table |
| `geometry.dfy` | `Geometry` | `client/src/lib/tetrisHelpers.ts`: empty boards, `checkCollision`, `rotateMatrix`, `getRandomTetromino` |
| `line_clear.dfy` | `LineClear` | what `lockPiece` does to a board: writing a piece, removing full rows, padding, scoring |
| `engine.dfy` | `Engine`, `EngineAsWritten` | `client/src/hooks/useTetris.ts`: the engine as class `Tetris`, and two defects as written |
| `view.dfy` | `View` | `client/src/components/GameBoard.tsx`: key decoding, fall speed, gravity timing, overlay, preview, and the versus board as class `VersusBoard` |
| `coop.dfy` | `Coop` | `client/src/components/CoopGameBoard.tsx`: the shared board as class `CoopGame` |
| `game_store.dfy` | `GameStore` | `client/src/lib/stores/useGame.tsx`: the phase and mode store as class `Store` |

How the model is built:
- Each object whose fields the source changes in place is a class whose methods change those fields: the engine, the co-op board, the versus board's gravity clock and the store.
- Each such method is proved against a pure specification function of the old state. Examples are `Engine.AfterMove`, `Engine.AfterRotate`, `Engine.Locked`, `Coop.AfterCoopMove`, `Coop.Placed` and `GameStore.Apply`.
- Lemmas about those functions state what the source promises: invariants kept, exact changes, the kick order, the score table, and the phase graph.
- The random choice of a piece is an arbitrary choice (`:|`).
- The source's resampling loops ("draw again until the kind differs from the partner's") become a choice of some kind that differs.
- `View.Decode` is the chain of key tests that both boards run (`GameBoard.tsx:85-115`, `CoopGameBoard.tsx:190-211`): the bindings are tried in the order move left, move right, move down, rotate left, rotate right, hard drop.
- `View.FallInterval` is the fall speed of `GameBoard.tsx:140`: 1000 ms, less 100 ms for every full 500 points, never below 100 ms.
- `Engine.SpawnOutcome` names what a spawn may leave behind (`useTetris.ts:58-85`); both `Engine.Tetris.SpawnPiece` and `Engine.Tetris.SpawnEffect` promise it.

Where the code differs from what a reader might expect, the model follows the code:
- The co-op board's pieces are single cells.
- There is no collision test between the two live co-op pieces.
- A co-op piece may spawn onto an occupied cell.
- The shared board never clears rows.
- A co-op hard drop places the piece where it stands.
- The versus engine spawns without checking anything but the collision at the spawn position.

## Model

| member | source | states |
|---|---|---|
| `Catalog.KindsComplete` | client/src/lib/constants.ts:45-95 | there are exactly seven kinds, each listed once, and each has a seven-character `#` colour code |
| `Catalog.ShapesAreSquareBitMatrices` | client/src/lib/constants.ts:48-84 | every shape is n×n with n in {2,3,4} and holds only 0s and 1s |
| `Catalog.ShapeHasFourCells` | client/src/lib/constants.ts:48-84 | every shape has exactly four filled entries, at the listed positions |
| `Catalog.ControlIndex` | client/src/lib/constants.ts:24-42 | each player's action names an existing entry of the control table |
| `Catalog.ControlKeysDistinct` | client/src/lib/constants.ts:6-22 | the table has 12 entries of one key each, and the keys are pairwise distinct |
| `Catalog.KeyBindsOneAction` | client/src/lib/constants.ts:6-42 | a key bound to two player/action pairs means those pairs are the same |
| `View.DecodeFindsBinding` | client/src/components/GameBoard.tsx:85-115 | the chain of key tests yields action a exactly when a's binding lists the key |
| `View.KeyDrivesOnePlayer` | client/src/components/CoopGameBoard.tsx:190-211 | no key drives an action of both players |
| `Geometry.EmptyGrid` | client/src/components/CoopGameBoard.tsx:7-8 | h rows of w cells, all empty |
| `Geometry.GenerateEmptyBoard` | client/src/lib/tetrisHelpers.ts:4-8 | BoardHeight rows of BoardWidth cells, all empty |
| `Geometry.CheckCollision` | client/src/lib/tetrisHelpers.ts:21-55 | the early-exit cell loop returns true exactly when some filled cell lands off the board or on an occupied cell |
| `Geometry.BlockedCellCollides` | client/src/lib/tetrisHelpers.ts:35-48 | a filled cell out of bounds, or on an occupied cell, is a collision |
| `Geometry.FreeIffAllCellsFree` | client/src/lib/tetrisHelpers.ts:28-54 | no collision exactly when every filled cell is in bounds and on an empty cell |
| `Geometry.CollisionSeesOnlyFilledCells` | client/src/lib/tetrisHelpers.ts:31 | shapes with the same filled cells collide at the same places, so 0-entries are never examined |
| `Geometry.RotateRight` | client/src/lib/tetrisHelpers.ts:63-69 | the clockwise turn is width×height and moves entry (y, x) to (x, h-1-y) |
| `Geometry.RotateLeft` | client/src/lib/tetrisHelpers.ts:70-77 | the counter-clockwise turn is width×height and moves entry (y, x) to (w-1-x, y) |
| `Geometry.RotateMatrix` | client/src/lib/tetrisHelpers.ts:58-80 | filling a fresh width×height array entry by entry yields the quarter turn in the given direction |
| `Geometry.LeftUndoesRight` | client/src/lib/tetrisHelpers.ts:63-77 | turning left after turning right gives back the matrix |
| `Geometry.RightUndoesLeft` | client/src/lib/tetrisHelpers.ts:63-77 | turning right after turning left gives back the matrix |
| `Geometry.FourTurnsIdentity` | client/src/lib/tetrisHelpers.ts:63-77 | four quarter turns in one direction give back the matrix |
| `Geometry.RotationKeepsCellCount` | client/src/lib/tetrisHelpers.ts:65-76 | a quarter turn keeps the number of filled cells |
| `Geometry.OShapeRotationFixed` | client/src/lib/constants.ts:65-68 | the O shape is unchanged by a quarter turn either way |
| `Geometry.CatalogShapeWellFormed` | client/src/lib/constants.ts:48-84 | every shape is rectangular, at most 4 wide, with four filled cells |
| `Geometry.GetRandomTetromino` | client/src/lib/tetrisHelpers.ts:11-18 | the pick carries the catalogue shape of its kind |
| `LineClear.PlaceWritesPieceCells` | client/src/hooks/useTetris.ts:219-230 | locking writes the kind into exactly the piece's own board cells (its filled shape cells shifted by the position) and leaves every other cell alone |
| `LineClear.PlaceFillsExactlyPieceCells` | client/src/hooks/useTetris.ts:219-230 | a piece that fits occupies exactly its own previously free cells, one block per filled shape cell |
| `LineClear.KeptIsRowsInOrder` | client/src/hooks/useTetris.ts:234-241 | the kept rows are rows of the input, in their original order |
| `LineClear.KeptIndicesAreNonFullRows` | client/src/hooks/useTetris.ts:234-241 | a row is kept exactly when it is not full |
| `LineClear.ClearLinesShape` | client/src/hooks/useTetris.ts:233-246 | after clearing, the board is still 10×20, the top k rows are empty (k = rows removed), the rest are the kept rows, and no row is full |
| `LineClear.ClearLinesIdempotent` | client/src/hooks/useTetris.ts:233-246 | clearing a cleared board changes nothing |
| `LineClear.ClearLinesNoFullRows` | client/src/hooks/useTetris.ts:233-246 | a board without full rows is left as it is, and no rows are counted |
| `LineClear.LineScore` | client/src/hooks/useTetris.ts:248-265 | k cleared rows score [0, 100, 300, 500, 800][k], and more than four score 0 |
| `Engine.SpawnPosition` | client/src/hooks/useTetris.ts:63-69 | a piece enters on row 0, inside the board, centred (rounded left) |
| `Engine.KickIndexIsFirstFit` | client/src/hooks/useTetris.ts:135-172 | the chosen offset is the first of 0, -1, -2, +1, +2 at which the turned shape fits |
| `Engine.KickedTriesOffsetsInOrder` | client/src/hooks/useTetris.ts:135-172 | a turn lands at the first fitting offset on the same row, and is refused exactly when no offset fits |
| `Engine.LockedValid` | client/src/hooks/useTetris.ts:213-271 | locking keeps the engine invariant, never lowers the score, and clears the falling piece |
| `Engine.LockAddsFourBlocks` | client/src/hooks/useTetris.ts:219-230 | before rows are cleared, locking adds exactly the piece's four cells to the occupied cells |
| `Engine.AfterMoveValid` | client/src/hooks/useTetris.ts:95-120 | a move that fits changes only the position, by (dx, dy); a blocked move changes nothing, except that a blocked downward move locks; the invariant holds after |
| `Engine.TurnedFits` | client/src/hooks/useTetris.ts:123-178 | a successful turn keeps the kind and row, has the turned shape with four cells, and fits |
| `Engine.AfterRotateValid` | client/src/hooks/useTetris.ts:123-178 | a failed rotation changes nothing; a successful one changes only the falling piece; the invariant holds after |
| `Engine.IdleIgnoresInput` | client/src/hooks/useTetris.ts:96-124 | with no falling piece, or once the game is over, moves and rotations change nothing and report false |
| `Engine.LandedUnique` | client/src/hooks/useTetris.ts:181-210 | a hard drop has exactly one landing distance |
| `Engine.OPieceDropsToFloor` | client/src/hooks/useTetris.ts:58-69 | on an empty board the O piece enters at (4, 0) and lands 18 rows lower |
| `Engine.Tetris.constructor` | client/src/hooks/useTetris.ts:40-46 | a new engine has an empty board, no pieces, score 0, not over |
| `Engine.Tetris.Reset` | client/src/hooks/useTetris.ts:49-55 | reset gives an empty board, no pieces, score 0, not over |
| `Engine.Tetris.SpawnPiece` | client/src/hooks/useTetris.ts:58-85 | the queued piece (or a random one) enters at the spawn position; if it collides there the game is over and no piece is installed; otherwise a new piece is queued |
| `Engine.Tetris.SpawnEffect` | client/src/hooks/useTetris.ts:88-92 | with no falling piece and the game not over, the queued piece (or any catalogue piece) enters at its spawn position, ending the game exactly when it collides there and otherwise queuing a new piece; in every other state nothing changes; afterwards there is a falling piece or the game is over |
| `Engine.SpawnedValid` | client/src/hooks/useTetris.ts:58-85 | a spawn keeps the engine invariant, leaves a falling piece or a finished game, and ends a running game exactly when the entering piece collides at its spawn position |
| `Engine.Tetris.MovePiece` | client/src/hooks/useTetris.ts:95-120 | the new state and result are AfterMove of the old state |
| `Engine.Tetris.RotatePiece` | client/src/hooks/useTetris.ts:123-178 | the new state and result are AfterRotate of the old state |
| `Engine.Tetris.HardDrop` | client/src/hooks/useTetris.ts:181-210 | the piece falls to its landing distance (returned) and is locked there; with no piece or game over nothing changes and 0 is returned |
| `Engine.Tetris.LockPiece` | client/src/hooks/useTetris.ts:213-271 | the new state is Locked of the old state, and the invariant holds |
| `Engine.TurnPiece` | client/src/hooks/useTetris.ts:126-177 | rotating, testing in place and then trying the kicks yields Turned |
| `Engine.WallKick` | client/src/hooks/useTetris.ts:137-172 | the two kick loops find the first fitting offset of -1, -2, +1, +2, or report that none fits |
| `Engine.WritePiece` | client/src/hooks/useTetris.ts:216-230 | the nested write loops yield Place of the board and piece |
| `Engine.RemoveFullRows` | client/src/hooks/useTetris.ts:232-241 | the filter loop keeps the non-full rows in order and counts the full ones |
| `Engine.PadTop` | client/src/hooks/useTetris.ts:243-246 | the unshift loop puts exactly enough empty rows on top to reach BoardHeight |
| `EngineAsWritten.CollisionAsCalledMissesFloor` | client/src/hooks/useTetris.ts:108-115 | the two-argument collision call misses a real collision with the floor |
| `EngineAsWritten.HardDropAsWritten` | client/src/hooks/useTetris.ts:187-204 | the loop as written counts at most one row per round, and while it is still running it has counted one row for every round |
| `EngineAsWritten.HardDropAsWrittenNeverStops` | client/src/hooks/useTetris.ts:187-204 | when the row below is free, the loop as written is still running after any number of rounds |
| `EngineAsWritten.HardDropAsWrittenSpinsAtSpawn` | client/src/hooks/useTetris.ts:181-210 | a spawned O piece on an empty board makes the loop as written run forever, while the intended drop lands it 18 rows down |
| `View.FallIntervalRange` | client/src/components/GameBoard.tsx:140 | the fall interval lies in [100, 1000], is 1000 below 500 points, and is 100 exactly from 4500 points on |
| `View.FallIntervalNonIncreasing` | client/src/components/GameBoard.tsx:140 | a higher score never gives a longer interval |
| `View.DueAfterInterval` | client/src/components/GameBoard.tsx:133-145 | the first frame never steps; later frames step exactly when more than the interval has passed since the reference time |
| `View.FlatIndexIsCell` | client/src/components/GameBoard.tsx:181-183 | flat index i is column i mod 10 of row i div 10, both inside the board |
| `View.CoversCell` | client/src/components/GameBoard.tsx:189-202 | the loops over the shape raise the flag exactly when a filled shape cell lies on (x, y) |
| `View.DisplayCell` | client/src/components/GameBoard.tsx:181-204 | a cell shows the falling piece's kind where the piece covers it, and the board cell otherwise |
| `View.OverlayIsPlacement` | client/src/components/GameBoard.tsx:189-204 | the overlay shows exactly the board the piece would leave if it were written in where it is |
| `View.PreviewShowsWholePiece` | client/src/components/GameBoard.tsx:260-281 | for every kind, the 4×4 preview lights exactly the shape's filled cells shifted by the offsets, all inside the grid |
| `View.VersusBoard.constructor` | client/src/components/GameBoard.tsx:19-29 | the board takes its player, engine and running flag, and the gravity clock starts with no reference time |
| `View.VersusBoard.SetPlaying` | client/src/components/GameBoard.tsx:58-62 | the running flag follows the parent; when the session starts running the engine is reset to an empty round, otherwise the engine is unchanged |
| `View.VersusBoard.Frame` | client/src/components/GameBoard.tsx:129-148 | a frame steps exactly when the session is running, the game is not over and a step is Due at the current score's interval; a step is a one-row move down and stores the timestamp as the reference; a board that is not listening changes nothing; otherwise the engine is unchanged |
| `View.VersusBoard.HandleKey` | client/src/components/GameBoard.tsx:65-116 | while the session is running and the game is not over, a key drives the engine call of its binding, and feedback is the move or rotation result, or for a hard drop whether the piece fell at least one row; otherwise, or for an unbound key, nothing changes and there is no feedback |
| `View.LandedMovedIffRowBelowFree` | client/src/components/GameBoard.tsx:112-114 | a hard drop falls at least one row exactly when the row below is free |
| `Coop.SpawnColumn` | client/src/components/CoopGameBoard.tsx:77-87 | a spawn column lies inside the board |
| `Coop.SpawnColumnsApart` | client/src/components/CoopGameBoard.tsx:77-87 | player 1 spawns at or left of player 2, and at a different column exactly when the board is at least 2 wide |
| `Coop.CoopMoveChangesOnlyOwnPiece` | client/src/components/CoopGameBoard.tsx:91-129 | a move succeeds exactly when the player has a piece and the target is a free board cell; it then changes only that piece's position; a failed move changes nothing |
| `Coop.WriteCellOccupies` | client/src/components/CoopGameBoard.tsx:137-139 | writing a piece occupies exactly its cell and keeps the grid's size |
| `Coop.PlaceWritesOneCell` | client/src/components/CoopGameBoard.tsx:132-181 | placing occupies exactly the piece's cell and adds 100; at the limit the session ends and no new piece comes; otherwise the new piece enters at the player's spawn column on row 0, with a kind other than the partner's |
| `Coop.PlacementsToWin` | client/src/components/CoopGameBoard.tsx:132-151 | from a running session at score 0, after n placements by the two players in any order, the score is 100·n and the session is still running exactly when 100·n is below the limit, so a limit L takes L/100 placements, rounded up |
| `Coop.ScoreLimitAsWrittenNeverEnds` | client/src/components/CoopGameBoard.tsx:146-151 | the limit test as written never fires: score 400 to 500 under an intended limit of 500 keeps the session running |
| `Coop.PlaceEndsAtLimit` | client/src/components/CoopGameBoard.tsx:146-151 | after a placement the session is running exactly when it was running before and the new score is still below the limit |
| `Coop.OtherKind` | client/src/components/CoopGameBoard.tsx:73-75 | for every kind there is another kind, so the resampling loops can finish |
| `Coop.CoopGame.constructor` | client/src/components/CoopGameBoard.tsx:35-50 | a new co-op board is empty, with no pieces and score 0 |
| `Coop.CoopGame.Start` | client/src/components/CoopGameBoard.tsx:53-59 | starting empties the board, spawns both pieces and sets the score to 0 |
| `Coop.CoopGame.SpawnNewPieces` | client/src/components/CoopGameBoard.tsx:68-88 | player 1 gets a piece at (w/4, 0) and player 2 at (3w/4, 0), of two different kinds |
| `Coop.CoopGame.MovePiece` | client/src/components/CoopGameBoard.tsx:91-129 | the new state and result are AfterCoopMove of the old state |
| `Coop.CoopGame.PlacePiece` | client/src/components/CoopGameBoard.tsx:132-181 | the new state is Placed of the old state, for some new kind other than the partner's; without a piece nothing changes |
| `Coop.CoopGame.FallOrPlace` | client/src/components/CoopGameBoard.tsx:238-250 | a player's piece moves one row down when it can, and is placed exactly when it cannot |
| `Coop.CoopGame.Frame` | client/src/components/CoopGameBoard.tsx:225-257 | a frame of the running session steps exactly when more than 1000 ms have passed since the reference; a step stores the timestamp; no step changes nothing |
| `Coop.CoopGame.PlayerKey` | client/src/components/CoopGameBoard.tsx:190-200 | a player's bound move key tries the move, and the hard-drop key places the piece; any other key does nothing |
| `Coop.CoopGame.HandleKey` | client/src/components/CoopGameBoard.tsx:184-212 | while running, a key acts for the one player whose binding lists it; otherwise nothing changes |
| `GameStore.PhaseTransitions` | client/src/lib/stores/useGame.tsx:23-49 | playing is entered only from ready by start and ended only from playing by end; restart gives ready; setMode changes only the mode |
| `GameStore.PlayingNeedsStart` | client/src/lib/stores/useGame.tsx:23-31 | a session not playing reaches playing only through a start |
| `GameStore.EndedPlaysAgainOnlyAfterRestart` | client/src/lib/stores/useGame.tsx:23-45 | an ended session plays again only after a restart followed later by a start |
| `GameStore.Store.constructor` | client/src/lib/stores/useGame.tsx:20-21 | a new store is ready, in versus mode |
| `GameStore.Store.Start` | client/src/lib/stores/useGame.tsx:23-31 | start moves ready to playing and leaves every other phase alone |
| `GameStore.Store.Restart` | client/src/lib/stores/useGame.tsx:33-35 | restart sets the phase to ready from any phase |
| `GameStore.Store.End` | client/src/lib/stores/useGame.tsx:37-45 | end moves playing to ended and leaves every other phase alone |
| `GameStore.Store.SetMode` | client/src/lib/stores/useGame.tsx:47-49 | setMode changes the mode and never the phase |

## Left out

- Rendering is not modelled: JSX, styles, colours as CSS, the 3D scene, `Piece.tsx` and `GameUI.tsx`. The co-op board's cell colouring is left out for the same reason.
- Audio is not modelled: `playHit`, `playSuccess` and the background music. `View.VersusBoard.HandleKey` returns as `feedback` whether a hit sound would play.
- Browser I/O is not modelled: registering and removing key listeners, `preventDefault`, `requestAnimationFrame`, and console logging. Each key press and each animation frame is a method call.
- Timestamps are integers; the source's are floating-point milliseconds.
- The distribution of `Math.random` is not modelled. A random kind is an arbitrary kind. The co-op draw-again loops become a choice of any kind other than the partner's; whether such a loop terminates depends on the random source.
- React scheduling is not modelled. Each callback is one atomic step on the current state, so stale closures are not captured. For example, when both co-op pieces are placed in one gravity frame, the source's second placement reads the score from before the first, so the total rises by only 100. `Engine.Tetris.HardDrop` is affected the same way: `hardDrop` calls the `lockPiece` closure of the same render (`useTetris.ts:207`), which still holds the piece at its starting row. Even with the probe fixed, the source would lock the piece where it started. The model locks it at the landing row.
- Aliasing of board rows is not modelled. `lockPiece` and the co-op `placePiece` copy the board shallowly (`[...board]`) and then write into rows that the previous board state shares. The model works on sequence values, so the earlier state's rows stay unchanged.
- `Engine.TurnPiece`, `Engine.WallKick`, `Engine.WritePiece`, `Engine.RemoveFullRows` and `Engine.PadTop` are pulled out of `rotatePiece` and `lockPiece` as methods on values, so that the class methods stay small. They run the same loops and tests.
- `View.CoversCell` is pulled out of the cell loop in the same way.
- The hard-drop grace window is not modelled. `GameBoard.tsx` reads `isHardDropping`, which the engine never provides, so the game-loop guard at `GameBoard.tsx:130` only tests `isPlaying` and `isGameOver`. `View.VersusBoard.Listening` models those two tests.
- The key tables are not the ones the components import. `GameBoard.tsx` and `CoopGameBoard.tsx` import `KEYBOARD_CONTROLS`, which `constants.ts` does not export. The model reads each binding from `CONTROLS` via the `PLAYER_CONTROLS` names (`Catalog.KeysFor`).
- The versus board's sync effects are not modelled: copying the score and game-over flag up to the parent (`GameBoard.tsx:46-55`). The parent's `isGameOver` prop is taken to be the engine's own `gameOver` flag, which that effect copies up.
- `View.FlatIndexIsCell` and `View.DisplayCell` fix the `boardWidth` prop of `GameBoard.tsx:182-183` to `BoardWidth` (10). `TetrisGame.tsx` renders the board without passing that prop, so in the source the division is by an undefined value.
- The co-op `playing` field stands for the `isPlaying` prop. The store's `end()` turns that prop false, so `Coop.CoopGame.PlacePiece` clears the field at the limit. The store itself is `GameStore.Store`.
- The session controller in `TetrisGame.tsx` is not part of this model: the start countdown, and the restart when both players are over.
- `Coop.CoopGame.Frame`: its contract states when a step fires, the new reference time, and that the score never falls. What each player's step does is stated by `Coop.CoopGame.FallOrPlace` and not repeated.
- `View.VersusBoard.HandleKey`: for a hard drop it states only the feedback. The engine's new state is stated by `Engine.Tetris.HardDrop`.
- `Coop.SpawnColumn`: its contract states only that the column lies inside the board. Where the two columns sit relative to each other is stated by `Coop.SpawnColumnsApart`.

## Findings

| source | as written | input that shows it | evidently intended | confidence | as-written member | corrected member |
|---|---|---|---|---|---|---|
| client/src/hooks/useTetris.ts:109 | `checkCollision(board, piece)` passes the piece object where a shape is expected and no offsets, so the row loop never runs and the answer is always false (same at lines 72, 135, 149, 165, 198) | the O piece at (4, 19) on an empty board overlaps the floor, but the call reports no collision | `checkCollision(board, piece.shape, piece.position.x, piece.position.y)` | not executed | `EngineAsWritten.CollisionAsCalledMissesFloor` | `Geometry.CheckCollision` |
| client/src/hooks/useTetris.ts:187-204 | every round tests `activePiece.position.y + 1` of the captured piece, so the probe never moves down and the loop never ends while that row is free | a freshly spawned O piece at (4, 0) on an empty board | advance the probe one row per round and stop at the first blocked row (18 rows for that O piece) | not executed | `EngineAsWritten.HardDropAsWrittenSpinsAtSpawn` | `Engine.Tetris.HardDrop` |
| client/src/components/CoopGameBoard.tsx:147 | `newScore >= scoreLimit` compares against `scoreLimit` read from the store at line 33, which `useGame.tsx:7-16` does not define, so the test is always false and the session never ends | score 400, one placement to 500, intended limit 500: the session keeps running | end the session once the score reaches a positive limit | not executed | `Coop.ScoreLimitAsWrittenNeverEnds` | `Coop.PlaceEndsAtLimit` |
