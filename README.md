# Tootris game engine, modelled in Dafny

Tootris is a terminal falling-block game written in Rust. This project models its engine
(`src/game/`) and two self-contained routines of its user interface, and proves properties of the
model.

- **`Tootris` (tootris.dfy).** The shared vocabulary:
  - block colours, cell kinds (`GameBlock`, whose equality looks only at the variant) and points;
  - the four orientations and the rotation algebra `Rotation::perform`;
  - player moves, UI commands, game states and the UI-to-master message.
- **`PieceTypes` (piece_types.dfy).** The piece catalog:
  - the seven tetromino tables and the game-over banner;
  - `double_vec!`, `get_piece_map` and `get_piece_def`;
  - the block-to-character map.
- **`Pieces` (piece.dfy).** Piece geometry:
  - a `Piece` class whose methods rotate, move and roll back in place and refill the current matrix in nested loops;
  - a `PieceView` value, which is its field snapshot;
  - functions for the anchor point, the occupied points and the x/y boundary points;
  - writing a piece into a playfield and erasing it again.
- **`GameSpec` (game_spec.dfy).** The game master's behaviour written as functions on a `Game` value:
  - the bordered playfield and collision;
  - moves with rollback and freezing a piece;
  - the completed-row scan, the clearance with compaction, and scoring and speed;
  - the piece bucket;
  - the transitions between Start, Playing, Tootris, Paused, End and Exit.

  The invariant `ValidGame` is proved preserved by every step.
- **`GameLoopController` (game_loop_controller.dfy).** The game master `EvilGameMaster` as a class. Its fields are the level, the completed rows, the active piece, the speed, the score, the bucket and the state. Its methods update them in place, with loops where the source loops. Each method is proved to implement a `GameSpec` function. Most share the method's name. The exceptions: `Exit` implements `ExitGame`, `PlayActivePiece` implements `PlayingStep`, `ProcessGame` implements `Step`, `CreateLevelBoundaries` implements `Boundaries`, and `FindCompletedRows` appends `CompletedRows`. The collision queries and `SendRenderUpdate` are stated through `Colliding` and `Placed`.
- **`SimpleCommandUi` (simple_command_ui.dfy).** The text command parser. It splits a line on `,` and looks up every token in the alias tables. The moves it recognises go to the game master in input order.
- **`CrosstermRender` (crossterm_render.dfy).** The renderer's colour map. It also covers the cell-by-cell diff that `update_matrix` makes between the grid last drawn and a new one, with border cells never redrawn.
- **`Wrappers` (wrappers.dfy).** `Option`.

Time, randomness and the message channels are parameters:
- A step receives whether the tick interval has elapsed (or the elapsed milliseconds, in the class).
- A step receives the message read from the UI, if any.
- A step receives a sequence of random draws `(colour index 0..5, shape index 0..6)` to refill the bucket.
- An outbound render snapshot is a method result; the render channel itself is not modelled.

## Model

| member | source | states |
|---|---|---|
| Tootris.SameKindIsSameConstructor | src/game/tootris.rs:31-35 | two blocks are equal exactly when they have the same variant, whatever their colours or text |
| Tootris.SameKindIgnoresColor | src/game/tootris.rs:31-35 | `Filled(c) == Filled(d)` for all colours (so `Filled(Blue) == Filled(Magenta)`), `Filled(_) != Empty`, `Origin != Filled` |
| Tootris.SameKindIsEquivalence | src/game/tootris.rs:31-35 | block equality is reflexive, symmetric and transitive |
| Tootris.SameKind | src/game/tootris.rs:31-35 | block equality compares the variants only; its meaning is stated by `SameKindIsSameConstructor`, `SameKindIgnoresColor` and `SameKindIsEquivalence` |
| Tootris.GetColor | src/game/tootris.rs:38-43 | returns a colour exactly for `Filled` blocks, and then that block's colour |
| Tootris.IsAny | src/game/tootris.rs:45-52 | true iff some element of `of` has the same variant as the block |
| Tootris.ForwardCycle | src/game/tootris.rs:104-111 | `Forward` takes Normal to Forward to UpsideDown to Backwards to Normal |
| Tootris.BackwardInvertsForward | src/game/tootris.rs:96-111 | `Backward` undoes `Forward` and `Forward` undoes `Backward`, from every orientation |
| Tootris.Perform | src/game/tootris.rs:94-116 | a relative turn (`Forward`, `Backward`) always changes the orientation; the cycle, the inverse and the absolute rotations are the lemmas around it |
| Tootris.ForwardFourTimes | src/game/tootris.rs:104-111 | four `Forward` rotations are the identity |
| Tootris.AbsoluteRotations | src/game/tootris.rs:112-115 | `OrientLeft`, `OrientRight`, `OrientUp` and `OrientDown` give Backwards, Forward, Normal and UpsideDown from any orientation |
| Tootris.CommuniqueFlagsIndependent | src/game/tootris.rs:217-225 | `is_command` holds iff a command is set and `is_player_move` iff a move is set, independently of each other |
| Tootris.Ui2MasterCommunique.IsPlayerMove | src/game/tootris.rs:217-219 | a move is set; stated with `CommuniqueFlagsIndependent` |
| Tootris.Ui2MasterCommunique.IsCommand | src/game/tootris.rs:221-223 | a command is set; stated with `CommuniqueFlagsIndependent` |
| PieceTypes.GetStringVisual | src/game/piece_types.rs:57-64 | `Origin` and `Filled` show as `#`; every other block shows as a space |
| PieceTypes.DoubleVec | src/game/piece_types.rs:10-26 | the copy has the same rows, in order, cell for cell |
| PieceTypes.GetPieceMap | src/game/piece_types.rs:96-107 | the inserts build exactly the catalog map, whose keys are the eight piece names |
| PieceTypes.PieceMap | src/game/piece_types.rs:96-107 | the catalog map the inserts of `get_piece_map` build; `GetPieceMap` is proved to produce it and `GetPieceDef` reads it |
| PieceTypes.GetPieceDef | src/game/piece_types.rs:110-116 | for a registered key, the definition is rectangular; it has four origins for the square and one otherwise; it is `FreeSpin` iff the key is the podium; tetrominoes have four non-blank cells; the banner key gives the banner table |
| PieceTypes.CatalogKeys | src/game/piece_types.rs:97-105 | the catalog's keys are the seven tetromino names plus the game-over name, eight distinct keys |
| PieceTypes.NamesDistinct | src/settings.rs:7-13 | the eight piece names are pairwise different |
| PieceTypes.EntryHolds | src/game/piece_types.rs:97-105 | each registered entry has the origin count, non-blank count and freeze property listed above |
| PieceTypes.CatalogFacts | src/game/piece_types.rs:97-105 | every tetromino name is registered, and every entry satisfies those facts |
| PieceTypes.LineCounts | src/game/piece_types.rs:123-125 | `LINE` has 4 non-blank cells and one origin |
| PieceTypes.SquareCounts | src/game/piece_types.rs:119-121 | `SQUARE` has 4 non-blank cells, all four of them origins |
| PieceTypes.PodiumCounts | src/game/piece_types.rs:127-131 | `PODIUM` has 4 non-blank cells and one origin |
| PieceTypes.SPieceCounts | src/game/piece_types.rs:133-136 | `SPIECE` has 4 non-blank cells and one origin |
| PieceTypes.ZPieceCounts | src/game/piece_types.rs:138-141 | `ZPIECE` has 4 non-blank cells and one origin |
| PieceTypes.LPieceCounts | src/game/piece_types.rs:143-148 | `LPIECE` has 4 non-blank cells and one origin |
| PieceTypes.JPieceCounts | src/game/piece_types.rs:150-154 | `JPIECE` has 4 non-blank cells and one origin |
| PieceTypes.GameOverCounts | src/game/piece_types.rs:156-166 | the banner has exactly one origin |
| PieceTypes.TableShapes | src/game/piece_types.rs:119-166 | square 2×2, line 1×4, podium/S/Z 2×3 and L/J 3×2; all rectangular; the banner is 8×1, with text lines 1 to 7 above an origin |
| Pieces.Rotated | src/game/piece.rs:37-44 | the matrix for an orientation is rectangular; it keeps the definition's dimensions for Normal/UpsideDown and swaps them for Forward/Backwards |
| Pieces.Clockwise | src/game/piece.rs:119-137 | a quarter turn is rectangular, with the dimensions swapped |
| Pieces.RotateForwardIsClockwise | src/game/piece.rs:92-157 | the matrix after one `Forward` rotation is the quarter turn of the matrix before it, from every orientation |
| Pieces.RotatedFourTimes | src/game/piece.rs:92-157 | four quarter turns give back the same matrix |
| Pieces.NewView | src/game/piece.rs:46-62 | a new piece is Normal, located (and rolled back) at its location, and its matrix is its definition |
| Pieces.RotateView | src/game/piece.rs:68-72 | after a rotation the current matrix is again the definition rotated to the orientation |
| Pieces.RollbackRotationView | src/game/piece.rs:74-77 | after a rollback the current matrix is again the definition rotated to the orientation |
| Pieces.RotateThenRollback | src/game/piece.rs:68-77 | rotating and then rolling back restores orientation and current matrix exactly |
| Pieces.MoveThenRollback | src/game/piece.rs:79-86 | moving and then rolling back restores the location |
| Pieces.MoveToView | src/game/piece.rs:79-82 | the piece is at the new location, remembers the old one, and nothing else changes |
| Pieces.RollbackMoveView | src/game/piece.rs:84-86 | the piece returns to its remembered location, and nothing else changes |
| Pieces.MoveRollbackOneLevel | src/game/piece.rs:79-86 | the rollback is one level deep: after two moves it returns to the first target, not the start |
| Pieces.MovesAndTurnsAreIndependent | src/game/piece.rs:68-90 | moves keep the matrix consistent and unchanged; rotations keep the location and the rollback location |
| Pieces.FirstOriginInRow | src/game/piece.rs:191-215 | the first `Origin` at or after x in a row, or none iff there is none |
| Pieces.FirstOriginFrom | src/game/piece.rs:191-215 | the first `Origin` in row-major order from row y, or none iff there is none |
| Pieces.FindOriginForZeroBlock | src/game/piece.rs:191-215 | the anchor is the base point (location, or the override) minus the offset of the first origin; with no origin it is the location, even with an override |
| Pieces.AnchorOfSquare | src/game/piece.rs:191-215 | for the all-origin square the first origin is (0, 0), so the anchor is the location |
| Pieces.LPieceOrigin | src/game/piece_types.rs:143-148 | the L piece's origin is at (0, 1) |
| Pieces.RowPoints | src/game/piece.rs:218-233 | the points of one row's non-blank cells, left to right, one per cell |
| Pieces.RowsPoints | src/game/piece.rs:218-233 | the points of the non-blank cells from row y on, in row-major order, one per cell |
| Pieces.Points | src/game/piece.rs:218-233 | exactly anchor + offset for every non-blank cell, strictly in row-major order; the length is the number of non-blank cells |
| Pieces.FirstNonBlank | src/game/piece.rs:243-265 | the leftmost non-blank cell of a row, or none iff the row is blank |
| Pieces.LastNonBlank | src/game/piece.rs:243-265 | the rightmost non-blank cell of a row, or none iff the row is blank |
| Pieces.RowXBoundaries | src/game/piece.rs:243-265 | nothing for a blank row; otherwise the leftmost and rightmost points, which enclose every occupied cell of the row (the same point twice for a single cell) |
| Pieces.RowsXBoundaries | src/game/piece.rs:235-267 | every boundary point is an occupied point, and every row's boundary pair is included (the exact list is `RowsXBoundariesByRow`) |
| Pieces.FindXBoundaries | src/game/piece.rs:235-267 | the x boundaries are occupied points of the piece, and they include each row's boundary pair (the exact list is `FindXBoundariesByRow`) |
| Pieces.RowsXBoundariesOrdered | src/game/piece.rs:235-267 | the x boundaries of the rows from y on lie on those rows and come top to bottom |
| Pieces.RowsXBoundariesAtFirstRow | src/game/piece.rs:235-267 | filtered by its first row, the list is that row's boundary pair |
| Pieces.RowsXBoundariesAtRow | src/game/piece.rs:235-267 | filtered by any later row, the list is that row's boundary pair |
| Pieces.RowsXBoundariesByRow | src/game/piece.rs:235-267 | ordered by row, within the matrix's rows, and filtered by any row exactly that row's leftmost and rightmost point (nothing for a blank row) |
| Pieces.FindXBoundariesByRow | src/game/piece.rs:235-267 | the same for the whole piece: row after row from the top, each non-blank row's two boundary points and nothing else |
| Pieces.LowestInColumn | src/game/piece.rs:269-290 | the lowest non-blank cell of a column, or none iff the column is blank |
| Pieces.ColumnsYBoundaries | src/game/piece.rs:269-290 | each point is an occupied cell with nothing below it in its column, and every non-blank column contributes its lowest cell |
| Pieces.FindYBoundaries | src/game/piece.rs:269-290 | the lowest occupied cell of every column, and only such cells |
| Pieces.YBoundariesArePoints | src/game/piece.rs:269-290 | y boundaries are occupied points, and every occupied cell has a boundary at or below it in its column |
| Pieces.FindYBoundariesAsWritten | src/game/piece.rs:269-290 | as the source writes it: empty for every matrix that is not one row high |
| Pieces.YBoundariesAgreeOnOneRow | src/game/piece.rs:269-290 | on a one-row matrix the as-written scan and the corrected one agree |
| Pieces.YBoundariesAsWrittenMissesTallPieces | src/game/piece.rs:269-290 | an L piece at (5, 1): the as-written scan gives nothing, while the corrected one contains (5, 2) |
| Pieces.PodiumSpawnAnchor | src/game/piece.rs:191-215 | the podium spawned at (5, 1) has its top-left cell at (4, 0) |
| Pieces.PodiumSpawnXBoundaries | src/game/piece.rs:218-267 | the podium's x boundaries at (5, 1) are (5, 0), (5, 0), (4, 1), (6, 1): the occupied point (5, 1) is not among them |
| Pieces.PodiumSpawnYBoundaries | src/game/piece.rs:269-290 | the corrected y boundaries contain (5, 1), and the as-written scan returns nothing |
| Pieces.ColorizeBlockEraseOrigin | src/game/piece.rs:182-189 | `Filled` and `Origin` become `Filled(color)`; `Text` keeps its line in the colour; `Blank` becomes `Empty`; there are no other results |
| Pieces.Placed | src/game/piece.rs:159-170 | placing keeps the playfield's dimensions |
| Pieces.Removed | src/game/piece.rs:172-180 | removing keeps the playfield's dimensions |
| Pieces.PlacedKeepsOtherCells | src/game/piece.rs:159-170 | every cell that is not an occupied point of the piece is unchanged by placing |
| Pieces.PlacedWritesPoints | src/game/piece.rs:159-170 | each occupied point receives the colourised definition cell, which is never `Empty` |
| Pieces.PlaceThenRemove | src/game/piece.rs:159-180 | removing after placing has the same result as removing alone |
| Pieces.RemoveFromEmptyFootprint | src/game/piece.rs:172-180 | removing from an empty footprint changes nothing |
| Pieces.PlaceRemoveRestores | src/game/piece.rs:159-180 | on an empty footprint, placing then removing gives back the original playfield |
| Pieces.Piece.constructor | src/game/piece.rs:46-62 | the fields are those of `NewView`, and current matrix = definition rotated to the orientation |
| Pieces.Piece.OfType | src/game/piece.rs:64-66 | a fresh piece is built from a catalog entry's table and freeze property |
| Pieces.Piece.Rotate | src/game/piece.rs:68-72 | the fields become `RotateView` of the old ones, keeping the matrix consistent |
| Pieces.Piece.RollbackRotation | src/game/piece.rs:74-77 | the fields become `RollbackRotationView` of the old ones |
| Pieces.Piece.MoveTo | src/game/piece.rs:79-82 | location := target, rollback location := old location, nothing else changes |
| Pieces.Piece.RollbackMove | src/game/piece.rs:84-86 | location := rollback location, nothing else changes |
| Pieces.Piece.UpdateCurrentMatrix | src/game/piece.rs:88-90 | only the current matrix changes, to the definition rotated to the orientation |
| Pieces.Piece.SetMatrixNormal | src/game/piece.rs:92-102 | the current matrix becomes a copy of the definition |
| Pieces.Piece.SetMatrixForwards | src/game/piece.rs:119-137 | for an H×W definition: a W×H matrix with `cur[x][H-1-y] = def[y][x]` |
| Pieces.Piece.SetMatrixUpsideDown | src/game/piece.rs:139-157 | an H×W matrix with `cur[H-1-y][W-1-x] = def[y][x]` |
| Pieces.Piece.SetMatrixBackwards | src/game/piece.rs:104-118 | a W×H matrix with `cur[W-1-x][y] = def[y][x]` |
| Pieces.Piece.PlaceInMatrix | src/game/piece.rs:159-170 | the nested write loop produces exactly `Placed` of the piece on the grid |
| Pieces.Piece.RemoveFromMatrix | src/game/piece.rs:172-180 | the nested erase loop produces exactly `Removed` of the piece on the grid |
| Pieces.PlaceView | src/game/piece.rs:159-170 | the write loop over a piece value equals `Placed` |
| Pieces.RemoveView | src/game/piece.rs:172-180 | the erase loop over a piece value equals `Removed` |
| GameSpec.RandomColor | src/game/game_loop_controller.rs:113-124 | a drawn colour is never `Undefined` |
| GameSpec.RandomColorIsBijective | src/game/game_loop_controller.rs:113-124 | the six draws correspond one to one with the six defined colours |
| GameSpec.RandomPieceType | src/game/game_loop_controller.rs:126-138 | a drawn shape is a rectangular tetromino with four cells, never the banner; it is `FreeSpin` exactly for draw 2 (the podium) |
| GameSpec.RandomPieceTypeInCatalog | src/game/game_loop_controller.rs:126-138 | draw n is the catalog entry of the n-th tetromino name |
| GameSpec.BorderedRow | src/game/game_loop_controller.rs:59-67 | an empty row is x cells long (at least the two borders) |
| GameSpec.BorderedRowCells | src/game/game_loop_controller.rs:59-67 | `Indestructible` at both ends and `Empty` in between |
| GameSpec.CreateLevel | src/game/game_loop_controller.rs:51-57 | y rows, each an empty bordered row |
| GameSpec.Boundaries | src/game/game_loop_controller.rs:472-483 | adding the boundaries keeps the dimensions |
| GameSpec.FreshLevelShape | src/game/game_loop_controller.rs:472-483 | a new level is rectangular; a cell is `Indestructible` iff it is in the bottom row or in the first or last column, and `Empty` otherwise |
| GameSpec.CollidingSubset | src/game/game_loop_controller.rs:395-408 | collision is monotone: if a subset of points collides, so does the whole set |
| GameSpec.PointColliding | src/game/game_loop_controller.rs:395-408 | one point collides when it is outside the playfield or on a non-`Empty` cell; `GameMaster.IsPointColliding` is proved to compute it |
| GameSpec.Colliding | src/game/game_loop_controller.rs:395-408 | a list of points collides when one of them does; see `CollidingSubset` and `NotCollidingFits` |
| GameSpec.NotCollidingFits | src/game/game_loop_controller.rs:395-408 | a piece whose points do not collide fits the level, on empty cells |
| GameSpec.XBoundariesFit | src/game/game_loop_controller.rs:387-389 | a piece whose x boundaries do not collide lies inside the level |
| GameSpec.TryView | src/game/game_loop_controller.rs:430-470 | the move succeeds iff the moved piece's points do not collide; otherwise the piece is rolled back |
| GameSpec.VerticalMove | src/game/game_loop_controller.rs:430-442 | with no active piece: true, nothing changes; otherwise the piece moves one row down iff that does not collide, else keeps its location; either way it remembers its old location, and its orientation, matrix and every other field of the piece and the game are unchanged |
| GameSpec.HorizontalMove | src/game/game_loop_controller.rs:444-455 | the same for one column left (`reverse`) or right: success iff the shifted piece does not collide, the old location is remembered, and only the location and remembered location of the piece change |
| GameSpec.RotateActivePiece | src/game/game_loop_controller.rs:460-470 | the same for a rotation: the orientation advances iff the rotated piece does not collide, else orientation and matrix are kept; either way the old orientation is remembered, the matrix is the definition rotated to the new orientation, and the location and remembered location stay |
| GameSpec.VerticalMovePreservesValid | src/game/game_loop_controller.rs:430-442 | a move down keeps the game invariant |
| GameSpec.HorizontalMovePreservesValid | src/game/game_loop_controller.rs:444-455 | a sideways move keeps the game invariant |
| GameSpec.RotatePreservesValid | src/game/game_loop_controller.rs:460-470 | a rotation keeps the game invariant |
| GameSpec.AdvanceActivePiece | src/game/game_loop_controller.rs:413-418 | false with no active piece, otherwise a move one row down |
| GameSpec.ProcessMove | src/game/game_loop_controller.rs:420-428 | moves other than RotateForward, StepLeft, StepRight and StepDown return false and change nothing; no move changes anything but the active piece |
| GameSpec.ProcessMovePreservesValid | src/game/game_loop_controller.rs:420-428 | every player move keeps the game invariant |
| GameSpec.BorderCount | src/game/game_loop_controller.rs:333-370 | the number of border cells among the first k: at most k, zero exactly when none of them is a border, k exactly when all are |
| GameSpec.BorderCountMonotone | src/game/game_loop_controller.rs:333-370 | the border count never decreases along a row |
| GameSpec.CompletedRowsUpTo | src/game/game_loop_controller.rs:333-370 | exactly the complete rows below k, in ascending order |
| GameSpec.CompletedRows | src/game/game_loop_controller.rs:333-370 | exactly the rows that are all `Filled`/`Indestructible` with exactly two border cells, in ascending order |
| GameSpec.FreezeActivePiece | src/game/game_loop_controller.rs:327-331 | the level becomes the old one with the piece written in, the active piece is gone, the completed rows of the new level are appended, and score, speed, bucket and state are unchanged |
| GameSpec.KeptRows | src/game/game_loop_controller.rs:188-194 | every kept row is an old row that is not completed |
| GameSpec.KeptPlusHits | src/game/game_loop_controller.rs:188-194 | kept rows plus the completed indices below k add up to k |
| GameSpec.HitsOfIncreasing | src/game/game_loop_controller.rs:188-194 | for distinct in-range indices, every completed index is skipped once |
| GameSpec.KeptRowsCount | src/game/game_loop_controller.rs:188-194 | height minus the number of completed rows are kept |
| GameSpec.HitsBound | src/game/game_loop_controller.rs:188-194 | at most k of the cleared indices lie below k, and that count grows with k |
| GameSpec.KeptRowAt | src/game/game_loop_controller.rs:188-194 | a kept row i lands at position i minus the number of cleared rows above it |
| GameSpec.KeptRowsInOrder | src/game/game_loop_controller.rs:188-194 | the kept rows keep their order: every row that is not cleared sits at its index minus the cleared rows above it |
| GameSpec.Cleared | src/game/game_loop_controller.rs:184-195 | one fresh bordered row per cleared row, then the kept rows; stated by `ClearedShape`, `KeptRowsCount` and `KeptRowsInOrder` |
| GameSpec.ClearedShape | src/game/game_loop_controller.rs:184-196 | the rebuilt level has the old height and width and is rectangular |
| GameSpec.ScoreGain | src/game/game_loop_controller.rs:174-175 | clearing n ≥ 1 rows on a W-wide level scores n²·W, at least W |
| GameSpec.SpeedAfter | src/game/game_loop_controller.rs:178-182 | speed + n, capped at 99 |
| GameSpec.TickInterval | src/game/game_loop_controller.rs:269-276 | the tick interval is at least the base interval |
| GameSpec.FasterTicksSooner | src/game/game_loop_controller.rs:269-276 | a higher speed gives a strictly shorter interval, and ticks whenever a lower speed would |
| GameSpec.NextTick | src/game/game_loop_controller.rs:269-276 | a tick fires when the elapsed time reaches the interval of the current speed; see `TickInterval` and `FasterTicksSooner` |
| GameSpec.TootrisTick | src/game/game_loop_controller.rs:171-201 | completed rows are emptied and the state becomes Playing; score += n·n·W; speed stays ≤ 99 |
| GameSpec.TootrisTickPreservesValid | src/game/game_loop_controller.rs:171-201 | the clearance tick keeps the game invariant |
| GameSpec.SpawnView | src/game/game_loop_controller.rs:104-111 | a drawn piece is consistent, Normal, has a defined colour and spawns at (width/2, 1) |
| GameSpec.FillPieceBucket | src/game/game_loop_controller.rs:104-111 | the bucket is topped up to 20 by appending the drawn pieces in order; the old contents stay in front |
| GameSpec.Refilled | src/game/game_loop_controller.rs:91-102 | after the refill check the bucket is not empty and its pieces stay consistent |
| GameSpec.NextPiece | src/game/game_loop_controller.rs:91-102 | the bucket is refilled if it holds fewer than 3; its last piece becomes active; success iff neither its x nor its y boundaries collide |
| GameSpec.NewGame | src/game/game_loop_controller.rs:285-296 | score 0, no active piece, state Start, a fresh level of the same dimensions; speed, completed rows and bucket are unchanged |
| GameSpec.NewGameKeepsDimensions | src/game/game_loop_controller.rs:285-296 | the new level has the old height and width |
| GameSpec.PauseGame | src/game/game_loop_controller.rs:306-313 | only the state changes, to Paused |
| GameSpec.ResumeGame | src/game/game_loop_controller.rs:298-304 | only the state changes, to Playing |
| GameSpec.ExitGame | src/game/game_loop_controller.rs:278-283 | only the state changes, to Exit |
| GameSpec.ProcessInputCommands | src/game/game_loop_controller.rs:235-267 | no message: false, no change; a command: true; otherwise the move is processed; a command takes precedence over a move |
| GameSpec.CommandEffects | src/game/game_loop_controller.rs:241-264 | New resets the game; Pause, Resume and Exit set the state only; the render commands change nothing |
| GameSpec.ProcessInputPreservesValid | src/game/game_loop_controller.rs:235-267 | handling a message keeps the invariant and never enters Tootris |
| GameSpec.Banner | src/game/game_loop_controller.rs:209-216 | the end banner is a consistent piece showing the game-over table |
| GameSpec.BannerFits | src/game/game_loop_controller.rs:209-216 | on a level at least 8 high and 6 wide, the banner at (5, height-1) fits |
| GameSpec.PlayingStep | src/game/game_loop_controller.rs:153-168 | a Playing step with an active piece always continues |
| GameSpec.Step | src/game/game_loop_controller.rs:140-233 | one `process_game` call continues iff the state is not Exit |
| GameSpec.PlayingTurn | src/game/game_loop_controller.rs:145-170 | a Playing step always continues |
| GameSpec.NextPieceKeepsValid | src/game/game_loop_controller.rs:91-102 | a successful spawn gives a valid game with an active piece |
| GameSpec.EndTurn | src/game/game_loop_controller.rs:206-221 | an End step continues and reads input |
| GameSpec.FreezePreservesValid | src/game/game_loop_controller.rs:156-163 | freezing keeps the invariant, entering Tootris iff some rows completed |
| GameSpec.StepPreservesValid | src/game/game_loop_controller.rs:140-233 | every step keeps the game invariant |
| GameSpec.PlayingTurnPreservesValid | src/game/game_loop_controller.rs:145-170 | a Playing step keeps the game invariant |
| GameSpec.EndTurnPreservesValid | src/game/game_loop_controller.rs:206-221 | an End step keeps the game invariant |
| GameSpec.PlayingStepPreservesValid | src/game/game_loop_controller.rs:153-168 | a tick and an input with an active piece keep the invariant |
| GameSpec.SpawnCollisionEndsGame | src/game/game_loop_controller.rs:146-151 | if the spawned piece collides, the state becomes End, there is no active piece and no input is read |
| GameSpec.FailedAdvanceFreezes | src/game/game_loop_controller.rs:153-164 | on a tick where the piece cannot fall, it is written into the level and dropped; the completed rows are scanned; the state is Tootris iff some rows completed, else Playing |
| GameSpec.TootrisTickEffects | src/game/game_loop_controller.rs:171-201 | the Tootris tick adds n·n·W to the score, raises the speed by n capped at 99, installs the cleared level of the same height, empties the completed rows and returns to Playing |
| GameSpec.ScoreGrowsOrResets | src/game/game_loop_controller.rs:140-233 | a step never lowers the score, except for New, which resets it to 0 in state Start |
| GameSpec.PlayingStepScore | src/game/game_loop_controller.rs:153-168 | the same for a Playing step with an active piece |
| GameSpec.ProcessInputScore | src/game/game_loop_controller.rs:235-267 | input keeps the score or resets it with New |
| GameLoopController.GameMaster.CreateEmptyRow | src/game/game_loop_controller.rs:59-67 | the push loop builds the bordered empty row |
| GameLoopController.GameMaster.CreateLevel | src/game/game_loop_controller.rs:51-57 | the push loop builds y bordered rows |
| GameLoopController.GameMaster.constructor | src/game/game_loop_controller.rs:68-90 | a fresh bordered level, no completed rows, speed 1, score 0, an empty bucket, state Start; valid when the initial piece fits |
| GameLoopController.GameMaster.CreateLevelBoundaries | src/game/game_loop_controller.rs:472-483 | the nested loop borders the level and changes no other field |
| GameLoopController.GameMaster.IsPointColliding | src/game/game_loop_controller.rs:395-408 | true iff some point is below the last row, right of the last column, or on a non-`Empty` cell |
| GameLoopController.GameMaster.IsXColliding | src/game/game_loop_controller.rs:387-389 | collision of the x boundary points |
| GameLoopController.GameMaster.YColliding | src/game/game_loop_controller.rs:391-393 | collision of the (corrected) y boundary points |
| GameLoopController.GameMaster.NextTick | src/game/game_loop_controller.rs:269-276 | a tick fires iff the interval of the current speed has elapsed |
| GameLoopController.GameMaster.VerticalMove | src/game/game_loop_controller.rs:430-442 | the fields and the result are those of `GameSpec.VerticalMove` |
| GameLoopController.GameMaster.HorizontalMove | src/game/game_loop_controller.rs:444-455 | the fields and the result are those of `GameSpec.HorizontalMove` |
| GameLoopController.GameMaster.RotateActivePiece | src/game/game_loop_controller.rs:460-470 | the fields and the result are those of `GameSpec.RotateActivePiece` |
| GameLoopController.GameMaster.ProcessMove | src/game/game_loop_controller.rs:420-428 | the fields and the result are those of `GameSpec.ProcessMove` |
| GameLoopController.GameMaster.AdvanceActivePiece | src/game/game_loop_controller.rs:413-418 | the fields and the result are those of `GameSpec.AdvanceActivePiece` |
| GameLoopController.GameMaster.FindCompletedRows | src/game/game_loop_controller.rs:333-370 | appends exactly the completed rows, in ascending order; no other field changes |
| GameLoopController.GameMaster.ScanLevel | src/game/game_loop_controller.rs:333-370 | the row loop collects exactly the complete rows |
| GameLoopController.GameMaster.ScanRow | src/game/game_loop_controller.rs:338-368 | the cell loop accepts a row iff it is complete; an `Empty` cell or a third border rejects it; a misplaced `Filled` cell only warns |
| GameLoopController.GameMaster.FreezeActivePiece | src/game/game_loop_controller.rs:327-331 | the fields become `GameSpec.FreezeActivePiece` of the old ones |
| GameLoopController.GameMaster.FillPieceBucket | src/game/game_loop_controller.rs:104-111 | the push loop makes the bucket `GameSpec.FillPieceBucket` of the old one; no other field changes |
| GameLoopController.GameMaster.NextPiece | src/game/game_loop_controller.rs:91-102 | the fields and the result are those of `GameSpec.NextPiece` |
| GameLoopController.GameMaster.NewGame | src/game/game_loop_controller.rs:285-296 | the fields become `GameSpec.NewGame` of the old ones |
| GameLoopController.GameMaster.PauseGame | src/game/game_loop_controller.rs:306-313 | the fields become `GameSpec.PauseGame` of the old ones |
| GameLoopController.GameMaster.ResumeGame | src/game/game_loop_controller.rs:298-304 | the fields become `GameSpec.ResumeGame` of the old ones |
| GameLoopController.GameMaster.Exit | src/game/game_loop_controller.rs:278-283 | the fields become `GameSpec.ExitGame` of the old ones |
| GameLoopController.GameMaster.ProcessInputCommands | src/game/game_loop_controller.rs:235-267 | the fields and the result are those of `GameSpec.ProcessInputCommands` |
| GameLoopController.GameMaster.TootrisTick | src/game/game_loop_controller.rs:172-199 | the fields become `GameSpec.TootrisTick` of the old ones |
| GameLoopController.GameMaster.ClearRows | src/game/game_loop_controller.rs:184-195 | the two push loops build n fresh rows followed by the kept rows, which is `Cleared` |
| GameLoopController.GameMaster.SendRenderUpdate | src/game/game_loop_controller.rs:496-512 | the snapshot is the level with the active piece placed on a copy; the level itself is untouched |
| GameLoopController.GameMaster.PlayActivePiece | src/game/game_loop_controller.rs:153-168 | the fields become those of `GameSpec.PlayingStep` |
| GameLoopController.GameMaster.PlayingTurn | src/game/game_loop_controller.rs:145-170 | the fields become those of `GameSpec.PlayingTurn` |
| GameLoopController.GameMaster.EndTurn | src/game/game_loop_controller.rs:206-221 | the fields become those of `GameSpec.EndTurn` |
| GameLoopController.GameMaster.NewBanner | src/game/game_loop_controller.rs:209-216 | the banner is a Normal magenta game-over piece at (5, height-1) |
| GameLoopController.GameMaster.ProcessGame | src/game/game_loop_controller.rs:140-233 | the fields and the result are those of `GameSpec.Step`, and the game invariant is kept |
| CrosstermRender.MapColor | src/ui/crossterm_render.rs:124-134 | `Undefined` and only `Undefined` maps to black |
| CrosstermRender.ColorOf | src/ui/crossterm_render.rs:124-134 | the inverse colour map: black and only black comes from `Undefined` |
| CrosstermRender.MapColorRoundTrip | src/ui/crossterm_render.rs:124-134 | the colour map is a bijection between the seven block colours and the seven terminal colours |
| CrosstermRender.RowCurrent | src/ui/crossterm_render.rs:142-150 | the diffed current row keeps its length |
| CrosstermRender.RowWrite | src/ui/crossterm_render.rs:142-150 | the diffed write row keeps its length |
| CrosstermRender.CurrentAfter | src/ui/crossterm_render.rs:140-151 | the diffed current grid keeps its dimensions |
| CrosstermRender.WriteAfter | src/ui/crossterm_render.rs:140-151 | the diffed write buffer keeps its dimensions |
| CrosstermRender.CellEffects | src/ui/crossterm_render.rs:142-150 | outside the scanned window nothing changes; a cell of the same kind gets no write; a changed cell that is not a border takes the new value in both grids; a border stays as it was |
| CrosstermRender.BordersStay | src/ui/crossterm_render.rs:146 | an `Indestructible` current cell is never modified, and its buffer cell is either kept or cleared for an unchanged border |
| CrosstermRender.ColorChangeIgnored | src/ui/crossterm_render.rs:144-145 | a colour-only change of a filled cell is treated as unchanged |
| CrosstermRender.DiffConverges | src/ui/crossterm_render.rs:140-151 | after the diff every scanned non-border cell has the kind of the new grid |
| CrosstermRender.DiffIdempotent | src/ui/crossterm_render.rs:140-151 | diffing the same grid again leaves the current grid as it is and clears the buffer of every scanned non-border cell |
| CrosstermRender.TermRenderer.constructor | src/ui/crossterm_render.rs:16-23 | the renderer starts with the given grids |
| CrosstermRender.TermRenderer.UpdateMatrix | src/ui/crossterm_render.rs:136-152 | with either grid absent nothing changes; otherwise the nested loop leaves exactly `CurrentAfter` and `WriteAfter` |
| SimpleCommandUi.Split | src/ui/simple_command_ui.rs:18 | `split(",")` gives at least one part, and no part contains the separator |
| SimpleCommandUi.JoinSplit | src/ui/simple_command_ui.rs:18 | joining the parts with the separator gives back the input |
| SimpleCommandUi.SplitJoin | src/ui/simple_command_ui.rs:18 | splitting a join of separator-free parts gives back the parts |
| SimpleCommandUi.MatchesAny | src/ui/simple_command_ui.rs:48-57 | true iff the command is one of the entries |
| SimpleCommandUi.CommandMatchesCsv | src/ui/simple_command_ui.rs:48-57 | true iff the command is exactly (case-sensitively) one of the comma-separated entries |
| SimpleCommandUi.CommandToPlayerMove | src/ui/simple_command_ui.rs:26-46 | a recognised token is one of the six moves the tables name |
| SimpleCommandUi.LeftTable | src/ui/settings.rs:1 | the left table splits into "l", "left" |
| SimpleCommandUi.RightTable | src/ui/settings.rs:2 | the right table splits into "r", "right" |
| SimpleCommandUi.DownTable | src/ui/settings.rs:3 | the down table splits into "d", "down" |
| SimpleCommandUi.RotUpTable | src/ui/settings.rs:4 | the orient-up table splits into "u", "U", "up" |
| SimpleCommandUi.RotDownTable | src/ui/settings.rs:5 | the orient-down table splits into "D", "rd", "rodo", "frodo" |
| SimpleCommandUi.RotLeftTable | src/ui/settings.rs:6 | the orient-left table splits into "L", "rl", "role" |
| SimpleCommandUi.RotRightTable | src/ui/settings.rs:7 | the orient-right table splits into "R", "rr", "rori" |
| SimpleCommandUi.DropTable | src/ui/settings.rs:9 | the drop table is the single entry "drop" |
| SimpleCommandUi.QuitTable | src/ui/settings.rs:10 | the quit table splits into "quit", "exit" |
| SimpleCommandUi.LeftMatches | src/ui/simple_command_ui.rs:27-29 | a token matches the left table iff it is "l" or "left" |
| SimpleCommandUi.RightMatches | src/ui/simple_command_ui.rs:30-32 | a token matches the right table iff it is "r" or "right" |
| SimpleCommandUi.RotDownMatches | src/ui/simple_command_ui.rs:33-35 | a token matches the orient-down table iff it is "D", "rd", "rodo" or "frodo" |
| SimpleCommandUi.RotUpMatches | src/ui/simple_command_ui.rs:36-38 | a token matches the orient-up table iff it is "u", "U" or "up" |
| SimpleCommandUi.RotLeftMatches | src/ui/simple_command_ui.rs:39-41 | a token matches the orient-left table iff it is "L", "rl" or "role" |
| SimpleCommandUi.RotRightMatches | src/ui/simple_command_ui.rs:42-44 | a token matches the orient-right table iff it is "R", "rr" or "rori" |
| SimpleCommandUi.StepAliases | src/ui/simple_command_ui.rs:27-32 | "l" and "left" give StepLeft; "r" and "right" give StepRight |
| SimpleCommandUi.VerticalOrientAliases | src/ui/simple_command_ui.rs:33-38 | "D", "rd", "rodo", "frodo" give OrientDown; "u", "U", "up" give OrientUp |
| SimpleCommandUi.HorizontalOrientAliases | src/ui/simple_command_ui.rs:39-44 | "L", "rl", "role" give OrientLeft; "R", "rr", "rori" give OrientRight |
| SimpleCommandUi.UnknownTokens | src/ui/simple_command_ui.rs:26-46 | a token is unrecognised iff it is none of the 17 aliases |
| SimpleCommandUi.UnconsultedTables | src/ui/simple_command_ui.rs:45 | "d", "down", "drop", "quit" and "exit" are unrecognised: their tables are never consulted |
| SimpleCommandUi.Lookups | src/ui/simple_command_ui.rs:19-20 | one lookup per token, in order |
| SimpleCommandUi.Present | src/ui/simple_command_ui.rs:21-23 | keeping only the lookups that found a move: no more moves than lookups, each one found |
| SimpleCommandUi.PresentAppend | src/ui/simple_command_ui.rs:19-24 | filtering distributes over concatenation, so order is kept |
| SimpleCommandUi.AllPresent | src/ui/simple_command_ui.rs:21-23 | when every lookup found a move, all of them are kept, in order |
| SimpleCommandUi.NonePresent | src/ui/simple_command_ui.rs:21-23 | when no lookup found a move, nothing is kept |
| SimpleCommandUi.RecognisedMoves | src/ui/simple_command_ui.rs:17-25 | at most one forwarded move per token |
| SimpleCommandUi.AllRecognised | src/ui/simple_command_ui.rs:17-25 | when every token is an alias, each token's move is forwarded, in order |
| SimpleCommandUi.NoneRecognised | src/ui/simple_command_ui.rs:17-25 | when no token is an alias, nothing is forwarded |
| SimpleCommandUi.MoveMessage | src/ui/simple_command_ui.rs:59-68 | the message for a move reports `is_player_move`, not `is_command`, and carries the move |
| SimpleCommandUi.MoveMessages | src/ui/simple_command_ui.rs:59-68 | one message per move, in order |
| SimpleCommandUi.MoveMessagesAppend | src/ui/simple_command_ui.rs:59-68 | messages of concatenated moves are the concatenated messages |
| SimpleCommandUi.LookupToken | src/ui/simple_command_ui.rs:19 | the lookup of one token |
| SimpleCommandUi.LookupAll | src/ui/simple_command_ui.rs:18-24 | the token loop looks up every split token, in order |
| SimpleCommandUi.CommandUi.constructor | src/ui/simple_command_ui.rs:9-14 | an empty queue, nothing sent yet |
| SimpleCommandUi.CommandUi.SendInputToMaster | src/ui/simple_command_ui.rs:59-68 | with a master connected, one move message is sent; otherwise nothing |
| SimpleCommandUi.CommandUi.SubmitCommand | src/ui/simple_command_ui.rs:17-25 | sends exactly the recognised moves of the comma-split line, in input order |
| SimpleCommandUi.CommandUi.SendPresent | src/ui/simple_command_ui.rs:21-23 | sends the moves found, in order |
| SimpleCommandUi.CommandUi.ProcessInput | src/ui/simple_command_ui.rs:72-77 | sends every queued move in order and leaves the queue empty |

## Left out

- Message passing is not modelled: the channels, `send_state_to_ui`, the sending half of `send_render_update`, `ui_warn`, `try_recv` and the `give_*` wiring. The inbound message is an optional step parameter, an outbound render snapshot is a method result, and the UI's sent messages are a sequence field.
- The stopwatch is not modelled. The game function receives whether a tick fired; the class method receives the elapsed milliseconds and compares them with `(100 - speed) * 4`.
- `thread_rng` is not modelled: random colours and shapes are injected draws.
- `src/game_loop_controller.rs` and `src/tootris.rs`, the superseded controller and its enums, are not part of this model. They depend on files that are not part of it either.
- `src/main.rs` (wiring and the main loop) and `src/ui/crossterm_ui.rs` (imports only) are not part of this model.
- Terminal output is not modelled: `full_refresh`, `draw_*`, `check_if_window_changed`, `check_maybe_render`, and the renderer's other fields (receivers, stdout, terminal size).
- The `Display` implementations and `generate_string_representation` are printing only, and are not modelled.
- `GameState`'s and `Point`'s formatting is printing only. `Point` equality is datatype equality, because the source compares both coordinates.
- The UI's `MOVE_DOWN`, `DROP_DOWN` and `QUIT` tables are never consulted by the source, and are modelled only as recognised-nothing facts.
- Unsigned subtraction (anchor minus origin offset, a step to the left) is not modelled as `usize`. Coordinates are integers, and a negative coordinate collides, as the wrapped-around value would.
- Operations that panic in the source, through out-of-range indexing or `usize` underflow, carry a precondition instead. There are these places:
  - placing or erasing a piece (`PlaceFits`, `RemoveFits`);
  - the banner install in the End state (height ≥ 8 and width ≥ 6);
  - the Tootris speed update `99 - n` (n ≤ 99);
  - `CrosstermRender.UpdateMatrix` and its cell functions (`Indexable`: the drawn grid, the write buffer and the new grid are at least as large as the rows and columns visited);
  - `GameLoopController.GameMaster.NewGame` (a playfield at least one row high, since it reads `level[0].len()`, and one cell wide, since the rebuilt rows compute `x - 1`);
  - `GameLoopController.GameMaster.CreateEmptyRow` (`x >= 1`, since it computes `x - 1` on `usize`), and `CreateLevel` (`y == 0 || x >= 1`);
  - `GameLoopController.GameMaster.constructor` (`height == 0 || width >= 1`, for the same reason).
- GameSpec.NextPiece: the spawn check uses the corrected y boundaries (`Pieces.FindYBoundaries`), so it does not promise the source's spawn outcome. A piece with an occupied cell that is a y boundary but not an x boundary differs. For example, the podium spawned at (5, 1) has its middle bottom cell (5, 1) in the corrected y list only (`Pieces.PodiumSpawnXBoundaries`, `Pieces.PodiumSpawnYBoundaries`). If that cell is taken, the model ends the game. The source checks only the x boundaries and an empty y list (see Findings), so it spawns the piece over the taken cell.
- `get_piece_def` on an unknown name panics in the source; the model has the precondition that the name is registered.
- `GameBlock::String` is used by `colorize_block_erase_origin` but is missing from the enum. The model adds a `Text` variant carrying the banner line, and Rust's `GameBlock::None` is `NoBlock`.
- The game-over piece key and the banner's text constants are not part of this model. The key is written `"game_over"`, and each text line is represented by its line number.
- The game master holds its active piece and bucket as `PieceView` values rather than `Piece` objects. The value functions are the ones the `Piece` methods are proved to implement.
- GameLoopController.GameMaster.ScanRow: `continue 'rows` out of the inner loop is an early return from the row scan.
- GameSpec.ScoreGain: follows the code, `(n * W) * n` with W the full row length including the two borders, not a power of n or the inner width.
- GameSpec.CompletedRows: a row of exactly two border cells (width 2) counts as complete, as in the code.
- Pieces.FindYBoundaries: this is the documented behaviour (the lowest cell per column). The as-written scan is modelled separately in `Pieces.FindYBoundariesAsWritten`; see Findings.
- CrosstermRender.RowCurrent, CrosstermRender.RowWrite, CrosstermRender.CurrentAfter, CrosstermRender.WriteAfter: their own contracts state only dimensions; their cell-level meaning is stated by `CellEffects`, `BordersStay` and `ColorChangeIgnored`.

## Findings

| source | as written | input that shows it | evidently intended | confidence | as-written member | corrected member |
|---|---|---|---|---|---|---|
| src/game/piece.rs:269-290 | `find_yboundaries` iterates `len-1..=0`, an empty range unless the matrix is one row high, so it returns no points for every taller piece; the spawn check `ycolliding` then never detects anything for them | an L piece (3×2) at location (5, 1): the as-written scan returns `[]`, while the lowest cell of column 0 is at (5, 2) | the lowest occupied cell of each column, as the function's comment says | not executed | Pieces.FindYBoundariesAsWritten, Pieces.YBoundariesAsWrittenMissesTallPieces | Pieces.FindYBoundaries |
