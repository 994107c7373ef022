# A verified model of a falling-block puzzle engine

This project models the core of a browser falling-block puzzle game (seven
four-cell pieces falling into a 20-row, 12-column well) and proves properties
of that model. It covers:

- the game engine, that is, the `TetrisGame` class of `js/main-page.js`:
  - the board of empty (`null`) or piece-type cells;
  - the active and next pieces, the drop counter, and the `active`/`paused` flags;
  - collision testing, guarded moves, soft and hard drops;
  - clockwise rotation with a fixed list of six wall kicks;
  - merge on lock, bottom-up line clearing, and spawning with game-over detection;
  - the landing-preview ("ghost") piece and the drop accumulator of the game loop.
- the piece catalogue and the bag randomiser (`js/blocks.js`);
- scoring, levels and lifetime counters (`js/game-stats.js`), with the
  constants and the drop-speed curve of `js/page-settings.js`;
- the capped most-recent-first score history (`js/previous-scores.js`);
- the hard-drop helpers (`js/hard-drop.js`) and the shape bounding box of the
  next-piece preview (`js/next-piece.js`).

Modules follow the source files:

| module | file | source |
|---|---|---|
| `Wrappers` | `wrappers.dfy` | `Option` |
| `Settings` | `settings.dfy` | `js/page-settings.js` |
| `Blocks` | `blocks.dfy` | `js/blocks.js` |
| `HardDrop` | `hard_drop.dfy` | `js/hard-drop.js` |
| `NextPiece` | `next_piece.dfy` | `getShapeBounds` of `js/next-piece.js` |
| `Stats` | `stats.dfy` | `js/game-stats.js` |
| `PreviousScores` | `previous_scores.dfy` | `js/previous-scores.js` |
| `Playfield` | `playfield.dfy` | the board logic of `js/main-page.js`, as functions |
| `Engine` | `engine.dfy` | `TetrisGame` of `js/main-page.js`, as a class |

Representation choices:

- The board is a `seq<seq<Option<Tag>>>`, where `None` stands for `null`. The engine
  methods reassign it.
- A piece is a value `Piece(tag, shape, x, y)`. The source mutates `pos` and `shape`
  of the one piece object the engine holds; the model reassigns the engine's field.
- Each engine loop is a method with loop invariants. It is proved equal to a
  specification function in `Playfield`, and the game's rules are proved about
  that function:
  - the counting loop of `hardDrop` against `DropDistance`;
  - the merge loop against `Merged`;
  - the splice-and-rewind loop of `clearCompletedLines` against `AfterClear`;
  - the kick loop against `Rotated`.
- The lifetime values read from storage are constructor parameters of type
  `Option<int>`, where `None` means missing or not a number.
- The stored score history is a `Stored` value: missing, unparseable, or a JSON array.
- The date of a finished game and the time elapsed between frames are parameters.
- The random swap partner of the shuffle is an arbitrary index in range.
- The generator keeps ghost history (`done`, `open`). `Next` proves this history
  keeps the bag discipline: every completed block of seven draws, counted from a
  refill, holds each type once.

## Model

| member | source | states |
|---|---|---|
| Settings.CreateEmptyBoard | js/page-settings.js:26-28 | the board has exactly `Rows` (20) rows of `Cols` (12) cells, all empty |
| Settings.DropInterval | js/page-settings.js:30-33 | the interval is never below 90 ms, never below 1000 − 85·(level − 1), at most 1000 ms from level 1 on, and is either the floor or 1000 − 85·(level − 1), so exactly the larger of the two |
| Settings.DropIntervalAtLevelOne | js/page-settings.js:8 | level 1 plays at the initial interval of 1000 ms |
| Settings.DropIntervalNonIncreasing | js/page-settings.js:30-33 | a higher level never has a longer interval |
| Settings.DropIntervalStep | js/page-settings.js:10 | one more level takes exactly 85 ms off the interval, until the 90 ms floor |
| Blocks.ShapeOf | js/blocks.js:5-41 | the catalogue of spawn orientations; every entry is square: I is 4×4, O is 2×2, the others are 3×3 |
| Blocks.CatalogueCellCount | js/blocks.js:5-41 | every catalogue shape has exactly four occupied cells |
| Blocks.CatalogueShapesAreMatrices | js/blocks.js:5-41 | every catalogue shape is rectangular and has an occupied cell |
| Blocks.RowCountIsSize | js/blocks.js:5-41 | the occupied-cell count of a row equals the size of its set of occupied positions |
| Blocks.CountIsSize | js/blocks.js:5-41 | the occupied-cell count of a shape equals the size of its set of occupied positions |
| Blocks.Cw | js/blocks.js:57-69 | the clockwise turn of an R×C matrix is a C×R matrix |
| Blocks.CwMovesCell | js/blocks.js:64 | cell (y, x) lands at row x, column R−1−y of the clockwise turn |
| Blocks.Ccw | js/blocks.js:71-83 | the counter-clockwise turn of an R×C matrix is a C×R matrix |
| Blocks.CcwMovesCell | js/blocks.js:78 | cell (y, x) lands at row C−1−x, column y of the counter-clockwise turn |
| Blocks.CcwUndoesCw | js/blocks.js:57-83 | turning clockwise and then counter-clockwise gives back the matrix |
| Blocks.CwUndoesCcw | js/blocks.js:57-83 | turning counter-clockwise and then clockwise gives back the matrix |
| Blocks.CwFourTimes | js/blocks.js:57-69 | four clockwise turns give back the matrix |
| Blocks.TurnedSize | js/blocks.js:64 | the cell move of a clockwise turn is one-to-one, so it keeps the number of cells of any set |
| Blocks.CwKeepsCellCount | js/blocks.js:57-69 | a clockwise turn keeps the number of occupied cells |
| Blocks.CwKeepsHasCell | js/blocks.js:57-69 | a clockwise turn of a shape with an occupied cell still has one |
| Blocks.RotateClockwise | js/blocks.js:57-69 | the cell-by-cell fill of a fresh matrix yields exactly the clockwise turn, and the input is a value left as it was |
| Blocks.RotateCounterClockwise | js/blocks.js:71-83 | the cell-by-cell fill yields exactly the counter-clockwise turn |
| Blocks.CloneShape | js/blocks.js:53-55 | the copy equals its input |
| Blocks.BuildPiece | js/blocks.js:124-135 | the piece has the requested type, its catalogue shape, row 0, and the column ⌊(cols − width) / 2⌋ |
| Blocks.Shuffle | js/blocks.js:141-148 | the result is a permutation of the input: same length, same multiset |
| Blocks.AllTagsMakeFullBag | js/blocks.js:94 | the list of all types holds each of the seven types once |
| Blocks.CompletedBagHasEachTagOnce | js/blocks.js:92-99 | a bag with the multiset of all seven types has length 7 and holds each type exactly once |
| Blocks.BagPartsSize | js/blocks.js:92-99 | the drawn part and the undrawn part of a bag have seven types between them |
| Blocks.MovePopped | js/blocks.js:97 | popping the last queued type onto the drawn part keeps the bag |
| Blocks.PopFullBag | js/blocks.js:93-97 | a draw from a fresh bag leaves the six other types queued |
| Blocks.CompleteBag | js/blocks.js:92-99 | appending a full bag to the completed bags keeps every completed bag full |
| Blocks.DrawKeepsPartition | js/blocks.js:92-99 | a draw, with or without a refill, keeps the split of all draws into full bags, the drawn part and the queue |
| Blocks.DrawKeepsBagState | js/blocks.js:92-99 | a draw keeps the bag discipline, and the draw that empties the queue completes a bag |
| Blocks.TetrominoGenerator.constructor | js/blocks.js:86-90 | a new generator has the given width, an empty queue and no draws |
| Blocks.TetrominoGenerator.Next | js/blocks.js:92-99 | the queue is refilled only when empty; the piece is built from the popped last type; a non-empty queue loses exactly its last type, a refill leaves the six other types; the bag discipline is kept |
| HardDrop.IsHardDropKey | js/hard-drop.js:3-8 | true exactly when the code is "KeyQ" or the key is "q" or "Q" |
| HardDrop.CalculateHardDropDistance | js/hard-drop.js:10-21 | 0 without a piece; otherwise the validator accepts every offset from 1 to d and refuses d + 1 |
| HardDrop.HardDropDistanceUnique | js/hard-drop.js:15-20 | at most one distance has every offset up to it accepted and the next refused |
| HardDrop.ApplyHardDrop | js/hard-drop.js:23-28 | no change without a piece or for a distance ≤ 0; otherwise only the row grows, by exactly the distance |
| HardDrop.ApplyHardDropAdds | js/hard-drop.js:23-28 | dropping by a and then by b equals dropping by a + b, for positive distances |
| NextPiece.MinAcc | js/next-piece.js:86 | the running minimum is the new value at first, and afterwards the smaller of the previous minimum and the value |
| NextPiece.MaxAcc | js/next-piece.js:87 | the running maximum is the new value at first, and afterwards the larger of the previous maximum and the value |
| NextPiece.ScanCell | js/next-piece.js:82-90 | visiting one cell keeps the four accumulators equal to the bounds of the occupied cells seen so far |
| NextPiece.ScanRowDone | js/next-piece.js:81-91 | finishing a row moves the scan to the start of the next row |
| NextPiece.GetShapeBounds | js/next-piece.js:75-101 | for a shape with an occupied cell: every occupied cell lies in the box, each bound is reached by an occupied cell, and width and height are finite and ≥ 1. For an all-zero shape: coordinates 0, width and height −∞ |
| Stats.LevelForScore | js/game-stats.js:124 | the level earned by a score is the one whose 1000-point band holds it |
| Stats.LevelForScoreMonotone | js/game-stats.js:124 | a higher score never earns a lower level |
| Stats.LinePointsFor | js/game-stats.js:70 | the table entry for 0–4 lines, 0 for any other count, never negative |
| Stats.LinePointsIncreasing | js/page-settings.js:14 | clearing more lines at once (up to 4) is worth strictly more |
| Stats.LoadedOr | js/game-stats.js:88-102 | a missing value keeps its default; a present one is taken as it is or raised to its floor |
| Stats.ScoredKeepsOrder | js/game-stats.js:44-52 | scoring keeps the counters consistent (level ≥ 1 and ≥ what the score earns, best level ≥ level, counters ≥ 0); it never lowers the level, the high score or the best level; a non-zero amount is added exactly and the high score is at least the new score; the line and piece counters are unchanged |
| Stats.LockKeepsOrder | js/main-page.js:301-307 | a lock that clears n lines keeps the counters consistent, never lowers the level or the records, counts one piece and adds n to both line counters |
| Stats.LineClearScores | js/game-stats.js:60-72 | clearing 1 to 4 lines always raises the score, by the table points times the level before the update, and the level becomes the larger of the old level and the level the new score earns |
| Stats.BonusKeepsOrder | js/game-stats.js:36-42 | the hard-drop bonus keeps the counters consistent, never lowers the level or the records, and adds distance × 1 exactly when the distance is positive |
| Stats.NewGameConsistent | js/game-stats.js:24-30 | a new game has consistent counters with score 0, level 1 and no lines, and keeps every lifetime value |
| Stats.GameStats.constructor | js/game-stats.js:6-22 | a fresh game (score 0, level 1); the high score is loaded unclamped, the best level raised to ≥ 1, the totals to ≥ 0 |
| Stats.GameStats.ResetForNewGame | js/game-stats.js:24-30 | score 0, level 1, no lines this game; the lifetime counters are unchanged; the counters become `NewGame` of the old ones |
| Stats.GameStats.GetDropInterval | js/game-stats.js:32-34 | the drop interval of the current level, within [90, 1000] |
| Stats.GameStats.CheckHighScore | js/game-stats.js:114-121 | the high score becomes the maximum of itself and the score; nothing else changes |
| Stats.GameStats.CheckLevelUp | js/game-stats.js:123-137 | the level becomes the maximum of itself and the level the score earns; the best level follows a rise |
| Stats.GameStats.AddScore | js/game-stats.js:44-52 | 0 points change nothing; otherwise the score grows by exactly the points, and the high score and the level catch up; neither decreases and the drop interval never grows; the counters become `Scored` of the old ones |
| Stats.GameStats.AddHardDropBonus | js/game-stats.js:36-42 | a distance ≤ 0 changes nothing; otherwise the score grows by distance × 1 and the high score and level catch up; the counters become `BonusScored` of the old ones |
| Stats.GameStats.RecordPiecePlaced | js/game-stats.js:54-58 | the piece total grows by exactly 1 and no other counter changes (`PiecePlaced`) |
| Stats.GameStats.RecordLinesCleared | js/game-stats.js:60-72 | a count ≤ 0 changes nothing; otherwise both line counters grow by the count, and the score grows by the table points times the level before the update (0 for more than 4 lines), with the high score and levels catching up; the counters become `LinesCleared` of the old ones |
| PreviousScores.HistoryFromStorage | js/previous-scores.js:57-73 | missing or non-array data loads as the empty list; an array loads as its first min(n, 10) elements in order |
| PreviousScores.ScoreHistory.constructor | js/previous-scores.js:6-10 | the history is what the storage loads to |
| PreviousScores.ScoreHistory.Add | js/previous-scores.js:12-26 | the new entry is first, the length is min(old length + 1, 10), and the rest are the old entries in order with only the oldest dropped |
| Playfield.CellOk | js/main-page.js:272-291 | the test of one shape cell passes exactly when the cell is empty or its target position is free |
| Playfield.RowFits | js/main-page.js:271-292 | the row check holds exactly when every occupied cell of the row from the scan column on lands on a free cell |
| Playfield.ShapeFits | js/main-page.js:270-293 | the shape check holds exactly when every occupied cell from the scan row on lands on a free cell |
| Playfield.IsValidMove | js/main-page.js:269-294 | valid exactly when every occupied cell lands in columns [0, 12), above row 20, and on a cell that is empty or above the top row |
| Playfield.Moved | js/main-page.js:264-265 | the piece keeps its type and shape and shifts by exactly the offset |
| Playfield.FitsShift | js/main-page.js:256-267 | testing an offset is testing the piece moved by that offset |
| Playfield.FitsAboveFloor | js/main-page.js:283-285 | a piece with an occupied cell that fits has its top above the floor |
| Playfield.DropsToUnique | js/main-page.js:175-178 | a piece has at most one drop distance |
| Playfield.DropFrom | js/main-page.js:175-178 | counting on from a fitting offset reaches a distance where every offset up to it fits and the next does not |
| Playfield.DropDistance | js/main-page.js:175-178 | the drop distance: every offset from 1 to d fits and d + 1 does not |
| Playfield.FirstValidKick | js/main-page.js:202-218 | the first kick in list order that fits, with every earlier kick refused; or none, with every kick refused |
| Playfield.Rotated | js/main-page.js:197-221 | the rotation keeps the type and is either the piece unchanged or its clockwise turn, kicked, at a position that fits |
| Playfield.RotatedFits | js/main-page.js:197-221 | rotating a piece that fits gives a piece that fits and still has an occupied cell |
| Playfield.MergedBefore | js/main-page.js:313-332 | a partial merge keeps the board's size |
| Playfield.Merged | js/main-page.js:313-332 | each empty cell under an occupied cell of the piece takes the piece's type; every other cell keeps its content |
| Playfield.MergedBeforeStart | js/main-page.js:314 | before the scan nothing is merged |
| Playfield.MergedBeforeEnd | js/main-page.js:314-331 | the scan over every shape row is the whole merge |
| Playfield.MergedBeforeRowDone | js/main-page.js:315-330 | finishing a shape row moves the merge to the next row |
| Playfield.MergeStep | js/main-page.js:316-329 | one cell step of the loop extends the partial merge by that cell |
| Playfield.MergeFillsPiece | js/main-page.js:313-332 | merging a piece that fits changes exactly the cells under its occupied cells, to its type |
| Playfield.Keep | js/main-page.js:337-344 | the surviving rows are no more than the board's rows |
| Playfield.FullCount | js/main-page.js:337-344 | the number of full rows is at most the number of rows |
| Playfield.EmptyRow | js/main-page.js:340 | a new row has 12 empty cells |
| Playfield.EmptyRows | js/main-page.js:340 | n new rows, each empty |
| Playfield.AfterClear | js/main-page.js:334-347 | the cleared board keeps the height; its top rows, as many as there were full rows, are empty; every row below them is a non-full row of the old board |
| Playfield.KeepAndFullCount | js/main-page.js:334-347 | the surviving rows and the full rows together are all the rows |
| Playfield.KeepIsNonFullRows | js/main-page.js:338-339 | the surviving rows are exactly the board's non-full rows |
| Playfield.FullCountAppend | js/main-page.js:337-344 | the full-row count of two stacked boards is the sum of their counts |
| Playfield.FullRowsSnoc | js/main-page.js:337-344 | the full rows of a board are those of all but its last row, plus the last row when full |
| Playfield.FullCountIsSize | js/main-page.js:334-347 | the returned count is the number of full rows of the board |
| Playfield.AfterClearWellFormed | js/main-page.js:334-347 | after clearing, the board is still 20 × 12 and has no full row |
| Playfield.AfterClearNoFullRows | js/main-page.js:334-347 | a board without full rows is left as it is |
| Playfield.AfterClearIdempotent | js/main-page.js:334-347 | clearing twice is clearing once |
| Playfield.ClearScanLength | js/main-page.js:337-344 | the loop keeps the board's height |
| Playfield.ClearScanFull | js/main-page.js:338-342 | the row at the scan index is the next unexamined original row; splicing it out when full, adding an empty row on top and staying at the same index keeps the loop invariant |
| Playfield.ClearScanKeep | js/main-page.js:337-338 | passing over a non-full row keeps the loop invariant |
| Playfield.ClearScanDone | js/main-page.js:337-344 | the rows the loop has put on top are not full |
| Playfield.ClearScanResult | js/main-page.js:334-347 | at the end of the scan the count is the number of full rows and the board is the cleared board |
| Playfield.Spawned | js/main-page.js:358-361 | the spawned piece keeps type and shape, at row 0 and column ⌊(12 − width) / 2⌋ |
| Playfield.NewPieceFitsEmptyBoard | js/main-page.js:107-110 | every piece built by the generator fits an empty board |
| Engine.GeneratedPlayable | js/blocks.js:124-135 | every piece built from the catalogue is rectangular with an occupied cell |
| Engine.MeasureDrop | js/main-page.js:175-178 | the counting loop ends at the piece's drop distance |
| Engine.MergeCells | js/main-page.js:313-332 | the cell loop yields exactly the merged board |
| Engine.ClearRows | js/main-page.js:334-347 | the splice-and-rewind loop returns the number of full rows and yields the cleared board: the non-full rows in order at the bottom, as many empty rows on top |
| Engine.RotatePiece | js/main-page.js:197-221 | the clone, turn and kick loop yields exactly the rotation: the first fitting kick in the order (0,0), (1,0), (−1,0), (2,0), (−2,0), (0,−1), or the original shape and position |
| Engine.TetrisGame.IsInteractionAllowed | js/main-page.js:423-425 | interaction needs an active piece; a finished or paused game allows none |
| Engine.TetrisGame.constructor | js/main-page.js:78-100 | empty board, no pieces, counter 0, not active, not paused |
| Engine.TetrisGame.Draw | js/blocks.js:92-99 | the drawn piece is the catalogue piece of its type at the spawn column; the generator's queue loses its last type, or an empty queue is refilled with a bag whose other six types stay queued; the piece is playable and fits an empty board |
| Engine.TetrisGame.DrawTwo | js/main-page.js:109-110 | the two draws of a new game give playable pieces, the first fitting an empty board |
| Engine.TetrisGame.StartNewGame | js/main-page.js:102-122 | empty board, two drawn pieces, counter 0, active, not paused; the counters are reset for a new game (score 0, level 1, no lines) with the high score, best level and lifetime totals kept; the engine invariant holds |
| Engine.TetrisGame.TogglePause | js/main-page.js:140-151 | the pause flag flips only while a game is active; nothing else changes |
| Engine.TetrisGame.TryMove | js/main-page.js:256-267 | moves exactly when there is a piece and the move is valid, by exactly the offset; otherwise nothing changes |
| Engine.TetrisGame.MoveHorizontal | js/main-page.js:153-160 | when interaction is allowed the piece shifts sideways if that is valid; otherwise nothing changes |
| Engine.TetrisGame.MergePieceIntoBoard | js/main-page.js:313-332 | the board becomes the merged board; nothing else changes |
| Engine.TetrisGame.ClearCompletedLines | js/main-page.js:334-347 | returns the number of full rows and the board becomes the cleared board |
| Engine.TetrisGame.TriggerGameOver | js/main-page.js:368-381 | the game stops and the final score heads the score history |
| Engine.TetrisGame.SpawnNextPiece | js/main-page.js:349-366 | the next piece becomes active at its spawn position, a fresh catalogue piece is drawn as the next piece, and the game ends exactly when the spawn position is blocked, which puts the final score at the head of the score history; otherwise the history is unchanged |
| Engine.TetrisGame.LockPiece | js/main-page.js:296-311 | without a piece nothing changes, including the score history and the generator's queue; otherwise the board becomes the cleared merged board, the counters become those of one more piece and the cleared lines scored at the old level, the counter is 0, the next piece spawns and a fresh catalogue piece is drawn, and the game ends exactly when the spawned piece is blocked, with the final score then heading the score history and the history unchanged otherwise; the level and records never fall |
| Engine.TetrisGame.SoftDrop | js/main-page.js:244-254 | either the piece moves down one row, scoring one point when manual, and nothing else changes (score history and queue included); or the row is blocked and the piece is locked, with every effect of a lock; never both; the level and records never fall |
| Engine.TetrisGame.SoftDropManual | js/main-page.js:162-168 | when interaction is allowed, a soft drop that scores one point (nothing else changing) or locks with every effect of a lock; otherwise nothing at all changes, the score history and the generator's queue included |
| Engine.TetrisGame.FallToFloor | js/main-page.js:175-183 | the piece moves down by its drop distance, the counters become those after the hard-drop bonus for that distance, and nothing else changes |
| Engine.TetrisGame.HardDrop | js/main-page.js:170-187 | when allowed, the piece lands at its drop distance (where the ghost piece shows), the bonus is scored, and the landed piece is locked with every effect of a lock, counted from the counters after the bonus; otherwise nothing at all changes, the score history and the generator's queue included; the level and records never fall |
| Engine.TetrisGame.RotateActivePiece | js/main-page.js:189-222 | when allowed, the active piece becomes its rotation; otherwise nothing changes |
| Engine.TetrisGame.Tick | js/main-page.js:224-238 | a finished or paused game changes nothing, the score history and the generator's queue included; below the level's interval only the counter grows; at the interval the piece drops one row with the counter restarted at 0 and nothing else changed, or it is locked with every effect of a lock; the level and records never fall |
| Engine.TetrisGame.CalculateGhostPiece | js/main-page.js:393-409 | the preview is the active piece moved down by exactly its drop distance, the same row a hard drop lands on; nothing changes |

## Left out

- Rendering: the canvas drawing of the board and of the next-piece preview, and `renderFrame`. They only produce pixels.
- Page wiring: the DOM setup, buttons, the game-over modal, the final-score text and the displayed counters.
- `quickRestart` and `restartFromModal`: they depend on the modal's visibility, which is page state. They only call `startNewGame`, which is modelled.
- The theme toggle and the piece colours: `resolveTetrominoColors`, `refreshColors` and `getColors`. They read CSS.
- The keyboard and button bindings. `js/controls-&-motion.js` is not part of this model.
- Storage. `localStorage`, `parseInt`, `JSON.parse`/`stringify` and `#persist` are not modelled. What they load is a constructor parameter, and only the defaulting, clamping and truncation rules are kept.
- Scheduling: `requestAnimationFrame`, `cancelAnimationFrame` and `performance.now`. `Tick` takes the elapsed time as an integer, where the source uses floating-point milliseconds.
- `Math.random` in the shuffle. The swap partner is an arbitrary index in range, so `Shuffle` promises some permutation and nothing about its distribution.
- `new Date().toLocaleString()`. The date of a score is an opaque string parameter.
- Blocks.CloneShape: shapes are values, so the model cannot say that the copy shares no row arrays with its input. Aliasing of piece objects is not modelled either.
- HardDrop.ApplyHardDrop: the source moves the piece in place and returns nothing; the model returns the moved piece.
- HardDrop.CalculateHardDropDistance: requires that some offset is refused, which the source needs for its loop to end; without one the source does not terminate.
- Playfield.Merged: a shape cell that lands outside the 12 columns is skipped by the model. The source writes it: a column of 12 or more lengthens the row array, and a negative column becomes a plain property of the row. The engine only merges pieces that fit, and `Playfield.MergeFillsPiece` shows that such a piece never has one.
- Playfield.DropDistance, Engine.MeasureDrop and Engine.TetrisGame.CalculateGhostPiece: they need a shape with an occupied cell, which the engine invariant guarantees for every piece it holds. On an all-zero shape every offset is valid, so the source's loops in `hardDrop` and `calculateGhostPiece` never end. No catalogue shape is all zero.
- Engine.TetrisGame.constructor: requires the generator to be built for the board's 12 columns, as the page builds it.
- Engine.TetrisGame.StartNewGame: states that both drawn pieces are playable and fit an empty board, not which types were drawn or what the generator's queue becomes. `Engine.TetrisGame.Draw` and `Blocks.TetrominoGenerator.Next` state each draw itself; `Engine.TetrisGame.DrawTwo` passes on only what the new game needs, which keeps the proof of `StartNewGame` small.
- The engine invariant (`Engine.TetrisGame.Valid`) does not include the generator's bag discipline. `Blocks.TetrominoGenerator.Next` preserves that discipline on its own.
- The loops of `hardDrop`, `mergePieceIntoBoard`, `clearCompletedLines` and `rotateActivePiece` are module-level methods over the board and piece values (`Engine.MeasureDrop`, `Engine.MergeCells`, `Engine.ClearRows`, `Engine.RotatePiece`). The engine's methods assign their results to its fields, so the in-place `splice`/`unshift` on the board array is modelled as building the new board.
