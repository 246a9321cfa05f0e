# Falling-block puzzle engine (tetris.js) in Dafny

This project models the simulation engine of a browser falling-block puzzle game and
proves its properties. The engine has four parts:

- a 20×10 grid of cells, each empty or tagged with the type of the piece locked there;
- the seven piece templates and their clockwise rotation;
- the controller for the active piece: move, rotate with a one-column wall kick, soft
  drop, hard drop, lock and spawn;
- the session state: score, cleared lines, level, fall interval, drop timer, and the
  running, paused and over flags.

The modules follow the program's structure:

- `Pieces`: the catalogue (`Template`) and the rotation. `Rotate` is the two nested loops
  of the game. It is proved equal to the specification `Rotated`, and four rotations are
  proved to give back the shape.
- `Grid`: the grid and the piece record.
  - Collision: `Collides` is a declarative statement and `Collide` the scan that stops at
    the first blocked cell.
  - Merge and sweep: the specification functions `Merged` and `Swept`, the row-by-row
    lemmas about them, and the landing row of a falling piece (`Landing`).
  - The wall-kick trial of the rotate command (`RotateWithKick`).
  - The ghost-row search of the renderer (`GhostRow`).
- `Scoring`: the line table, the level and fall-interval curves, and what a sweep does
  to the statistics (`Scored`).
- `Engine`: class `Game`, whose fields are the program's global variables.
  - Each command is a method that updates the fields in place, with `Valid()` as the
    session invariant.
  - `Valid()` says:
    - the grid is 20×10 and has no full row;
    - the active and queued pieces exist together;
    - the queued piece is a fresh template;
    - level and interval agree with the line total;
    - a game that is over is not running;
    - a running game's active piece does not collide.
  - `Merge` and `SweepLines` are the grid loops, proved against `Merged` and `Swept`.
  - `PieceLock` proves from `Valid()` that one lock clears at most four rows, so the
    five-entry score table always covers the sweep.

The source's piece type drawn by `Math.random` becomes a `PieceType` parameter. The frame
timestamp becomes an integer parameter of `Update`.

The drop timer runs only while the game is running and not paused. `update` returns at
once while the game is stopped or paused, without refreshing `lastTime`
(tetris.js:425-429). The first running frame after a pause therefore adds the whole
pause to the drop counter. The same happens on the first frame after `startGame`:
`lastTime` still holds 0 from page load, or the time of the last running frame before
the game ended. `Engine.Game.Update` keeps this behaviour, because `lastTime` is only
written on a running frame.

## Model

| member | source | states |
|---|---|---|
| Pieces.Template | tetris.js:19-55 | the seven templates exactly as the catalogue lists them, each a square matrix of side 4 (I), 2 (O) or 3 (the rest) |
| Pieces.TemplateWellShaped | tetris.js:19-55 | every template is a square matrix (4×4 for I, 2×2 for O, 3×3 for the rest) with at least one set cell |
| Pieces.Rotated | tetris.js:110-122 | rotating an r×c matrix gives a c×r matrix |
| Pieces.Rotate | tetris.js:110-122 | the nested loops build a c×r matrix with rows of length r, equal to `Rotated` |
| Pieces.RotatedAt | tetris.js:110-122 | row x, column j of the rotation is the input's row r-1-j, column x |
| Pieces.RotatedTwice | tetris.js:110-122 | two rotations turn the matrix upside down and mirror it |
| Pieces.RotatedFourTimes | tetris.js:110-122 | four rotations give back the original matrix exactly |
| Pieces.RotatedWellShaped | tetris.js:110-122 | rotation keeps a piece square, of the same side, and with a set cell |
| Scoring.LineScoreIncreasing | tetris.js:173 | the line table awards 0 for no row and strictly more for each further row |
| Scoring.LevelFor | tetris.js:176 | the level is at least 1, and the line total lies in [10(level-1), 10·level) |
| Scoring.IntervalFor | tetris.js:177 | the interval is 120 or 800-70(level-1), whichever is larger, so at least 120 and at most 800 from level 1 on |
| Scoring.LevelMonotone | tetris.js:176 | more cleared lines never lower the level |
| Scoring.IntervalNonIncreasing | tetris.js:177 | a higher level never lengthens the fall interval |
| Scoring.Scored | tetris.js:172-179 | a sweep with no cleared row leaves all statistics unchanged; otherwise the level and interval agree with the new line total |
| Scoring.ScoredProgress | tetris.js:172-179 | the score grows by exactly table[cleared]·(old level), lines by cleared, the level never drops, the interval never grows and stays ≥ 120 |
| Grid.EmptyRow | tetris.js:90 | an empty row has COLS cells and is not full |
| Grid.CreateEmptyBoard | tetris.js:87-93 | the new grid is ROWS×COLS, every cell is empty and no row is full |
| Grid.CreatePiece | tetris.js:100-108 | a new piece has the type's template, row 0, and a column floor(COLS/2)-ceil(width/2) that centres it inside the grid (the left margin equals the right one or is one less) |
| Grid.Collide | tetris.js:124-142 | the scan answers true exactly when some set cell lies left of, right of or below the grid, or on an occupied cell at row ≥ 0; rows above the grid are never checked for occupancy |
| Grid.DropBound | tetris.js:131-135 | a piece with a set cell that does not collide is above the floor, which bounds every fall |
| Grid.SpawnFitsEmptyBoard | tetris.js:100-108 | every freshly created piece fits on an empty grid |
| Grid.Kicked | tetris.js:371-395 | the rotation commits the rotated shape at the first free column among x, x+1, x-1, or leaves the piece unchanged; the row and type never change, a committed piece does not collide, and a non-colliding piece stays non-colliding |
| Grid.RotateWithKick | tetris.js:372-393 | the three trials of the rotate command, in the order x, x+1, x-1, produce exactly `Kicked` |
| Grid.Merged | tetris.js:144-157 | merging keeps the grid ROWS×COLS |
| Grid.MergedFillsEmptyCells | tetris.js:144-157 | for a piece that does not collide, every in-grid set cell was empty and now holds the piece's type, and every occupied cell keeps its type |
| Grid.MergedRowOutside | tetris.js:144-157 | the rows the piece does not reach are unchanged |
| Grid.NonFullRows | tetris.js:159-170 | the kept rows are at most as many as the input rows and none of them is full |
| Grid.NonFullRowsFrom | tetris.js:159-170 | every kept row is a row of the input |
| Grid.NonFullRowsAppend | tetris.js:159-170 | filtering a concatenation is the concatenation of the filtered parts, so the original order is kept |
| Grid.NonFullRowsOfNoFullRow | tetris.js:159-170 | a grid without full rows is kept whole |
| Grid.FullCountAppend | tetris.js:159-170 | the full-row count of a concatenation is the sum of the counts |
| Grid.SweptIsBoard | tetris.js:159-170 | the swept grid is ROWS×COLS with no full row, and at most ROWS rows were full |
| Grid.SweptIdempotent | tetris.js:159-170 | sweeping a swept grid changes nothing |
| Grid.SweptSingleFullRow | tetris.js:159-170 | a grid whose only full row is r loses exactly that row and gains one empty row on top |
| Grid.SweepState | tetris.js:161-169 | an intermediate grid of the sweep has c + m + (kept rows below the scan) rows |
| Grid.SweepStateAt | tetris.js:161-169 | above the scan boundary, an intermediate grid holds the added empty rows and then the unscanned original rows |
| Grid.SweepRemoveStep | tetris.js:162-166 | removing the full row at the scan position and adding an empty row on top reaches the next intermediate grid |
| Grid.SweepKeepStep | tetris.js:167-168 | passing over a row that is not full leaves the grid as it is |
| Grid.SweepStep | tetris.js:161-169 | one loop iteration: the index is in range, a full row found there is an original row whose removal reaches the next intermediate grid, and a non-full one is passed over |
| Grid.SweepStateDone | tetris.js:161-169 | when the scan is finished, the grid is the swept grid and the removal count is the number of full rows |
| Grid.MergedFullRows | tetris.js:405-408 | locking a piece into a grid without full rows creates at most as many full rows as the piece is tall, so at most four |
| Grid.Landing | tetris.js:397-403 | the landing row of a falling piece is at or below its current row |
| Grid.LandingStep | tetris.js:399-401 | one free step down does not change the landing row, and the piece is still above the floor |
| Grid.LandingRests | tetris.js:258-260 | one step below the landing row collides, and every row passed on the way down is free |
| Grid.GhostRow | tetris.js:250-260 | the ghost search returns the landing row: the lowest row reached by free single steps, with a collision one row below |
| Engine.Game.CanControl | tetris.js:82-84 | controls are accepted exactly when the game is running, not paused and not over |
| Engine.Game.AcceptedControlHasPiece | tetris.js:82-84 | under the session invariant, whenever controls are accepted there is an active piece and it does not collide |
| Engine.Game.constructor | tetris.js:67-80 | the initial session: an empty grid, no pieces, score 0, lines 0, level 1, interval 800, timer 0, all flags down |
| Engine.Game.Merge | tetris.js:144-157 | the loops leave the grid equal to `Merged` of the old grid and the active piece |
| Engine.Game.SweepLines | tetris.js:159-180 | the loop leaves the grid equal to `Swept` of the old grid, and the statistics become `Scored` of the old ones with the number of full rows |
| Engine.Game.ScoreSweep | tetris.js:172-179 | the award block sets the statistics to `Scored` of the old ones |
| Engine.Game.SpawnPiece | tetris.js:347-360 | the queued piece (a fresh one when none is queued) becomes active and a fresh piece is queued; the game ends (over, not running) exactly when the new piece collides, and otherwise both flags keep their values |
| Engine.Game.PlayerMove | tetris.js:362-369 | the piece moves to column x+dir when that does not collide; otherwise nothing changes; a non-colliding piece stays non-colliding; the invariant is kept |
| Engine.Game.PlayerRotate | tetris.js:371-395 | the active piece becomes `Kicked` of itself, and the invariant is kept |
| Engine.Game.PieceLock | tetris.js:405-410 | merge, sweep, award and spawn, in that order: the grid is the swept merged grid, the statistics are scored with its full-row count (at most four), the queued piece is promoted, and the game ends exactly when it collides; the invariant is kept |
| Engine.Game.PlayerSoftDrop | tetris.js:412-422 | when the row below is free, the piece moves down one row and the score grows by exactly 1; otherwise the piece is locked; with no active piece nothing changes |
| Engine.Game.HardDrop | tetris.js:397-403 | the piece falls to its landing row, where one more step collides, and is locked there; no points are awarded beyond the sweep's |
| Engine.Game.ResetGame | tetris.js:444-455 | empty grid, statistics back to their start values, the first two pieces drawn, not over; the run and pause flags and the timer are untouched |
| Engine.Game.StartGame | tetris.js:457-461 | after a reset the game runs unpaused with a non-colliding active piece, so controls are accepted |
| Engine.Game.TogglePause | tetris.js:463-466 | the pause flag flips in a running game and is untouched otherwise |
| Engine.Game.Update | tetris.js:424-442 | a stopped or paused game is left untouched; otherwise the frame time is recorded, the elapsed time is added to the counter, and once the counter exceeds the interval the piece is soft-dropped and the counter restarts from 0 |
| Engine.Game.HandleKey | tetris.js:469-496 | keys are ignored unless controls are accepted; unknown keys change nothing; the drop keys restart the drop counter; the move and rotate keys leave the grid, the queue, the statistics and the status flags as they were |

## Left out

- Rendering is not modelled: `drawCell`, `drawBoard`, `drawPiece`, `drawNext`, `drawGameOver`, colours and cell size. It is pixel output with no decisions. The ghost search inside `drawBoard` is modelled as `Grid.GhostRow`.
- DOM wiring is not modelled: element lookups, `updateStats`, and the button and touch bindings (tetris.js:498-535). The touch buttons run the same gate and commands as the keys in `Engine.Game.HandleKey`.
- `Math.random` in `randomPieceType` becomes a `PieceType` parameter of every operation that spawns.
- `requestAnimationFrame` scheduling becomes repeated calls of `Engine.Game.Update`, and its fractional millisecond timestamps become integers.
- server.py is not part of this model. It serves files over HTTP and has no game logic.
- The pieces are values. The source changes the active piece object in place (`current.x++`, `current.shape = …`); the model replaces the value of `current`. The same object is never shared between `current` and `nextPiece`, so no aliasing is lost.
- `SweepLines` scans a local copy of the grid and stores it at the end. The source splices the global row array in place; the rows and their order are the same.
- Engine.Game.SweepLines: requires at most four full rows. With more, the source would read past the five-entry score table and turn the score into NaN. `Engine.Game.PieceLock` proves this never happens.
- Engine.Game.HandleKey: states the gate, the counter reset and what the move and rotate keys leave alone. The full effect of each key is the contract of the command method it calls.
- Pieces.Rotate: states equality with `Rotated`; the element-wise formula is the separate lemma `Pieces.RotatedAt`.
