# Bubble shooter grid engine

A model of the board logic of a browser bubble shooter (`script.js`).

The board is a ROWS x COLS (20 x 16) lattice. Odd rows sit half a cell to
the right, so each cell touches up to six others. A cell is occupied
(`active`), has a colour, and may be `isPopping`: it is still on the board
but excluded from every search until its pop animation ends.

A shot lands on a cell. The engine then does the following:
- it finds the shot's same-colour group;
- a group of at least 3 pops for 10 points per cell;
- after the pop, a deferred check drops every bubble no longer hanging from
  the ceiling, for 20 points per bubble;
- a shot that pops nothing counts down a miss counter; a full round of 5
  misses injects a new row at the top.

While a game is on, a row is also injected once 25 seconds have passed
since the last injection. After any injection, an occupied cell in the
danger row (ROWS - 3) ends the game. On every frame of play, the pop
animations that have run for 400 ms are removed and their cells emptied;
on the menu and game-over screens nothing is removed.

Modules, following the program's structure:

- `HexGrid` (`hexgrid.dfy`) holds the lattice, the neighbour offset table
  and adjacency.
- `Board` (`board.dfy`) holds the board as a value (`Grid`, a sequence of
  rows) and the whole-board transformations the game applies to it:
  - marking cells popping;
  - clearing cells;
  - shifting rows down;
  - placing a shot.

  It also holds the pop-animation records (`PopAnim`) and the invariant
  tying them to the popping flags (`RecordsMatchPopping`).
- `Matching` (`matching.dfy`) holds reachability through open cells:
  - same-colour groups (`Component`);
  - attachment to the ceiling (`CeilingReachable`);
  - the detached cells (`DetachedCells`);
  - the lemmas that tie the searches to them.
- `Scoring` (`scoring.dfy`) holds the miss counter and the points.
- `Game` (`game.dfy`) is a class with the program's global state as fields:
  - board, phase, score, best score, miss counter;
  - record list, projectile and next colour;
  - last drop time, pending drop checks.

  Its methods update these fields in place, step by step as the program
  does, with loops and invariants. Each method's postcondition ties the new
  state to the `Board`/`Matching` functions of the old state.

What comes from outside the model:

- The clock (`Date.now()`) is a parameter `now`.
- Random colour draws are parameters:
  - `colors` for a new board;
  - `refill` for an injected row;
  - `first`, `second` and `nextDraw` for projectile colours.
- The best score loaded from storage is a constructor parameter.
- The landing cell of a shot is a parameter.

Four behaviours of the code are easy to misread, and the model keeps them
as the code has them:

- The timed injection restarts its timer only when it injects
  (`script.js:275-278`), so shots do not put it off (`AutoDrop`).
- A row injection calls `endGame` once per occupied danger-row cell
  (`script.js:410`), not once per loss (`LossSignals`, `EndedBy`).
- The win check asks whether no cell is active (`script.js:393`), but it
  runs too early to ever succeed (see Findings).
- A row injection moves occupancy and colour but not the popping flags
  (`script.js:398-403`). A popping bubble therefore reappears one row lower
  without its flag, and its pending record later empties whatever bubble
  moved into its old cell (`ShiftDown`, `ShiftDownKeepsRecords`).

## Model

| member | source | states |
|---|---|---|
| HexGrid.Neighbors | script.js:143-152 | at most six neighbours, every one on the board |
| HexGrid.NeighborsExactly | script.js:143-152 | a cell is a neighbour of (r, c) iff it is on the board and its offset is in the parity-dependent table of six offsets |
| HexGrid.InBoundsTargetsExactly | script.js:147-150 | the bounds-filtered targets of an offset list are exactly its on-board targets (no wrap-around) |
| HexGrid.NeighborsIrreflexive | script.js:143-152 | no cell is its own neighbour |
| HexGrid.NeighborsSymmetric | script.js:143-152 | adjacency is symmetric: if q neighbours (r, c) then (r, c) neighbours q |
| HexGrid.OffsetsShape | script.js:145-146 | the offset table of a row has six distinct non-zero entries at most one row away: same-row entries one column away, the others on the two columns the row's parity selects |
| HexGrid.RowShiftFlips | script.js:145 | the parity offset is 0 or 1 and flips between vertically adjacent rows |
| HexGrid.OffsetReversed | script.js:145-146 | reversing an offset of row r gives an offset of the row it leads to |
| Scoring.CounterAfterMiss | script.js:381-384 | after one miss the counter stays in 1..MAX_MISSES: one less, or refilled to MAX_MISSES from 1 |
| Scoring.MissRunFromFull | script.js:380-384 | from a full counter, n misses in a row inject n / 5 rows and leave the counter at 5 - n % 5 |
| Scoring.FullRoundOfMisses | script.js:380-384 | five misses from a full counter inject exactly one row and refill the counter |
| Board.InitialGrid | script.js:120-134 | a new board has exactly the first 6 rows occupied, each cell with its drawn colour, none popping |
| Board.MarkPopping | script.js:195-198 | exactly the given cells get the popping flag; nothing else changes |
| Board.ClearCells | script.js:291-293 | exactly the given cells are emptied and unflagged; nothing else changes |
| Board.ShiftDown | script.js:397-408 | each row takes the occupancy and colour of the row above, row 0 becomes occupied with the refill colours, popping flags stay |
| Board.ShiftDownNeverEmpty | script.js:404-407 | after a row injection the board is never empty |
| Board.ShiftDownLoss | script.js:410 | after an injection, the number of loss signals equals the number of occupied cells the row above the danger row had before |
| Board.LossSignals | script.js:410 | the loss check signals at most COLS times, and not at all iff no danger-row cell is occupied |
| Board.ActiveCount | script.js:410 | the count is zero iff no cell of the row is occupied |
| Board.ShiftDownKeepsPalette | script.js:404-407 | a row injection keeps every colour inside the palette |
| Board.ShiftDownKeepsRecords | script.js:397-408 | a row injection keeps the popping flags in agreement with the records |
| Board.Pending | script.js:287-299 | the records left after a frame are exactly the unfinished ones (`elapsed / 400 >= 1` is `elapsed >= 400`) |
| Board.FinishedCells | script.js:287-293 | the cells emptied in a frame are exactly those of finished records |
| Board.StartPopKeepsRecords | script.js:195-204 | popping a cell that was not popping, with one appended record, keeps the flags and records in one-to-one agreement |
| Board.CompletePopsKeepsRecords | script.js:287-299 | emptying the finished cells and dropping their records keeps the flags and records in agreement |
| Board.PendingDistinct | script.js:294 | removing records keeps their cells distinct |
| Board.SpliceStep | script.js:287-294 | one backward step of the removal loop: `splice(i, 1)` of a finished record i leaves the records from i on processed |
| Board.FinishedCellsFrom | script.js:287-293 | one backward step of the removal loop adds record i's cell to the emptied ones iff it is finished |
| Board.AppendedCover | script.js:195-204 | every cell of a popped set has its own newly appended record |
| Board.CardOfInjective | script.js:195-204 | appended records with distinct cells are as many as their cells |
| Board.PlaceKeepsRecords | script.js:362-363 | landing a shot does not change popping flags or records |
| Board.PlacedCells | script.js:362-363 | landing a shot occupies exactly the landing cell with the shot's colour |
| Board.PlaceKeepsPalette | script.js:362-363 | landing a shot keeps every colour inside the palette |
| Matching.Component | script.js:154-161 | a group is the set of on-board cells reachable from the seed through occupied, non-popping cells of the colour |
| Matching.ComponentOfClosedSeed | script.js:156-157 | the group is empty when the seed is empty, popping or of another colour |
| Matching.ComponentHasSeed | script.js:156-158 | a qualifying seed is in its own group |
| Matching.ComponentMembersOpen | script.js:157 | every member of a group is occupied, not popping and of the colour (soundness) |
| Matching.ComponentClosed | script.js:159 | every qualifying neighbour of a member is a member (closure) |
| Matching.ComponentSameFromMember | script.js:154-161 | the search gives the same group from any of its members |
| Matching.ReachesInSymmetric | script.js:159 | walks through open cells can be reversed |
| Matching.ClosedReachedIsComponent | script.js:154-161 | a closed set of cells reached from the seed that holds the qualifying seed is the whole group |
| Matching.DetachedCells | script.js:184-192 | the swept cells are exactly the occupied, non-popping cells that no walk from an occupied ceiling cell reaches |
| Matching.CeilingSearchDone | script.js:164-182 | when the queue is exhausted, the marked cells are exactly those hanging from the ceiling |
| Matching.ClosedHoldsCeiling | script.js:166-182 | a closed set that holds the open ceiling cells holds every ceiling-reachable cell |
| Matching.CeilingReachableStep | script.js:177-180 | an open neighbour of a ceiling-reachable cell is ceiling-reachable |
| Matching.CeilingRowAttached | script.js:166-171 | an open ceiling cell is never dropped |
| Matching.MarkedBeforeDone | script.js:184-192 | the row-major sweep collects exactly the detached cells |
| Matching.AttachedWalkSurvives | script.js:163-193 | a walk from the ceiling survives the marking of the detached cells |
| Matching.DropClearsBoard | script.js:163-193 | once the detached cells are flagged, nothing is left standing iff row 0 held no standing bubble |
| Matching.DropIdempotent | script.js:163-193 | a second drop check right after the first finds nothing to drop |
| Game.Game.constructor | script.js:15-82 | the page starts on the menu, score 0, stored best score, full miss counter (lines 15-23), and no records (line 82). The source's board is an empty array until a game starts (line 78); the model's "empty board" is a full 20 x 16 board with no occupied cell: no bubble anywhere, as with the empty array |
| Game.Game.InitGrid | script.js:120-134 | the board becomes the new-game board of the drawn colours |
| Game.Game.StartGame | script.js:100-118 | playing, score 0, full miss counter, drop timer at `now`, new board, projectile and next colour drawn; also clears records and pending checks (see Findings) |
| Game.Game.StartGameAsWritten | script.js:100-118 | the same fields as written, with old records and pending drop checks kept |
| Game.Game.ResetGame | script.js:91-98 | back to the menu |
| Game.Game.EndGame | script.js:414-425 | game over; best score raised to the score when lower |
| Game.Game.CreateProjectile | script.js:427-434 | the launcher gets the previous next colour, a new next colour is drawn, nothing else changes |
| Game.Game.StartPopAnimation | script.js:195-205 | the cell gets the popping flag and one record is appended; a second call on the same cell changes nothing |
| Game.Game.PopGroup | script.js:367-370 | every cell of the group is flagged popping and gets exactly one appended record |
| Game.Game.FindMatches | script.js:154-161 | the result is exactly the cell's same-colour group (sound, closed, empty when the seed does not qualify) |
| Game.Game.Visit | script.js:154-161 | one recursive call: grows the marked set to a closed set reached from the seed without leaving the group |
| Game.Game.CeilingPass | script.js:164-182 | the breadth-first pass marks exactly the cells hanging from the ceiling |
| Game.Game.SeedCeilingRow | script.js:166-171 | the occupied, non-popping cells of row 0 are marked and queued |
| Game.Game.ExpandHead | script.js:175-182 | one step of the queue keeps the search invariant and makes progress |
| Game.Game.ExpandCell | script.js:176-181 | every open neighbour of the dequeued cell is marked and queued, only ceiling-reachable cells are marked, the queue only grows at its end |
| Game.Game.DropDisconnected | script.js:163-193 | exactly the detached cells are flagged popping, each with one record, and their number is returned |
| Game.Game.ScanRow | script.js:184-191 | the sweep over one row collects exactly that row's detached cells |
| Game.Game.ScanCell | script.js:187-190 | one cell of the sweep: it is flagged popping with a record, and counted, iff it is detached |
| Game.Game.PopOne | script.js:188 | one more cell that was not popping gets the popping flag and one appended record; earlier pops are kept |
| Game.Game.CompletePops | script.js:287-299 | the finished records are removed and their cells emptied; the unfinished ones stay in order and their cells are untouched |
| Game.Game.SweepAll | script.js:287-298 | the backward loop over all records leaves exactly the unfinished records, in order, and empties exactly the finished cells |
| Game.Game.SweepOne | script.js:287-298 | one backward step of the removal loop |
| Game.Game.PushGridDown | script.js:397-412 | the board is shifted and refilled; the game ends iff a danger-row cell is occupied, once per such cell |
| Game.Game.ShiftAndRefill | script.js:398-408 | the board becomes the shifted board with row 0 refilled, and the invariant is kept |
| Game.Game.ShiftRows | script.js:398-403 | every row from the bottom up takes the occupancy and colour of the row above |
| Game.Game.ShiftRow | script.js:399-402 | one row takes the occupancy and colour of the row above |
| Game.Game.RefillTop | script.js:404-407 | row 0 is refilled, occupied, with the drawn colours |
| Game.Game.CheckDangerRow | script.js:410 | the number of loss signals is the number of occupied danger-row cells, and the game ends iff it is positive |
| Game.Game.PlaceShot | script.js:362-363 | the landing cell is occupied with the projectile's colour |
| Game.Game.RegisterMiss | script.js:380-384 | the counter moves as `CounterAfterMiss`; a row is injected iff it reached zero, with the injection's loss outcome |
| Game.Game.SettleShot | script.js:362-385 | the shot's group pops iff it has 3 or more cells, for 10 points each and one scheduled drop check; otherwise the miss path |
| Game.Game.PopMatches | script.js:366-376 | the group's cells pop with their records, its points are added, one drop check is scheduled |
| Game.Game.FinalizeSettling | script.js:359-390 | a landing at row ROWS-2 or lower ends the game and changes nothing else. Otherwise the shot is placed. The shot pops iff its group has 3 or more cells, and then reports the group's size: its cells are flagged, each with one appended record, 10 points a cell, one drop check scheduled, counter, phase and best score unchanged. Otherwise a miss: records and score unchanged, the counter moves, a row is injected iff the counter ran out, and the game ends iff that injection left the danger row occupied. Then the launcher is reloaded and the corrected win check runs |
| Game.Game.SettleAndReload | script.js:362-389 | the same pop or miss outcome as FinalizeSettling (pop iff the group has 3 or more cells, its size reported, injection iff the counter runs out), records and loss outcome included, then the reload, then the win check |
| Game.Game.RunDropCheck | script.js:372-375 | the deferred drop check: detached cells pop, 20 points each, one pending check consumed; then the corrected win check, a win iff nothing is left standing, which is iff row 0 held no standing bubble |
| Game.Game.AutoDrop | script.js:275-278 | a row is injected, and the drop timer restarted, iff at least 25 s have passed since the last injection |
| Game.Game.InjectTimedRow | script.js:276-277 | the timed injection shifts the board and restarts the timer at `now` |
| Game.Game.Frame | script.js:270-299 | off the playing screen nothing changes. On it, a row is injected and the drop timer set to `now` iff 25 s have passed, otherwise the timer stays; the loss signals are those of the injected board, and the game ends iff there are any; then the finished pops are removed and their cells emptied |
| Game.Game.CheckWinCondition | script.js:392-395 | as written: a win iff no cell is occupied |
| Game.Game.CheckBoardCleared | script.js:392-395 | corrected: a win iff every occupied cell is already popping |
| Game.AsWrittenWinNeverFires | script.js:362-395 | right after a landing (popped or not, shifted or not) the board is never empty, so the check as written never declares a win |
| Game.ClearingShotExample | script.js:362-395 | a concrete final shot: two colour-0 cells at the top left plus a shot at (0, 2) pop a group of 3 that leaves nothing standing, yet the board is not empty |
| Game.RunOfThreeGroup | script.js:154-161 | in that board, the shot's group is exactly the three cells of the run |
| Game.LastGroupWins | script.js:362-395 | if the shot's group holds every standing cell, the corrected check declares a win |
| Game.StaleRecordErasesCell | script.js:100-118 | a finished record left from the last game disagrees with the new board and empties one of its first 6 rows |

## Left out

- Rendering, the canvas, themes, audio, the DOM overlays, `updateUI`,
  `resize` and `getBubbleCoords` have no effect on the board logic.
- Input handling and projectile flight (`handleInput`, the motion code in
  `render`, `checkCollision`) are left out: they are floating-point
  geometry. The landing cell is a parameter of `FinalizeSettling`.
- FinalizeSettling requires a landing row of at least 0 and a column on
  the board. The collision code clamps the column (`script.js:340`). A
  ceiling hit can round to row -1 on a very narrow canvas, but then
  `grid[r][c]` at `script.js:341` throws before `finalizeSettling` is ever
  reached, so a negative row never arrives there (by reading the code).
- Browser storage is left out: the best score read at load time is a
  constructor parameter, and the write in `endGame` is not modelled.
- The clock and `Math.random` are parameters, as listed above.
- Game.Game.CompletePops reads one time `now` per frame. The source calls
  `Date.now()` again for each record, so a record finishing between two
  such reads within one frame is not modelled.
- Game.Game.RunDropCheck: timers are modelled in two ways.
  - The 100 ms `setTimeout` after a pop is a counter, `pendingDropChecks`,
    that `PopMatches` raises and `RunDropCheck` consumes. When it fires
    relative to other events is left to the caller.
  - The 2 s `setTimeout(resetGame)` after a win is not scheduled: the win is
    returned as `won`, and `ResetGame` is a separate operation.
- Game.Game.Frame returns the number of loss signals. `endGame` runs once
  per occupied danger-row cell (`script.js:410`). Calls after the first
  change nothing more, since the score is unchanged in between; the
  model checks this with `EndedBy`.
- Game.Game.AutoDrop: the timed injection runs on its clock alone. Shots
  and misses do not restart it, as in the source.
- Set iteration order (`matches.forEach`, `grid.forEach`) decides only the
  order of appended records. `AppendedRecords` states the contents and
  that every cell gets exactly one record, not their order.
- Sounds and the `win` sound with its timer are not modelled.

## Findings

| source | as written | input that shows it | evidently intended | confidence | as-written member | corrected member |
|---|---|---|---|---|---|---|
| script.js:392-395 | the win check runs right after a pop has only flagged its cells popping, and it counts popping cells as occupied | only two colour-0 cells at (0, 0) and (0, 1), shot of colour 0 landing at (0, 2): the group of 3 pops, nothing is left standing, yet the check sees three occupied cells and declares no win. It never runs again before the next shot, so clearing the board is never a win. Nor is a board the deferred drop clears, since no win check follows the drop (`script.js:372-375`) | a win when nothing is left standing once the popping cells are gone, whether the shot's group or the drop after it cleared the board | not executed | Game.Game.CheckWinCondition, Game.AsWrittenWinNeverFires, Game.ClearingShotExample | Game.Game.CheckBoardCleared, Game.LastGroupWins, Matching.DropClearsBoard (used by Game.Game.FinalizeSettling and Game.Game.RunDropCheck) |
| script.js:100-118 | a new game rebuilds the board but keeps the pop records and pending drop timers of the last game | a game ends with a record for (0, 0) still pending; a new game starts and its board has (0, 0) occupied and not popping; the next frame finds the record finished and empties (0, 0) of the new board | a new game starts with no pending pops | not executed | Game.Game.StartGameAsWritten, Game.StaleRecordErasesCell | Game.Game.StartGame |
