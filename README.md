# Minesweeper game logic in Dafny

A model of the game logic in `script.js`, a browser Minesweeper. The board is
a 2-D integer array in which `-1` marks a mine and every other cell holds
the number of mines around it. Each cell also carries a revealed/flagged mark
(in the page, the `revealed` and `flagged` classes of its element). One global
`gameState` record holds the logical fields: `mineLocations`, `revealed`,
`gameOver`, `firstClick` and `minesLeft`. The model keeps the source's
imperative form:

- `config.dfy` (module `Config`): the three difficulty presets.
- `grid.dfy` (module `Grid`): cells, the clipped 8-neighbourhood and its mine
  count, and the set and counting facts the game relies on.
- `draws.dfy` (module `Draws`): the random draws consumed by mine placement.
  `Accepted` says which drawn cells become mines.
- `game.dfy` (module `Minesweeper`): class `Game`, whose fields are
  `gameState` and whose methods are `placeMines`, `countAdjacentMines`,
  `handleCellClick`, `handleRightClick`, `revealCell`, `checkWin` and
  `endGame`. `board` and the per-cell marks are `array2` fields written in
  place. The loops and the recursive cascade are `while` loops and recursive
  methods with invariants.
- `clock.dfy` (module `Clock`): the timer fields and the host's intervals.
  It is used only for the finding below.

The invariant `Game.Valid` holds between any two events. Under it:

- every non-mine cell holds the count of mines among its on-board neighbours;
- no revealed cell is a mine;
- `revealed` equals the number of revealed cells;
- `minesLeft` equals `mines` minus the number of flags;
- once the mines are placed, there are exactly `mines` of them, listed
  without repetition in `mineLocations`;
- the game is won exactly when `revealed == rows*cols - mines`.

A click on a safe cell runs the win test once, after the whole reveal cascade
(script.js:161-164), not after each cell the cascade uncovers.

Below, a cell is uncovered by a reveal when it goes from hidden to revealed;
a block is uncovered when none of its cells is still hidden. A flagged cell
in such a block stays flagged, because `revealCell` skips flagged cells
(script.js:197-199), and the cascade does not pass through it.

The cells one reveal uncovers are characterised exactly. Call a set of cells
closed when every cell of it that was hidden and shows 0 has all its hidden
neighbours in the set too. The newly uncovered cells form a closed set, and
they lie within every closed set that holds the clicked cell (`Grid.Flood`).
So a cell that shows a number uncovers only itself, and a 0 cell uncovers
exactly its connected region of hidden 0 cells and their hidden borders.

## Model

| member | source | states |
|---|---|---|
| Config.Settings | script.js:2-6 | Each preset has a non-empty board and between 1 and rows*cols - 1 mines, so at least one cell is always mine-free |
| Minesweeper.Game.constructor | script.js:30-42 | A new game has fresh `board` and mark arrays, no mines, no revealed or flagged cells, an all-zero board, `firstClick` set, `minesLeft == mines`, and satisfies `Valid` |
| Minesweeper.Game.CountAdjacentMines | script.js:123-136 | The result is the number of mines among the on-board cells around (row, col), the cell itself excluded, and lies in 0..8 |
| Minesweeper.Game.CountRow | script.js:129-132 | The inner loop over one row of the clipped block counts exactly the set-level scan of that row: the mines among its cells, the centre skipped |
| Minesweeper.Game.ScanCountsNeighbours | script.js:128-135 | A scan that has covered every row of the clipped block has counted exactly the adjacent mines, at most 8 |
| Grid.BlockMinesAreAdjacent | script.js:128-133 | Scanning the clipped block row by row meets exactly the mines among the cell's neighbours |
| Grid.SeenAtRowStart | script.js:128-129 | At the start of each block row, the scan has met exactly the mines of the rows above it |
| Grid.SeenInRow | script.js:129-131 | Within a row, each scanned cell adds one exactly when it is a mine next to the centre |
| Grid.AdjacentCountBound | script.js:128-133 | No cell has more than 8 adjacent mines |
| Grid.NeighbourhoodSize | script.js:128-130 | A cell has at most 8 on-board neighbours |
| Grid.ZeroCountMeansSafeNeighbours | script.js:212-218 | A cell whose count is 0 has no mine among its neighbours, so the cascade never steps onto a mine |
| Minesweeper.Game.DrawMines | script.js:97-110 | The draw loop: the mines placed are exactly the accepted draws, in the order they were accepted, and `mineLocations` lists them |
| Minesweeper.Game.PlaceMines | script.js:94-120 | The accepted draws become `mineLocations`. The mine cells are exactly those listed, there are exactly `mines` of them with no repeats, and the first-clicked cell is not one. Afterwards every other cell holds its adjacent-mine count |
| Minesweeper.Game.FillCounts | script.js:113-119 | Every non-mine cell gets its adjacent-mine count and the mines are left in place |
| Minesweeper.Game.FillRow | script.js:114-118 | One row of the fill: its non-mine cells get their counts; other rows and the mines are unchanged |
| Minesweeper.Game.PutMine | script.js:106 | Writing -1 adds exactly that cell to the mine set and changes no other cell |
| Minesweeper.Game.PutCount | script.js:116 | Writing a count into a non-mine cell leaves the mine set unchanged and changes no other cell |
| Draws.Accepted | script.js:100-110 | Placement accepts at most `mines` cells and no more than were drawn; each accepted cell was drawn, and the first-clicked cell is never accepted |
| Draws.AcceptedFacts | script.js:100-110 | The accepted cells are distinct drawn cells other than the first-clicked one, at most `mines` of them, and every eligible draw when fewer were accepted |
| Draws.AcceptedAll | script.js:100-110 | Draws holding enough distinct eligible cells make placement place exactly `mines` mines |
| Draws.SufficesNeedsFreeCell | script.js:100-106 | Placement can be fed enough draws only when `mines < rows*cols`; otherwise the loop cannot end |
| Draws.RowMajorSuffices | script.js:100-106 | Conversely, when `mines < rows*cols` a single row-major pass over the board suffices |
| Draws.DistinctSize | script.js:107-108 | A list without repeats has as many cells as entries, so `minesPlaced` counts distinct mines |
| Minesweeper.Game.RevealCell | script.js:192-220 | A revealed or flagged cell is left alone. Otherwise the cell is uncovered, `revealed` keeps counting uncovered cells, no mine is uncovered, and marks only go from hidden to revealed. Lower bound: every cell the call newly uncovers that shows 0 has its whole clipped block uncovered. Upper bound: the newly uncovered cells lie in every closed set holding the cell, and a hidden cell showing a number uncovers only itself. The number of hidden cells bounds the recursion |
| Minesweeper.Game.Uncover | script.js:202-219 | A hidden safe cell becomes revealed and counted; when it shows 0 the cascade follows. The same lower and upper bounds as `RevealCell` hold, and a nonzero cell changes only itself |
| Minesweeper.Game.MarkRevealed | script.js:202-203 | Marking a hidden safe cell revealed removes exactly that cell from the hidden ones and adds one to `revealed`; no other cell changes |
| Minesweeper.Game.RevealAround | script.js:212-219 | After the neighbour loop of a zero cell, no cell of its clipped block is still hidden (each is revealed or flagged), and everything the loop uncovers lies in every closed set holding the zero cell; the invariants of `RevealCell` are kept |
| Minesweeper.Game.RevealRow | script.js:214-217 | After one row of that loop, no cell of that row within the block is still hidden, and the cells uncovered lie in every closed set holding the zero cell |
| Grid.ClosedShrinks | script.js:212-217 | A set closed with respect to some hidden cells stays closed with respect to fewer, so each recursive call's bound carries over to its caller |
| Grid.LoneCellClosed | script.js:212 | A cell that does not show 0 forms a closed set on its own, so revealing it uncovers nothing else |
| Minesweeper.Game.SafeAroundZero | script.js:212-216 | With correct counts, no cell around a zero cell is a mine |
| Minesweeper.Game.Retag | script.js:180-184 | Changing one cell's mark moves that cell from the set of cells with its old mark to the set with its new mark; no other cell or mark set changes |
| Minesweeper.Game.RevealCounted | script.js:161 | Across a whole cascade, the revealed cells only grow and `revealed` rises by exactly the number of newly revealed cells; the flags are unchanged. The newly revealed cells are exactly the newly unhidden ones, they satisfy `Flood` (closed, and within every closed set holding the clicked cell), and a hidden clicked cell showing a number adds only itself |
| Minesweeper.Game.RevealTracked | script.js:161 | The cascade seen from the mark sets: flags unchanged, newly revealed equals newly unhidden, the clicked cell among them when it was hidden, and every newly uncovered 0 cell has its block uncovered |
| Minesweeper.Game.CascadeClosed | script.js:212-217 | When every newly uncovered 0 cell has its clipped block uncovered, the newly uncovered cells form a closed set |
| Minesweeper.Game.WinMeansAllSafeRevealed | script.js:232-239 | `revealed == rows*cols - mines` holds exactly when every mine-free cell is revealed |
| Grid.WinThreshold | script.js:233-236 | For disjoint subsets of the board, the revealed ones number rows*cols minus the mines exactly when they cover every safe cell |
| Grid.AllSafeBySize | script.js:236 | Within a finite set, a subset disjoint from the mines has the size of the set minus the mines exactly when it contains every non-mine element |
| Grid.GridSize | script.js:71 | The board has exactly rows*cols cells |
| Minesweeper.Game.CheckWin | script.js:232-239 | The game ends as a win exactly when `revealed == rows*cols - mines`; `Valid` is kept |
| Minesweeper.Game.EndGame | script.js:242-253 | The game is over, with the outcome that was passed in |
| Minesweeper.Game.RightClick | script.js:168-189 | Does nothing once the game is over or on a revealed cell. Otherwise flags a hidden cell with `minesLeft - 1`, or unflags a flagged cell with `minesLeft + 1`. No other cell changes, and `minesLeft == mines - flags` is kept |
| Minesweeper.Game.SetMark | script.js:179-185 | Flagging adds one flag and unflagging removes one; the revealed cells are unchanged |
| Minesweeper.Game.Click | script.js:139-165 | Does nothing once the game is over or on a flagged cell. The first click places the mines from the draws, never on the clicked cell; a later click leaves the board and `mineLocations` unchanged. The flags and `minesLeft` never change. A mine ends the game as a loss with no mark changed. Any other cell is revealed, the newly revealed cells satisfy `Flood`, and a cell showing a number adds only itself; the game then ends, as a win, exactly when every safe cell is revealed. `Valid` is kept |
| Minesweeper.Game.RevealAndCheck | script.js:160-164 | After the reveal and the win test, the game is over exactly when it is won, and won exactly when every safe cell is revealed; the flags are unchanged and the newly revealed cells satisfy `Flood` |
| Clock.Timer.constructor | script.js:15-16 | Before any game the timer shows 0, no interval is held and none runs |
| Clock.Timer.Start | script.js:256-261 | `setInterval` adds a fresh interval to the running ones and `timerInterval` holds its handle |
| Clock.Timer.Stop | script.js:244 | `clearInterval` stops the held interval; with at most that one running, none runs afterwards |
| Clock.Timer.Tick | script.js:257-259 | Each second, every running interval adds one to `timer` |
| Clock.Timer.ResetAsWritten | script.js:32-54 | As written, `initGame` zeroes `timer` and nulls `timerInterval` but leaves every running interval running |
| Clock.Timer.Reset | script.js:32-54 | With the clear done before the reset, the held interval stops; from a state with at most that one running, none runs |
| Clock.RestartLeaks | script.js:32-54 | Start, New Game, first click: two intervals run and one second adds 2 to the timer |
| Clock.RestartClean | script.js:32-54 | The same steps with the corrected reset: one interval runs and one second adds 1 |

## Left out

- Rendering and DOM work: creating cell elements, their text and `data-number`, the mine-counter and status texts, and the styling. Only the revealed/flagged marks that the classes encode are modelled.
- `Math.random`: placement takes a caller-supplied sequence of drawn cells. The draws must hold `mines` distinct cells other than the clicked one. `Draws.SufficesNeedsFreeCell` and `Draws.RowMajorSuffices` show that such draws exist exactly when `mines < rows*cols`, as every preset ensures. The distribution of the draws is not modelled.
- `revealMines`: it only decorates the mine elements after a loss. It also adds the `revealed` class to them; the model does not mark those cells, so `Clean` (no revealed mine) speaks of the cells the player uncovered. After a loss `gameOver` blocks every further click and flag, so those classes change nothing the game reads. It does not change `board`.
- The timer inside `Game`: `Click` does not start the clock and `EndGame` does not stop it. The timer calls are modelled separately in `Clock.Timer`; the host's scheduling of intervals and wall-clock time are reduced to `Tick`.
- Event wiring, the page-load hooks and the difficulty selector: the `Game` constructor stands for `initGame` with a chosen difficulty.
- `getCellElement` lookups: cells are addressed directly by (row, col).
- Minesweeper.Game.RevealCell: the lower bound covers every cell the call newly uncovers that shows 0. Cells that were already revealed before the call are covered by their own earlier calls.
- Clock.Timer.ResetAsWritten: the test of `gameState.timerInterval` in `initGame` always sees the freshly reset null handle, so its branch never runs. The method states that effect and does not spell out the dead branch.

## Findings

| source | as written | input that shows it | evidently intended | confidence | as-written member | corrected member |
|---|---|---|---|---|---|---|
| script.js:32-54 | `initGame` replaces `gameState`, with `timerInterval: null`, before testing `gameState.timerInterval`. The running interval is therefore never cleared | Click a cell (the timer starts), press New Game, click a cell: two intervals add to `gameState.timer`, and the timer shows two seconds per second. Before the new game's first click the old interval already ticks the new timer | Clear the running interval before resetting the state, so that at most one interval runs | not executed | Clock.RestartLeaks | Clock.RestartClean |
