# Game of Life generation step, in Dafny

A model of the simulation core of a browser Game of Life page (`script.js`):
a 40 x 80 toroidal grid of cells holding 0 (dead) or 1 (live), the neighbour
count `countNeighbors`, the generation step `updateGrid`, the random seeding
`createGrid`, and the `running` flag that the Start, Pause and Reset buttons
and the self-rescheduling `gameLoop` timer callback act on.

Four modules:

- `Grids` (`grids.dfy`): the grid type, its shape and 0/1 predicates, `createGrid`
  with the random draws as a parameter, JavaScript's truncating `%`, the
  neighbour of a position on a ring, and the proof that the page's index
  `(x + d + n) % n` computes it.
- `Life` (`life.dfy`): the neighbour count and the step as pure functions
  (`Neighbours`, `NextCell`, `Step`), the page's nested loops as methods
  (`CountNeighbors`, `UpdateGrid`) proved equal to them, and lemmas about
  live-neighbour counting and still lifes. The step is generic in the
  dimensions; the page's 40 x 80 is fixed in `Controller`.
- `Controller` (`controller.dfy`): the page's state (grid, `running`, and the
  number of scheduled `gameLoop` callbacks) and its transitions for Start,
  Pause, Reset and a timer firing, with lemmas over sequences of events. A
  reachable state has a 40 x 80 grid of 0/1 cells, and a callback scheduled
  whenever the page is running: Start always schedules one, a firing callback
  on a running page re-arms, and Pause and Reset clear `running`.
- `Patterns` (`patterns.dfy`): hand-computed 4 x 4 grids. A lone corner cell shows
  the toroidal wrap. A block is a still life.

Two behaviours of the buttons matter for the model:

- The Start handler (script.js:102-105) sets `running` and calls `gameLoop`
  without checking whether the page was already running. So a second Start
  advances a generation at once and schedules a second callback chain, after
  which generations come twice as often. `Controller.Start` and
  `Controller.DoubleStartDoublesSpeed` state this.
- Pause and Reset do not cancel a scheduled callback. The callback finds
  `running` false and does nothing (script.js:94-99). `Controller.Fire` keeps
  such callbacks in the count until they fire.

JavaScript's `%` truncates toward zero, whereas Dafny's `%` is Euclidean.
`Grids.JsRem` models the JavaScript operator. `Grids.WrapIsJsRem` shows that
the page's index `(x + d + n) % n` equals the ring neighbour `Grids.Wrap`: the
dividend is never negative there, so the truncation never shows.

## Model

| member | source | states |
|---|---|---|
| Grids.CreateGrid | script.js:32-34 | the fresh grid has `rows` rows of `cols` cells, every cell is 0 or 1, and a cell is live exactly when its random draw exceeds 0.8 |
| Grids.JsRem | script.js:86-87 | JavaScript's `%`: the remainder is the dividend minus the divisor times the quotient truncated toward zero, has the sign of the dividend and is smaller in magnitude than the divisor |
| Grids.Wrap | script.js:83-87 | the neighbour at offset -1, 0 or 1 of a position on a ring of n lies in [0, n) and differs from position plus offset by at most one lap, so it is that sum taken modulo n |
| Grids.WrapIsJsRem | script.js:86-87 | the page's index `(x + d + n) % n`, with JavaScript's `%`, is the ring neighbour for every position in [0, n) and offset in {-1, 0, 1} |
| Life.SumAt | script.js:82-91 | on a 0/1 grid, a sum over k neighbour offsets lies in [0, k] |
| Life.LiveAt | script.js:85-88 | the offsets kept are exactly those of the given ones whose wrapped cell is live |
| Life.Neighbours | script.js:81-92 | on a 0/1 grid the neighbour count lies in [0, 8] |
| Life.SumAtCountsLive | script.js:82-91 | on a 0/1 grid the sum of the cells at a list of offsets equals the number of those offsets whose cell is live |
| Life.NeighboursCountsLive | script.js:81-92 | the count equals the number of the eight neighbour offsets whose wrapped cell is live (on a grid narrower than three, two offsets can reach the same cell, and it is counted for each, as the page's loop does) |
| Life.CountNeighbors | script.js:81-92 | the page's double loop over -1..1, which skips (0,0) and wraps both indices, returns exactly the neighbour count, and a value in [0, 8] on a 0/1 grid |
| Life.NextCell | script.js:69-75 | on a 0/1 cell the rule is B3/S23: the result is live iff the count is 3, or the cell is live and the count is 2; any other cell value is kept |
| Life.NextAt | script.js:68-75 | on a 0/1 grid, cell (i, j) of the next generation is 0 or 1, and live iff its old neighbour count is 3, or it was live with old count 2 |
| Life.Step | script.js:64-79 | the next generation keeps the shape and the 0/1 cells |
| Life.StepFollowsRule | script.js:64-92 | on a 0/1 grid a cell of the next generation is live iff three of its eight neighbour offsets reached a live cell of the old grid, or it was live and two did |
| Life.UpdateGrid | script.js:64-79 | the page's loops over a random scratch grid give exactly `Step` of the old grid, whatever the scratch contents; every count reads the old grid |
| Life.UpdateRow | script.js:67-76 | one pass of the inner loop makes row i that row of `Step` of the old grid and leaves every other row as it was |
| Life.StillLifeIsFixedPoint | script.js:64-79 | a 0/1 grid is unchanged by a step iff every live cell has 2 or 3 live neighbours and no dead cell has exactly 3 |
| Life.DeadGridIsFixed | script.js:64-92 | an all-dead grid stays all dead |
| Controller.Init | script.js:10-15 | at page load the grid is a random 40 x 80 0/1 grid, the page is not running and no callback is scheduled |
| Controller.GameLoop | script.js:94-100 | when running: one step of the grid and one more scheduled callback, so the result is a reachable state; when not running: no change at all |
| Controller.Start | script.js:102-105 | Start always leaves the page running, advances the grid by one step and schedules one more callback, even when it was already running |
| Controller.Pause | script.js:107-109 | Pause clears `running` and changes neither the grid nor the scheduled callbacks |
| Controller.Reset | script.js:111-115 | Reset clears `running` and installs a fresh 40 x 80 0/1 grid drawn from the random draws |
| Controller.Fire | script.js:94-99 | a firing callback advances one step and re-arms when running; when not running it leaves the grid as is and only leaves the queue |
| Controller.Apply | script.js:102-115 | every button click and timer firing keeps the grid 40 x 80 with 0/1 cells, and keeps a callback scheduled whenever the page is running |
| Controller.Run | script.js:94-115 | any sequence of events keeps the grid 40 x 80 with 0/1 cells, and a running page with a callback scheduled |
| Controller.PausedFiresAreInert | script.js:94-99 | while stopped, n callbacks firing leave the grid unchanged and remove min(n, pending) callbacks from the queue |
| Controller.PauseStopsGenerations | script.js:94-109 | after Pause no callback advances a generation, even one scheduled before the click |
| Controller.StoppedStaysStill | script.js:94-109 | while stopped, any interleaving of Pause clicks and timer firings leaves the page stopped with the same grid |
| Controller.RunningFiresAdvance | script.js:94-100 | on any reachable running page, n callbacks firing advance exactly n generations and keep the number of scheduled callbacks |
| Controller.StartFromStopped | script.js:94-105 | Start on a stopped page with nothing scheduled gives one callback chain: after n firings the grid is n+1 generations on |
| Controller.DoubleStartDoublesSpeed | script.js:102-105 | two Starts in a row from a stopped page leave two callback chains, so after 2n firings the grid is 2n+2 generations on: two generations per delay instead of one |
| Patterns.NeighboursAround | script.js:81-92 | the count is the sum of the eight wrapped neighbour cells written out one by one |
| Patterns.CornerSeesOppositeCorner | script.js:86-88 | on a 4 x 4 grid whose only live cell is the bottom-right corner, the top-left corner counts it through both wrapped edges, while its right and lower neighbours, which wrap across one edge only, count nothing |
| Patterns.LoneCellDies | script.js:68-70 | that lone live cell has no live neighbour and is dead after one step |
| Patterns.BlockCellStable | script.js:81-92 | in a 2 x 2 block on a 4 x 4 torus every live cell has 3 live neighbours and every dead cell at most 2 |
| Patterns.BlockIsStillLife | script.js:68-75 | no cell of the block is born or dies |
| Patterns.BlockIsStill | script.js:64-79 | one step gives the block grid back unchanged |

## Left out

- Rendering: `drawGrid` and `getRandomColor` (script.js:36-62) only draw on the canvas and have no effect on the simulation state.
- Theme: `setTheme` and its click listener (script.js:17-30) only toggle a presentation class.
- Speed: the slider handler and label (script.js:117-120), and the delay passed to `setTimeout` (script.js:98). The value is a string from the page, and the delay only decides when a callback fires, which the model leaves open.
- DOM lookups (script.js:1-8) and the unused `cellSize` (script.js:12).
- `Math.random()` in `createGrid` (script.js:33) is the parameter `draw`, one draw per cell.
- Host timers: a scheduled `gameLoop` is one unit of the count `pending`. A timer firing is an event that can come at any time. Callbacks are identical, so their order does not matter. `Controller.Fire` on an empty queue returns the state unchanged; the host cannot fire a callback that was never scheduled.
- JavaScript numbers are doubles, but every value in the core is a small integer (cells 0/1, counts at most 8, indices below 80), so the model uses unbounded integers.
