# Game of Life engine, modelled in Dafny

This project models the simulation engine of a browser Game of Life
(`life2d.js`): the `Point` coordinate and its translation, the table of the
eight neighbour offsets, the fixed-size `Matrix` of cells with its bounds
test, cell access, neighbour lookup, clearing and text picture, and the
`GameOfLife` object that owns two matrices as a double buffer. The model
proves the B3/S23 step, the buffer swap, that single-cell updates touch one
cell only, and the idempotence of the start/stop controls.

Layout, one module per component of the file:

- `points.dfy` (`Points`): `Point`, `Point.Add`, the `Neighbors` table, adjacency.
- `grids.dfy` (`Grids`): a generation as a value (`Grid = seq<seq<bool>>`). It
  defines the neighbour count, the rule `NextState`, the successor
  `NextGeneration`, single-cell `Update`/`Flip`, and the text picture
  `GridText`. The classes are specified against these functions.
- `matrix.dfy` (`Matrices`): class `Matrix`. Its cells are an `array2<bool>`
  with `height` rows of `width` entries, and the ghost field `Contents` holds
  the same board as a value. `Valid()` ties the two together.
- `life.dfy` (`Life`): class `GameOfLife`, with `mat1`, `mat2`, the active
  `mat` and the `running` flag. Also `CountAlive`, the counting loop inside
  `step`, and `StepCell`, the body of `step`'s loops for one cell.
- `scenarios.dfy` (`Scenarios`): a client method, `Session`, written against
  the contracts alone. It steps a seeded 5 by 5 board, toggles a cell twice
  and a point off the board once, and starts and stops the ticker twice each.
  It then clears the board and steps it.

A live cell (the source's `1`) is `true`; a dead one (`undefined`) is
`false`.

**Index convention.** `x` is the row and `y` the column, as `step` and
`getAt`/`setAt` use them. The bounds test `isInside` is kept exactly as
written: it compares `x` against `width` and `y` against `height`. The array,
though, has `height` rows of `width` entries. The two agree only on square
boards, and the application uses a 50 by 50 board. The model therefore keeps
`IsInside` as written and requires `width == height` (`Matrix.Square()`) of
every operation that indexes the array through it. Two lemmas make this
precise. `InsideIsCell` shows that on a square board a point passes the test
exactly when it is an array cell. `NonSquareEscapes` shows that on any non-square,
non-empty board some point passes the test without being an array cell. In the
JavaScript, reading such a point through `getAt` fails on a missing row when
the board is wider than tall; when it is taller than wide, the read runs past
the end of a row and returns dead without failing.
Clearing, filling and drawing the board do not use the bounds test, so they
work on any shape.

Three behaviours of the code worth noting:

- The bounds test is row-against-width, as described above.
- `step` clears the target board before it writes the next generation. It
  writes only the cells that change or survive and leaves the rest to the
  clearing; `Step`'s loop invariant captures exactly this.
- The constructor clears both boards and seeds the first one.

## Model

| member | source | states |
|---|---|---|
| `Points.NeighborsTable` | life2d.js:70-79 | the table has 8 pairwise distinct entries, and they are exactly the non-zero offsets with both components in -1..1 |
| `Points.NeighborsOfPoint` | life2d.js:61-79 | translating any point with `Point.Add` by the 8 table offsets gives 8 distinct points, each adjacent to it, and every adjacent point is one of them |
| `Grids.Update` | life2d.js:166-168 | setting a cell changes that cell alone, which then holds the new value; a point outside the grid leaves the grid unchanged |
| `Grids.FlipAt` | life2d.js:240-248 | flipping keeps the grid's shape, inverts exactly the flipped cell when it is on the grid, and leaves every other cell alone |
| `Grids.FlipTwice` | life2d.js:240-248 | flipping the same cell twice restores the grid, both on and off the board |
| `Grids.CountTrueBounds` | life2d.js:206-208 | a count of live entries is at most the number of entries, and it is zero exactly when none is live |
| `Grids.LiveNeighborsIsAdjacentCount` | life2d.js:170-178 | the neighbour count lies in 0..8 and equals the number of live on-grid cells adjacent to the point; off-grid cells never count |
| `Grids.NextState` | life2d.js:211-222 | the next state is alive iff the count is 3, or the cell is alive and the count is 2 (B3/S23) |
| `Grids.NextGenerationAt` | life2d.js:201-224 | a cell of the successor is alive iff it was alive with 2 or 3 live adjacent cells, or dead with exactly 3 |
| `Grids.DeadStaysDead` | life2d.js:196-224 | the successor of an all-dead board is all-dead |
| `Grids.RowTextAt` | life2d.js:143-150 | a drawn row has one character per cell: '*' for a live cell and ' ' for a dead one |
| `Grids.GridTextLine` | life2d.js:140-154 | a picture of `rows` rows is `rows * (cols + 1)` characters long; line i starts at i * (cols + 1) and is row i drawn, followed by "\n" |
| `Grids.GridTextAt` | life2d.js:140-154 | character i * (cols + 1) + j of the picture is '*' exactly when cell (i, j) is alive, else ' ', and every line ends in "\n" |
| `Matrices.Matrix.constructor` | life2d.js:81-88 | a new matrix has the given width and height, a fresh array, and every cell dead |
| `Matrices.Matrix.Reset` | life2d.js:90-96 | afterwards every cell is dead, whatever the board held before, so clearing twice equals clearing once |
| `Matrices.Matrix.FillRandom` | life2d.js:98-110 | every cell ends alive or dead exactly as the per-cell choice says |
| `Matrices.Matrix.IsInside` | life2d.js:156-159 | the test compares x with width and y with height; on a square board it accepts exactly the points whose x is a row index and whose y is a column index of the array |
| `Matrices.Matrix.GetAt` | life2d.js:161-164 | the result is the cell's state for an on-board point and dead for any other point; a live result implies the point is inside |
| `Matrices.Matrix.SetAt` | life2d.js:166-168 | the new board is the old one with only cell p replaced by v; an off-board point leaves every cell as it was |
| `Matrices.Matrix.GetSurroundings` | life2d.js:170-178 | returns the states of the 8 neighbours in table order, with off-board neighbours read as dead |
| `Matrices.Matrix.ToString` | life2d.js:140-154 | returns the board's text picture, `height * (width + 1)` characters long |
| `Matrices.InsideIsCell` | life2d.js:156-167 | on a square board a point passes the bounds test if and only if it indexes a cell of the array, and if and only if it is a cell of the board's contents |
| `Matrices.NonSquareEscapes` | life2d.js:84-87 | on a non-square, non-empty board, some point passes the bounds test but is not a cell of the height by width array |
| `Life.CountAlive` | life2d.js:206-208 | the loop counts exactly the live entries of the surroundings, at most their number |
| `Life.StepCell` | life2d.js:203-222 | on square boards: when p is alive on the source board or has exactly 3 live neighbours there, the target board becomes the old one with only p set to its successor state; otherwise the target is left as it was; the source board is not modified |
| `Life.GameOfLife.constructor` | life2d.js:180-194 | the two boards are distinct fresh objects with distinct arrays; the first is active and holds the seed, the second is dead, and the ticker is not running |
| `Life.GameOfLife.Step` | life2d.js:196-227 | the active board becomes the NextGeneration of the old active board; the roles of the two boards swap; the old active board (now scratch) is not modified |
| `Life.GameOfLife.Start` | life2d.js:229-231 | afterwards running; a new ticker is requested iff none was running (a no-op when already running) |
| `Life.GameOfLife.Stop` | life2d.js:233-238 | afterwards not running; the ticker is cancelled iff one was running (a no-op when stopped) |
| `Life.GameOfLife.Toggle` | life2d.js:240-248 | the active board is flipped at p alone, or unchanged when p is off the board; the active board stays active and the scratch board is not modified |

## Left out

- UI wiring is not modelled: jQuery handlers, button texts, CSS, and the mapping from a click's pixels to a cell (life2d.js:1-48).
- Canvas drawing is not modelled, being output to a foreign drawing context: `Matrix.render`, `drawGrid`, `GameOfLife.render`, and the `render` call that ends `step`. The `grid`, `ctx`, `speed` and `elm` fields go with it.
- Timers are not modelled: `setInterval`, `clearInterval` and `bind`. The interval handle in `running` is a boolean. `Start` and `Stop` report whether they would install or cancel a ticker; the ticker's later calls to `step` are not modelled.
- Randomness is not modelled. `FillRandom` takes an explicit per-cell choice grid in place of `Math.random() < perc / 100`, and the constructor takes that seed grid in place of `fillRandom(20)`. The density argument plays no part.
- `console.log` calls and `Point.show` are debugging output and are not modelled.
- Coordinates and board dimensions are unbounded integers rather than JavaScript doubles; the dimensions are `nat`. The source's `new Array(height)` and `new Array(width)` throw a RangeError on a negative or fractional length, and that error is not modelled. The only board the application creates is 50 by 50, so coordinates and dimensions only ever hold small whole numbers.
- Matrices.Matrix.GetAt: requires a square board. On a non-square board the source either fails on a missing row or reads past the end of a row (see `NonSquareEscapes`); those outcomes are not modelled.
- Matrices.Matrix.SetAt: requires a square board, for the same reason. On such a board the source may also grow a row past `width`.
- Matrices.Matrix.GetSurroundings: requires a square board, because it reads the board through the bounds test.
- Life.StepCell: requires square boards, because it reads `src` through `getSurroundings`/`getAt` and writes `dst` through `setAt`; the source's behaviour on non-square boards is not modelled.
- Life.GameOfLife.Step: requires a square board, because it reads and writes the boards through `getAt`/`setAt`.
- Life.GameOfLife.Toggle: requires a square board, for the same reason.
