# Gray-Scott reaction-diffusion on a torus

A Dafny model of the simulation core of `reaction-diffusion.js`. The script
keeps a 100 × 100 grid of cell objects `{a, b}` holding the concentrations of
two species, and seeds it with `initGridCell`. `update` advances the grid by
one Gray-Scott step. For every cell it builds a wrapped 3 × 3 `area`,
computes the `diffusion` of each species with the decimal `round` helper,
and applies `updateA` / `updateB`. `makePattern` and `drawPattern` turn a
grid into a text picture.

Modules, one per concern:

- `Rounding`: `round(value, precision)` over the reals, and its laws.
- `Concentrations`: the value of a cell, and the species key `'a'` / `'b'`.
- `Kinetics`: the constants and `updateA` / `updateB`.
- `Kernel`: `laplacianMatrix`, and `diffusion` as a loop proved against its
  specification function.
- `Torus`: the `edges` wrap-around and the 3 × 3 `area`.
- `Grids`: cell objects on the heap, and `copyGrid`.
- `Seeding`: `initGridCell` and the initial grid.
- `Sweep`: a generic row-major in-place sweep over a table of values, and
  what each visited position reads.
- `Stepper`: `update` as values (`Step`) and on the heap (`Update`).
- `Patterns`: `makePattern` and `drawPattern`.

Behaviours of the code that a reader might not expect, which the model
keeps:

- **`update` works in place.** `copyGrid` copies only the row arrays, so
  `newGrid[x][y]` is the input's own cell object. The writes in `update`
  therefore change the input's cells. A cell visited later in row-major
  order reads neighbours that already hold their new values. The step is
  a Gauss-Seidel sweep, not a double-buffered one, and the order matters.
- **`diffusion` divides only when the rounded mass is strictly positive.**
  A zero or negative mass returns the raw sum. With the reference matrix
  the rounded mass is exactly 0, so no division ever happens.
- **A uniform window can diffuse.** The running sum in `diffusion` is
  rounded to three decimals after every term. Small terms can therefore be
  rounded away while larger ones survive. With a = 0.001 in all nine cells
  of the window, the diffusion of A is -0.001 rather than 0. The model
  proves this for that window (`Kernel.UniformWindowMayDiffuse`), and
  proves 0 for the rest window `{a: 1, b: 0}`.

The seed block covers rows and columns 45..55 of 0..99, so it is centred
on 50 rather than on the grid's centre 49.5. An 11-wide block cannot sit
exactly in the middle of 100 cells, so the seeding is not mirror
symmetric.

Numbers are reals: IEEE doubles are idealised as exact arithmetic.
Math.round is taken as `floor(v + 1/2)`.

## Model

| member | source | states |
|---|---|---|
| Rounding.MathRound | reaction-diffusion.js:38 | Math.round returns the integer within half a unit of v, ties going up |
| Rounding.RoundToIsMultiple | reaction-diffusion.js:36-39 | the result of rounding is a whole number of units 10^-p, namely the one nearest v·10^p |
| Rounding.RoundToExact | reaction-diffusion.js:36-39 | a value that is already a whole number of units is returned unchanged |
| Rounding.RoundIs | reaction-diffusion.js:36-39 | v rounds to n units of 10^-p when v·10^p is within half a unit of n, a tie going up |
| Rounding.RoundExact | reaction-diffusion.js:36-39 | `round(x, p)` leaves a value with at most p decimals unchanged |
| Rounding.RoundIdempotent | reaction-diffusion.js:36-39 | rounding twice to the same precision equals rounding once |
| Rounding.RoundError | reaction-diffusion.js:36-39 | `round(v, p)` is within half a unit of the last kept digit of v, a tie going up |
| Rounding.RoundMonotone | reaction-diffusion.js:36-39 | `round` preserves order |
| Kinetics.RestIsFixedPoint | reaction-diffusion.js:65-71 | with no diffusion, `updateA(1, 0, 0) = 1` and `updateB(1, 0, 0) = 0` |
| Kinetics.NoReactionWithoutB | reaction-diffusion.js:65-71 | with b = 0 there is no reaction: b' is B's diffusion term alone, and a relaxes to 1 by the factor 1 − feedRate |
| Kinetics.ReactionConservesTotal | reaction-diffusion.js:65-71 | the a·b² terms cancel in a' + b', so the total changes only by diffusion, feed and kill |
| Kernel.FlattenNext | reaction-diffusion.js:42 | `flat(1)` of one more row appends that row |
| Kernel.AccumulateNext | reaction-diffusion.js:44-48 | one inner-loop step rounds the term to 5 decimals, adds it, and rounds the sum to 3 decimals |
| Kernel.Diffusion | reaction-diffusion.js:41-51 | the nested loop accumulates the rounded terms row by row; the result is the sum divided by the rounded mass when that mass is > 0, and the raw sum otherwise (zero or negative) |
| Kernel.MassOfSnoc | reaction-diffusion.js:42 | the reduce adds each weight and rounds to 2 decimals |
| Kernel.AccumulateSnoc | reaction-diffusion.js:46 | the accumulator after one more term |
| Kernel.FlattenLaplacian | reaction-diffusion.js:30-34 | the reference weights in row-major order |
| Kernel.MassStep | reaction-diffusion.js:42 | a reduce step whose exact sum has two decimals is not moved by rounding |
| Kernel.ReferenceMassIsZero | reaction-diffusion.js:30-42 | the rounded mass of the reference matrix is exactly 0 |
| Kernel.ReferenceDiffusionIsRawSum | reaction-diffusion.js:50 | with the reference matrix, `diffusion` returns the raw accumulated sum for every area and both keys |
| Kernel.AccumulateStep | reaction-diffusion.js:46 | a loop step on values with few enough decimals is exact |
| Kernel.AccumulateZeros | reaction-diffusion.js:44-48 | all-zero terms accumulate to 0 |
| Kernel.RestProductsA | reaction-diffusion.js:46 | over a window at rest, the A terms are the weights themselves |
| Kernel.RestProductsB | reaction-diffusion.js:44-48 | over a window at rest, the B terms accumulate to 0 |
| Kernel.LaplacianAccumulatesToZero | reaction-diffusion.js:30-48 | the reference weights accumulate to exactly 0 through the loop's roundings |
| Kernel.AccumulateRounded | reaction-diffusion.js:46 | a loop step whose exact sum is within half a thousandth of n/1000 leaves the sum at n/1000 |
| Kernel.UniformTerms | reaction-diffusion.js:30-46 | with a = 0.001 in all nine cells, the weighted A terms in loop order are 0.001 times the reference weights |
| Kernel.UniformTermsAccumulate | reaction-diffusion.js:44-48 | those terms accumulate to -0.001, because every positive term is rounded away |
| Kernel.UniformWindowMayDiffuse | reaction-diffusion.js:41-51 | a uniform window with a = 0.001 diffuses A to -0.001, not 0 |
| Kernel.RestWindowHasNoDiffusion | reaction-diffusion.js:41-51 | over a window at rest, `diffusion` is 0 for both species |
| Torus.Before | reaction-diffusion.js:108-110 | `top` / `left` stays in [0, n) and is i − 1 modulo n |
| Torus.After | reaction-diffusion.js:109-111 | `bottom` / `right` stays in [0, n) and is i + 1 modulo n |
| Torus.EndsAreNeighbours | reaction-diffusion.js:108-111 | index 0 wraps to n − 1, and n − 1 wraps to 0 |
| Torus.BeforeAfterInverse | reaction-diffusion.js:108-111 | stepping back then forward, or forward then back, returns to i |
| Torus.EdgesOf | reaction-diffusion.js:107-112 | all four `edges` are valid row / column indices |
| Torus.Area | reaction-diffusion.js:113-117 | the area is 3 × 3 |
| Torus.Offset | reaction-diffusion.js:113-117 | the window position c + i − 1, wrapped, is a valid index |
| Torus.OffsetIsNeighbour | reaction-diffusion.js:107-117 | the window's three positions are before, centre and after |
| Torus.AreaIsWindow | reaction-diffusion.js:113-117 | `area[i][j]` is the cell at (x + i − 1, y + j − 1) modulo the grid's dimensions, so the cell itself is at [1][1] |
| Grids.Cell.constructor | reaction-diffusion.js:15-18 | a cell object holds the given a and b |
| Grids.HoldsShape | reaction-diffusion.js:21-22 | the values held by a rectangular grid of cells form a rectangular table, determined by the cells |
| Grids.CopyGrid | reaction-diffusion.js:73-80 | the copy has the same number of rows, each of the same length, holding the same cell objects in the same order; the input is not modified |
| Seeding.InitialSeed | reaction-diffusion.js:14-22 | `gridWidth` rows of `gridHeight` cells; every a is 1, and b is 1 exactly on the border ring and within chessboard distance 5 of (50, 50), else 0 |
| Seeding.SeedBlockIsNotSymmetric | reaction-diffusion.js:17 | the seed block is centred on 50, so it reaches row 55 but not its mirror row 44 |
| Seeding.InitialGrid | reaction-diffusion.js:21-22 | the initial grid is a rectangular grid of fresh, pairwise distinct cell objects holding `initGridCell(x, y)` |
| Sweep.SweepRow | reaction-diffusion.js:106-128 | the inner loop over one row keeps the grid's shape |
| Sweep.SweepRows | reaction-diffusion.js:105-129 | the outer loop keeps the grid's shape |
| Sweep.SweepAll | reaction-diffusion.js:105-129 | the full sweep keeps the grid's shape |
| Sweep.StateBefore | reaction-diffusion.js:105-106 | the grid as it stands when (x, y) is reached has the input's shape |
| Sweep.SeenAtEnds | reaction-diffusion.js:105-106 | before the first position is visited the sweep sees the input grid, and after the last row it sees the final grid |
| Sweep.SweepRowOtherRows | reaction-diffusion.js:106-128 | sweeping row x leaves every other row unchanged |
| Sweep.SweepRowAhead | reaction-diffusion.js:106 | positions of row x not yet reached are unchanged |
| Sweep.SweepRowSettled | reaction-diffusion.js:106 | a position of row x, once visited, keeps its value for the rest of the row |
| Sweep.SweepRowsAhead | reaction-diffusion.js:105 | rows not yet reached are unchanged |
| Sweep.SweepRowsSettled | reaction-diffusion.js:105 | a row, once swept, keeps its values |
| Sweep.FinalIsRuleBefore | reaction-diffusion.js:105-129 | each position ends with the value computed from the grid as it stood when the position was visited |
| Sweep.StateBeforeIsSeenAt | reaction-diffusion.js:105-106 | the grid when (x, y) is visited has the final values before (x, y) in row-major order and the initial values elsewhere |
| Sweep.SweepReadsUpdatedPredecessors | reaction-diffusion.js:105-129 | every position is visited exactly once; its final value is computed from the final values of its row-major predecessors and the initial values of the rest, including itself |
| Sweep.FirstCellSeesOldGrid | reaction-diffusion.js:105-106 | the first position is computed from the initial grid |
| Sweep.SweepRowFixed | reaction-diffusion.js:106-128 | a row whose every position is fixed by the rule is unchanged |
| Sweep.SweepRowsFixed | reaction-diffusion.js:105-129 | rows whose every position is fixed by the rule are unchanged |
| Sweep.SweepFixed | reaction-diffusion.js:105-129 | a grid whose every position is fixed by the rule is unchanged by the sweep |
| Sweep.SweepRowAgree | reaction-diffusion.js:106-128 | two rules that agree on grids of the input's shape sweep a row alike |
| Sweep.SweepRowsAgree | reaction-diffusion.js:105-129 | two rules that agree on grids of the input's shape sweep the grid alike |
| Stepper.Step | reaction-diffusion.js:103-131 | one `update` keeps the grid's dimensions and rectangularity |
| Stepper.StepReadsUpdatedPredecessors | reaction-diffusion.js:103-131 | the new value of (x, y) is `updateA` / `updateB` over the area of a grid in which the cells before (x, y) in row-major order are already updated, and the rest, (x, y) included, are not |
| Stepper.FirstCellUsesOldGrid | reaction-diffusion.js:105-121 | cell (0, 0) is computed from the old grid alone |
| Stepper.RestCellStays | reaction-diffusion.js:107-121 | in a grid at rest, a cell's new value is the rest state |
| Stepper.RestGridIsFixedPoint | reaction-diffusion.js:103-131 | a grid with every cell at `{a: 1, b: 0}` is left unchanged by `update` |
| Stepper.NewCellState | reaction-diffusion.js:107-121 | the new a and b come from the wrapped area of the current cells, both diffusions, and the cell's own a and b read before either write |
| Stepper.VisitComputes | reaction-diffusion.js:107-125 | the sweep's rule computes a cell's new value as the inner loop body does |
| Stepper.ComputedSweepIsStep | reaction-diffusion.js:105-129 | any rule computing the loop body yields the same sweep as `Step` |
| Stepper.VisitCell | reaction-diffusion.js:118-125 | writing through `newGrid[x][y]` changes exactly the input's cell (x, y), to its new value |
| Stepper.VisitRow | reaction-diffusion.js:106-128 | the inner loop takes the cells' values through the sweep of row x |
| Stepper.SweepGrid | reaction-diffusion.js:105-129 | the two loops take the input's cells from v to `Step(v)` |
| Stepper.Update | reaction-diffusion.js:103-131 | `update` returns a grid of the input's dimensions sharing its cells; afterwards the input's cells, and so the result's, hold `Step(v)` |
| Patterns.Mark | reaction-diffusion.js:86 | a cell is marked 'X' exactly when a <= b, so a == b gives 'X'; otherwise it is a blank |
| Patterns.MakePattern | reaction-diffusion.js:82-90 | a `width`-row pattern whose row x has max(`height`, grid row length) entries; each covered position holds its cell's mark and every other position a blank; a TypeError exactly when a non-empty grid row lies at or past `width` |
| Patterns.RenderSnoc | reaction-diffusion.js:93-100 | one more row adds that row's characters and a line break |
| Patterns.DrawPattern | reaction-diffusion.js:92-101 | the text is each row's characters in order, each row followed by '\n' |
| Patterns.RenderLength | reaction-diffusion.js:92-101 | the length of the text is the sum of (row length + 1) |
| Patterns.RenderLineBreaks | reaction-diffusion.js:92-101 | a pattern whose rows hold no line break prints exactly one '\n' per row |
| Patterns.BreakAt | reaction-diffusion.js:98 | the position of the first line break |
| Patterns.LinesOfRender | reaction-diffusion.js:92-101 | splitting the text at its line breaks gives back the pattern |
| Patterns.MarksAreSingleLines | reaction-diffusion.js:82-101 | a pattern of marks prints with one '\n' per row and reads back as itself |

## Left out

- The canvas and DOM setup, `draw`'s painting and the `setInterval` driver
  (reaction-diffusion.js:1-9, 134-147) are I/O and a wall-clock timer.
- The reassignment `grid = update(grid)` (reaction-diffusion.js:144) is
  driver plumbing. `Update` takes the grid as a parameter.
- IEEE-754 doubles are idealised as reals. This covers `Math.pow` and
  `Math.round` in `round`, the kinetics and the diffusion sums. NaN and
  infinities do not arise in the model.
- The range and NaN guards are commented out in the source, and nothing
  bounds the concentrations. So the model proves no bounds and no
  trajectories.
- The commented-out `applyDiffusion` and the random seed are dead code, so
  they are not modelled.
- Rounding.Round: takes a natural precision. The source's `precision || 0`
  default for a missing precision is not modelled; every call passes 2, 5
  or 3.
- Grids.CopyGrid: rows are sequences of cell references, not arrays. The
  row arrays that `slice(0)` allocates are therefore not separate objects in
  the model. Nothing in the script writes to a row array after copying; it
  writes only to the cells.
- Stepper.Update: requires a rectangular grid. On a ragged grid, the
  source's `area` can hold `undefined`, and `diffusion` then throws.
- Stepper.Update: also requires that no cell object appears twice. The
  initial grid and every grid `update` returns satisfy this. Aliased cells
  would make writes visible at several positions.
- Stepper.Visit: outside a rectangular grid it returns the rest state. The
  sweep never applies it there.
- Patterns.MakePattern: `width` and `height` are natural numbers. A
  negative size makes `Array` throw a RangeError, and that is not modelled.
- Patterns.MakePattern: when a row grows past `height`, the model appends
  one slot at a time, as the sequential writes do. JavaScript arrays with
  holes cannot arise here.
