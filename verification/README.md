# Game of Life on a torus — a Dafny model of the automaton core

The program simulates Conway's Game of Life on a `rows × cols` grid whose
edges wrap around (a torus) and draws it in a Tk window. This project models
the automaton core of its `GameOfLife` class and proves its properties:

- **construction** (`__init__`): an all-dead grid of `rows` rows of `cols` cells;
- **neighbour count** (`get_life_neighbors`): the live cells among the 3 × 3
  window around `(i, j)`, each coordinate reduced modulo `rows` and `cols`,
  with the skip test of the loops as written (see "Findings": on a one-row grid
  it skips more than the cell itself);
- **generation step** (`update`): the B3/S23 rule applied to every cell, each
  count taken on the old grid and the result written into a fresh buffer that
  replaces the grid when both loops are done;
- **reseed** (`reset`): every cell alive exactly when its random draw is below
  0.08, with the random source made an explicit argument.

Modules:

- `Torus` (`torus.dfy`): `Wrap`, the reduction of a coordinate onto the ring
  `0 .. n-1`. Python's `%` floors and Dafny's is Euclidean; they agree for the
  positive divisors the count uses, so `Wrap(a, n)` is `a % n`.
- `Life` (`life.dfy`): the `Game` state (`rows`, `cols`, `cells` as
  `seq<seq<bool>>`), `Init`, `Peek`, the window `Offset`s in loop order, the
  loops' skip test `Skipped`, the program's count `CountPrefix`/`CountNeighbours`,
  the rule `NextState`, `Step` and `Reset`.
- `Neighbours` (`neighbours.dfy`): the intended eight-neighbour count
  `MooreCount`, the program's count case by case against it, the intended count
  as the size of a set of live offsets, locality, and independence from the
  centre cell on tori of at least 2 × 2.
- `Dynamics` (`dynamics.dfy`): the rule's cases, the step against the intended
  rule, locality of the step, the all-dead grid as a fixed point, iterated
  steps, oscillators of period two, and runs of ticks and reseeds that keep the
  dimensions.
- `Patterns` (`patterns.dfy`): product-shaped grids, the 2 × 2 block as a
  still life anywhere on a torus of at least 4 × 4, a lone cell dying, and the
  blinker's period-two oscillation on a 5 × 5 torus.
- `Engine` (`engine.dfy`): the two nested loops of `get_life_neighbors` and of
  `update` as methods, with the row variable reduced in place as the source
  does, proved to compute `CountNeighbours` and `Step`.

Dimensions are `int`, as in the source: `range(rows)` is empty for
`rows <= 0`, so construction and the step give an empty grid there
(`Height`/`Width` clamp at zero). The count itself needs `rows > 0` and
`cols > 0`; the source would divide by zero or index an empty list otherwise,
and `update` never calls it on such a grid. The count accepts any row and
column, as the source's method does; `update` calls it only inside the grid.

## Model

| member | source | states |
|---|---|---|
| `Life.Init` | game_of_life_v1.0.py:17 | The new grid has the given dimensions, `rows` rows (when `rows >= 0`) of `cols` cells each, and every cell is dead. |
| `Torus.Wrap` | game_of_life_v1.0.py:32-33 | A reduced coordinate lies in `0 .. n-1` and differs from the original by `n` times the quotient rounded down, as Python's `%` defines it; in-range coordinates are left as they are. |
| `Torus.WrapNear` | game_of_life_v1.0.py:28-33 | At the borders the loops' overshoots wrap to the opposite edge: `-1` becomes `n - 1` and `n` becomes `0`. |
| `Life.Offset` | game_of_life_v1.0.py:28-29 | The k-th visited offset lies in the 3 × 3 window and the loop order is row offset outer, column offset inner. |
| `Life.CountPrefix` | game_of_life_v1.0.py:27-35 | Each visited offset adds at most one to the count; for a row inside the grid the cell itself is skipped, so once it has been passed the count is below the number of offsets visited. |
| `Life.CountNeighbours` | game_of_life_v1.0.py:25-36 | The count is at most 8 for a row inside the grid and at most 9 for any row. |
| `Neighbours.SkippedCases` | game_of_life_v1.0.py:28-32 | The loops skip an offset of the middle column exactly when the row is inside the grid and the offset is the cell itself or, on a one-row grid, the cell above or below it; they skip nothing for a row outside the grid. |
| `Neighbours.MooreCount` | game_of_life_v1.0.py:26 | The intended count, the live cells among the eight wrapped neighbours, is at most 8. |
| `Neighbours.MooreExpanded` | game_of_life_v1.0.py:26-36 | The intended count is the sum over the eight offsets other than (0, 0) of one per live wrapped cell. |
| `Neighbours.CountByCase` | game_of_life_v1.0.py:27-36 | The program's count is the intended count on grids of at least two rows for rows inside the grid. On a one-row grid it is three times the live cells among the left and right neighbours. For a row outside the grid it is the intended count plus the wrapped cell itself. |
| `Neighbours.FullGridCount` | game_of_life_v1.0.py:27-36 | On an all-alive grid the intended count is 8 on any torus; the program counts 8 for a row inside a grid of at least two rows, 6 on a one-row grid, and 9 for a row outside the grid. |
| `Neighbours.CountIsCardinality` | game_of_life_v1.0.py:28-35 | The intended count equals the number of offsets (dx, dy) != (0, 0) whose cell `[(i+dx) % rows][(j+dy) % cols]` is alive, borders and corners treated alike; the program's count equals it on grids of at least two rows for rows inside the grid. |
| `Neighbours.CountIsLocal` | game_of_life_v1.0.py:28-35 | Two grids that agree on the eight wrapped neighbours of (i, j) have the same intended count there; they have the same program count too when their row counts agree and either the row is inside the grid or the cells themselves agree. |
| `Neighbours.CountIgnoresCentre` | game_of_life_v1.0.py:30-33 | With at least 2 rows and 2 columns, changing cell (i, j) does not change its own count, because the skip happens before the reduction and no other offset wraps onto it. |
| `Neighbours.CentreAliasesOnThinTorus` | game_of_life_v1.0.py:30-33 | On a live 1 × 1 grid the intended count is 8, but the program counts 6, because it also skips the cells above and below; a dead 1 × 1 grid counts 0. |
| `Neighbours.CornersTouchAcrossTheWrap` | game_of_life_v1.0.py:28-35 | On a 3 × 3 grid with only the four corners alive, the count at (0, 0) is 3. |
| `Engine.GetLifeNeighbors` | game_of_life_v1.0.py:25-36 | The nested loops over `range(i-1, i+2)` and `range(j-1, j+2)`, with the skip test on the row variable that line 32 reduces in place, return exactly `CountNeighbours` for any row and column, hence at most 8 for a row inside the grid. |
| `Engine.VisitOffset` | game_of_life_v1.0.py:28-35 | Visiting raw coordinate (x, y) with the row variable as earlier passes left it adds one exactly when the skip test fails and the wrapped cell is alive. |
| `Life.NextState` | game_of_life_v1.0.py:44-47 | A cell is alive next only with 2 or 3 live neighbours; 3 live neighbours always give a live cell; a live cell with 2 stays alive; a dead cell comes alive only with exactly 3. |
| `Dynamics.RuleCases` | game_of_life_v1.0.py:44-47 | Live cells with fewer than 2 or more than 3 neighbours die, with 2 or 3 they survive; a dead cell becomes alive iff it has exactly 3. |
| `Life.Step` | game_of_life_v1.0.py:38-48 | The new grid keeps `rows` and `cols`; a live cell is alive afterwards iff its old count is 2 or 3, a dead cell iff its old count is 3. |
| `Dynamics.StepFollowsIntendedRule` | game_of_life_v1.0.py:38-48 | On a grid of at least two rows each new cell is the B3/S23 rule applied to the old cell and its intended eight-neighbour count. |
| `Dynamics.LoneCellOnARowDies` | game_of_life_v1.0.py:30-32 | In a 1 × 5 grid with only the middle cell alive, the intended count gives that cell 2 live neighbours, so it would survive; the program's step kills it and brings the cells beside it alive. |
| `Dynamics.StepIsLocal` | game_of_life_v1.0.py:40-48 | A new cell depends only on the old cell and its eight old wrapped neighbours, so no cell written during the step can influence another. |
| `Engine.Update` | game_of_life_v1.0.py:38-48 | Filling a fresh all-dead buffer cell by cell from counts on the old grid, then swapping it in, yields exactly `Step`. |
| `Dynamics.DeadGridIsFixed` | game_of_life_v1.0.py:38-48 | A grid with no live cell is unchanged by a step. |
| `Dynamics.InitIsFixed` | game_of_life_v1.0.py:38-48 | A freshly constructed grid is unchanged by a step. |
| `Dynamics.StepN` | game_of_life_v1.0.py:38-48 | Any number of successive steps keeps the dimensions and the shape of the grid. |
| `Dynamics.FixedPointForever` | game_of_life_v1.0.py:38-48 | A grid unchanged by one step is unchanged by any number of steps. |
| `Dynamics.PeriodTwo` | game_of_life_v1.0.py:38-48 | Two distinct grids that step to each other return after two steps and change after one. |
| `Life.Reset` | game_of_life_v1.0.py:19-23 | A reseed keeps the dimensions, and cell (x, y) is alive iff the draw made for it is below 0.08. |
| `Dynamics.QuietReseedClears` | game_of_life_v1.0.py:19-23 | A reseed in which no draw falls below 0.08 yields the same all-dead grid as construction. |
| `Dynamics.Run` | game_of_life_v1.0.py:19-48 | Any sequence of steps and reseeds keeps the dimensions and the shape of the grid. |
| `Patterns.ProductCount` | game_of_life_v1.0.py:27-36 | On a grid whose live cells are marked rows crossed with marked columns, with at least two rows, the count is the marked columns around j summed over the marked rows around i, less the cell itself; with one row it is three times the marked columns beside j. |
| `Patterns.BlockCount` | game_of_life_v1.0.py:27-36 | For a 2 × 2 block on a torus of at least 4 × 4, block cells have 3 live neighbours and all other cells at most 2. |
| `Patterns.BlockIsStill` | game_of_life_v1.0.py:38-48 | A 2 × 2 block anywhere on a torus of at least 4 × 4 is unchanged by a step. |
| `Patterns.BlockIsStillForever` | game_of_life_v1.0.py:38-48 | The block is unchanged after any number of steps. |
| `Patterns.LoneCellDies` | game_of_life_v1.0.py:43-47 | A single live cell in the middle of a 5 × 5 torus dies, leaving the all-dead grid. |
| `Patterns.BlinkerFlips` | game_of_life_v1.0.py:38-48 | On a 5 × 5 torus the horizontal blinker steps to the vertical one, and the vertical one steps back. |
| `Patterns.BlinkerOscillates` | game_of_life_v1.0.py:38-48 | The blinker has period two: two steps restore either phase, one step changes it. |

## Findings

| source | as written | input that shows it | evidently intended | confidence | as-written member | corrected member |
|---|---|---|---|---|---|---|
| game_of_life_v1.0.py:30-32 | `x %= self.rows` reduces the row loop variable in place, so from the second column pass on the skip test compares the reduced row with `i`: on a one-row grid the cells above and below are skipped as if they were the cell itself, and for a row outside the grid the cell itself is counted | a live 1 × 1 grid counts 6 instead of 8; in a 1 × 5 grid with only the middle cell alive that cell counts 0 instead of 2 and dies | count the live cells among the eight wrapped neighbours, skipping only the cell itself | high for the as-written behaviour; not executed | `Neighbours.CentreAliasesOnThinTorus`, `Dynamics.LoneCellOnARowDies` | `Neighbours.MooreCount`, `Neighbours.CountIsCardinality`, `Dynamics.StepFollowsIntendedRule` |

`Step` and `Update` follow the program as written. `CountByCase` and
`StepFollowsIntendedRule` show that on every grid of at least two rows the
program's count and step are the intended ones for all the cells `update`
visits. The block, lone-cell and blinker results are stated on such grids,
so they hold under both readings.

## Left out

- `draw` (game_of_life_v1.0.py:50-64): builds a PIL image and blits it onto a Tk canvas; foreign rendering calls.
- `GameOfLifeGUI` and the module-level script (game_of_life_v1.0.py:66-97): Tk window, click binding, the 1000 ms `after` timer and the event loop.
- `cell_size`, `life_color` and `death_color` (game_of_life_v1.0.py:10-14): used only for rendering, so `Game` does not carry them.
- Life.Reset: the process-wide generator is replaced by an argument holding the draw for each cell in row-major order; that the draws are uniform, and hence that about 8 % of cells come alive, is a probabilistic claim and is not modelled.
- Mutation and aliasing: the source keeps a mutable list of lists and `reset` overwrites it in place; the model treats the grid as a value, which is what every operation observes.
- Non-integer dimensions or coordinates: a float or string `rows`/`cols` makes `range` raise TypeError at game_of_life_v1.0.py:17, and a float `i`/`j` does so at lines 28-29; the model's dimensions and coordinates are `int`.
- Life.CountNeighbours: requires both dimensions to be positive, so the source's ZeroDivisionError at game_of_life_v1.0.py:32-33 for a zero dimension and its IndexError for a negative one are not modelled.
- Engine.GetLifeNeighbors: requires both dimensions to be positive, for the same reason as CountNeighbours; the error paths of game_of_life_v1.0.py:32-34 on a grid with a zero or negative dimension are not modelled.
