# RayCaster grid traversal in Dafny

This project models `gdl.RayCaster`, a 2D DDA ("grid voxel traversal") over a
`boolean[][]` occupancy grid indexed `grid[x][y]`, where `true` is a solid cell.
It also proves what the traversal promises. The class has three static queries.
All three share one per-axis setup and one stepping rule:

- `castMaxSteps` walks from a start point along a vector. It returns one of:
  - the step counter, when a solid cell is entered;
  - `-1` (`BUDGET_REACHED`), when the counter meets `maxSteps`;
  - `-2` (`NO_HIT`), once the position leaves the open rectangle
    `(0, mapWidth) x (0, mapHeight)`.
- `castSteplist` walks from a start point towards a target. It returns every
  cell it enters, in order. It stops right after a solid cell, after the target
  tile, or when the ray leaves the rectangle.
- `rayBlocked` is the line-of-sight test. It has extra non-blocking exits when the
  target sits exactly on a lattice corner.

Layout:

- `numerics.dfy` (`Numerics`): the double arithmetic the code relies on, over
  exact reals.
  - `Ext` is a value that is finite or +Infinity.
  - Also here: `equals` with `EPSILON`, `nextUp`, `Math.floor`, and the `(int)` cast
    (`Trunc`, which rounds toward zero).
- `traversal.dfy` (`Traversal`): parts shared by all three queries.
  - The `Step` cell and the grid read.
  - The setup (`Heading` for the step signs and the `tDelta` values, `Origin` for
    the first `tMax` values).
  - The stepping rule (`Choose`, `Next`, and the method `Advance`).
  - The trajectory `Walk`, and the cells one iteration enters (`Entered`: the
    corner neighbours, then the new cell).
  - The corner-tile pick of `rayBlocked`.
- `ray_caster_spec.dfy` (`RayCasterSpec`): what each query returns.
  - Iteration `k` of a query either stops with a result or goes on (`...Event`).
  - The query's result is the event of the first iteration that stops
    (`CastMaxStepsSpec`, `CastSteplistSpec`, `RayBlockedSpec`).
- `ray_caster.dfy` (`RayCaster`): the three queries as the Java loops.
  - They use the same locals (`currentX`, `currentY`, `tMaxX`, `tMaxY`, `steps`,
    `stepList`, `blocked`) and the same branches, reads and early returns.
  - Each is proved to meet its specification predicate.
- `properties.dfy` (`RayCasterProperties`): properties of the specifications:
  - each query has exactly one result;
  - the meaning of each result kind of `castMaxSteps`;
  - the shape of the step list;
  - for a target off the lattice corners, `rayBlocked` is true exactly when a solid
    cell is entered before the target tile;
  - the corner shortcut;
  - away from corner targets, `rayBlocked` agrees with `castSteplist`;
  - the counter `castMaxSteps` returns along a row.
- `reach.dfy` (`RayCasterReach`): `castSteplist` reaches its target away from
  the truncation edge, and its list never repeats a cell twice in a row there.
- `scenarios.dfy` (`RayCasterScenarios`): three worked inputs of `castSteplist`,
  two of `castMaxSteps` and one of `rayBlocked`.

Out-of-range reads are an explicit outcome. The code reads the grid without a
bounds check in these places:
- the corner neighbours;
- the cell after a move, before the loop guard runs again;
- the target cell of `rayBlocked`'s same-tile case.

In Java such a read throws `ArrayIndexOutOfBoundsException`. In the model every
query returns `Result<T>`, and a faulting read gives `OutOfBounds(x, y)` with the
cell it tried. The grid needs no precondition. In `castSteplist` the list is
never returned in that case.

Behaviours of the code that the model keeps, and proves where they matter:
- At a corner tie, `castSteplist` lists the x-neighbour, then the y-neighbour,
  then the diagonal cell. So the diagonal ray from (2.5, 2.5) to (5.5, 5.5) yields
  ten cells, not only the four diagonal ones (`DiagonalPath`).
- A cell index is `(int)` of the coordinate. Stepping left from `x = 0.5` reaches
  `x = -0.5`, which still truncates to 0, so the list ends with the start tile
  twice (`TruncationStall`).
- `castSteplist` appends its start tile without reading it. It reads that cell
  later only when truncation toward zero maps a later cell or corner neighbour
  onto it, as in `TruncationStall`. `rayBlocked` reads the start tile up front
  only when start and target share a tile; otherwise it too meets it only
  through truncation.
- From an integer coordinate stepping down, the first boundary is the coordinate
  itself (`tMax = 0`). A start at `x = 1.0` whose target lies left of it moves to
  `x = 0.0` first, which is outside the open rectangle (`EdgeExit`).
- The counter of `castMaxSteps` starts at 1 and is incremented before each
  iteration's reads, so iteration `k` (from 0) returns `k + 2`. A solid cell
  entered by the first iteration gives 2 (`AdjacentSolidCount`). Along a row to
  the right from column `x0 = (int) startX`, the first solid column `c` gives
  `c - x0 + 1` (`RowHitCount`).
- Away from the truncation edge `castSteplist` reaches its target. Take a start
  and a target inside the rectangle, both at least 1 on both axes, with vector
  components of at most 100000, so that every finite `tDelta` is at least
  `EPSILON`. When every cell the walk enters before the target tile is open
  (`OpenToGoal`), a returned list ends at the target tile and never repeats a
  cell twice in a row (`CastSteplistReachesTarget`). When the grid is also one
  cell larger than the rectangle on each axis, the result is always such a list
  (`CastSteplistFindsTarget`).

## Model

| member | source | states |
|---|---|---|
| `Numerics.Trunc` | src-java/gdl/RayCaster.java:137-138 | the `(int)` cast rounds toward zero: for a non-negative value it is the floor, for a negative one the least integer at or above it, so `(int)(-0.5) == 0` |
| `Numerics.NextUp` | src-java/gdl/RayCaster.java:42-46 | `nextUp(u)` is the least integer strictly above `u`, so an integer coordinate moves to the next one |
| `Numerics.MathFloor` | src-java/gdl/RayCaster.java:92 | `Math.floor` is the integer `n` with `n <= u < n + 1` |
| `Numerics.Abs` | src-java/gdl/RayCaster.java:128-129 | `Math.abs` keeps infinity infinite, and a finite value keeps its magnitude and becomes non-negative |
| `Numerics.AbsQuotient` | src-java/gdl/RayCaster.java:101-103 | `Math.abs(a / v)` is infinite exactly when `v` is zero; otherwise it is the non-negative `t` with `t * |v| == |a|` |
| `Numerics.Add` | src-java/gdl/RayCaster.java:154-155 | the `tMax + tDelta` sum is infinite exactly when an operand is |
| `Numerics.NotEqualsOrdered` | src-java/gdl/RayCaster.java:30-32 | `equals` is symmetric; when two values are not `equals`, exactly one of the two strict comparisons holds |
| `Numerics.EqualsWithin` | src-java/gdl/RayCaster.java:30-32 | `equals` is reflexive, holds between two infinities, never between infinity and a finite value, and between finite values exactly when they are less than `EPSILON` apart |
| `Numerics.LtOrder` | src-java/gdl/RayCaster.java:160-163 | `<` on `|tMax|` values is a strict total order with +Infinity above every finite value |
| `Numerics.TruncUnitStep` | src-java/gdl/RayCaster.java:168-169 | one unit of movement changes a truncated index by 0 or 1; by exactly 1 from a non-negative coordinate, and by 0 across (-1, 0) |
| `Traversal.Read` | src-java/gdl/RayCaster.java:421 | a grid access succeeds exactly for an index in range, with the cell's value; otherwise it fails with that index |
| `Traversal.InsideTile` | src-java/gdl/RayCaster.java:120 | a position that passes the loop guard `0 < x < mapWidth && 0 < y < mapHeight` has a cell whose indices are in range for a `mapWidth` by `mapHeight` grid (whether the grid itself is that large is not assumed) |
| `Traversal.TileContains` | src-java/gdl/RayCaster.java:168-169 | `((int)x, (int)y)` is the unit cell holding a non-negative position, and every coordinate in (-1, 1) has index 0 |
| `Traversal.StepSign` | src-java/gdl/RayCaster.java:76-86 | the step is -1 exactly for a negative component and +1 otherwise (zero counts as positive) |
| `Traversal.FirstBoundary` | src-java/gdl/RayCaster.java:88-99 | stepping up, the first boundary lies strictly above the coordinate and at most one unit away; stepping down, it is the floor |
| `Traversal.InitTMax` | src-java/gdl/RayCaster.java:101-103 | the initial `tMax` is infinite exactly for a zero component; otherwise it is the non-negative ray parameter at which `u + t * v` reaches the first boundary |
| `Traversal.TDelta` | src-java/gdl/RayCaster.java:105-109 | `tDelta` is infinite exactly for a zero component; otherwise it is positive, and `tDelta * v` is the step |
| `Traversal.Heading` | src-java/gdl/RayCaster.java:76-109 | the per-call constants have unit steps whose signs are those of the vector components |
| `Traversal.Choose` | src-java/gdl/RayCaster.java:128-166 | each iteration takes exactly one branch: a corner when the two `|tMax|` are `equals`, otherwise the axis with the strictly smaller `|tMax|` |
| `Traversal.Next` | src-java/gdl/RayCaster.java:153-166 | exactly the chosen axes advance one unit in their step direction, so the position always changes |
| `Traversal.Advance` | src-java/gdl/RayCaster.java:306-319 | the three-branch update of the locals produces the next ray state, and the silent fourth branch is unreachable |
| `Traversal.WalkWholeUnits` | src-java/gdl/RayCaster.java:157-165 | after `k` iterations, each coordinate is the start plus a whole number of steps; each axis moved at most `k` times and together at least `k` times |
| `Traversal.InsideWithinBound` | src-java/gdl/RayCaster.java:120 | the loop guard holds only for `k` below a bound on the rectangle and the start, so every loop terminates |
| `Traversal.Entered` | src-java/gdl/RayCaster.java:137-173 | an iteration enters three cells at a corner and one otherwise; the last is the cell of the new position |
| `Traversal.EnteredCorner` | src-java/gdl/RayCaster.java:137-158 | at a corner, the cells are `((int)(x+stepX), (int)y)`, then `((int)x, (int)(y+stepY))`, then the cell after the move |
| `Traversal.EnteredSingle` | src-java/gdl/RayCaster.java:160-169 | off a corner, the only cell is the one after the move |
| `Traversal.EnteredLinked` | src-java/gdl/RayCaster.java:274-324 | from the current cell, the entered cells form a chain of neighbours (each coordinate differs by at most 1); at a corner the diagonal cell comes third |
| `Traversal.CornerLinked` | src-java/gdl/RayCaster.java:274-311 | at a corner tie, from the current cell the list order is the x-neighbour, the y-neighbour, then the diagonal cell, and the four form a chain |
| `Traversal.Examine` | src-java/gdl/RayCaster.java:277-304 | a stop found among the cells one iteration reads lies within those cells |
| `Traversal.ExamineMeaning` | src-java/gdl/RayCaster.java:279-287 | reading cells front to back: with no stop, all cells are open and not the target; a stop at the n-th cell has the earlier cells open and not the target, and the n-th solid or the target; a fault names a listed cell outside the grid |
| `RayCasterProperties.ExaminePass` | src-java/gdl/RayCaster.java:279-304 | the reads go on past a group of cells exactly when every cell is open and not the target |
| `RayCasterProperties.ExamineSolidFirst` | src-java/gdl/RayCaster.java:279-304 | a stop at a solid cell is at the first cell that is not open, and every cell before it is open and not the target |
| `RayCasterProperties.ExamineFaultFirst` | src-java/gdl/RayCaster.java:279-304 | a fault names the first listed cell outside the grid, and every cell before it is open and not the target |
| `RayCasterProperties.SolidFirstStops` | src-java/gdl/RayCaster.java:279-304 | conversely, cells whose first non-open cell is solid, after open non-target cells, stop there as solid |
| `RayCasterProperties.FaultFirstStops` | src-java/gdl/RayCaster.java:279-304 | conversely, cells whose first non-open cell is outside the grid, after open non-target cells, fault on it |
| `Traversal.CornerTileIsCrossing` | src-java/gdl/RayCaster.java:442-473 | inside the rectangle, each of the four step-sign cases of `CornerTile` picks the cell whose lower-left corner is the lattice point where the two first boundaries meet |
| `Traversal.TMaxTracksBoundary` | src-java/gdl/RayCaster.java:101-103 | after any number of iterations, `start + tMax * v` is the first boundary ahead of the current coordinate on each axis; a zero component keeps `tMax` infinite |
| `Traversal.AxisAdvance` | src-java/gdl/RayCaster.java:161-162 | advancing one axis by its step and its `tMax` by `tDelta` keeps `tMax` at the parameter of the next boundary |
| `RayCasterSpec.ReadStop` | src-java/gdl/RayCaster.java:168-173 | a `castMaxSteps` read fails on an out-of-range cell, returns the counter on a solid cell, and goes on past an open cell |
| `RayCasterSpec.TargetTileContains` | src-java/gdl/RayCaster.java:252-253 | the target tile `((int)targetX, (int)targetY)` is the unit cell holding a non-negative target, and is the cell `Tile` gives for a position at the target |
| `RayCasterSpec.MaxStepsReadsCorner` | src-java/gdl/RayCaster.java:133-158 | at a corner, `castMaxSteps` reads the x-neighbour, the y-neighbour, then the cell after the move |
| `RayCasterSpec.MaxStepsReadsSingle` | src-java/gdl/RayCaster.java:160-173 | off a corner, `castMaxSteps` reads only the cell after the move |
| `RayCasterSpec.MaxStepsStopsAt` | src-java/gdl/RayCaster.java:120-177 | the first iteration that stops gives `castMaxSteps`' result |
| `RayCasterSpec.MaxStepsBounded` | src-java/gdl/RayCaster.java:120 | `castMaxSteps`' loop runs fewer than `Bound` times |
| `RayCasterSpec.MaxStepsStopsHere` | src-java/gdl/RayCaster.java:124-173 | a return at the loop head of iteration `k` is `castMaxSteps`' result |
| `RayCasterSpec.MaxStepsGoesOn` | src-java/gdl/RayCaster.java:128-175 | an iteration that does not return leads to the loop head of the next one |
| `RayCasterSpec.TrailShape` | src-java/gdl/RayCaster.java:255-324 | while no iteration stops, the list starts at the start tile, ends at the cell of the current position, grows exactly when some iteration ran, and is a chain of neighbours |
| `RayCasterSpec.LinkedJoin` | src-java/gdl/RayCaster.java:321-324 | appending a chain that starts next to the list's last cell keeps the list a chain |
| `RayCasterSpec.ListStop` | src-java/gdl/RayCaster.java:321-333 | an append-and-read fails on an out-of-range cell, returns the list with the cell on a solid cell or the target tile, and goes on otherwise |
| `RayCasterSpec.ListReadsCons` | src-java/gdl/RayCaster.java:274-304 | `castSteplist` appends and reads an iteration's cells one at a time, front to back |
| `RayCasterSpec.SteplistReadsCorner` | src-java/gdl/RayCaster.java:270-311 | at a corner, `castSteplist` appends and reads the x-neighbour, the y-neighbour, then the cell after the move |
| `RayCasterSpec.SteplistReadsSingle` | src-java/gdl/RayCaster.java:313-333 | off a corner, it appends and reads only the cell after the move |
| `RayCasterSpec.SteplistEventAt` | src-java/gdl/RayCaster.java:263-333 | at the loop head, iteration `k`'s outcome is read off the locals: the current list on exit, otherwise the reads |
| `RayCasterSpec.SteplistHeadNext` | src-java/gdl/RayCaster.java:306-324 | an iteration that does not stop leads to the next loop head, with the list extended by the entered cells |
| `RayCasterSpec.SteplistGoesOn` | src-java/gdl/RayCaster.java:263-334 | when the reads do not stop, the next loop head holds |
| `RayCasterSpec.SteplistStopsHere` | src-java/gdl/RayCaster.java:279-333 | a return inside the loop is `castSteplist`'s result |
| `RayCasterSpec.SteplistLeaves` | src-java/gdl/RayCaster.java:336 | when the loop guard fails, the list accumulated so far is the result |
| `RayCasterSpec.SteplistBounded` | src-java/gdl/RayCaster.java:263 | `castSteplist`'s loop runs fewer than `Bound` times |
| `RayCasterSpec.SteplistStopsAt` | src-java/gdl/RayCaster.java:259-336 | the first iteration that stops gives `castSteplist`'s result |
| `RayCasterSpec.BlockStop` | src-java/gdl/RayCaster.java:490-499 | a `rayBlocked` read fails on an out-of-range cell, stops blocked on a solid cell, stops unblocked on an open target tile, and goes on otherwise |
| `RayCasterSpec.BlockReadsCons` | src-java/gdl/RayCaster.java:487-515 | `rayBlocked` reads an iteration's cells one at a time, front to back |
| `RayCasterSpec.TargetIsCornerMeaning` | src-java/gdl/RayCaster.java:417 | `targetIsCorner` holds exactly when both target coordinates are whole numbers, and the target tile is then the cell whose lower-left corner is the target |
| `RayCasterSpec.StraightPositiveMeaning` | src-java/gdl/RayCaster.java:381-382 | `isHorizontalStepXPositive \|\| isVerticalStepYPositive` holds exactly for a vector along +x or +y, the zero vector included, because a zero component steps up |
| `RayCasterSpec.RayBlockedReadsCorner` | src-java/gdl/RayCaster.java:431-515 | at a corner towards a corner target whose corner tile is the target tile, it stops unblocked before any read; otherwise it reads the x-neighbour, the y-neighbour, then the cell after the move, except for the straight-ray exit at the target |
| `RayCasterSpec.RayBlockedReadsSingle` | src-java/gdl/RayCaster.java:532-553 | off a corner, only the cell after the move is read, unless a straight ray reaches a corner target's tile, which stops unblocked unread |
| `RayCasterSpec.RayBlockedBounded` | src-java/gdl/RayCaster.java:424 | `rayBlocked`'s loop runs fewer than `Bound` times |
| `RayCasterSpec.RayBlockedEventAt` | src-java/gdl/RayCaster.java:424-553 | at the loop head, iteration `k`'s outcome is read off the locals |
| `RayCasterSpec.RayBlockedHeadNext` | src-java/gdl/RayCaster.java:517-530 | an iteration that does not stop leads to the next loop head |
| `RayCasterSpec.RayBlockedStopsAt` | src-java/gdl/RayCaster.java:424-556 | the first iteration that stops gives `rayBlocked`'s result |
| `RayCasterSpec.RayBlockedStopsHere` | src-java/gdl/RayCaster.java:475-556 | a `break` at the loop head of iteration `k`, or an exit at its guard, gives `rayBlocked`'s result |
| `RayCaster.Setup` | src-java/gdl/RayCaster.java:69-112 | the set-up computes the heading (step signs, `tDelta`) and the initial ray state (position, `tMax`) |
| `RayCaster.MaxStepsIteration` | src-java/gdl/RayCaster.java:128-173 | one pass of the loop body returns what the iteration's reads give and otherwise moves to the next state |
| `RayCaster.CastMaxSteps` | src-java/gdl/RayCaster.java:65-178 | `castMaxSteps` returns `-1` when `maxSteps == 1`, and otherwise the outcome of the first iteration that stops (`CastMaxStepsSpec`, over the per-iteration outcome `MaxStepsAt`) |
| `RayCaster.SteplistIteration` | src-java/gdl/RayCaster.java:265-333 | one pass of the loop body appends before each read, returns what the reads give, and otherwise moves on with the list extended by the entered cells |
| `RayCaster.SteplistRound` | src-java/gdl/RayCaster.java:263-334 | one pass of the loop either produces `castSteplist`'s result or establishes the next loop head |
| `RayCaster.CastSteplist` | src-java/gdl/RayCaster.java:196-337 | `castSteplist` returns the start tile alone on a shared tile, and otherwise the outcome of the first iteration that stops (`CastSteplistSpec`) |
| `RayCaster.RayBlockedIteration` | src-java/gdl/RayCaster.java:426-553 | one pass of the loop body, including the corner-tile pick and the straight-ray exit, gives what the iteration's reads give and otherwise moves on |
| `RayCaster.RayBlockedRound` | src-java/gdl/RayCaster.java:424-554 | one pass of the loop either produces `rayBlocked`'s result or establishes the next loop head |
| `RayCaster.RayBlocked` | src-java/gdl/RayCaster.java:353-557 | `rayBlocked` returns the target cell's read on a shared tile, and otherwise the outcome of the first iteration that stops, unblocked when the guard fails (`RayBlockedSpec`, over the per-iteration reads `RayBlockedReads`) |
| `RayCasterProperties.IntegerStartBoundary` | src-java/gdl/RayCaster.java:34-46 | an integer start such as 64.0 has first boundary 65 stepping up and 64 stepping down |
| `RayCasterProperties.StepRule` | src-java/gdl/RayCaster.java:133-166 | an axis moves exactly when the branch is not the other axis's, and exactly the moved axes add their `tDelta` to `tMax` |
| `RayCasterProperties.CastMaxStepsDeterministic` | src-java/gdl/RayCaster.java:65-178 | `castMaxSteps` has exactly one result for given inputs |
| `RayCasterProperties.CounterBelowBudget` | src-java/gdl/RayCaster.java:114-126 | while no iteration has returned, the counter has not met `maxSteps` and every earlier position was inside the rectangle |
| `RayCasterProperties.MaxStepsOutcomesOn` | src-java/gdl/RayCaster.java:114-177 | on any heading and origin, the first stop of `castMaxSteps` is one of the outcomes listed for `CastMaxStepsOutcomes` (`MaxStepsOutcome`) |
| `RayCasterProperties.CastMaxStepsOutcomes` | src-java/gdl/RayCaster.java:114-177 | every outcome names the iteration `k` that produced it, and every iteration before `k` was inside the rectangle, below the budget, with every entered cell open. A count is at least 2, is the counter `k + 2` of an iteration inside the rectangle whose reads meet a solid cell before any cell outside the grid, and is below `maxSteps` when `maxSteps >= 1`; `-2` comes from the first position outside the rectangle; `-1` from `maxSteps == 1` or from the iteration inside whose counter meets `maxSteps`; a fault names iteration `k`'s first cell outside the grid, read before any solid cell |
| `RayCasterProperties.MaxStepsReadStop` | src-java/gdl/RayCaster.java:137-173 | a stop of the reads returns the counter only when an entered cell is solid and every cell before it is open, and faults only on the first entered cell outside the grid, with every cell before it open |
| `RayCasterProperties.MaxStepsPassMeaning` | src-java/gdl/RayCaster.java:120-173 | iteration `k` of `castMaxSteps` (`MaxStepsAt`) goes on exactly when its position is inside the rectangle, its counter `k + 2` is not `maxSteps`, and every cell it enters is open |
| `RayCasterProperties.GoOnPasses` | src-java/gdl/RayCaster.java:120-175 | when no iteration before `k` returned, each of them was inside, below the budget, with every entered cell open |
| `RayCasterProperties.PassesGoOn` | src-java/gdl/RayCaster.java:120-175 | conversely, when every iteration before `k` was inside, below the budget, with every entered cell open, none of them returned |
| `RayCasterProperties.ReadsOutcome` | src-java/gdl/RayCaster.java:133-173 | a return from the reads of iteration `k`, after iterations that went on, is one of the outcomes `MaxStepsOutcome` lists |
| `RayCasterProperties.CountReadsStop` | src-java/gdl/RayCaster.java:137-173 | reads whose first non-open cell is solid return the counter; reads whose first non-open cell is outside the grid fault on that cell |
| `RayCasterProperties.CountStopsAt` | src-java/gdl/RayCaster.java:120-173 | an iteration inside the rectangle, not at the budget, whose reads meet a solid cell first returns its counter `k + 2` |
| `RayCasterProperties.CountOutcomeStops` | src-java/gdl/RayCaster.java:120-173 | a count `MaxStepsOutcome` allows is what its iteration `k` returns, after iterations that all go on |
| `RayCasterProperties.FaultOutcomeStops` | src-java/gdl/RayCaster.java:120-173 | a fault `MaxStepsOutcome` allows is what its iteration `k` returns, after iterations that all go on |
| `RayCasterProperties.MaxStepsOutcomeStops` | src-java/gdl/RayCaster.java:114-177 | with `maxSteps != 1`, every outcome `MaxStepsOutcome` allows is the result of an iteration `k` before which no iteration returned |
| `RayCasterProperties.OutcomeIsCastMaxSteps` | src-java/gdl/RayCaster.java:65-178 | every outcome `MaxStepsOutcome` allows is what `castMaxSteps` returns (`CastMaxStepsSpec`), so together with `CastMaxStepsOutcomes` the list is exact |
| `RayCasterProperties.RowWalk` | src-java/gdl/RayCaster.java:160-162 | on a heading right along a row (`vectorY == 0`), iteration `k` has moved `k` cells right and kept `y`, with `tMaxY` infinite throughout |
| `RayCasterProperties.RowEntered` | src-java/gdl/RayCaster.java:160-173 | along such a row from `x > 0`, iteration `k` enters exactly the cell `((int)startX + k + 1, (int)startY)` |
| `RayCasterProperties.RowEvent` | src-java/gdl/RayCaster.java:119-173 | along such a row inside the rectangle, iteration `k` goes on past an open cell and returns the counter `k + 2` at the solid column |
| `RayCasterProperties.RowHitCount` | src-java/gdl/RayCaster.java:113-177 | moving right from column `x0 = (int)startX`, with the columns after `x0` open up to a solid column `c` inside the rectangle, `castMaxSteps` returns `c - x0 + 1`, unless the budget `maxSteps` is met first |
| `RayCasterProperties.CastSteplistDeterministic` | src-java/gdl/RayCaster.java:196-337 | `castSteplist` has exactly one result for given inputs |
| `RayCasterProperties.TrailOpen` | src-java/gdl/RayCaster.java:277-333 | while no iteration has stopped, every cell the list gained after the start tile was read as open and is not the target tile |
| `RayCasterProperties.ListStopShape` | src-java/gdl/RayCaster.java:321-333 | a stop appends the first `n` entered cells; cells before the last are open and not the target, and the last is solid or the open target |
| `RayCasterProperties.SteplistShapeOn` | src-java/gdl/RayCaster.java:263-336 | on any heading and origin, the list at the first stop has the shape stated for `CastSteplistShape` |
| `RayCasterProperties.SteplistStopShape` | src-java/gdl/RayCaster.java:321-333 | a stop inside the rectangle returns a list of that shape |
| `RayCasterProperties.JoinedStopShape` | src-java/gdl/RayCaster.java:324 | the list so far plus the appended cells is a chain whose interior cells are open and not the target |
| `RayCasterProperties.CastSteplistShape` | src-java/gdl/RayCaster.java:250-336 | the list is non-empty and starts at `((int)startX, (int)startY)`; on a shared tile it is that tile alone. Otherwise it is a chain of neighbours, with every element strictly between the first and the last open and not the target, ending at a solid cell, the target tile, or the cell of the first position outside the rectangle |
| `RayCasterProperties.RayBlockedDeterministic` | src-java/gdl/RayCaster.java:353-557 | `rayBlocked` has exactly one result for given inputs |
| `RayCasterProperties.BlockReadsTrue` | src-java/gdl/RayCaster.java:490-493 | reads stop blocked only at a solid cell, after cells that were open and not the target |
| `RayCasterProperties.ReadsBlockedSolid` | src-java/gdl/RayCaster.java:485-548 | an iteration of `rayBlocked` reports blocked only when a cell it enters is solid and every entered cell before it is open and not the target tile |
| `RayCasterProperties.ReadsGoOnOpen` | src-java/gdl/RayCaster.java:485-553 | an iteration of `rayBlocked` that goes on entered only open cells, none of them the target tile |
| `RayCasterProperties.AllOpenJoin` | src-java/gdl/RayCaster.java:485-548 | two groups of cells are all open and off the target exactly when each group is |
| `RayCasterProperties.RayBlockedTrueMeansSolid` | src-java/gdl/RayCaster.java:410-556 | `rayBlocked` returns true only if a grid read was true: on a shared tile the target cell is solid. Otherwise some iteration `k` inside the rectangle entered a solid cell before the target tile and before any other non-open cell, and every iteration before `k` was inside and entered only open cells other than the target tile (`SolidOnPath`) |
| `RayCasterProperties.SolidOnPathBlocksOn` | src-java/gdl/RayCaster.java:485-553 | away from a corner target, on any heading and origin, a solid cell on the path stops the iteration that enters it with blocked, and every earlier iteration goes on |
| `RayCasterProperties.NonCornerEvents` | src-java/gdl/RayCaster.java:417-436 | for a target that is not a lattice corner, every iteration of `rayBlocked` runs with the corner exits switched off |
| `RayCasterProperties.SolidOnPathMeansTrue` | src-java/gdl/RayCaster.java:424-556 | for a target that is not a lattice corner and lies on another tile, a solid cell entered before the target tile (`SolidOnPath`) makes `rayBlocked` return true |
| `RayCasterProperties.RayBlockedIffSolidOnPath` | src-java/gdl/RayCaster.java:353-557 | for such a target, `rayBlocked` returns true exactly when a solid cell is entered before the target tile is reached |
| `RayCasterProperties.CornerShortcut` | src-java/gdl/RayCaster.java:436-478 | with a corner target, a corner tie inside the rectangle whose corner tile is the target tile stops `rayBlocked` unblocked, whatever the grid holds |
| `RayCasterProperties.CornerShortcutAtTarget` | src-java/gdl/RayCaster.java:442-477 | when the corner tile picked that way is the target tile, the corner being crossed is the target point itself, reached at ray parameter 1 on every moving axis |
| `RayCasterProperties.CornerAtTargetOn` | src-java/gdl/RayCaster.java:442-473 | the same, for any ray state whose `tMax` values track the next boundaries |
| `RayCasterProperties.BlockReadsAppend` | src-java/gdl/RayCaster.java:485-548 | reading two groups of cells is reading the first, then the second if the first did not stop |
| `RayCasterProperties.NonCornerReads` | src-java/gdl/RayCaster.java:480-553 | for a target that is not a corner, an iteration of `rayBlocked` reads exactly the cells `castSteplist` appends, front to back |
| `RayCasterProperties.BlockAgreesWithList` | src-java/gdl/RayCaster.java:490-515 | over the same cells, `rayBlocked`'s reads and `castSteplist`'s stop together and agree |
| `RayCasterProperties.StopsTogether` | src-java/gdl/RayCaster.java:424-553 | away from a corner target, iteration `k` of `rayBlocked` stops exactly when iteration `k` of `castSteplist` does |
| `RayCasterProperties.ResultsMatch` | src-java/gdl/RayCaster.java:545-556 | at the first stopping iteration the two results match, including the exit, where the list ends at an open cell or just the start tile |
| `RayCasterProperties.SightAgreesWithSteplist` | src-java/gdl/RayCaster.java:353-557 | for a target that is not a corner and lies on another tile, `rayBlocked` and `castSteplist` fail on the same cell, or `rayBlocked` is true exactly when the list goes past the start tile and ends at a solid cell |
| `RayCasterReach.TDeltaAtLeastEpsilon` | src-java/gdl/RayCaster.java:244-245 | a vector component of magnitude at most 100000 gives a `tDelta` of at least `EPSILON` |
| `RayCasterReach.AxisStatus` | src-java/gdl/RayCaster.java:224-239 | on an axis whose cell lies between the start's and the target's: at the target's cell `tMax` is infinite or at least 1; with cells left to cross it is finite and at most 1; with two or more left, `tMax + tDelta` is at most 1 |
| `RayCasterReach.AxisInside` | src-java/gdl/RayCaster.java:263 | a coordinate whose cell lies between those of a start and a target in `[1, w)` is in `[1, w)`, where `(int)` is the floor |
| `RayCasterReach.AxisMove` | src-java/gdl/RayCaster.java:310-322 | moving an axis that still has cells to cross by its step keeps its cell between start and target, one cell closer, and the new `(int)` index is the old one plus the step |
| `RayCasterReach.AxisShift` | src-java/gdl/RayCaster.java:310-322 | an axis that moves only while it still has cells to cross stays between start and target, one cell closer per move and unchanged otherwise |
| `RayCasterReach.ApproachInside` | src-java/gdl/RayCaster.java:263 | a position whose cells lie between the start's and the target's passes the loop guard, is at least 1 on both axes, and its tile is the floor of each coordinate |
| `RayCasterReach.CornerMovesTowards` | src-java/gdl/RayCaster.java:270-311 | a corner tie that does not enter the target tile moves two axes that both still have cells to cross |
| `RayCasterReach.SingleMovesTowards` | src-java/gdl/RayCaster.java:313-319 | a single-axis move off the target tile moves an axis that still has cells to cross |
| `RayCasterReach.ApproachStep` | src-java/gdl/RayCaster.java:263-324 | an iteration that does not enter the target tile keeps both cells between start and target and brings the walk strictly closer to the target tile |
| `RayCasterReach.ReachFrom` | src-java/gdl/RayCaster.java:263-334 | from an iteration between start and target, off the target tile, a later iteration enters the target tile, and every iteration up to it stays between start and target |
| `RayCasterReach.WalkReachesTarget` | src-java/gdl/RayCaster.java:205-334 | from a start to a target inside the rectangle, at least 1 on both axes, with vector components of at most 100000, some iteration enters the target tile, and every position up to it passes the loop guard and is at least 1 on both axes |
| `RayCasterReach.ApproachClear` | src-java/gdl/RayCaster.java:263 | a position on the approach passes the loop guard and is at least 1 on both axes |
| `RayCasterReach.ApproachClearUpTo` | src-java/gdl/RayCaster.java:263 | when every position up to iteration m is on the approach, all of them pass the loop guard and none lies below 1 on either axis |
| `RayCasterReach.UnitStepMoves` | src-java/gdl/RayCaster.java:274-322 | from a coordinate of at least 1, one unit of movement changes the `(int)` index by exactly the step |
| `RayCasterReach.EnteredMoves` | src-java/gdl/RayCaster.java:274-324 | from a position at least 1 on both axes, each cell an iteration appends differs from the one appended before it |
| `RayCasterReach.MovingJoin` | src-java/gdl/RayCaster.java:324 | appending cells that move on from the list's last cell keeps the list free of immediate repeats |
| `RayCasterReach.TrailMoves` | src-java/gdl/RayCaster.java:257-324 | while every position so far is at least 1 on both axes, the list has no cell twice in a row |
| `RayCasterReach.StopNoLater` | src-java/gdl/RayCaster.java:284-333 | an iteration inside the rectangle that enters the target tile stops, so the first stop comes no later |
| `RayCasterReach.ReachedStopInside` | src-java/gdl/RayCaster.java:277-333 | when the list so far holds the target tile nowhere after the start and every cell the walk enters before the target tile is open (`OpenToGoal`), a stop inside the rectangle returns a list of at least two cells from the start tile to the target tile |
| `RayCasterReach.OpenBeforeGoalAt` | src-java/gdl/RayCaster.java:277-333 | on a path open up to the target tile, a cell read before the target tile is not solid |
| `RayCasterReach.StopAtGoal` | src-java/gdl/RayCaster.java:321-333 | a stop on such a path, at a cell that is solid or the target tile, is at the target tile, so the list runs from the start tile to the target tile |
| `RayCasterReach.StopMoves` | src-java/gdl/RayCaster.java:277-333 | the list returned by a stop has no cell twice in a row when every position up to it is at least 1 on both axes |
| `RayCasterReach.ReachedStopOn` | src-java/gdl/RayCaster.java:263-336 | on any heading and origin whose walk enters the target tile while inside the rectangle and at least 1, when every cell entered before the target tile is open, the first stop is no later, and its list runs from the start tile to the target tile without immediate repeats |
| `RayCasterReach.CastSteplistReachesTarget` | src-java/gdl/RayCaster.java:196-337 | for a start and a target inside the rectangle, at least 1 on both axes, with components of at most 100000, when every cell the walk enters before the target tile is open (`OpenToGoal`), a list returned starts at the start tile, ends at the target tile, has at least two cells when the tiles differ, and never repeats a cell twice in a row |
| `RayCasterReach.EnteredNearTile` | src-java/gdl/RayCaster.java:274-322 | every cell an iteration reads is a neighbour of the current cell |
| `RayCasterReach.NoFaultInside` | src-java/gdl/RayCaster.java:279-326 | from a position inside the rectangle and at least 1 on both axes, over a grid one cell larger than the rectangle on each axis, no read of the iteration is out of range |
| `RayCasterReach.CastSteplistFindsTarget` | src-java/gdl/RayCaster.java:196-337 | under the same conditions, over a grid also one cell larger than the rectangle on each axis, `castSteplist` returns a list, and it ends at the target tile |
| `RayCasterScenarios.DiagonalSetup` | src-java/gdl/RayCaster.java:200-248 | the ray from (2.5, 2.5) to (5.5, 5.5) steps (1, 1), with `tDelta` 1/3 and initial `tMax` 1/6 on both axes |
| `RayCasterScenarios.DiagonalPath` | src-java/gdl/RayCaster.java:270-334 | on an open 8 by 8 grid, that ray lists (2,2), (3,2), (2,3), (3,3), (4,3), (3,4), (4,4), (5,4), (4,5), (5,5): at each corner tie the x-neighbour, then the y-neighbour, then the diagonal cell |
| `RayCasterScenarios.StallSetup` | src-java/gdl/RayCaster.java:212-245 | the ray from (0.5, 0.5) to (-1.5, 0.5) steps (-1, +1), and its zero y component gives infinite `tMaxY` and `tDeltaY` |
| `RayCasterScenarios.TruncationStall` | src-java/gdl/RayCaster.java:321-336 | on a 1 by 1 grid, that ray returns the start tile twice, because `(int)(-0.5) == 0` |
| `RayCasterScenarios.EdgeExit` | src-java/gdl/RayCaster.java:225-263 | on an open 2 by 4 grid, the ray from (1.0, 0.5) to (0.5, 3.5) has `tMaxX = 0`, moves to `x = 0.0` and returns (1,0), (0,0), which does not reach the target tile (0,3) |
| `RayCasterScenarios.AdjacentSolidCount` | src-java/gdl/RayCaster.java:113-173 | `castMaxSteps` from (1.5, 1.5) along (1, 0) with no budget returns 2 when the solid cell is (2, 1), the first cell it enters |
| `RayCasterScenarios.AdjacentSolidNotMissed` | src-java/gdl/RayCaster.java:113-177 | for that walk, `-2` (`NO_HIT`) is not an outcome `MaxStepsOutcome` allows, because the solid cell is met first |
| `RayCasterScenarios.SolidPastTarget` | src-java/gdl/RayCaster.java:424-556 | on a 4 by 4 grid whose only solid cell is (3, 1), `rayBlocked` from (1.5, 1.5) to (2.5, 1.5) is false, and the solid cell beyond the target tile (2, 1) is not on the path (`SolidOnPath` fails) |

## Left out

- `java-src/gdl/GradientSprite.java`: a rendering wrapper over a graphics library that is not part of this model; it has no traversal logic.
- IEEE-754 details are not modelled:
  - `Math.ulp`: `nextUp` is the exact `Floor(u) + 1`;
  - rounding in `tMax` accumulation and in the division.
  Doubles are exact reals with one explicit +Infinity.
- Negative zero and NaN are not modelled. With a `-0.0` component Java computes `tDelta = -Infinity`, and `Inf + (-Inf)` then gives NaN.
- Java `int` overflow and the saturation of the `(int)` cast for huge doubles are not modelled; integers are unbounded.
- `ArrayIndexOutOfBoundsException` is not modelled as exception machinery. It is the `OutOfBounds(x, y)` result naming the failing index.
- `java.util.ArrayList` internals are not modelled; the step list is a `seq<Step>` extended by appending.
- `Step`'s object identity is not modelled: the code compares cells only through their integer fields.
- The source's silent fourth branch of the stepping rule (neither `equals` nor a strict comparison holds) is not modelled, because it cannot occur over exact values. `Numerics.NotEqualsOrdered` proves this, and `Traversal.Advance` asserts it.
- RayCasterProperties.CastSteplistShape: "every element before the last is open and not the target" is stated only for elements after the first, because the start tile is appended without a read. It is read later only when truncation toward zero maps a later cell or corner neighbour onto it (`TruncationStall`), and that read is covered as the later element.
- RayCasterProperties.RowHitCount: the closed form `c - x0 + 1` is stated only for a ray to the right along a row from `startX > 0`; for every other heading the count is the `k + 2` of `CastMaxStepsOutcomes`.
- RayCasterReach.CastSteplistReachesTarget: stated only under three conditions.
  - Start and target at least 1 on both axes: below 1, truncation toward zero can repeat a tile (`TruncationStall`), and an integer start can leave at 0.0 (`EdgeExit`).
  - Components of at most 100000: the proof needs every finite `tDelta` to be at least `EPSILON` (`TDeltaAtLeastEpsilon`), so that a corner tie that does not enter the target tile moves only axes that still have cells to cross (`CornerMovesTowards`). Smaller `tDelta` values are not covered.
  - Every cell the walk enters before the target tile is open (`OpenToGoal`): a solid cell on the way ends the list early, as `CastSteplistShape` states. Solid cells elsewhere, including past the target, do not matter.
- RayCasterReach.CastSteplistFindsTarget: also needs a grid one cell larger than the rectangle on each axis. A corner tie's x-neighbour can lie one column past the target's, and on a grid of exactly the rectangle's size that read can fail.
- RayCasterReach.TrailMoves: stated only while every position is at least 1 on both axes; `TruncationStall` shows a repeat below that.
- RayCasterProperties.RayBlockedIffSolidOnPath: stated only for targets that are not lattice corners, on a tile other than the start's. For a corner target the corner shortcut can stop unblocked before the corner neighbours are read, so a solid neighbour does not block; `RayBlockedTrueMeansSolid` still gives the direction from true to `SolidOnPath` for every target.
- RayCasterProperties.SightAgreesWithSteplist: stated only for targets that are not lattice corners. For a corner target, `rayBlocked` has the extra unblocked exits, which `CornerShortcut` and `RayCasterSpec.RayBlockedReadsCorner` state.
