/** The three static queries of RayCaster, each written as its Java loop
    over the locals currentX, currentY, tMaxX, tMaxY and proved to return
    what RayCasterSpec says. */
module RayCaster {
  import opened Numerics
  import opened Outcomes
  import opened Traversal
  import opened RayCasterSpec

  /** The body of castMaxSteps' loop after the budget check: at a corner
      the x-neighbour and the y-neighbour are read, then the position moves
      and the new cell is read. stop is the result the loop returns, if any. */
  method MaxStepsIteration(grid: Grid, stepX: int, stepY: int, tDeltaX: Ext, tDeltaY: Ext,
                           currentX: real, currentY: real, tMaxX: Ext, tMaxY: Ext, steps: int)
    returns (stop: Option<Result<int>>, nextX: real, nextY: real, nextTMaxX: Ext, nextTMaxY: Ext)
    requires ValidDir(Dir(stepX, stepY, tDeltaX, tDeltaY))
    ensures stop == MaxStepsReads(grid, Dir(stepX, stepY, tDeltaX, tDeltaY), Ray(currentX, currentY, tMaxX, tMaxY), steps)
    ensures stop.None? ==>
      Ray(nextX, nextY, nextTMaxX, nextTMaxY) == Next(Dir(stepX, stepY, tDeltaX, tDeltaY), Ray(currentX, currentY, tMaxX, tMaxY))
  {
    var abstMaxX := Abs(tMaxX);
    var abstMaxY := Abs(tMaxY);
    if Equals(abstMaxX, abstMaxY) {
      // a corner: check the x-neighbour and the y-neighbour before moving
      MaxStepsReadsCorner(grid, stepX, stepY, tDeltaX, tDeltaY, currentX, currentY, tMaxX, tMaxY, steps);
      var currentTileX := Trunc(currentX + stepX as real);
      var currentTileY := Trunc(currentY);
      if !InGrid(grid, Step(currentTileX, currentTileY)) {
        return Some(OutOfBounds(currentTileX, currentTileY)), currentX, currentY, tMaxX, tMaxY;
      }
      if grid[currentTileX][currentTileY] {
        return Some(Ok(steps)), currentX, currentY, tMaxX, tMaxY;
      }
      currentTileX := Trunc(currentX);
      currentTileY := Trunc(currentY + stepY as real);
      if !InGrid(grid, Step(currentTileX, currentTileY)) {
        return Some(OutOfBounds(currentTileX, currentTileY)), currentX, currentY, tMaxX, tMaxY;
      }
      if grid[currentTileX][currentTileY] {
        return Some(Ok(steps)), currentX, currentY, tMaxX, tMaxY;
      }
    } else {
      MaxStepsReadsSingle(grid, stepX, stepY, tDeltaX, tDeltaY, currentX, currentY, tMaxX, tMaxY, steps);
    }
    nextX, nextY, nextTMaxX, nextTMaxY := Advance(stepX, stepY, tDeltaX, tDeltaY, currentX, currentY, tMaxX, tMaxY);

    var currentTileX := Trunc(nextX);
    var currentTileY := Trunc(nextY);
    if !InGrid(grid, Step(currentTileX, currentTileY)) {
      return Some(OutOfBounds(currentTileX, currentTileY)), nextX, nextY, nextTMaxX, nextTMaxY;
    }
    if grid[currentTileX][currentTileY] {
      return Some(Ok(steps)), nextX, nextY, nextTMaxX, nextTMaxY;
    }
    stop := None;
  }

  /** castMaxSteps: walks from (startX, startY) along (vectorX, vectorY) and
      returns the step count at which a solid cell is entered, BUDGET_REACHED
      when the counter reaches maxSteps, or NO_HIT once the position leaves
      the open rectangle (0, mapWidth) x (0, mapHeight). */
  method CastMaxSteps(startX: real, startY: real, vectorX: real, vectorY: real,
                      mapWidth: int, mapHeight: int, grid: Grid, maxSteps: int)
    returns (r: Result<int>)
    ensures CastMaxStepsSpec(startX, startY, vectorX, vectorY, mapWidth, mapHeight, grid, maxSteps, r)
  {
    var stepX, stepY, tDeltaX, tDeltaY, currentX, currentY, tMaxX, tMaxY := Setup(startX, startY, vectorX, vectorY);

    var steps := 1;
    if maxSteps == steps {
      return Ok(BUDGET_REACHED);
    }

    ghost var k: nat := 0;
    while currentX > 0.0 && currentX < mapWidth as real && currentY > 0.0 && currentY < mapHeight as real
      invariant Heading(vectorX, vectorY) == Dir(stepX, stepY, tDeltaX, tDeltaY)
      invariant MaxStepsHead(startX, startY, vectorX, vectorY, mapWidth, mapHeight, grid, maxSteps, k,
                             currentX, currentY, tMaxX, tMaxY)
      invariant steps == k + 1
      decreases Bound(mapWidth, mapHeight, Origin(startX, startY, vectorX, vectorY)) - k
    {
      MaxStepsBounded(startX, startY, vectorX, vectorY, mapWidth, mapHeight, grid, maxSteps, k,
                      currentX, currentY, tMaxX, tMaxY);
      steps := steps + 1;
      if maxSteps == steps {
        MaxStepsStopsHere(startX, startY, vectorX, vectorY, mapWidth, mapHeight, grid, maxSteps, k,
                          currentX, currentY, tMaxX, tMaxY, Ok(BUDGET_REACHED));
        return Ok(BUDGET_REACHED);
      }
      var stop, nextX, nextY, nextTMaxX, nextTMaxY :=
        MaxStepsIteration(grid, stepX, stepY, tDeltaX, tDeltaY, currentX, currentY, tMaxX, tMaxY, steps);
      if stop.Some? {
        MaxStepsStopsHere(startX, startY, vectorX, vectorY, mapWidth, mapHeight, grid, maxSteps, k,
                          currentX, currentY, tMaxX, tMaxY, stop.value);
        return stop.value;
      }
      MaxStepsGoesOn(startX, startY, vectorX, vectorY, mapWidth, mapHeight, grid, maxSteps, k,
                     currentX, currentY, tMaxX, tMaxY, nextX, nextY, nextTMaxX, nextTMaxY);
      currentX, currentY, tMaxX, tMaxY := nextX, nextY, nextTMaxX, nextTMaxY;
      k := k + 1;
    }
    MaxStepsStopsHere(startX, startY, vectorX, vectorY, mapWidth, mapHeight, grid, maxSteps, k,
                      currentX, currentY, tMaxX, tMaxY, Ok(NO_HIT));
    return Ok(NO_HIT);
  }

  /** The body of castSteplist's loop: every cell is appended to stepList
      before it is read; at a corner the x-neighbour and the y-neighbour
      come first, then the position moves and the new cell follows. stop
      is the result the loop returns, if any. */
  method SteplistIteration(grid: Grid, targetTileX: int, targetTileY: int, stepList: seq<Step>,
                           stepX: int, stepY: int, tDeltaX: Ext, tDeltaY: Ext,
                           currentX: real, currentY: real, tMaxX: Ext, tMaxY: Ext)
    returns (stop: Option<Result<seq<Step>>>, nextList: seq<Step>,
             nextX: real, nextY: real, nextTMaxX: Ext, nextTMaxY: Ext)
    requires ValidDir(Dir(stepX, stepY, tDeltaX, tDeltaY))
    ensures stop == SteplistReads(grid, Dir(stepX, stepY, tDeltaX, tDeltaY), Ray(currentX, currentY, tMaxX, tMaxY),
                                  Step(targetTileX, targetTileY), stepList)
    ensures stop.None? ==>
      Ray(nextX, nextY, nextTMaxX, nextTMaxY) == Next(Dir(stepX, stepY, tDeltaX, tDeltaY), Ray(currentX, currentY, tMaxX, tMaxY)) &&
      nextList == stepList + Entered(Dir(stepX, stepY, tDeltaX, tDeltaY), Ray(currentX, currentY, tMaxX, tMaxY))
  {
    nextList := stepList;
    var abstMaxX := Abs(tMaxX);
    var abstMaxY := Abs(tMaxY);
    if Equals(abstMaxX, abstMaxY) {
      // a corner: the x-neighbour and the y-neighbour before moving
      SteplistReadsCorner(grid, Step(targetTileX, targetTileY), stepList, stepX, stepY, tDeltaX, tDeltaY,
                          currentX, currentY, tMaxX, tMaxY);
      var currentTileX := Trunc(currentX + stepX as real);
      var currentTileY := Trunc(currentY);
      nextList := nextList + [Step(currentTileX, currentTileY)];
      if !InGrid(grid, Step(currentTileX, currentTileY)) {
        return Some(OutOfBounds(currentTileX, currentTileY)), nextList, currentX, currentY, tMaxX, tMaxY;
      }
      if grid[currentTileX][currentTileY] {
        return Some(Ok(nextList)), nextList, currentX, currentY, tMaxX, tMaxY;
      }
      if currentTileX == targetTileX && currentTileY == targetTileY {
        return Some(Ok(nextList)), nextList, currentX, currentY, tMaxX, tMaxY;
      }
      currentTileX := Trunc(currentX);
      currentTileY := Trunc(currentY + stepY as real);
      nextList := nextList + [Step(currentTileX, currentTileY)];
      if !InGrid(grid, Step(currentTileX, currentTileY)) {
        return Some(OutOfBounds(currentTileX, currentTileY)), nextList, currentX, currentY, tMaxX, tMaxY;
      }
      if grid[currentTileX][currentTileY] {
        return Some(Ok(nextList)), nextList, currentX, currentY, tMaxX, tMaxY;
      }
      if currentTileX == targetTileX && currentTileY == targetTileY {
        return Some(Ok(nextList)), nextList, currentX, currentY, tMaxX, tMaxY;
      }
    } else {
      SteplistReadsSingle(grid, Step(targetTileX, targetTileY), stepList, stepX, stepY, tDeltaX, tDeltaY,
                          currentX, currentY, tMaxX, tMaxY);
    }
    nextX, nextY, nextTMaxX, nextTMaxY := Advance(stepX, stepY, tDeltaX, tDeltaY, currentX, currentY, tMaxX, tMaxY);

    var currentTileX := Trunc(nextX);
    var currentTileY := Trunc(nextY);
    nextList := nextList + [Step(currentTileX, currentTileY)];
    if !InGrid(grid, Step(currentTileX, currentTileY)) {
      return Some(OutOfBounds(currentTileX, currentTileY)), nextList, nextX, nextY, nextTMaxX, nextTMaxY;
    }
    if grid[currentTileX][currentTileY] {
      return Some(Ok(nextList)), nextList, nextX, nextY, nextTMaxX, nextTMaxY;
    }
    if currentTileX == targetTileX && currentTileY == targetTileY {
      return Some(Ok(nextList)), nextList, nextX, nextY, nextTMaxX, nextTMaxY;
    }
    stop := None;
  }

  /** One round of castSteplist's loop, against the loop head. */
  method SteplistRound(ghost startX: real, ghost startY: real, ghost targetX: real, ghost targetY: real,
                       ghost mapWidth: int, ghost mapHeight: int, ghost k: nat,
                       grid: Grid, targetTileX: int, targetTileY: int, stepList: seq<Step>,
                       stepX: int, stepY: int, tDeltaX: Ext, tDeltaY: Ext,
                       currentX: real, currentY: real, tMaxX: Ext, tMaxY: Ext)
    returns (stop: Option<Result<seq<Step>>>, nextList: seq<Step>,
             nextX: real, nextY: real, nextTMaxX: Ext, nextTMaxY: Ext)
    requires TargetTile(startX, startY) != TargetTile(targetX, targetY)
    requires Heading(targetX - startX, targetY - startY) == Dir(stepX, stepY, tDeltaX, tDeltaY)
    requires Step(targetTileX, targetTileY) == TargetTile(targetX, targetY)
    requires SteplistAt(startX, startY, targetX, targetY, mapWidth, mapHeight, grid, k,
                        currentX, currentY, tMaxX, tMaxY, stepList)
    requires Inside(mapWidth, mapHeight, Ray(currentX, currentY, tMaxX, tMaxY))
    ensures stop.Some? ==> CastSteplistSpec(startX, startY, targetX, targetY, mapWidth, mapHeight, grid, stop.value)
    ensures stop.None? ==>
      SteplistAt(startX, startY, targetX, targetY, mapWidth, mapHeight, grid, k + 1,
                 nextX, nextY, nextTMaxX, nextTMaxY, nextList)
  {
    stop, nextList, nextX, nextY, nextTMaxX, nextTMaxY :=
      SteplistIteration(grid, targetTileX, targetTileY, stepList, stepX, stepY, tDeltaX, tDeltaY,
                        currentX, currentY, tMaxX, tMaxY);
    if stop.Some? {
      SteplistStopsHere(startX, startY, targetX, targetY, mapWidth, mapHeight, grid, k,
                        stepX, stepY, tDeltaX, tDeltaY, currentX, currentY, tMaxX, tMaxY, stepList,
                        Step(targetTileX, targetTileY), stop.value);
    } else {
      SteplistGoesOn(startX, startY, targetX, targetY, mapWidth, mapHeight, grid, k,
                     stepX, stepY, tDeltaX, tDeltaY, currentX, currentY, tMaxX, tMaxY, stepList,
                     Step(targetTileX, targetTileY), nextX, nextY, nextTMaxX, nextTMaxY, nextList);
    }
  }

  /** The set-up shared by the three queries: the step direction, the
      first boundary crossings and the per-cell increments of t. */
  method Setup(startX: real, startY: real, vectorX: real, vectorY: real)
    returns (stepX: int, stepY: int, tDeltaX: Ext, tDeltaY: Ext, currentX: real, currentY: real, tMaxX: Ext, tMaxY: Ext)
    ensures Dir(stepX, stepY, tDeltaX, tDeltaY) == Heading(vectorX, vectorY)
    ensures Ray(currentX, currentY, tMaxX, tMaxY) == Origin(startX, startY, vectorX, vectorY)
  {
    var ux, uy := startX, startY;
    stepX := StepSign(vectorX);
    stepY := StepSign(vectorY);
    var crossFirstBoundaryX := FirstBoundary(ux, stepX);
    var crossFirstBoundaryY := FirstBoundary(uy, stepY);
    tMaxX := AbsQuotient(crossFirstBoundaryX as real - ux, vectorX);
    tMaxY := AbsQuotient(crossFirstBoundaryY as real - uy, vectorY);
    tDeltaX := TDelta(stepX, vectorX);
    tDeltaY := TDelta(stepY, vectorY);
    currentX, currentY := startX, startY;
  }

  /** castSteplist: walks from (startX, startY) towards (targetX, targetY)
      and returns every cell it enters, in order, up to and including the
      first solid cell or the target tile, or up to the last cell inside the
      rectangle; just the start tile when start and target share a tile. */
  method CastSteplist(startX: real, startY: real, targetX: real, targetY: real,
                      mapWidth: int, mapHeight: int, grid: Grid)
    returns (r: Result<seq<Step>>)
    ensures CastSteplistSpec(startX, startY, targetX, targetY, mapWidth, mapHeight, grid, r)
  {
    var vectorX := targetX - startX;
    var vectorY := targetY - startY;
    var stepX, stepY, tDeltaX, tDeltaY, currentX, currentY, tMaxX, tMaxY := Setup(startX, startY, vectorX, vectorY);

    var startTileX := Trunc(startX);
    var startTileY := Trunc(startY);
    var targetTileX := Trunc(targetX);
    var targetTileY := Trunc(targetY);

    var stepList := [Step(startTileX, startTileY)];
    if startTileX == targetTileX && startTileY == targetTileY {
      return Ok(stepList);
    }

    ghost var k: nat := 0;
    while currentX > 0.0 && currentX < mapWidth as real && currentY > 0.0 && currentY < mapHeight as real
      invariant Heading(vectorX, vectorY) == Dir(stepX, stepY, tDeltaX, tDeltaY)
      invariant SteplistAt(startX, startY, targetX, targetY, mapWidth, mapHeight, grid, k,
                           currentX, currentY, tMaxX, tMaxY, stepList)
      decreases Bound(mapWidth, mapHeight, Origin(startX, startY, vectorX, vectorY)) - k
    {
      SteplistBounded(startX, startY, targetX, targetY, mapWidth, mapHeight, grid, k,
                      currentX, currentY, tMaxX, tMaxY, stepList);
      var stop, nextList, nextX, nextY, nextTMaxX, nextTMaxY :=
        SteplistRound(startX, startY, targetX, targetY, mapWidth, mapHeight, k, grid, targetTileX, targetTileY,
                      stepList, stepX, stepY, tDeltaX, tDeltaY, currentX, currentY, tMaxX, tMaxY);
      if stop.Some? {
        return stop.value;
      }
      stepList, currentX, currentY, tMaxX, tMaxY := nextList, nextX, nextY, nextTMaxX, nextTMaxY;
      k := k + 1;
    }
    SteplistLeaves(startX, startY, targetX, targetY, mapWidth, mapHeight, grid, k,
                   currentX, currentY, tMaxX, tMaxY, stepList);
    return Ok(stepList);
  }

  /** The body of rayBlocked's loop. At a corner towards a corner target
      the corner tile is computed first and, when it is the target tile,
      the loop stops unblocked; then the x-neighbour and the y-neighbour
      are read. After the move the new cell is read, except that a straight
      ray reaching the target tile of a corner target stops unblocked. */
  method RayBlockedIteration(grid: Grid, targetTileX: int, targetTileY: int, targetIsCorner: bool, straight: bool,
                             stepX: int, stepY: int, tDeltaX: Ext, tDeltaY: Ext,
                             currentX: real, currentY: real, tMaxX: Ext, tMaxY: Ext)
    returns (stop: Option<Result<bool>>, nextX: real, nextY: real, nextTMaxX: Ext, nextTMaxY: Ext)
    requires ValidDir(Dir(stepX, stepY, tDeltaX, tDeltaY))
    ensures stop == RayBlockedReads(grid, Dir(stepX, stepY, tDeltaX, tDeltaY), Ray(currentX, currentY, tMaxX, tMaxY),
                                    Step(targetTileX, targetTileY), targetIsCorner, straight)
    ensures stop.None? ==>
      Ray(nextX, nextY, nextTMaxX, nextTMaxY) == Next(Dir(stepX, stepY, tDeltaX, tDeltaY), Ray(currentX, currentY, tMaxX, tMaxY))
  {
    var abstMaxX := Abs(tMaxX);
    var abstMaxY := Abs(tMaxY);
    if Equals(abstMaxX, abstMaxY) {
      RayBlockedReadsCorner(grid, Step(targetTileX, targetTileY), targetIsCorner, straight, stepX, stepY,
                            tDeltaX, tDeltaY, currentX, currentY, tMaxX, tMaxY);
      if targetIsCorner {
        var cornerTileX, cornerTileY := 0, 0;
        if stepX == -1 && stepY == 1 {
          cornerTileX := Trunc(currentX);
          cornerTileY := Trunc(currentY + stepY as real);
        } else if stepX == 1 && stepY == 1 {
          cornerTileX := Trunc(currentX + stepX as real);
          cornerTileY := Trunc(currentY + stepY as real);
        } else if stepX == 1 && stepY == -1 {
          cornerTileX := Trunc(currentX + stepX as real);
          cornerTileY := Trunc(currentY);
        } else if stepX == -1 && stepY == -1 {
          cornerTileX := Trunc(currentX);
          cornerTileY := Trunc(currentY);
        }
        assert Step(cornerTileX, cornerTileY) == CornerTile(Dir(stepX, stepY, tDeltaX, tDeltaY), Ray(currentX, currentY, tMaxX, tMaxY));
        if cornerTileX == targetTileX && cornerTileY == targetTileY {
          return Some(Ok(false)), currentX, currentY, tMaxX, tMaxY;
        }
      }
      var currentTileX := Trunc(currentX + stepX as real);
      var currentTileY := Trunc(currentY);
      if !InGrid(grid, Step(currentTileX, currentTileY)) {
        return Some(OutOfBounds(currentTileX, currentTileY)), currentX, currentY, tMaxX, tMaxY;
      }
      if grid[currentTileX][currentTileY] {
        return Some(Ok(true)), currentX, currentY, tMaxX, tMaxY;
      }
      if currentTileX == targetTileX && currentTileY == targetTileY {
        return Some(Ok(false)), currentX, currentY, tMaxX, tMaxY;
      }
      currentTileX := Trunc(currentX);
      currentTileY := Trunc(currentY + stepY as real);
      if !InGrid(grid, Step(currentTileX, currentTileY)) {
        return Some(OutOfBounds(currentTileX, currentTileY)), currentX, currentY, tMaxX, tMaxY;
      }
      if grid[currentTileX][currentTileY] {
        return Some(Ok(true)), currentX, currentY, tMaxX, tMaxY;
      }
      if currentTileX == targetTileX && currentTileY == targetTileY {
        return Some(Ok(false)), currentX, currentY, tMaxX, tMaxY;
      }
    } else {
      RayBlockedReadsSingle(grid, Step(targetTileX, targetTileY), targetIsCorner, straight, stepX, stepY,
                            tDeltaX, tDeltaY, currentX, currentY, tMaxX, tMaxY);
    }
    nextX, nextY, nextTMaxX, nextTMaxY := Advance(stepX, stepY, tDeltaX, tDeltaY, currentX, currentY, tMaxX, tMaxY);

    var currentTileX := Trunc(nextX);
    var currentTileY := Trunc(nextY);
    var targetReached := currentTileX == targetTileX && currentTileY == targetTileY;
    if targetIsCorner && targetReached && straight {
      return Some(Ok(false)), nextX, nextY, nextTMaxX, nextTMaxY;
    }
    if !InGrid(grid, Step(currentTileX, currentTileY)) {
      return Some(OutOfBounds(currentTileX, currentTileY)), nextX, nextY, nextTMaxX, nextTMaxY;
    }
    if grid[currentTileX][currentTileY] {
      return Some(Ok(true)), nextX, nextY, nextTMaxX, nextTMaxY;
    }
    if targetReached {
      return Some(Ok(false)), nextX, nextY, nextTMaxX, nextTMaxY;
    }
    stop := None;
  }

  /** One round of rayBlocked's loop, against the loop head. */
  method RayBlockedRound(ghost startX: real, ghost startY: real, ghost targetX: real, ghost targetY: real,
                         ghost mapWidth: int, ghost mapHeight: int, ghost k: nat,
                         grid: Grid, targetTileX: int, targetTileY: int, targetIsCorner: bool, straight: bool,
                         stepX: int, stepY: int, tDeltaX: Ext, tDeltaY: Ext,
                         currentX: real, currentY: real, tMaxX: Ext, tMaxY: Ext)
    returns (stop: Option<Result<bool>>, nextX: real, nextY: real, nextTMaxX: Ext, nextTMaxY: Ext)
    requires TargetTile(startX, startY) != TargetTile(targetX, targetY)
    requires Heading(targetX - startX, targetY - startY) == Dir(stepX, stepY, tDeltaX, tDeltaY)
    requires Step(targetTileX, targetTileY) == TargetTile(targetX, targetY)
    requires targetIsCorner == TargetIsCorner(targetX, targetY)
    requires straight == StraightPositive(targetX - startX, targetY - startY)
    requires RayBlockedAt(startX, startY, targetX, targetY, mapWidth, mapHeight, grid, k,
                          currentX, currentY, tMaxX, tMaxY)
    requires Inside(mapWidth, mapHeight, Ray(currentX, currentY, tMaxX, tMaxY))
    ensures stop.Some? ==> RayBlockedSpec(startX, startY, targetX, targetY, mapWidth, mapHeight, grid, stop.value)
    ensures stop.None? ==>
      RayBlockedAt(startX, startY, targetX, targetY, mapWidth, mapHeight, grid, k + 1,
                   nextX, nextY, nextTMaxX, nextTMaxY)
  {
    stop, nextX, nextY, nextTMaxX, nextTMaxY :=
      RayBlockedIteration(grid, targetTileX, targetTileY, targetIsCorner, straight, stepX, stepY, tDeltaX, tDeltaY,
                          currentX, currentY, tMaxX, tMaxY);
    RayBlockedEventAt(startX, startY, targetX, targetY, mapWidth, mapHeight, grid, k,
                      currentX, currentY, tMaxX, tMaxY);
    if stop.Some? {
      RayBlockedStopsHere(startX, startY, targetX, targetY, mapWidth, mapHeight, grid, k,
                          currentX, currentY, tMaxX, tMaxY, stop.value);
    } else {
      RayBlockedHeadNext(startX, startY, targetX, targetY, mapWidth, mapHeight, grid, k,
                         currentX, currentY, tMaxX, tMaxY, nextX, nextY, nextTMaxX, nextTMaxY);
    }
  }

  /** rayBlocked: whether the walk from (startX, startY) to (targetX,
      targetY) meets a solid cell before it reaches the target tile or
      leaves the rectangle; when start and target share a tile, whether
      that tile is solid. */
  method RayBlocked(startX: real, startY: real, targetX: real, targetY: real,
                    mapWidth: int, mapHeight: int, grid: Grid)
    returns (r: Result<bool>)
    ensures RayBlockedSpec(startX, startY, targetX, targetY, mapWidth, mapHeight, grid, r)
  {
    var vectorX := targetX - startX;
    var vectorY := targetY - startY;
    var stepX, stepY, tDeltaX, tDeltaY, currentX, currentY, tMaxX, tMaxY := Setup(startX, startY, vectorX, vectorY);
    var isHorizontalStepXPositive := stepX == 1 && vectorY == 0.0;
    var isVerticalStepYPositive := stepY == 1 && vectorX == 0.0;

    var blocked := false;
    var startTileX := Trunc(startX);
    var startTileY := Trunc(startY);
    var targetTileX := Trunc(targetX);
    var targetTileY := Trunc(targetY);
    var targetIsCorner := targetX == targetTileX as real && targetY == targetTileY as real;

    if startTileX == targetTileX && startTileY == targetTileY {
      if !InGrid(grid, Step(targetTileX, targetTileY)) {
        return OutOfBounds(targetTileX, targetTileY);
      }
      return Ok(grid[targetTileX][targetTileY]);
    }

    ghost var k: nat := 0;
    ghost var stopped := false;
    while currentX > 0.0 && currentX < mapWidth as real && currentY > 0.0 && currentY < mapHeight as real
      invariant Heading(vectorX, vectorY) == Dir(stepX, stepY, tDeltaX, tDeltaY)
      invariant RayBlockedAt(startX, startY, targetX, targetY, mapWidth, mapHeight, grid, k,
                             currentX, currentY, tMaxX, tMaxY)
      invariant !blocked && !stopped
      decreases Bound(mapWidth, mapHeight, Origin(startX, startY, vectorX, vectorY)) - k
    {
      RayBlockedBounded(startX, startY, targetX, targetY, mapWidth, mapHeight, grid, k,
                        currentX, currentY, tMaxX, tMaxY);
      var stop, nextX, nextY, nextTMaxX, nextTMaxY :=
        RayBlockedRound(startX, startY, targetX, targetY, mapWidth, mapHeight, k, grid, targetTileX, targetTileY,
                        targetIsCorner, isHorizontalStepXPositive || isVerticalStepYPositive,
                        stepX, stepY, tDeltaX, tDeltaY, currentX, currentY, tMaxX, tMaxY);
      if stop.Some? {
        if stop.value.OutOfBounds? {
          return stop.value;
        }
        blocked := stop.value.value;
        stopped := true;
        break;
      }
      currentX, currentY, tMaxX, tMaxY := nextX, nextY, nextTMaxX, nextTMaxY;
      k := k + 1;
    }
    if !stopped {
      RayBlockedStopsHere(startX, startY, targetX, targetY, mapWidth, mapHeight, grid, k,
                          currentX, currentY, tMaxX, tMaxY, Ok(false));
    }
    return Ok(blocked);
  }
}
