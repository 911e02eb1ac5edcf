/** What the three RayCaster queries return, stated on the shared
    trajectory Traversal.Walk: iteration k of a query's loop either stops
    the query with a result or lets it go on, and the query's result is
    the one of the first iteration that stops. */
module RayCasterSpec {
  import opened Numerics
  import opened Outcomes
  import opened Traversal

  /** castMaxSteps: the step budget was used up. */
  const BUDGET_REACHED: int := -1
  /** castMaxSteps: the ray left the rectangle without hitting a solid cell. */
  const NO_HIT: int := -2

  // ------------------------------------------------------- castMaxSteps

  /** castMaxSteps' reads of the cells one iteration enters, with the
      counter at n: a solid cell stops with n, a read out of range with the
      fault; None when every cell is open. */
  function CountReads(grid: Grid, cells: seq<Step>, n: int): Option<Result<int>> {
    match Examine(grid, cells, None)
    case Pass => None
    case Stop(_, _) => Some(Ok(n))
    case Fault(x, y) => Some(OutOfBounds(x, y))
  }

  /** One read of castMaxSteps' loop: a cell out of range stops with the
      fault, a solid cell with the counter n, an open cell goes on to rest. */
  function ReadStop(grid: Grid, x: int, y: int, n: int, rest: Option<Result<int>>): (e: Option<Result<int>>)
    ensures !InGrid(grid, Step(x, y)) ==> e == Some(OutOfBounds(x, y))
    ensures IsSolid(grid, Step(x, y)) ==> e == Some(Ok(n))
    ensures IsOpen(grid, Step(x, y)) ==> e == rest
  {
    if !InGrid(grid, Step(x, y)) then Some(OutOfBounds(x, y))
    else if grid[x][y] then Some(Ok(n))
    else rest
  }

  /** The cells are read front to back. */
  lemma CountReadsCons(grid: Grid, cells: seq<Step>, n: int)
    ensures cells == [] ==> CountReads(grid, cells, n) == None
    ensures cells != [] ==>
      CountReads(grid, cells, n) == ReadStop(grid, cells[0].x, cells[0].y, n, CountReads(grid, cells[1..], n))
  {
    if cells != [] && IsOpen(grid, cells[0]) {
      ExamineSkip(grid, cells, None);
    }
  }

  /** The reads of castMaxSteps' iteration from ray state r. */
  function MaxStepsReads(grid: Grid, d: Dir, r: Ray, n: int): Option<Result<int>>
    requires ValidDir(d)
  {
    CountReads(grid, Entered(d, r), n)
  }

  /** MaxStepsReads at a corner, in the order the loop reads on its own
      locals: the x-neighbour, the y-neighbour, then the cell after the move. */
  lemma MaxStepsReadsCorner(grid: Grid, stepX: int, stepY: int, tDeltaX: Ext, tDeltaY: Ext,
                            x: real, y: real, tMaxX: Ext, tMaxY: Ext, n: int)
    requires ValidDir(Dir(stepX, stepY, tDeltaX, tDeltaY))
    requires Equals(Abs(tMaxX), Abs(tMaxY))
    ensures var m := Next(Dir(stepX, stepY, tDeltaX, tDeltaY), Ray(x, y, tMaxX, tMaxY));
      MaxStepsReads(grid, Dir(stepX, stepY, tDeltaX, tDeltaY), Ray(x, y, tMaxX, tMaxY), n) ==
        ReadStop(grid, Trunc(x + stepX as real), Trunc(y), n,
        ReadStop(grid, Trunc(x), Trunc(y + stepY as real), n,
        ReadStop(grid, Trunc(m.x), Trunc(m.y), n, None)))
  {
    EnteredCorner(stepX, stepY, tDeltaX, tDeltaY, x, y, tMaxX, tMaxY);
    var cells := Entered(Dir(stepX, stepY, tDeltaX, tDeltaY), Ray(x, y, tMaxX, tMaxY));
    CountReadsCons(grid, cells, n);
    CountReadsCons(grid, cells[1..], n);
    CountReadsCons(grid, cells[1..][1..], n);
    CountReadsCons(grid, cells[1..][1..][1..], n);
  }

  /** MaxStepsReads when one axis moves: only the new cell is read. */
  lemma MaxStepsReadsSingle(grid: Grid, stepX: int, stepY: int, tDeltaX: Ext, tDeltaY: Ext,
                            x: real, y: real, tMaxX: Ext, tMaxY: Ext, n: int)
    requires ValidDir(Dir(stepX, stepY, tDeltaX, tDeltaY))
    requires !Equals(Abs(tMaxX), Abs(tMaxY))
    ensures var m := Next(Dir(stepX, stepY, tDeltaX, tDeltaY), Ray(x, y, tMaxX, tMaxY));
      MaxStepsReads(grid, Dir(stepX, stepY, tDeltaX, tDeltaY), Ray(x, y, tMaxX, tMaxY), n) ==
        ReadStop(grid, Trunc(m.x), Trunc(m.y), n, None)
  {
    EnteredSingle(stepX, stepY, tDeltaX, tDeltaY, x, y, tMaxX, tMaxY);
    var cells := Entered(Dir(stepX, stepY, tDeltaX, tDeltaY), Ray(x, y, tMaxX, tMaxY));
    CountReadsCons(grid, cells, n);
    CountReadsCons(grid, cells[1..], n);
  }

  /** Iteration k of castMaxSteps from ray state r (the counter is k + 2
      during it): the loop guard fails, the budget is reached, or the reads
      stop; None: go on. */
  function MaxStepsAt(mapWidth: int, mapHeight: int, grid: Grid, maxSteps: int,
                      d: Dir, r: Ray, k: nat): Option<Result<int>>
    requires ValidDir(d)
  {
    if !Inside(mapWidth, mapHeight, r) then Some(Ok(NO_HIT))
    else if k + 2 == maxSteps then Some(Ok(BUDGET_REACHED))
    else MaxStepsReads(grid, d, r, k + 2)
  }

  /** Iteration k of castMaxSteps on the ray from (sx, sy) along (vx, vy). */
  function MaxStepsEvent(sx: real, sy: real, vx: real, vy: real, mapWidth: int, mapHeight: int,
                         grid: Grid, maxSteps: int, k: nat): Option<Result<int>>
  {
    var d := Heading(vx, vy);
    MaxStepsAt(mapWidth, mapHeight, grid, maxSteps, d, Walk(d, Origin(sx, sy, vx, vy), k), k)
  }

  /** r is what castMaxSteps returns. */
  ghost predicate CastMaxStepsSpec(sx: real, sy: real, vx: real, vy: real, mapWidth: int, mapHeight: int,
                                   grid: Grid, maxSteps: int, r: Result<int>)
  {
    if maxSteps == 1 then r == Ok(BUDGET_REACHED)
    else exists k: nat ::
      MaxStepsEvent(sx, sy, vx, vy, mapWidth, mapHeight, grid, maxSteps, k) == Some(r) &&
      forall i: nat | i < k :: MaxStepsEvent(sx, sy, vx, vy, mapWidth, mapHeight, grid, maxSteps, i).None?
  }

  /** The first iteration that stops determines castMaxSteps' result. */
  lemma MaxStepsStopsAt(sx: real, sy: real, vx: real, vy: real, mapWidth: int, mapHeight: int,
                        grid: Grid, maxSteps: int, k: nat, r: Result<int>)
    requires maxSteps != 1
    requires MaxStepsEvent(sx, sy, vx, vy, mapWidth, mapHeight, grid, maxSteps, k) == Some(r)
    requires forall i: nat | i < k :: MaxStepsEvent(sx, sy, vx, vy, mapWidth, mapHeight, grid, maxSteps, i).None?
    ensures CastMaxStepsSpec(sx, sy, vx, vy, mapWidth, mapHeight, grid, maxSteps, r)
  {
  }

  /** The loop head of iteration k of castMaxSteps, no earlier iteration
      having stopped. */
  ghost predicate MaxStepsHead(sx: real, sy: real, vx: real, vy: real, mapWidth: int, mapHeight: int,
                               grid: Grid, maxSteps: int, k: nat, x: real, y: real, tMaxX: Ext, tMaxY: Ext)
  {
    Walk(Heading(vx, vy), Origin(sx, sy, vx, vy), k) == Ray(x, y, tMaxX, tMaxY) &&
    forall i: nat | i < k :: MaxStepsEvent(sx, sy, vx, vy, mapWidth, mapHeight, grid, maxSteps, i).None?
  }

  lemma MaxStepsBounded(sx: real, sy: real, vx: real, vy: real, mapWidth: int, mapHeight: int,
                        grid: Grid, maxSteps: int, k: nat, x: real, y: real, tMaxX: Ext, tMaxY: Ext)
    requires MaxStepsHead(sx, sy, vx, vy, mapWidth, mapHeight, grid, maxSteps, k, x, y, tMaxX, tMaxY)
    requires Inside(mapWidth, mapHeight, Ray(x, y, tMaxX, tMaxY))
    ensures k < Bound(mapWidth, mapHeight, Origin(sx, sy, vx, vy))
  {
    InsideWithinBound(Heading(vx, vy), Origin(sx, sy, vx, vy), mapWidth, mapHeight, k);
  }

  /** The iteration at the head stops with r. */
  lemma MaxStepsStopsHere(sx: real, sy: real, vx: real, vy: real, mapWidth: int, mapHeight: int,
                          grid: Grid, maxSteps: int, k: nat, x: real, y: real, tMaxX: Ext, tMaxY: Ext,
                          r: Result<int>)
    requires maxSteps != 1
    requires MaxStepsHead(sx, sy, vx, vy, mapWidth, mapHeight, grid, maxSteps, k, x, y, tMaxX, tMaxY)
    requires MaxStepsAt(mapWidth, mapHeight, grid, maxSteps, Heading(vx, vy), Ray(x, y, tMaxX, tMaxY), k) == Some(r)
    ensures CastMaxStepsSpec(sx, sy, vx, vy, mapWidth, mapHeight, grid, maxSteps, r)
  {
    MaxStepsStopsAt(sx, sy, vx, vy, mapWidth, mapHeight, grid, maxSteps, k, r);
  }

  /** The iteration at the head goes on to the head of the next one. */
  lemma MaxStepsGoesOn(sx: real, sy: real, vx: real, vy: real, mapWidth: int, mapHeight: int,
                       grid: Grid, maxSteps: int, k: nat, x: real, y: real, tMaxX: Ext, tMaxY: Ext,
                       nx: real, ny: real, ntx: Ext, nty: Ext)
    requires MaxStepsHead(sx, sy, vx, vy, mapWidth, mapHeight, grid, maxSteps, k, x, y, tMaxX, tMaxY)
    requires MaxStepsAt(mapWidth, mapHeight, grid, maxSteps, Heading(vx, vy), Ray(x, y, tMaxX, tMaxY), k) == None
    requires Ray(nx, ny, ntx, nty) == Next(Heading(vx, vy), Ray(x, y, tMaxX, tMaxY))
    ensures MaxStepsHead(sx, sy, vx, vy, mapWidth, mapHeight, grid, maxSteps, k + 1, nx, ny, ntx, nty)
  {
    assert MaxStepsEvent(sx, sy, vx, vy, mapWidth, mapHeight, grid, maxSteps, k).None?;
  }

  // ------------------------------------------------------- castSteplist

  /** The step list at the head of iteration k of castSteplist when no
      earlier iteration stopped: the start tile, then every entered cell. */
  function Trail(d: Dir, r0: Ray, k: nat): seq<Step>
    requires ValidDir(d)
  {
    if k == 0 then [Tile(r0)] else Trail(d, r0, k - 1) + Entered(d, Walk(d, r0, k - 1))
  }

  /** The step list starts at the start tile, ends at the tile of the
      current position, grows with every iteration and is a chain of
      neighbouring cells. */
  lemma {:induction false} TrailShape(d: Dir, r0: Ray, k: nat)
    requires ValidDir(d)
    ensures var p := Trail(d, r0, k);
      |p| >= 1 && p[0] == Tile(r0) && p[|p| - 1] == Tile(Walk(d, r0, k)) &&
      Linked(p) && (|p| > 1 <==> k > 0)
  {
    if k > 0 {
      TrailShape(d, r0, k - 1);
      var q := Trail(d, r0, k - 1);
      var r := Walk(d, r0, k - 1);
      EnteredLinked(d, r);
      LinkedJoin(q, Entered(d, r));
    }
  }

  /** Appending a chain that starts next to the last cell keeps a list linked. */
  lemma LinkedJoin(p: seq<Step>, q: seq<Step>)
    requires |p| >= 1 && Linked(p) && Linked([p[|p| - 1]] + q)
    ensures Linked(p + q)
  {
    forall i | 0 < i < |p + q|
      ensures Near((p + q)[i - 1], (p + q)[i])
    {
      if i >= |p| {
        assert (p + q)[i] == ([p[|p| - 1]] + q)[i - |p| + 1];
        assert (p + q)[i - 1] == ([p[|p| - 1]] + q)[i - |p|];
      }
    }
  }

  /** The cell of a target coordinate pair. */
  function TargetTile(tx: real, ty: real): Step {
    Step(Trunc(tx), Trunc(ty))
  }

  /** The target tile holds a non-negative target point in its unit cell, and
      is the tile the loop computes for a position at the target. */
  lemma TargetTileContains(tx: real, ty: real, tMaxX: Ext, tMaxY: Ext)
    ensures tx >= 0.0 ==> TargetTile(tx, ty).x as real <= tx < TargetTile(tx, ty).x as real + 1.0
    ensures ty >= 0.0 ==> TargetTile(tx, ty).y as real <= ty < TargetTile(tx, ty).y as real + 1.0
    ensures TargetTile(tx, ty) == Tile(Ray(tx, ty, tMaxX, tMaxY))
  {
  }

  /** castSteplist's appends and reads of the cells one iteration enters,
      after list: the walk stops at the first solid cell or the target tile
      goal (returning the list up to it) or at a read out of range; None
      when it goes on. */
  function ListReads(grid: Grid, cells: seq<Step>, goal: Step, list: seq<Step>): Option<Result<seq<Step>>> {
    match Examine(grid, cells, Some(goal))
    case Pass => None
    case Stop(n, _) => Some(Ok(list + cells[..n]))
    case Fault(x, y) => Some(OutOfBounds(x, y))
  }

  /** One append-and-read of castSteplist's loop. */
  function ListStop(grid: Grid, x: int, y: int, goal: Step, list: seq<Step>,
                    rest: Option<Result<seq<Step>>>): (e: Option<Result<seq<Step>>>)
    ensures !InGrid(grid, Step(x, y)) ==> e == Some(OutOfBounds(x, y))
    ensures InGrid(grid, Step(x, y)) && (IsSolid(grid, Step(x, y)) || Step(x, y) == goal) ==>
      e == Some(Ok(list + [Step(x, y)]))
    ensures IsOpen(grid, Step(x, y)) && Step(x, y) != goal ==> e == rest
  {
    if !InGrid(grid, Step(x, y)) then Some(OutOfBounds(x, y))
    else if grid[x][y] then Some(Ok(list + [Step(x, y)]))
    else if Step(x, y) == goal then Some(Ok(list + [Step(x, y)]))
    else rest
  }

  /** The cells are appended and read front to back. */
  lemma ListReadsCons(grid: Grid, cells: seq<Step>, goal: Step, list: seq<Step>)
    ensures cells == [] ==> ListReads(grid, cells, goal, list) == None
    ensures cells != [] ==>
      ListReads(grid, cells, goal, list) ==
        ListStop(grid, cells[0].x, cells[0].y, goal, list, ListReads(grid, cells[1..], goal, list + [cells[0]]))
  {
    if cells != [] {
      assert list + cells[..1] == list + [cells[0]];
      if IsOpen(grid, cells[0]) && cells[0] != goal {
        ExamineSkip(grid, cells, Some(goal));
        match Examine(grid, cells[1..], Some(goal))
        case Stop(n, _) =>
          assert list + cells[..n + 1] == list + [cells[0]] + cells[1..][..n];
        case _ =>
      }
    }
  }

  /** The reads of castSteplist's iteration from ray state r. */
  function SteplistReads(grid: Grid, d: Dir, r: Ray, goal: Step, list: seq<Step>): Option<Result<seq<Step>>>
    requires ValidDir(d)
  {
    ListReads(grid, Entered(d, r), goal, list)
  }

  /** SteplistReads at a corner, on the loop's own locals: the x-neighbour,
      the y-neighbour, then the cell after the move. */
  lemma SteplistReadsCorner(grid: Grid, goal: Step, list: seq<Step>, stepX: int, stepY: int,
                            tDeltaX: Ext, tDeltaY: Ext, x: real, y: real, tMaxX: Ext, tMaxY: Ext)
    requires ValidDir(Dir(stepX, stepY, tDeltaX, tDeltaY))
    requires Equals(Abs(tMaxX), Abs(tMaxY))
    ensures var d, r := Dir(stepX, stepY, tDeltaX, tDeltaY), Ray(x, y, tMaxX, tMaxY);
      var m := Next(d, r);
      var a, b := Step(Trunc(x + stepX as real), Trunc(y)), Step(Trunc(x), Trunc(y + stepY as real));
      list + [a] + [b] + [Step(Trunc(m.x), Trunc(m.y))] == list + Entered(d, r) &&
      SteplistReads(grid, d, r, goal, list) ==
        ListStop(grid, a.x, a.y, goal, list,
        ListStop(grid, b.x, b.y, goal, list + [a],
        ListStop(grid, Trunc(m.x), Trunc(m.y), goal, list + [a] + [b], None)))
  {
    EnteredCorner(stepX, stepY, tDeltaX, tDeltaY, x, y, tMaxX, tMaxY);
    var cells := Entered(Dir(stepX, stepY, tDeltaX, tDeltaY), Ray(x, y, tMaxX, tMaxY));
    ListReadsCons(grid, cells, goal, list);
    ListReadsCons(grid, cells[1..], goal, list + [cells[0]]);
    ListReadsCons(grid, cells[1..][1..], goal, list + [cells[0]] + [cells[1]]);
    ListReadsCons(grid, cells[1..][1..][1..], goal, list + [cells[0]] + [cells[1]] + [cells[2]]);
    assert list + cells == list + [cells[0]] + [cells[1]] + [cells[2]];
  }

  /** SteplistReads when one axis moves: only the new cell is appended and read. */
  lemma SteplistReadsSingle(grid: Grid, goal: Step, list: seq<Step>, stepX: int, stepY: int,
                            tDeltaX: Ext, tDeltaY: Ext, x: real, y: real, tMaxX: Ext, tMaxY: Ext)
    requires ValidDir(Dir(stepX, stepY, tDeltaX, tDeltaY))
    requires !Equals(Abs(tMaxX), Abs(tMaxY))
    ensures var d, r := Dir(stepX, stepY, tDeltaX, tDeltaY), Ray(x, y, tMaxX, tMaxY);
      var m := Next(d, r);
      list + [Step(Trunc(m.x), Trunc(m.y))] == list + Entered(d, r) &&
      SteplistReads(grid, d, r, goal, list) == ListStop(grid, Trunc(m.x), Trunc(m.y), goal, list, None)
  {
    EnteredSingle(stepX, stepY, tDeltaX, tDeltaY, x, y, tMaxX, tMaxY);
    var cells := Entered(Dir(stepX, stepY, tDeltaX, tDeltaY), Ray(x, y, tMaxX, tMaxY));
    ListReadsCons(grid, cells, goal, list);
    ListReadsCons(grid, cells[1..], goal, list + [cells[0]]);
  }

  /** Iteration k of castSteplist: the loop guard fails (the list so far is
      returned), or the reads stop. */
  function SteplistEvent(sx: real, sy: real, tx: real, ty: real, mapWidth: int, mapHeight: int,
                         grid: Grid, k: nat): Option<Result<seq<Step>>>
  {
    var vx, vy := tx - sx, ty - sy;
    SteplistOn(mapWidth, mapHeight, grid, Heading(vx, vy), Origin(sx, sy, vx, vy), TargetTile(tx, ty), k)
  }

  /** Iteration k of castSteplist on heading d from origin r0 towards the
      target tile goal. */
  function SteplistOn(mapWidth: int, mapHeight: int, grid: Grid, d: Dir, r0: Ray, goal: Step,
                      k: nat): Option<Result<seq<Step>>>
    requires ValidDir(d)
  {
    var r := Walk(d, r0, k);
    if !Inside(mapWidth, mapHeight, r) then Some(Ok(Trail(d, r0, k)))
    else SteplistReads(grid, d, r, goal, Trail(d, r0, k))
  }

  /** The loop head of castSteplist at iteration k: the locals are the
      ray after k moves, the list is Trail, and no earlier iteration stopped. */
  ghost predicate SteplistAt(sx: real, sy: real, tx: real, ty: real, mapWidth: int, mapHeight: int, grid: Grid,
                             k: nat, x: real, y: real, tMaxX: Ext, tMaxY: Ext, list: seq<Step>)
  {
    SteplistHolds(sx, sy, tx, ty, mapWidth, mapHeight, grid, Heading(tx - sx, ty - sy), Origin(sx, sy, tx - sx, ty - sy),
                  k, Ray(x, y, tMaxX, tMaxY), list)
  }

  /** SteplistAt with the heading and the origin given. */
  ghost predicate SteplistHolds(sx: real, sy: real, tx: real, ty: real, mapWidth: int, mapHeight: int, grid: Grid,
                                d: Dir, r0: Ray, k: nat, r: Ray, list: seq<Step>)
    requires ValidDir(d)
  {
    Walk(d, r0, k) == r && list == Trail(d, r0, k) &&
    forall i: nat | i < k :: SteplistEvent(sx, sy, tx, ty, mapWidth, mapHeight, grid, i).None?
  }

  lemma SteplistGoesOn(sx: real, sy: real, tx: real, ty: real, mapWidth: int, mapHeight: int, grid: Grid, k: nat,
                       stepX: int, stepY: int, tDeltaX: Ext, tDeltaY: Ext, x: real, y: real, tMaxX: Ext, tMaxY: Ext,
                       list: seq<Step>, goal: Step, nx: real, ny: real, ntx: Ext, nty: Ext, nlist: seq<Step>)
    requires Heading(tx - sx, ty - sy) == Dir(stepX, stepY, tDeltaX, tDeltaY) && goal == TargetTile(tx, ty)
    requires SteplistAt(sx, sy, tx, ty, mapWidth, mapHeight, grid, k, x, y, tMaxX, tMaxY, list)
    requires Inside(mapWidth, mapHeight, Ray(x, y, tMaxX, tMaxY))
    requires SteplistReads(grid, Dir(stepX, stepY, tDeltaX, tDeltaY), Ray(x, y, tMaxX, tMaxY), goal, list) == None
    requires Ray(nx, ny, ntx, nty) == Next(Dir(stepX, stepY, tDeltaX, tDeltaY), Ray(x, y, tMaxX, tMaxY))
    requires nlist == list + Entered(Dir(stepX, stepY, tDeltaX, tDeltaY), Ray(x, y, tMaxX, tMaxY))
    ensures SteplistAt(sx, sy, tx, ty, mapWidth, mapHeight, grid, k + 1, nx, ny, ntx, nty, nlist)
  {
    SteplistEventAt(sx, sy, tx, ty, mapWidth, mapHeight, grid, k, x, y, tMaxX, tMaxY, list);
    SteplistHeadNext(sx, sy, tx, ty, mapWidth, mapHeight, grid, k, x, y, tMaxX, tMaxY, list, nx, ny, ntx, nty, nlist);
  }

  /** At the loop head, iteration k's event is read off the locals. */
  lemma SteplistEventAt(sx: real, sy: real, tx: real, ty: real, mapWidth: int, mapHeight: int, grid: Grid, k: nat,
                        x: real, y: real, tMaxX: Ext, tMaxY: Ext, list: seq<Step>)
    requires SteplistAt(sx, sy, tx, ty, mapWidth, mapHeight, grid, k, x, y, tMaxX, tMaxY, list)
    ensures SteplistEvent(sx, sy, tx, ty, mapWidth, mapHeight, grid, k) ==
      if !Inside(mapWidth, mapHeight, Ray(x, y, tMaxX, tMaxY)) then Some(Ok(list))
      else SteplistReads(grid, Heading(tx - sx, ty - sy), Ray(x, y, tMaxX, tMaxY), TargetTile(tx, ty), list)
  {
  }

  /** An iteration that does not stop leads to the next loop head. */
  lemma SteplistHeadNext(sx: real, sy: real, tx: real, ty: real, mapWidth: int, mapHeight: int, grid: Grid, k: nat,
                         x: real, y: real, tMaxX: Ext, tMaxY: Ext, list: seq<Step>,
                         nx: real, ny: real, ntx: Ext, nty: Ext, nlist: seq<Step>)
    requires SteplistAt(sx, sy, tx, ty, mapWidth, mapHeight, grid, k, x, y, tMaxX, tMaxY, list)
    requires SteplistEvent(sx, sy, tx, ty, mapWidth, mapHeight, grid, k).None?
    requires Ray(nx, ny, ntx, nty) == Next(Heading(tx - sx, ty - sy), Ray(x, y, tMaxX, tMaxY))
    requires nlist == list + Entered(Heading(tx - sx, ty - sy), Ray(x, y, tMaxX, tMaxY))
    ensures SteplistAt(sx, sy, tx, ty, mapWidth, mapHeight, grid, k + 1, nx, ny, ntx, nty, nlist)
  {
  }

  lemma SteplistStopsHere(sx: real, sy: real, tx: real, ty: real, mapWidth: int, mapHeight: int, grid: Grid, k: nat,
                          stepX: int, stepY: int, tDeltaX: Ext, tDeltaY: Ext, x: real, y: real, tMaxX: Ext, tMaxY: Ext,
                          list: seq<Step>, goal: Step, r: Result<seq<Step>>)
    requires TargetTile(sx, sy) != TargetTile(tx, ty)
    requires Heading(tx - sx, ty - sy) == Dir(stepX, stepY, tDeltaX, tDeltaY) && goal == TargetTile(tx, ty)
    requires SteplistAt(sx, sy, tx, ty, mapWidth, mapHeight, grid, k, x, y, tMaxX, tMaxY, list)
    requires Inside(mapWidth, mapHeight, Ray(x, y, tMaxX, tMaxY))
    requires SteplistReads(grid, Dir(stepX, stepY, tDeltaX, tDeltaY), Ray(x, y, tMaxX, tMaxY), goal, list) == Some(r)
    ensures CastSteplistSpec(sx, sy, tx, ty, mapWidth, mapHeight, grid, r)
  {
    SteplistStopsAt(sx, sy, tx, ty, mapWidth, mapHeight, grid, k, r);
  }

  lemma SteplistLeaves(sx: real, sy: real, tx: real, ty: real, mapWidth: int, mapHeight: int, grid: Grid, k: nat,
                       x: real, y: real, tMaxX: Ext, tMaxY: Ext, list: seq<Step>)
    requires TargetTile(sx, sy) != TargetTile(tx, ty)
    requires SteplistAt(sx, sy, tx, ty, mapWidth, mapHeight, grid, k, x, y, tMaxX, tMaxY, list)
    requires !Inside(mapWidth, mapHeight, Ray(x, y, tMaxX, tMaxY))
    ensures CastSteplistSpec(sx, sy, tx, ty, mapWidth, mapHeight, grid, Ok(list))
  {
    SteplistStopsAt(sx, sy, tx, ty, mapWidth, mapHeight, grid, k, Ok(list));
  }

  lemma SteplistBounded(sx: real, sy: real, tx: real, ty: real, mapWidth: int, mapHeight: int, grid: Grid, k: nat,
                        x: real, y: real, tMaxX: Ext, tMaxY: Ext, list: seq<Step>)
    requires SteplistAt(sx, sy, tx, ty, mapWidth, mapHeight, grid, k, x, y, tMaxX, tMaxY, list)
    requires Inside(mapWidth, mapHeight, Ray(x, y, tMaxX, tMaxY))
    ensures k < Bound(mapWidth, mapHeight, Origin(sx, sy, tx - sx, ty - sy))
  {
    InsideWithinBound(Heading(tx - sx, ty - sy), Origin(sx, sy, tx - sx, ty - sy), mapWidth, mapHeight, k);
  }

  /** r is what castSteplist returns. */
  ghost predicate CastSteplistSpec(sx: real, sy: real, tx: real, ty: real, mapWidth: int, mapHeight: int,
                                   grid: Grid, r: Result<seq<Step>>)
  {
    if TargetTile(sx, sy) == TargetTile(tx, ty) then r == Ok([TargetTile(sx, sy)])
    else exists k: nat ::
      SteplistEvent(sx, sy, tx, ty, mapWidth, mapHeight, grid, k) == Some(r) &&
      forall i: nat | i < k :: SteplistEvent(sx, sy, tx, ty, mapWidth, mapHeight, grid, i).None?
  }

  /** The first iteration that stops determines castSteplist's result. */
  lemma SteplistStopsAt(sx: real, sy: real, tx: real, ty: real, mapWidth: int, mapHeight: int,
                        grid: Grid, k: nat, r: Result<seq<Step>>)
    requires TargetTile(sx, sy) != TargetTile(tx, ty)
    requires SteplistEvent(sx, sy, tx, ty, mapWidth, mapHeight, grid, k) == Some(r)
    requires forall i: nat | i < k :: SteplistEvent(sx, sy, tx, ty, mapWidth, mapHeight, grid, i).None?
    ensures CastSteplistSpec(sx, sy, tx, ty, mapWidth, mapHeight, grid, r)
  {
  }

  // --------------------------------------------------------- rayBlocked

  /** Both target coordinates are integers: the target sits on a lattice corner. */
  predicate TargetIsCorner(tx: real, ty: real) {
    tx == Trunc(tx) as real && ty == Trunc(ty) as real
  }

  /** isHorizontalStepXPositive || isVerticalStepYPositive. */
  predicate StraightPositive(vx: real, vy: real) {
    (StepSign(vx) == 1 && vy == 0.0) || (StepSign(vy) == 1 && vx == 0.0)
  }

  /** targetIsCorner holds exactly when both target coordinates are whole
      numbers; the target is then the lower-left corner of its tile. */
  lemma TargetIsCornerMeaning(tx: real, ty: real)
    ensures TargetIsCorner(tx, ty) <==> tx == tx.Floor as real && ty == ty.Floor as real
    ensures TargetIsCorner(tx, ty) ==> TargetTile(tx, ty) == Step(tx.Floor, ty.Floor)
  {
  }

  /** The straight-ray flag holds exactly for a vector along +x or +y; since
      a zero component steps up, the zero vector counts as well. */
  lemma StraightPositiveMeaning(vx: real, vy: real)
    ensures StraightPositive(vx, vy) <==> (vy == 0.0 && vx >= 0.0) || (vx == 0.0 && vy >= 0.0)
  {
  }

  /** rayBlocked's reads of some cells, front to back: a solid cell stops
      with blocked, the target tile unblocked, a read out of range with the
      fault; None when every cell is open and not the target tile. */
  function BlockReads(grid: Grid, cells: seq<Step>, goal: Step): Option<Result<bool>> {
    match Examine(grid, cells, Some(goal))
    case Pass => None
    case Stop(_, solid) => Some(Ok(solid))
    case Fault(x, y) => Some(OutOfBounds(x, y))
  }

  /** One read of rayBlocked's loop, then rest. */
  function BlockStop(grid: Grid, x: int, y: int, goal: Step, rest: Option<Result<bool>>): (e: Option<Result<bool>>)
    ensures !InGrid(grid, Step(x, y)) ==> e == Some(OutOfBounds(x, y))
    ensures IsSolid(grid, Step(x, y)) ==> e == Some(Ok(true))
    ensures IsOpen(grid, Step(x, y)) && Step(x, y) == goal ==> e == Some(Ok(false))
    ensures IsOpen(grid, Step(x, y)) && Step(x, y) != goal ==> e == rest
  {
    if !InGrid(grid, Step(x, y)) then Some(OutOfBounds(x, y))
    else if grid[x][y] then Some(Ok(true))
    else if Step(x, y) == goal then Some(Ok(false))
    else rest
  }

  /** The cells are read front to back. */
  lemma BlockReadsCons(grid: Grid, cells: seq<Step>, goal: Step)
    ensures cells == [] ==> BlockReads(grid, cells, goal) == None
    ensures cells != [] ==>
      BlockReads(grid, cells, goal) == BlockStop(grid, cells[0].x, cells[0].y, goal, BlockReads(grid, cells[1..], goal))
  {
    if cells != [] && IsOpen(grid, cells[0]) && cells[0] != goal {
      ExamineSkip(grid, cells, Some(goal));
    }
  }

  /** The reads of rayBlocked's iteration from ray state r towards the
      target tile goal; corner is targetIsCorner, straight is
      isHorizontalStepXPositive || isVerticalStepYPositive. At a corner
      whose corner tile is the target tile the loop stops unblocked before
      any read; otherwise the corner neighbours are read, and then the cell
      after the move, unless the ray is straight and that cell is the
      target tile of a corner target, which stops unblocked unread. */
  function RayBlockedReads(grid: Grid, d: Dir, r: Ray, goal: Step, corner: bool, straight: bool): Option<Result<bool>>
    requires ValidDir(d)
  {
    if Choose(r) == Corner && corner && CornerTile(d, r) == goal then Some(Ok(false))
    else
      var t := Tile(Next(d, r));
      var n := BlockReads(grid, Neighbours(d, r), goal);
      if n.Some? then n
      else if corner && t == goal && straight then Some(Ok(false))
      else BlockReads(grid, [t], goal)
  }

  /** RayBlockedReads at a corner, on the loop's own locals. */
  lemma RayBlockedReadsCorner(grid: Grid, goal: Step, corner: bool, straight: bool, stepX: int, stepY: int,
                              tDeltaX: Ext, tDeltaY: Ext, x: real, y: real, tMaxX: Ext, tMaxY: Ext)
    requires ValidDir(Dir(stepX, stepY, tDeltaX, tDeltaY))
    requires Equals(Abs(tMaxX), Abs(tMaxY))
    ensures var d, r := Dir(stepX, stepY, tDeltaX, tDeltaY), Ray(x, y, tMaxX, tMaxY);
      var m := Next(d, r);
      RayBlockedReads(grid, d, r, goal, corner, straight) ==
        if corner && CornerTile(d, r) == goal then Some(Ok(false))
        else
          BlockStop(grid, Trunc(x + stepX as real), Trunc(y), goal,
          BlockStop(grid, Trunc(x), Trunc(y + stepY as real), goal,
          if corner && Step(Trunc(m.x), Trunc(m.y)) == goal && straight then Some(Ok(false))
          else BlockStop(grid, Trunc(m.x), Trunc(m.y), goal, None)))
  {
    var d, r := Dir(stepX, stepY, tDeltaX, tDeltaY), Ray(x, y, tMaxX, tMaxY);
    var cells := Neighbours(d, r);
    BlockReadsCons(grid, cells, goal);
    BlockReadsCons(grid, cells[1..], goal);
    BlockReadsCons(grid, cells[1..][1..], goal);
    var t := Tile(Next(d, r));
    BlockReadsCons(grid, [t], goal);
    BlockReadsCons(grid, [t][1..], goal);
  }

  /** RayBlockedReads when one axis moves: only the new cell is read. */
  lemma RayBlockedReadsSingle(grid: Grid, goal: Step, corner: bool, straight: bool, stepX: int, stepY: int,
                              tDeltaX: Ext, tDeltaY: Ext, x: real, y: real, tMaxX: Ext, tMaxY: Ext)
    requires ValidDir(Dir(stepX, stepY, tDeltaX, tDeltaY))
    requires !Equals(Abs(tMaxX), Abs(tMaxY))
    ensures var d, r := Dir(stepX, stepY, tDeltaX, tDeltaY), Ray(x, y, tMaxX, tMaxY);
      var m := Next(d, r);
      RayBlockedReads(grid, d, r, goal, corner, straight) ==
        if corner && Step(Trunc(m.x), Trunc(m.y)) == goal && straight then Some(Ok(false))
        else BlockStop(grid, Trunc(m.x), Trunc(m.y), goal, None)
  {
    var d, r := Dir(stepX, stepY, tDeltaX, tDeltaY), Ray(x, y, tMaxX, tMaxY);
    BlockReadsCons(grid, [], goal);
    var t := Tile(Next(d, r));
    BlockReadsCons(grid, [t], goal);
    BlockReadsCons(grid, [t][1..], goal);
  }

  /** Iteration k of rayBlocked: the loop guard fails (not blocked), or the
      reads of RayBlockedReads stop. */
  function RayBlockedEvent(sx: real, sy: real, tx: real, ty: real, mapWidth: int, mapHeight: int,
                           grid: Grid, k: nat): Option<Result<bool>>
  {
    var vx, vy := tx - sx, ty - sy;
    RayBlockedOn(mapWidth, mapHeight, grid, Heading(vx, vy), Origin(sx, sy, vx, vy), TargetTile(tx, ty),
                 TargetIsCorner(tx, ty), StraightPositive(vx, vy), k)
  }

  /** Iteration k of rayBlocked on heading d from origin r0 towards the
      target tile goal. */
  function RayBlockedOn(mapWidth: int, mapHeight: int, grid: Grid, d: Dir, r0: Ray, goal: Step,
                        corner: bool, straight: bool, k: nat): Option<Result<bool>>
    requires ValidDir(d)
  {
    var r := Walk(d, r0, k);
    if !Inside(mapWidth, mapHeight, r) then Some(Ok(false))
    else RayBlockedReads(grid, d, r, goal, corner, straight)
  }

  /** The loop head of rayBlocked at iteration k. */
  ghost predicate RayBlockedAt(sx: real, sy: real, tx: real, ty: real, mapWidth: int, mapHeight: int, grid: Grid,
                               k: nat, x: real, y: real, tMaxX: Ext, tMaxY: Ext)
  {
    Walk(Heading(tx - sx, ty - sy), Origin(sx, sy, tx - sx, ty - sy), k) == Ray(x, y, tMaxX, tMaxY) &&
    forall i: nat | i < k :: RayBlockedEvent(sx, sy, tx, ty, mapWidth, mapHeight, grid, i).None?
  }

  lemma RayBlockedBounded(sx: real, sy: real, tx: real, ty: real, mapWidth: int, mapHeight: int, grid: Grid,
                          k: nat, x: real, y: real, tMaxX: Ext, tMaxY: Ext)
    requires RayBlockedAt(sx, sy, tx, ty, mapWidth, mapHeight, grid, k, x, y, tMaxX, tMaxY)
    requires Inside(mapWidth, mapHeight, Ray(x, y, tMaxX, tMaxY))
    ensures k < Bound(mapWidth, mapHeight, Origin(sx, sy, tx - sx, ty - sy))
  {
    InsideWithinBound(Heading(tx - sx, ty - sy), Origin(sx, sy, tx - sx, ty - sy), mapWidth, mapHeight, k);
  }

  /** At the loop head, iteration k's event is read off the locals. */
  lemma RayBlockedEventAt(sx: real, sy: real, tx: real, ty: real, mapWidth: int, mapHeight: int, grid: Grid,
                          k: nat, x: real, y: real, tMaxX: Ext, tMaxY: Ext)
    requires RayBlockedAt(sx, sy, tx, ty, mapWidth, mapHeight, grid, k, x, y, tMaxX, tMaxY)
    ensures RayBlockedEvent(sx, sy, tx, ty, mapWidth, mapHeight, grid, k) ==
      if !Inside(mapWidth, mapHeight, Ray(x, y, tMaxX, tMaxY)) then Some(Ok(false))
      else RayBlockedReads(grid, Heading(tx - sx, ty - sy), Ray(x, y, tMaxX, tMaxY), TargetTile(tx, ty),
                           TargetIsCorner(tx, ty), StraightPositive(tx - sx, ty - sy))
  {
  }

  /** An iteration that does not stop leads to the next loop head. */
  lemma RayBlockedHeadNext(sx: real, sy: real, tx: real, ty: real, mapWidth: int, mapHeight: int, grid: Grid,
                           k: nat, x: real, y: real, tMaxX: Ext, tMaxY: Ext, nx: real, ny: real, ntx: Ext, nty: Ext)
    requires RayBlockedAt(sx, sy, tx, ty, mapWidth, mapHeight, grid, k, x, y, tMaxX, tMaxY)
    requires RayBlockedEvent(sx, sy, tx, ty, mapWidth, mapHeight, grid, k).None?
    requires Ray(nx, ny, ntx, nty) == Next(Heading(tx - sx, ty - sy), Ray(x, y, tMaxX, tMaxY))
    ensures RayBlockedAt(sx, sy, tx, ty, mapWidth, mapHeight, grid, k + 1, nx, ny, ntx, nty)
  {
  }

  /** The first iteration that stops determines rayBlocked's result. */
  lemma RayBlockedStopsAt(sx: real, sy: real, tx: real, ty: real, mapWidth: int, mapHeight: int,
                          grid: Grid, k: nat, r: Result<bool>)
    requires TargetTile(sx, sy) != TargetTile(tx, ty)
    requires RayBlockedEvent(sx, sy, tx, ty, mapWidth, mapHeight, grid, k) == Some(r)
    requires forall i: nat | i < k :: RayBlockedEvent(sx, sy, tx, ty, mapWidth, mapHeight, grid, i).None?
    ensures RayBlockedSpec(sx, sy, tx, ty, mapWidth, mapHeight, grid, r)
  {
  }

  /** The loop stops at the head with r. */
  lemma RayBlockedStopsHere(sx: real, sy: real, tx: real, ty: real, mapWidth: int, mapHeight: int, grid: Grid,
                            k: nat, x: real, y: real, tMaxX: Ext, tMaxY: Ext, r: Result<bool>)
    requires TargetTile(sx, sy) != TargetTile(tx, ty)
    requires RayBlockedAt(sx, sy, tx, ty, mapWidth, mapHeight, grid, k, x, y, tMaxX, tMaxY)
    requires RayBlockedEvent(sx, sy, tx, ty, mapWidth, mapHeight, grid, k) == Some(r)
    ensures RayBlockedSpec(sx, sy, tx, ty, mapWidth, mapHeight, grid, r)
  {
    RayBlockedStopsAt(sx, sy, tx, ty, mapWidth, mapHeight, grid, k, r);
  }

  /** r is what rayBlocked returns. */
  ghost predicate RayBlockedSpec(sx: real, sy: real, tx: real, ty: real, mapWidth: int, mapHeight: int,
                                 grid: Grid, r: Result<bool>)
  {
    if TargetTile(sx, sy) == TargetTile(tx, ty) then r == Read(grid, TargetTile(tx, ty))
    else exists k: nat ::
      RayBlockedEvent(sx, sy, tx, ty, mapWidth, mapHeight, grid, k) == Some(r) &&
      forall i: nat | i < k :: RayBlockedEvent(sx, sy, tx, ty, mapWidth, mapHeight, grid, i).None?
  }
}
