/** castSteplist reaches its target: for a start and a target inside the
    rectangle, away from the truncation edge (both coordinates at least
    1), with components within 100000 so that every tDelta is at least
    EPSILON, the walk stays inside the rectangle, never stalls on a
    tile, and enters the target tile. */
module RayCasterReach {
  import opened Numerics
  import opened Outcomes
  import opened Traversal
  import opened RayCasterSpec
  import opened RayCasterProperties

  // ---------------------------------------------------- one axis

  /** The cell index of u lies between those of the start s and the
      target g of the axis, on the side the ray travels. */
  predicate Between(s: real, g: real, u: real) {
    if g - s >= 0.0 then MathFloor(s) <= MathFloor(u) <= MathFloor(g)
    else MathFloor(g) <= MathFloor(u) <= MathFloor(s)
  }

  /** How many cells the axis still has to cross to reach the target's. */
  function Short(s: real, g: real, u: real): int {
    if g - s >= 0.0 then MathFloor(g) - MathFloor(u) else MathFloor(u) - MathFloor(g)
  }

  /** Where the point s + t * v lies against the target s + v tells
      whether t is below 1, for v of known sign. */
  lemma ParamAgainstTarget(s: real, v: real, t: real, x: real)
    requires v != 0.0 && s + t * v == x
    ensures v > 0.0 ==> (t <= 1.0 <==> x <= s + v) && (t < 1.0 <==> x < s + v)
    ensures v < 0.0 ==> (t <= 1.0 <==> x >= s + v) && (t < 1.0 <==> x > s + v)
  {
    assert x - (s + v) == (t - 1.0) * v;
  }

  /** A component of at most 100000 gives a tDelta of at least EPSILON. */
  lemma TDeltaAtLeastEpsilon(v: real)
    requires v != 0.0 && RealAbs(v) <= 100000.0
    ensures TDelta(StepSign(v), v).r >= EPSILON
  {
    var td := TDelta(StepSign(v), v).r;
    assert td * RealAbs(v) == 1.0;
    assert td * RealAbs(v) <= td * 100000.0;
  }

  /** What tMax says on an axis between start and target: an axis whose
      cell is the target's meets its next boundary at t >= 1 or never;
      one that still has cells to cross meets it at t <= 1, and one with
      two or more still meets the boundary after it by t = 1. */
  lemma AxisStatus(s: real, g: real, u: real, t: Ext)
    requires TracksBoundary(s, g - s, u, t) && Between(s, g, u)
    ensures Short(s, g, u) >= 0
    ensures Short(s, g, u) == 0 ==> t.Inf? || t.r >= 1.0
    ensures Short(s, g, u) >= 1 ==> t.Fin? && t.r <= 1.0
    ensures Short(s, g, u) >= 2 ==> t.r + TDelta(StepSign(g - s), g - s).r <= 1.0
  {
    var v := g - s;
    if v != 0.0 {
      var st := StepSign(v);
      var td := TDelta(st, v).r;
      var b := FirstBoundary(u, st);
      var sh := Short(s, g, u);
      var fg := MathFloor(g);
      assert s + t.r * v == b as real;
      assert s + (t.r + td) * v == (b + st) as real;
      if v > 0.0 {
        assert b == MathFloor(u) + 1 && sh == fg - MathFloor(u);
        assert sh == 0 ==> b as real > g;
        assert sh >= 1 ==> b as real <= g;
        assert sh >= 2 ==> (b + st) as real <= g;
      } else {
        assert b == MathFloor(u) && sh == MathFloor(u) - fg;
        assert sh == 0 ==> b as real <= g;
        assert sh >= 1 ==> b as real > g;
        assert sh >= 2 ==> (b + st) as real > g;
      }
      ParamAgainstTarget(s, v, t.r, b as real);
      ParamAgainstTarget(s, v, t.r + td, (b + st) as real);
    }
  }

  /** Between a start and a target in [1, w) a coordinate is in [1, w),
      where truncation is floor. */
  lemma AxisInside(s: real, g: real, u: real, w: int)
    requires 1.0 <= s < w as real && 1.0 <= g < w as real && Between(s, g, u)
    ensures 1.0 <= u < w as real && Trunc(u) == MathFloor(u)
  {
    var fs, fg, fu := MathFloor(s), MathFloor(g), MathFloor(u);
    assert 1 <= fs < w && 1 <= fg < w;
    assert 1 <= fu < w;
  }

  /** Moving an axis one cell in its step direction while it still has
      cells to cross keeps it between start and target, one cell closer;
      from a coordinate of at least 1 that cell is the truncated one. */
  lemma AxisMove(s: real, g: real, u: real)
    requires Between(s, g, u) && Short(s, g, u) >= 1 && u >= 1.0
    ensures Between(s, g, u + StepSign(g - s) as real)
    ensures Short(s, g, u + StepSign(g - s) as real) == Short(s, g, u) - 1
    ensures Trunc(u + StepSign(g - s) as real) == MathFloor(u) + StepSign(g - s)
  {
    var st := StepSign(g - s);
    assert MathFloor(u + st as real) == MathFloor(u) + st;
  }

  // ---------------------------------------------------- both axes

  /** Start (sx, sy) and target (tx, ty) inside the rectangle, at least 1
      on both axes, with components of at most 100000. */
  predicate Geometry(sx: real, sy: real, tx: real, ty: real, mapWidth: int, mapHeight: int) {
    1.0 <= sx < mapWidth as real && 1.0 <= tx < mapWidth as real &&
    1.0 <= sy < mapHeight as real && 1.0 <= ty < mapHeight as real &&
    RealAbs(tx - sx) <= 100000.0 && RealAbs(ty - sy) <= 100000.0
  }

  /** The loop invariant of the approach: tMax tracks the boundaries and
      each axis's cell lies between the start's and the target's. */
  predicate Approach(sx: real, sy: real, tx: real, ty: real, p: Ray) {
    TracksBoundary(sx, tx - sx, p.x, p.tMaxX) && TracksBoundary(sy, ty - sy, p.y, p.tMaxY) &&
    Between(sx, tx, p.x) && Between(sy, ty, p.y)
  }

  function Remaining(sx: real, sy: real, tx: real, ty: real, p: Ray): int {
    Short(sx, tx, p.x) + Short(sy, ty, p.y)
  }

  /** Between the start and the target a position is inside the
      rectangle and at least 1 on both axes, where truncation is floor. */
  lemma ApproachInside(sx: real, sy: real, tx: real, ty: real, mapWidth: int, mapHeight: int, p: Ray)
    requires Geometry(sx, sy, tx, ty, mapWidth, mapHeight)
    requires Between(sx, tx, p.x) && Between(sy, ty, p.y)
    ensures Inside(mapWidth, mapHeight, p) && p.x >= 1.0 && p.y >= 1.0
    ensures Tile(p) == Step(MathFloor(p.x), MathFloor(p.y))
  {
    AxisInside(sx, tx, p.x, mapWidth);
    AxisInside(sy, ty, p.y, mapHeight);
  }

  /** The iteration from p is not a corner with one axis already at the
      target's cell: with the other one cell away the corner would enter
      the target tile, and with it further away its tMax is at least
      tDelta >= EPSILON below the first's, so the branch is not a corner. */
  lemma CornerMovesTowards(sx: real, sy: real, tx: real, ty: real, mapWidth: int, mapHeight: int, p: Ray)
    requires Geometry(sx, sy, tx, ty, mapWidth, mapHeight)
    requires Approach(sx, sy, tx, ty, p) && Tile(p) != TargetTile(tx, ty)
    requires TargetTile(tx, ty) !in Entered(Heading(tx - sx, ty - sy), p)
    requires Choose(p) == Corner
    ensures Short(sx, tx, p.x) >= 1 && Short(sy, ty, p.y) >= 1
  {
    var vx, vy := tx - sx, ty - sy;
    AxisStatus(sx, tx, p.x, p.tMaxX);
    AxisStatus(sy, ty, p.y, p.tMaxY);
    ApproachInside(sx, sy, tx, ty, mapWidth, mapHeight, p);
    var shx, shy := Short(sx, tx, p.x), Short(sy, ty, p.y);
    if shx == 0 {
      if shy == 1 {
        AxisMove(sy, ty, p.y);
      } else {
        TDeltaAtLeastEpsilon(vy);
      }
    } else if shy == 0 {
      if shx == 1 {
        AxisMove(sx, tx, p.x);
      } else {
        TDeltaAtLeastEpsilon(vx);
      }
    }
  }

  /** A single-axis iteration from p moves an axis that still has cells
      to cross: an axis at the target's cell has tMax >= 1, any other
      tMax <= 1, and both at the target's cell is the target tile. */
  lemma SingleMovesTowards(sx: real, sy: real, tx: real, ty: real, mapWidth: int, mapHeight: int, p: Ray)
    requires Geometry(sx, sy, tx, ty, mapWidth, mapHeight)
    requires Approach(sx, sy, tx, ty, p) && Tile(p) != TargetTile(tx, ty)
    ensures Choose(p) == AlongX ==> Short(sx, tx, p.x) >= 1
    ensures Choose(p) == AlongY ==> Short(sy, ty, p.y) >= 1
  {
    AxisStatus(sx, tx, p.x, p.tMaxX);
    AxisStatus(sy, ty, p.y, p.tMaxY);
    ApproachInside(sx, sy, tx, ty, mapWidth, mapHeight, p);
  }

  /** One iteration that does not enter the target tile keeps the
      approach invariant and crosses at least one cell towards the
      target: the EPSILON corner rule never moves an axis already at the
      target's cell, since such a corner would enter the target tile. */
  lemma ApproachStep(sx: real, sy: real, tx: real, ty: real, mapWidth: int, mapHeight: int, p: Ray)
    requires Geometry(sx, sy, tx, ty, mapWidth, mapHeight)
    requires Approach(sx, sy, tx, ty, p) && Tile(p) != TargetTile(tx, ty)
    requires TargetTile(tx, ty) !in Entered(Heading(tx - sx, ty - sy), p)
    ensures Approach(sx, sy, tx, ty, Next(Heading(tx - sx, ty - sy), p))
    ensures 0 <= Remaining(sx, sy, tx, ty, Next(Heading(tx - sx, ty - sy), p)) < Remaining(sx, sy, tx, ty, p)
  {
    var vx, vy := tx - sx, ty - sy;
    var n := Next(Heading(vx, vy), p);
    NextTracksBoundary(sx, sy, vx, vy, p);
    ApproachInside(sx, sy, tx, ty, mapWidth, mapHeight, p);
    if Choose(p) == Corner {
      CornerMovesTowards(sx, sy, tx, ty, mapWidth, mapHeight, p);
    } else {
      SingleMovesTowards(sx, sy, tx, ty, mapWidth, mapHeight, p);
    }
    AxisShift(sx, tx, p.x, n.x, Choose(p) != AlongY);
    AxisShift(sy, ty, p.y, n.y, Choose(p) != AlongX);
  }

  /** An axis that moves only while it still has cells to cross stays
      between start and target, one cell closer for each move. */
  lemma AxisShift(s: real, g: real, u: real, u': real, moved: bool)
    requires Between(s, g, u) && u >= 1.0 && (moved ==> Short(s, g, u) >= 1)
    requires u' == if moved then u + StepSign(g - s) as real else u
    ensures Between(s, g, u') && Short(s, g, u') == Short(s, g, u) - (if moved then 1 else 0)
  {
    if moved {
      AxisMove(s, g, u);
    }
  }

  // ---------------------------------------------------- the walk

  /** The ray state at the head of iteration k of castSteplist from
      (sx, sy) towards (tx, ty). */
  function Toward(sx: real, sy: real, tx: real, ty: real, k: nat): Ray {
    Walk(Heading(tx - sx, ty - sy), Origin(sx, sy, tx - sx, ty - sy), k)
  }

  /** From an iteration k between start and target that is not on the
      target tile, some iteration m >= k enters the target tile, and
      every iteration from k to m stays between start and target. */
  lemma {:induction false} ReachFrom(sx: real, sy: real, tx: real, ty: real, mapWidth: int, mapHeight: int, k: nat)
    returns (m: nat)
    requires Geometry(sx, sy, tx, ty, mapWidth, mapHeight)
    requires Approach(sx, sy, tx, ty, Toward(sx, sy, tx, ty, k))
    requires Tile(Toward(sx, sy, tx, ty, k)) != TargetTile(tx, ty)
    ensures k <= m
    ensures TargetTile(tx, ty) in Entered(Heading(tx - sx, ty - sy), Toward(sx, sy, tx, ty, m))
    ensures forall i: nat | k <= i <= m :: Approach(sx, sy, tx, ty, Toward(sx, sy, tx, ty, i))
    decreases Remaining(sx, sy, tx, ty, Toward(sx, sy, tx, ty, k))
  {
    var d, p := Heading(tx - sx, ty - sy), Toward(sx, sy, tx, ty, k);
    if TargetTile(tx, ty) in Entered(d, p) {
      m := k;
    } else {
      ApproachStep(sx, sy, tx, ty, mapWidth, mapHeight, p);
      assert Toward(sx, sy, tx, ty, k + 1) == Next(d, p);
      m := ReachFrom(sx, sy, tx, ty, mapWidth, mapHeight, k + 1);
    }
  }

  /** The walk from the start towards the target enters the target tile
      at some iteration m, and up to m every position is inside the
      rectangle and at least 1 on both axes. */
  lemma WalkReachesTarget(sx: real, sy: real, tx: real, ty: real, mapWidth: int, mapHeight: int) returns (m: nat)
    requires Geometry(sx, sy, tx, ty, mapWidth, mapHeight) && TargetTile(sx, sy) != TargetTile(tx, ty)
    ensures TargetTile(tx, ty) in Entered(Heading(tx - sx, ty - sy), Toward(sx, sy, tx, ty, m))
    ensures forall i: nat | i <= m :: Inside(mapWidth, mapHeight, Toward(sx, sy, tx, ty, i))
    ensures ClearOfEdge(Heading(tx - sx, ty - sy), Origin(sx, sy, tx - sx, ty - sy), m + 1)
  {
    TMaxTracksBoundary(sx, sy, tx - sx, ty - sy, 0);
    m := ReachFrom(sx, sy, tx, ty, mapWidth, mapHeight, 0);
    ApproachClearUpTo(sx, sy, tx, ty, mapWidth, mapHeight, m);
  }

  /** Every position of an approach up to iteration m is inside the map and
      clear of the edge. */
  lemma ApproachClearUpTo(sx: real, sy: real, tx: real, ty: real, mapWidth: int, mapHeight: int, m: nat)
    requires Geometry(sx, sy, tx, ty, mapWidth, mapHeight)
    requires forall i: nat | 0 <= i <= m :: Approach(sx, sy, tx, ty, Toward(sx, sy, tx, ty, i))
    ensures forall i: nat | i <= m :: Inside(mapWidth, mapHeight, Toward(sx, sy, tx, ty, i))
    ensures ClearOfEdge(Heading(tx - sx, ty - sy), Origin(sx, sy, tx - sx, ty - sy), m + 1)
  {
    var d, r0 := Heading(tx - sx, ty - sy), Origin(sx, sy, tx - sx, ty - sy);
    forall i: nat | i <= m
      ensures Inside(mapWidth, mapHeight, Toward(sx, sy, tx, ty, i))
      ensures Walk(d, r0, i).x >= 1.0 && Walk(d, r0, i).y >= 1.0
    {
      ApproachClear(sx, sy, tx, ty, mapWidth, mapHeight, Toward(sx, sy, tx, ty, i));
    }
  }

  /** A position on the approach lies inside the map, at least 1 on both axes. */
  lemma ApproachClear(sx: real, sy: real, tx: real, ty: real, mapWidth: int, mapHeight: int, p: Ray)
    requires Geometry(sx, sy, tx, ty, mapWidth, mapHeight) && Approach(sx, sy, tx, ty, p)
    ensures Inside(mapWidth, mapHeight, p) && p.x >= 1.0 && p.y >= 1.0
  {
    ApproachInside(sx, sy, tx, ty, mapWidth, mapHeight, p);
  }

  // ---------------------------------------------------- no stalling

  /** Every position before iteration k is at least 1 on both axes, where
      truncation is floor. */
  ghost predicate ClearOfEdge(d: Dir, r0: Ray, k: nat)
    requires ValidDir(d)
  {
    forall i: nat | i < k :: Walk(d, r0, i).x >= 1.0 && Walk(d, r0, i).y >= 1.0
  }

  /** No two consecutive cells of a list are the same. */
  predicate Moving(p: seq<Step>) {
    forall i | 0 < i < |p| :: p[i - 1] != p[i]
  }

  /** From a coordinate of at least 1, one unit moves the cell index by one. */
  lemma UnitStepMoves(u: real, step: int)
    requires u >= 1.0 && (step == 1 || step == -1)
    ensures Trunc(u + step as real) == Trunc(u) + step
  {
    if step == 1 {
      TruncUnitStep(u);
    } else {
      TruncUnitStep(u - 1.0);
    }
  }

  /** From a position at least 1 on both axes, every cell an iteration
      enters differs from the one before it. */
  lemma EnteredMoves(d: Dir, r: Ray)
    requires ValidDir(d) && r.x >= 1.0 && r.y >= 1.0
    ensures Moving([Tile(r)] + Entered(d, r))
  {
    UnitStepMoves(r.x, d.stepX);
    UnitStepMoves(r.y, d.stepY);
    if Choose(r) == Corner {
      CornerLinked(d, r);
    } else {
      assert [Tile(r)] + Entered(d, r) == [Tile(r), Tile(Next(d, r))];
    }
  }

  /** Appending a list that moves on from the last cell keeps a list moving. */
  lemma MovingJoin(p: seq<Step>, q: seq<Step>)
    requires |p| >= 1 && Moving(p) && Moving([p[|p| - 1]] + q)
    ensures Moving(p + q)
  {
    forall i | 0 < i < |p + q|
      ensures (p + q)[i - 1] != (p + q)[i]
    {
      if i >= |p| {
        assert (p + q)[i] == ([p[|p| - 1]] + q)[i - |p| + 1];
        assert (p + q)[i - 1] == ([p[|p| - 1]] + q)[i - |p|];
      }
    }
  }

  lemma MovingPrefix(q: seq<Step>, m: nat)
    requires Moving(q) && m <= |q|
    ensures Moving(q[..m])
  {
    forall i | 0 < i < m
      ensures q[..m][i - 1] != q[..m][i]
    {
      assert q[..m][i - 1] == q[i - 1] && q[..m][i] == q[i];
    }
  }

  /** The list castSteplist builds never repeats a cell twice in a row
      while every position it moved from is at least 1 on both axes. */
  lemma {:induction false} TrailMoves(d: Dir, r0: Ray, k: nat)
    requires ValidDir(d)
    requires ClearOfEdge(d, r0, k)
    ensures Moving(Trail(d, r0, k))
  {
    if k > 0 {
      TrailMoves(d, r0, k - 1);
      TrailShape(d, r0, k - 1);
      EnteredMoves(d, Walk(d, r0, k - 1));
      MovingJoin(Trail(d, r0, k - 1), Entered(d, Walk(d, r0, k - 1)));
    }
  }

  // ---------------------------------------------------- castSteplist

  /** No cell of the list before its first goal cell is solid. */
  ghost predicate OpenBeforeGoal(grid: Grid, cells: seq<Step>, goal: Step) {
    forall j | 0 <= j < |cells| && goal !in cells[..j + 1] :: !IsSolid(grid, cells[j])
  }

  /** Walking from r0 on heading d, no cell appended after the start tile
      and before the first goal cell is solid: the path to the goal is open,
      whatever the rest of the grid holds. */
  ghost predicate OpenToGoal(grid: Grid, d: Dir, r0: Ray, goal: Step)
    requires ValidDir(d)
  {
    forall k: nat :: OpenBeforeGoal(grid, Trail(d, r0, k)[1..], goal)
  }

  /** A cell that follows a goal-free list t and goal-free cells of an open
      path is not solid. */
  lemma OpenBeforeGoalAt(grid: Grid, t: seq<Step>, cells: seq<Step>, goal: Step, n: nat)
    requires OpenBeforeGoal(grid, t + cells, goal) && goal !in t
    requires 1 <= n <= |cells| && forall i | 0 <= i < n :: cells[i] != goal
    ensures !IsSolid(grid, cells[n - 1])
  {
    var j := |t| + n - 1;
    assert (t + cells)[..j + 1] == t + cells[..n];
    assert (t + cells)[j] == cells[n - 1];
  }

  /** The round trip of castSteplist: from a start to a target inside
      the rectangle, at least 1 on both axes and with components of at
      most 100000, over a grid whose path to the target tile is open, a list castSteplist
      returns ends at the target tile, has the start tile before it when
      the tiles differ, and never repeats a cell twice in a row. */
  lemma CastSteplistReachesTarget(sx: real, sy: real, tx: real, ty: real, mapWidth: int, mapHeight: int,
                                  grid: Grid, p: seq<Step>)
    requires Geometry(sx, sy, tx, ty, mapWidth, mapHeight)
    requires OpenToGoal(grid, Heading(tx - sx, ty - sy), Origin(sx, sy, tx - sx, ty - sy), TargetTile(tx, ty))
    requires CastSteplistSpec(sx, sy, tx, ty, mapWidth, mapHeight, grid, Ok(p))
    ensures |p| >= 1 && p[0] == TargetTile(sx, sy) && p[|p| - 1] == TargetTile(tx, ty)
    ensures TargetTile(sx, sy) != TargetTile(tx, ty) ==> |p| >= 2
    ensures Moving(p)
  {
    if TargetTile(sx, sy) != TargetTile(tx, ty) {
      var k: nat :| SteplistEvent(sx, sy, tx, ty, mapWidth, mapHeight, grid, k) == Some(Ok(p)) &&
        forall i: nat | i < k :: SteplistEvent(sx, sy, tx, ty, mapWidth, mapHeight, grid, i).None?;
      var m := WalkReachesTarget(sx, sy, tx, ty, mapWidth, mapHeight);
      var d, r0, goal := Heading(tx - sx, ty - sy), Origin(sx, sy, tx - sx, ty - sy), TargetTile(tx, ty);
      forall i: nat | i <= k
        ensures SteplistEvent(sx, sy, tx, ty, mapWidth, mapHeight, grid, i) ==
                SteplistOn(mapWidth, mapHeight, grid, d, r0, goal, i)
      {
      }
      forall i: nat | i <= m
        ensures Inside(mapWidth, mapHeight, Walk(d, r0, i))
      {
        assert Walk(d, r0, i) == Toward(sx, sy, tx, ty, i);
      }
      ReachedStopOn(mapWidth, mapHeight, grid, d, r0, goal, k, m, p);
    }
  }

  /** On any heading and origin whose walk enters the goal at iteration m
      with every position up to m inside the rectangle and at least 1 on
      both axes, with the path to the goal open: the first stopping
      iteration k comes no later than m, and the list ends at the goal
      and never repeats a cell twice in a row. */
  lemma ReachedStopOn(mapWidth: int, mapHeight: int, grid: Grid, d: Dir, r0: Ray, goal: Step,
                      k: nat, m: nat, p: seq<Step>)
    requires ValidDir(d) && OpenToGoal(grid, d, r0, goal)
    requires SteplistOn(mapWidth, mapHeight, grid, d, r0, goal, k) == Some(Ok(p))
    requires forall i: nat | i < k :: SteplistOn(mapWidth, mapHeight, grid, d, r0, goal, i).None?
    requires goal in Entered(d, Walk(d, r0, m))
    requires forall i: nat | i <= m :: Inside(mapWidth, mapHeight, Walk(d, r0, i))
    requires ClearOfEdge(d, r0, m + 1)
    ensures k <= m
    ensures |p| >= 2 && p[0] == Tile(r0) && p[|p| - 1] == goal
    ensures Moving(p)
  {
    StopNoLater(mapWidth, mapHeight, grid, d, r0, goal, k, m);
    TrailOpen(mapWidth, mapHeight, grid, d, r0, goal, k);
    ReachedStopInside(mapWidth, mapHeight, grid, d, r0, goal, k, p);
    assert ClearOfEdge(d, r0, k + 1);
    StopMoves(grid, d, r0, goal, k, p);
  }

  /** No iteration after one inside the rectangle that enters the goal
      can be the first to stop. */
  lemma StopNoLater(mapWidth: int, mapHeight: int, grid: Grid, d: Dir, r0: Ray, goal: Step, k: nat, m: nat)
    requires ValidDir(d)
    requires SteplistOn(mapWidth, mapHeight, grid, d, r0, goal, k).Some?
    requires forall i: nat | i < k :: SteplistOn(mapWidth, mapHeight, grid, d, r0, goal, i).None?
    requires goal in Entered(d, Walk(d, r0, m)) && Inside(mapWidth, mapHeight, Walk(d, r0, m))
    ensures k <= m
  {
    if k > m {
      assert SteplistOn(mapWidth, mapHeight, grid, d, r0, goal, m).None?;
      ExamineMeaning(grid, Entered(d, Walk(d, r0, m)), Some(goal));
    }
  }

  /** A stop inside the rectangle after a goal-free list, on a path open
      to the goal, is at the goal. */
  lemma ReachedStopInside(mapWidth: int, mapHeight: int, grid: Grid, d: Dir, r0: Ray, goal: Step, k: nat, p: seq<Step>)
    requires ValidDir(d) && OpenToGoal(grid, d, r0, goal) && Inside(mapWidth, mapHeight, Walk(d, r0, k))
    requires forall j | 0 < j < |Trail(d, r0, k)| :: Trail(d, r0, k)[j] != goal
    requires SteplistReads(grid, d, Walk(d, r0, k), goal, Trail(d, r0, k)) == Some(Ok(p))
    ensures |p| >= 2 && p[0] == Tile(r0) && p[|p| - 1] == goal
  {
    var t, cells := Trail(d, r0, k), Entered(d, Walk(d, r0, k));
    var n := ListStopShape(grid, cells, goal, t, p);
    TrailShape(d, r0, k);
    assert Trail(d, r0, k + 1) == t + cells;
    assert OpenBeforeGoal(grid, Trail(d, r0, k + 1)[1..], goal);
    StopAtGoal(grid, t, cells, goal, n, p);
  }

  /** A list t + cells[..n] that stops at a solid cell or the goal, after a
      goal-free t and goal-free cells, on a path open to the goal, ends at
      the goal. */
  lemma StopAtGoal(grid: Grid, t: seq<Step>, cells: seq<Step>, goal: Step, n: nat, p: seq<Step>)
    requires |t| >= 1 && OpenBeforeGoal(grid, (t + cells)[1..], goal)
    requires forall j | 0 < j < |t| :: t[j] != goal
    requires 1 <= n <= |cells| && p == t + cells[..n]
    requires forall i | 0 <= i < n - 1 :: cells[i] != goal
    requires IsSolid(grid, cells[n - 1]) || cells[n - 1] == goal
    ensures |p| >= 2 && p[0] == t[0] && p[|p| - 1] == goal
  {
    if cells[n - 1] != goal {
      assert (t + cells)[1..] == t[1..] + cells;
      assert goal !in t[1..] by {
        forall j | 0 <= j < |t[1..]| ensures t[1..][j] != goal { assert t[1..][j] == t[j + 1]; }
      }
      OpenBeforeGoalAt(grid, t[1..], cells, goal, n);
    }
  }

  /** The list of a stop moves on at every cell when every position up
      to it is at least 1 on both axes. */
  lemma StopMoves(grid: Grid, d: Dir, r0: Ray, goal: Step, k: nat, p: seq<Step>)
    requires ValidDir(d)
    requires ListReads(grid, Entered(d, Walk(d, r0, k)), goal, Trail(d, r0, k)) == Some(Ok(p))
    requires ClearOfEdge(d, r0, k + 1)
    ensures Moving(p)
  {
    var t, cells := Trail(d, r0, k), Entered(d, Walk(d, r0, k));
    var n := ListStopShape(grid, cells, goal, t, p);
    TrailMoves(d, r0, k + 1);
    JoinPrefixMoves(Trail(d, r0, k + 1), t, cells, n, p);
  }

  /** A list made of a moving list's first part and a prefix of its rest moves. */
  lemma JoinPrefixMoves(q: seq<Step>, t: seq<Step>, cells: seq<Step>, n: nat, p: seq<Step>)
    requires Moving(q) && q == t + cells && n <= |cells| && p == t + cells[..n]
    ensures Moving(p)
  {
    assert p == q[..|t| + n];
    MovingPrefix(q, |t| + n);
  }

  // ---------------------------------------------------- no faults

  /** The grid has at least w columns, each of at least h cells. */
  predicate Covers(grid: Grid, w: int, h: int) {
    |grid| >= w && forall x | 0 <= x < |grid| :: |grid[x]| >= h
  }

  /** Every cell an iteration enters is a neighbour of the current cell. */
  lemma EnteredNearTile(d: Dir, r: Ray)
    requires ValidDir(d)
    ensures forall i | 0 <= i < |Entered(d, r)| :: Near(Entered(d, r)[i], Tile(r))
  {
    UnitStepNear(r.x, d.stepX);
    UnitStepNear(r.y, d.stepY);
  }

  /** From a position inside the rectangle and at least 1 on both axes,
      over a grid one cell larger than the rectangle on each axis, no read
      of the iteration is out of range. */
  lemma NoFaultInside(mapWidth: int, mapHeight: int, grid: Grid, d: Dir, r: Ray, goal: Step, list: seq<Step>)
    requires ValidDir(d) && Covers(grid, mapWidth + 1, mapHeight + 1)
    requires Inside(mapWidth, mapHeight, r) && r.x >= 1.0 && r.y >= 1.0
    ensures !ListReads(grid, Entered(d, r), goal, list).Some? || ListReads(grid, Entered(d, r), goal, list).value.Ok?
  {
    var cells := Entered(d, r);
    EnteredNearTile(d, r);
    ExamineMeaning(grid, cells, Some(goal));
    forall i | 0 <= i < |cells|
      ensures InGrid(grid, cells[i])
    {
      assert Near(cells[i], Tile(r));
    }
  }

  /** The round trip of castSteplist without faults: under the conditions
      of CastSteplistReachesTarget, over a grid one cell larger than the
      rectangle on each axis, castSteplist returns a list, and that list
      ends at the target tile. */
  lemma CastSteplistFindsTarget(sx: real, sy: real, tx: real, ty: real, mapWidth: int, mapHeight: int,
                                grid: Grid, r: Result<seq<Step>>)
    requires Geometry(sx, sy, tx, ty, mapWidth, mapHeight)
    requires OpenToGoal(grid, Heading(tx - sx, ty - sy), Origin(sx, sy, tx - sx, ty - sy), TargetTile(tx, ty))
    requires Covers(grid, mapWidth + 1, mapHeight + 1)
    requires CastSteplistSpec(sx, sy, tx, ty, mapWidth, mapHeight, grid, r)
    ensures r.Ok? && |r.value| >= 1 && r.value[|r.value| - 1] == TargetTile(tx, ty)
  {
    if TargetTile(sx, sy) != TargetTile(tx, ty) {
      var k: nat :| SteplistEvent(sx, sy, tx, ty, mapWidth, mapHeight, grid, k) == Some(r) &&
        forall i: nat | i < k :: SteplistEvent(sx, sy, tx, ty, mapWidth, mapHeight, grid, i).None?;
      var m := WalkReachesTarget(sx, sy, tx, ty, mapWidth, mapHeight);
      var d, r0, goal := Heading(tx - sx, ty - sy), Origin(sx, sy, tx - sx, ty - sy), TargetTile(tx, ty);
      forall i: nat | i <= k
        ensures SteplistEvent(sx, sy, tx, ty, mapWidth, mapHeight, grid, i) ==
                SteplistOn(mapWidth, mapHeight, grid, d, r0, goal, i)
      {
      }
      assert Walk(d, r0, m) == Toward(sx, sy, tx, ty, m);
      StopNoLater(mapWidth, mapHeight, grid, d, r0, goal, k, m);
      assert Walk(d, r0, k) == Toward(sx, sy, tx, ty, k);
      NoFaultInside(mapWidth, mapHeight, grid, d, Walk(d, r0, k), goal, Trail(d, r0, k));
      CastSteplistReachesTarget(sx, sy, tx, ty, mapWidth, mapHeight, grid, r.value);
    }
  }
}
