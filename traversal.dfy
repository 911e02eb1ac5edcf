/** The grid traversal (2D DDA) that castMaxSteps, castSteplist and
    rayBlocked share: the per-axis setup, the stepping rule, and the
    trajectory of the ray state over successive loop iterations. */
module Traversal {
  import opened Numerics
  import opened Outcomes

  /** RayCaster.Step: the integer coordinates of one grid cell. */
  datatype Step = Step(x: int, y: int)

  /** The caller's boolean[][] occupancy table, indexed grid[x][y]; true is solid. */
  type Grid = seq<seq<bool>>

  predicate InGrid(grid: Grid, c: Step) {
    0 <= c.x < |grid| && 0 <= c.y < |grid[c.x]|
  }

  predicate IsSolid(grid: Grid, c: Step) {
    InGrid(grid, c) && grid[c.x][c.y]
  }

  predicate IsOpen(grid: Grid, c: Step) {
    InGrid(grid, c) && !grid[c.x][c.y]
  }

  /** The Java access grid[c.x][c.y], which throws when an index is out of range. */
  function Read(grid: Grid, c: Step): (r: Result<bool>)
    ensures r.Ok? <==> InGrid(grid, c)
    ensures r.Ok? ==> (r.value <==> IsSolid(grid, c))
    ensures !r.Ok? ==> r == OutOfBounds(c.x, c.y)
  {
    if InGrid(grid, c) then Ok(grid[c.x][c.y]) else OutOfBounds(c.x, c.y)
  }

  /** The per-call constants: step signs and tDelta per axis. */
  datatype Dir = Dir(stepX: int, stepY: int, tDeltaX: Ext, tDeltaY: Ext)

  /** The loop-carried locals currentX, currentY, tMaxX, tMaxY. */
  datatype Ray = Ray(x: real, y: real, tMaxX: Ext, tMaxY: Ext)

  predicate ValidDir(d: Dir) {
    (d.stepX == 1 || d.stepX == -1) && (d.stepY == 1 || d.stepY == -1)
  }

  /** A position strictly inside the open rectangle (0, mapWidth) x (0, mapHeight):
      the loop guard of all three queries. */
  predicate Inside(mapWidth: int, mapHeight: int, r: Ray) {
    r.x > 0.0 && r.x < mapWidth as real && r.y > 0.0 && r.y < mapHeight as real
  }

  // ---------------------------------------------------------------- setup

  /** The step direction of one axis: zero counts as positive. */
  function StepSign(v: real): (s: int)
    ensures s == -1 <==> v < 0.0
    ensures s == 1 <==> v >= 0.0
  {
    if v < 0.0 then -1 else 1
  }

  /** crossFirstBoundary: the first grid line the ray meets on one axis,
      strictly above u when stepping up, at or below u when stepping down. */
  function FirstBoundary(u: real, step: int): (b: int)
    ensures step > 0 ==> u < b as real <= u + 1.0
    ensures step <= 0 ==> b as real <= u < b as real + 1.0
  {
    if step > 0 then NextUp(u) else MathFloor(u)
  }

  /** tMax = |(crossFirstBoundary - u) / v|: the ray parameter t at which
      u + t * v reaches the first boundary; infinite for a zero component. */
  function InitTMax(u: real, v: real): (t: Ext)
    ensures t.Inf? <==> v == 0.0
    ensures t.Fin? ==> t.r >= 0.0 && u + t.r * v == FirstBoundary(u, StepSign(v)) as real
  {
    var b := FirstBoundary(u, StepSign(v)) as real;
    var t := AbsQuotient(b - u, v);
    assert t.Fin? ==> t.r * v == b - u by {
      if v != 0.0 {
        assert (b - u) / v >= 0.0 by { DivSameSign(b - u, v); }
        assert t.r == (b - u) / v;
      }
    }
    t
  }

  lemma DivSameSign(a: real, v: real)
    requires v != 0.0
    requires (v > 0.0 && a >= 0.0) || (v < 0.0 && a <= 0.0)
    ensures a / v >= 0.0
  {
    if v < 0.0 {
      assert a / v == (-a) / (-v);
    }
  }

  /** tDelta = step * tileWidth / v: the parameter span of one whole cell, always positive. */
  function TDelta(step: int, v: real): (t: Ext)
    requires step == StepSign(v)
    ensures t.Inf? <==> v == 0.0
    ensures t.Fin? ==> t.r > 0.0 && t.r * v == step as real
  {
    if v == 0.0 then Inf else Fin(step as real / v)
  }

  /** The per-call constants for vector (vx, vy). */
  function Heading(vx: real, vy: real): (d: Dir)
    ensures ValidDir(d)
    ensures d.stepX == StepSign(vx) && d.stepY == StepSign(vy)
  {
    Dir(StepSign(vx), StepSign(vy), TDelta(StepSign(vx), vx), TDelta(StepSign(vy), vy))
  }

  /** The ray state before the first iteration, starting at (sx, sy). */
  function Origin(sx: real, sy: real, vx: real, vy: real): Ray {
    Ray(sx, sy, InitTMax(sx, vx), InitTMax(sy, vy))
  }

  // ------------------------------------------------------- stepping rule

  /** The three branches of the stepping rule. */
  datatype Move = Corner | AlongX | AlongY

  /** Which branch an iteration takes: a corner when |tMaxX| equals |tMaxY|
      within EPSILON, otherwise the axis with the smaller |tMax|. The Java
      code has a silent fourth case (neither comparison holds); over exact
      values with one infinity it cannot occur, so every iteration falls
      into exactly one of the three. */
  function Choose(r: Ray): (m: Move)
    ensures m == Corner <==> Equals(Abs(r.tMaxX), Abs(r.tMaxY))
    ensures m == AlongX <==> !Equals(Abs(r.tMaxX), Abs(r.tMaxY)) && Lt(Abs(r.tMaxX), Abs(r.tMaxY))
    ensures m == AlongY <==> !Equals(Abs(r.tMaxX), Abs(r.tMaxY)) && Lt(Abs(r.tMaxY), Abs(r.tMaxX))
  {
    var ax, ay := Abs(r.tMaxX), Abs(r.tMaxY);
    NotEqualsOrdered(ax, ay);
    if Equals(ax, ay) then Corner else if Lt(ax, ay) then AlongX else AlongY
  }

  /** One iteration's move: the chosen axes advance by one whole unit and
      their tMax by tDelta. */
  function Next(d: Dir, r: Ray): (n: Ray)
    requires ValidDir(d)
    ensures n.x == r.x + (if Choose(r) == AlongY then 0.0 else d.stepX as real)
    ensures n.y == r.y + (if Choose(r) == AlongX then 0.0 else d.stepY as real)
    ensures n.x != r.x || n.y != r.y
  {
    match Choose(r)
    case Corner =>
      Ray(r.x + d.stepX as real, r.y + d.stepY as real, Add(r.tMaxX, d.tDeltaX), Add(r.tMaxY, d.tDeltaY))
    case AlongX =>
      r.(x := r.x + d.stepX as real, tMaxX := Add(r.tMaxX, d.tDeltaX))
    case AlongY =>
      r.(y := r.y + d.stepY as real, tMaxY := Add(r.tMaxY, d.tDeltaY))
  }

  /** The stepping rule as the three loops write it, on their locals. */
  method Advance(stepX: int, stepY: int, tDeltaX: Ext, tDeltaY: Ext,
                 currentX: real, currentY: real, tMaxX: Ext, tMaxY: Ext)
    returns (nextX: real, nextY: real, nextTMaxX: Ext, nextTMaxY: Ext)
    requires ValidDir(Dir(stepX, stepY, tDeltaX, tDeltaY))
    ensures Ray(nextX, nextY, nextTMaxX, nextTMaxY) ==
      Next(Dir(stepX, stepY, tDeltaX, tDeltaY), Ray(currentX, currentY, tMaxX, tMaxY))
  {
    nextX, nextY, nextTMaxX, nextTMaxY := currentX, currentY, tMaxX, tMaxY;
    var abstMaxX := Abs(tMaxX);
    var abstMaxY := Abs(tMaxY);
    NotEqualsOrdered(abstMaxX, abstMaxY);
    if Equals(abstMaxX, abstMaxY) {
      nextTMaxX := Add(tMaxX, tDeltaX);
      nextTMaxY := Add(tMaxY, tDeltaY);
      nextX := currentX + stepX as real;
      nextY := currentY + stepY as real;
    } else if Lt(abstMaxX, abstMaxY) {
      nextTMaxX := Add(tMaxX, tDeltaX);
      nextX := currentX + stepX as real;
    } else if Lt(abstMaxY, abstMaxX) {
      nextTMaxY := Add(tMaxY, tDeltaY);
      nextY := currentY + stepY as real;
    } else {
      assert false;
    }
  }

  /** The ray state after k iterations. */
  function Walk(d: Dir, r0: Ray, k: nat): Ray
    requires ValidDir(d)
  {
    if k == 0 then r0 else Next(d, Walk(d, r0, k - 1))
  }

  /** How many of the first k iterations moved the x axis (resp. the y axis). */
  ghost function XMoves(d: Dir, r0: Ray, k: nat): nat
    requires ValidDir(d)
  {
    if k == 0 then 0 else XMoves(d, r0, k - 1) + (if Choose(Walk(d, r0, k - 1)) == AlongY then 0 else 1)
  }

  ghost function YMoves(d: Dir, r0: Ray, k: nat): nat
    requires ValidDir(d)
  {
    if k == 0 then 0 else YMoves(d, r0, k - 1) + (if Choose(Walk(d, r0, k - 1)) == AlongX then 0 else 1)
  }

  /** The position only ever changes by whole units: after k iterations it
      is the start plus XMoves steps in x and YMoves steps in y, and every
      iteration moved at least one axis. */
  lemma {:induction false} WalkWholeUnits(d: Dir, r0: Ray, k: nat)
    requires ValidDir(d)
    ensures Walk(d, r0, k).x == r0.x + (d.stepX * XMoves(d, r0, k)) as real
    ensures Walk(d, r0, k).y == r0.y + (d.stepY * YMoves(d, r0, k)) as real
    ensures XMoves(d, r0, k) <= k && YMoves(d, r0, k) <= k
    ensures k <= XMoves(d, r0, k) + YMoves(d, r0, k)
  {
    if k > 0 {
      WalkWholeUnits(d, r0, k - 1);
    }
  }

  /** A bound on the iterations during which the ray can still be inside
      the rectangle: the loops of all three queries terminate. */
  function Bound(mapWidth: int, mapHeight: int, r0: Ray): int {
    mapWidth + mapHeight + MathFloor(RealAbs(r0.x)) + MathFloor(RealAbs(r0.y)) + 1
  }

  lemma InsideWithinBound(d: Dir, r0: Ray, mapWidth: int, mapHeight: int, k: nat)
    requires ValidDir(d)
    requires Inside(mapWidth, mapHeight, Walk(d, r0, k))
    ensures k < Bound(mapWidth, mapHeight, r0)
  {
    WalkWholeUnits(d, r0, k);
    var nx, ny := XMoves(d, r0, k), YMoves(d, r0, k);
    var fx, fy := MathFloor(RealAbs(r0.x)), MathFloor(RealAbs(r0.y));
    assert nx <= mapWidth + fx;
    assert ny <= mapHeight + fy;
  }

  // ------------------------------------------------------------- cells

  /** The cell (int) currentX, (int) currentY of a position. */
  function Tile(r: Ray): Step {
    Step(Trunc(r.x), Trunc(r.y))
  }

  /** The cell of a position: on non-negative coordinates the unit cell that
      holds it; below zero the index rounds toward zero, so every coordinate
      in (-1, 1) has index 0. */
  lemma TileContains(r: Ray)
    ensures r.x >= 0.0 ==> Tile(r).x as real <= r.x < Tile(r).x as real + 1.0
    ensures r.y >= 0.0 ==> Tile(r).y as real <= r.y < Tile(r).y as real + 1.0
    ensures -1.0 < r.x < 1.0 ==> Tile(r).x == 0
    ensures -1.0 < r.y < 1.0 ==> Tile(r).y == 0
  {
  }

  /** A position that passes the loop guard has a cell that indexes a
      mapWidth by mapHeight grid. */
  lemma InsideTile(mapWidth: int, mapHeight: int, r: Ray)
    requires Inside(mapWidth, mapHeight, r)
    ensures 0 <= Tile(r).x < mapWidth && 0 <= Tile(r).y < mapHeight
  {
  }

  /** The cells checked at a corner before the diagonal move: the x-neighbour,
      then the y-neighbour (none for a single-axis move). */
  function Neighbours(d: Dir, r: Ray): seq<Step>
    requires ValidDir(d)
  {
    if Choose(r) == Corner then
      [Step(Trunc(r.x + d.stepX as real), Trunc(r.y)), Step(Trunc(r.x), Trunc(r.y + d.stepY as real))]
    else []
  }

  /** All cells one iteration visits, in order: the corner neighbours, then
      the cell of the new position. */
  function Entered(d: Dir, r: Ray): (cells: seq<Step>)
    requires ValidDir(d)
    ensures |cells| == if Choose(r) == Corner then 3 else 1
    ensures cells[|cells| - 1] == Tile(Next(d, r))
  {
    Neighbours(d, r) + [Tile(Next(d, r))]
  }

  /** The cells of a corner iteration, on the loops' own locals: the
      x-neighbour, the y-neighbour, then the cell after the move. */
  lemma EnteredCorner(stepX: int, stepY: int, tDeltaX: Ext, tDeltaY: Ext,
                      x: real, y: real, tMaxX: Ext, tMaxY: Ext)
    requires ValidDir(Dir(stepX, stepY, tDeltaX, tDeltaY))
    requires Equals(Abs(tMaxX), Abs(tMaxY))
    ensures var m := Next(Dir(stepX, stepY, tDeltaX, tDeltaY), Ray(x, y, tMaxX, tMaxY));
      Entered(Dir(stepX, stepY, tDeltaX, tDeltaY), Ray(x, y, tMaxX, tMaxY)) ==
        [Step(Trunc(x + stepX as real), Trunc(y)), Step(Trunc(x), Trunc(y + stepY as real)), Step(Trunc(m.x), Trunc(m.y))]
  {
  }

  /** The cell of a single-axis iteration: the one after the move. */
  lemma EnteredSingle(stepX: int, stepY: int, tDeltaX: Ext, tDeltaY: Ext,
                      x: real, y: real, tMaxX: Ext, tMaxY: Ext)
    requires ValidDir(Dir(stepX, stepY, tDeltaX, tDeltaY))
    requires !Equals(Abs(tMaxX), Abs(tMaxY))
    ensures var m := Next(Dir(stepX, stepY, tDeltaX, tDeltaY), Ray(x, y, tMaxX, tMaxY));
      Entered(Dir(stepX, stepY, tDeltaX, tDeltaY), Ray(x, y, tMaxX, tMaxY)) == [Step(Trunc(m.x), Trunc(m.y))]
  {
  }

  /** Two cells that differ by at most one in each coordinate. */
  predicate Near(a: Step, b: Step) {
    -1 <= a.x - b.x <= 1 && -1 <= a.y - b.y <= 1
  }

  predicate Linked(p: seq<Step>) {
    forall i | 0 < i < |p| :: Near(p[i - 1], p[i])
  }

  /** Starting from the current cell, the cells an iteration visits form a
      chain of neighbours; at a corner the diagonal cell comes last. */
  lemma EnteredLinked(d: Dir, r: Ray)
    requires ValidDir(d)
    ensures Linked([Tile(r)] + Entered(d, r))
    ensures Choose(r) == Corner ==>
      Entered(d, r)[2] == Step(Trunc(r.x + d.stepX as real), Trunc(r.y + d.stepY as real))
  {
    CellsNear(r.x, r.y, d.stepX, d.stepY);
    if Choose(r) == Corner {
      CornerLinked(d, r);
    } else {
      assert [Tile(r)] + Entered(d, r) == [Tile(r), Tile(Next(d, r))];
    }
  }

  lemma CornerLinked(d: Dir, r: Ray)
    requires ValidDir(d) && Choose(r) == Corner
    ensures var sx, sy := d.stepX as real, d.stepY as real;
      [Tile(r)] + Entered(d, r) ==
        [Tile(r), Step(Trunc(r.x + sx), Trunc(r.y)), Step(Trunc(r.x), Trunc(r.y + sy)), Step(Trunc(r.x + sx), Trunc(r.y + sy))]
    ensures Linked([Tile(r)] + Entered(d, r))
  {
    var sx, sy := d.stepX as real, d.stepY as real;
    CellsNear(r.x, r.y, d.stepX, d.stepY);
    LinkedFour(Tile(r), Step(Trunc(r.x + sx), Trunc(r.y)), Step(Trunc(r.x), Trunc(r.y + sy)),
               Step(Trunc(r.x + sx), Trunc(r.y + sy)));
  }

  /** The cells around one corner crossing are pairwise neighbours. */
  lemma CellsNear(x: real, y: real, stepX: int, stepY: int)
    requires (stepX == 1 || stepX == -1) && (stepY == 1 || stepY == -1)
    ensures var sx, sy := stepX as real, stepY as real;
      var c, a, b, e := Step(Trunc(x), Trunc(y)), Step(Trunc(x + sx), Trunc(y)), Step(Trunc(x), Trunc(y + sy)),
                        Step(Trunc(x + sx), Trunc(y + sy));
      Near(c, a) && Near(a, b) && Near(b, e) && Near(c, b)
  {
    UnitStepNear(x, stepX);
    UnitStepNear(y, stepY);
  }

  lemma LinkedFour(a: Step, b: Step, c: Step, e: Step)
    requires Near(a, b) && Near(b, c) && Near(c, e)
    ensures Linked([a, b, c, e])
  {
    var p := [a, b, c, e];
    assert p[0] == a && p[1] == b && p[2] == c && p[3] == e;
  }

  /** One unit along an axis moves the cell index by at most one. */
  lemma UnitStepNear(u: real, step: int)
    requires step == 1 || step == -1
    ensures -1 <= Trunc(u + step as real) - Trunc(u) <= 1
  {
    if step == 1 {
      TruncUnitStep(u);
    } else {
      TruncUnitStep(u - 1.0);
    }
  }

  /** The first cells of one iteration that a caster reads, in order: Pass
      when none stops the walk, Stop(n, solid) when the n-th one is solid or
      is the goal (read first, goal second), Fault at an out-of-range read. */
  datatype Scan = Pass | Stop(len: nat, solid: bool) | Fault(x: int, y: int)

  function Examine(grid: Grid, cells: seq<Step>, goal: Option<Step>): (s: Scan)
    ensures s.Stop? ==> 1 <= s.len <= |cells|
  {
    if cells == [] then Pass
    else
      var c := cells[0];
      if !InGrid(grid, c) then Fault(c.x, c.y)
      else if grid[c.x][c.y] then Stop(1, true)
      else if goal == Some(c) then Stop(1, false)
      else
        match Examine(grid, cells[1..], goal)
        case Stop(n, solid) => Stop(n + 1, solid)
        case other => other
  }

  /** What Examine's answer means: Pass when every cell is open and not
      the goal; Stop(n, solid) when the first n - 1 are and the n-th is the
      first solid cell or the goal; Fault at a cell outside the grid. */
  lemma {:induction false} ExamineMeaning(grid: Grid, cells: seq<Step>, goal: Option<Step>)
    ensures var s := Examine(grid, cells, goal);
      (s.Pass? ==> forall i | 0 <= i < |cells| :: IsOpen(grid, cells[i]) && goal != Some(cells[i])) &&
      (s.Stop? ==> forall i | 0 <= i < s.len - 1 :: IsOpen(grid, cells[i]) && goal != Some(cells[i])) &&
      (s.Stop? ==> InGrid(grid, cells[s.len - 1]) && (s.solid <==> IsSolid(grid, cells[s.len - 1]))) &&
      (s.Stop? && !s.solid ==> goal == Some(cells[s.len - 1])) &&
      (s.Fault? ==> Step(s.x, s.y) in cells && !InGrid(grid, Step(s.x, s.y)))
  {
    if cells != [] {
      ExamineMeaning(grid, cells[1..], goal);
    }
  }

  /** Examining past an open cell that is not the goal. */
  lemma ExamineSkip(grid: Grid, cells: seq<Step>, goal: Option<Step>)
    requires cells != [] && IsOpen(grid, cells[0]) && goal != Some(cells[0])
    ensures Examine(grid, cells, goal) ==
      match Examine(grid, cells[1..], goal)
      case Stop(n, solid) => Stop(n + 1, solid)
      case other => other
  {
  }

  // ------------------------------------------------------------ corners

  /** The corner tile rayBlocked picks from the step signs (four cases). */
  function CornerTile(d: Dir, r: Ray): Step
    requires ValidDir(d)
  {
    if d.stepX == -1 && d.stepY == 1 then Step(Trunc(r.x), Trunc(r.y + d.stepY as real))
    else if d.stepX == 1 && d.stepY == 1 then Step(Trunc(r.x + d.stepX as real), Trunc(r.y + d.stepY as real))
    else if d.stepX == 1 && d.stepY == -1 then Step(Trunc(r.x + d.stepX as real), Trunc(r.y))
    else Step(Trunc(r.x), Trunc(r.y))
  }

  /** Inside the rectangle the corner tile is the cell whose lower-left corner
      is the lattice point where the two first boundaries meet, i.e. the
      corner the ray is about to cross. */
  lemma CornerTileIsCrossing(d: Dir, r: Ray)
    requires ValidDir(d) && r.x > 0.0 && r.y > 0.0
    ensures CornerTile(d, r) == Step(FirstBoundary(r.x, d.stepX), FirstBoundary(r.y, d.stepY))
  {
  }

  /** One axis of the boundary relation: tMax is infinite exactly for a zero
      component, and otherwise s + tMax * v is the first boundary ahead of u. */
  predicate TracksBoundary(s: real, v: real, u: real, t: Ext) {
    (t.Inf? <==> v == 0.0) &&
    (t.Fin? ==> t.r >= 0.0 && s + t.r * v == FirstBoundary(u, StepSign(v)) as real)
  }

  /** tMax is the ray parameter of the next boundary: for the ray from
      (sx, sy) along (vx, vy), after any number of iterations,
      sx + tMaxX * vx is the first boundary ahead of the current x (and
      likewise for y); an axis with a zero component keeps tMax infinite. */
  lemma {:induction false} TMaxTracksBoundary(sx: real, sy: real, vx: real, vy: real, k: nat)
    ensures var r := Walk(Heading(vx, vy), Origin(sx, sy, vx, vy), k);
      TracksBoundary(sx, vx, r.x, r.tMaxX) && TracksBoundary(sy, vy, r.y, r.tMaxY)
  {
    if k == 0 {
      assert TracksBoundary(sx, vx, sx, InitTMax(sx, vx));
      assert TracksBoundary(sy, vy, sy, InitTMax(sy, vy));
    } else {
      TMaxTracksBoundary(sx, sy, vx, vy, k - 1);
      NextTracksBoundary(sx, sy, vx, vy, Walk(Heading(vx, vy), Origin(sx, sy, vx, vy), k - 1));
    }
  }

  /** One iteration keeps TracksBoundary on both axes. */
  lemma NextTracksBoundary(sx: real, sy: real, vx: real, vy: real, p: Ray)
    requires TracksBoundary(sx, vx, p.x, p.tMaxX) && TracksBoundary(sy, vy, p.y, p.tMaxY)
    ensures var n := Next(Heading(vx, vy), p);
      TracksBoundary(sx, vx, n.x, n.tMaxX) && TracksBoundary(sy, vy, n.y, n.tMaxY)
  {
    if Choose(p) != AlongY {
      AxisAdvance(sx, vx, p.x, p.tMaxX);
    }
    if Choose(p) != AlongX {
      AxisAdvance(sy, vy, p.y, p.tMaxY);
    }
  }

  /** One axis advancing one cell keeps TracksBoundary. */
  lemma AxisAdvance(s: real, v: real, u: real, t: Ext)
    requires TracksBoundary(s, v, u, t)
    ensures TracksBoundary(s, v, u + StepSign(v) as real, Add(t, TDelta(StepSign(v), v)))
  {
    var st := StepSign(v);
    assert FirstBoundary(u + st as real, st) == FirstBoundary(u, st) + st;
    if v != 0.0 {
      var td := TDelta(st, v).r;
      assert (t.r + td) * v == t.r * v + td * v;
    }
  }
}
