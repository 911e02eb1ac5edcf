/** Properties of the three RayCaster queries, proved on their
    specifications in RayCasterSpec (which the methods of RayCaster meet):
    each query has exactly one result, each kind of result means what
    the queries' names and sentinels promise, and rayBlocked agrees with
    castSteplist. */
module RayCasterProperties {
  import opened Numerics
  import opened Outcomes
  import opened Traversal
  import opened RayCasterSpec

  /** The ray state at the head of iteration k of a query from (sx, sy)
      along the vector (vx, vy). */
  function Position(sx: real, sy: real, vx: real, vy: real, k: nat): Ray {
    Walk(Heading(vx, vy), Origin(sx, sy, vx, vy), k)
  }

  /** Every cell is open and none is the goal. */
  ghost predicate AllOpen(grid: Grid, cells: seq<Step>, goal: Option<Step>) {
    forall i | 0 <= i < |cells| :: IsOpen(grid, cells[i]) && goal != Some(cells[i])
  }

  /** Cell j is where a reader of cells looking for goal stops at a solid
      cell: it is solid, and every cell before it is open and not the goal. */
  ghost predicate SolidFirst(grid: Grid, cells: seq<Step>, goal: Option<Step>, j: int) {
    0 <= j < |cells| && IsSolid(grid, cells[j]) && AllOpen(grid, cells[..j], goal)
  }

  /** Cell j is where a reader of cells looking for goal faults: it lies
      outside the grid, and every cell before it is open and not the goal. */
  ghost predicate FaultFirst(grid: Grid, cells: seq<Step>, goal: Option<Step>, j: int) {
    0 <= j < |cells| && !InGrid(grid, cells[j]) && AllOpen(grid, cells[..j], goal)
  }

  /** The iteration from r enters a solid cell, and it meets that cell
      before any cell outside the grid, any other solid cell and the goal. */
  ghost predicate SolidEntered(grid: Grid, d: Dir, r: Ray, goal: Option<Step>)
    requires ValidDir(d)
  {
    exists j :: SolidFirst(grid, Entered(d, r), goal, j)
  }

  /** Examine passes exactly when every cell is open and not the goal. */
  lemma ExaminePass(grid: Grid, cells: seq<Step>, goal: Option<Step>)
    ensures Examine(grid, cells, goal).Pass? <==> AllOpen(grid, cells, goal)
  {
    ExamineMeaning(grid, cells, goal);
  }

  /** A solid stop of Examine is at the first cell that stops the reader. */
  lemma ExamineSolidFirst(grid: Grid, cells: seq<Step>, goal: Option<Step>)
    requires Examine(grid, cells, goal).Stop? && Examine(grid, cells, goal).solid
    ensures SolidFirst(grid, cells, goal, Examine(grid, cells, goal).len - 1)
  {
    ExamineMeaning(grid, cells, goal);
    var n := Examine(grid, cells, goal).len - 1;
    forall i | 0 <= i < n
      ensures IsOpen(grid, cells[..n][i]) && goal != Some(cells[..n][i])
    {
      assert cells[..n][i] == cells[i];
    }
  }

  /** A fault of Examine is at the first cell out of range. */
  lemma {:induction false} ExamineFaultFirst(grid: Grid, cells: seq<Step>, goal: Option<Step>) returns (j: nat)
    requires Examine(grid, cells, goal).Fault?
    ensures FaultFirst(grid, cells, goal, j)
    ensures cells[j] == Step(Examine(grid, cells, goal).x, Examine(grid, cells, goal).y)
  {
    if !InGrid(grid, cells[0]) {
      j := 0;
    } else {
      var j' := ExamineFaultFirst(grid, cells[1..], goal);
      j := j' + 1;
      forall i | 0 <= i < j
        ensures IsOpen(grid, cells[..j][i]) && goal != Some(cells[..j][i])
      {
        if i > 0 {
          assert cells[..j][i] == cells[1..][..j'][i - 1];
        }
      }
    }
  }

  // ---------------------------------------------------- setup and step

  /** The first boundary of an integer coordinate: stepping up it is the
      next integer (64.0 gives 65), stepping down it is the coordinate. */
  lemma IntegerStartBoundary(n: int)
    ensures FirstBoundary(n as real, 1) == n + 1
    ensures FirstBoundary(n as real, -1) == n
  {
  }

  /** One iteration moves an axis exactly when the branch is not the
      other axis's, by one cell in its step direction, and the tMax of
      exactly the moved axes grows by their tDelta. */
  lemma StepRule(d: Dir, r: Ray)
    requires ValidDir(d)
    ensures Next(d, r).x != r.x <==> Choose(r) != AlongY
    ensures Next(d, r).y != r.y <==> Choose(r) != AlongX
    ensures Next(d, r).tMaxX == if Next(d, r).x != r.x then Add(r.tMaxX, d.tDeltaX) else r.tMaxX
    ensures Next(d, r).tMaxY == if Next(d, r).y != r.y then Add(r.tMaxY, d.tDeltaY) else r.tMaxY
  {
  }

  // ------------------------------------------------------- castMaxSteps

  /** castMaxSteps has exactly one result. */
  lemma CastMaxStepsDeterministic(sx: real, sy: real, vx: real, vy: real, mapWidth: int, mapHeight: int,
                                  grid: Grid, maxSteps: int, r1: Result<int>, r2: Result<int>)
    requires CastMaxStepsSpec(sx, sy, vx, vy, mapWidth, mapHeight, grid, maxSteps, r1)
    requires CastMaxStepsSpec(sx, sy, vx, vy, mapWidth, mapHeight, grid, maxSteps, r2)
    ensures r1 == r2
  {
    if maxSteps != 1 {
      var k1: nat :| MaxStepsEvent(sx, sy, vx, vy, mapWidth, mapHeight, grid, maxSteps, k1) == Some(r1) &&
        forall i: nat | i < k1 :: MaxStepsEvent(sx, sy, vx, vy, mapWidth, mapHeight, grid, maxSteps, i).None?;
      var k2: nat :| MaxStepsEvent(sx, sy, vx, vy, mapWidth, mapHeight, grid, maxSteps, k2) == Some(r2) &&
        forall i: nat | i < k2 :: MaxStepsEvent(sx, sy, vx, vy, mapWidth, mapHeight, grid, maxSteps, i).None?;
      assert k1 == k2;
    }
  }

  /** When no iteration before k stopped, every earlier position was
      inside the rectangle and the counter never met maxSteps: either
      maxSteps is below 2 or it is at least the counter k + 2 of
      iteration k. */
  lemma {:induction false} CounterBelowBudget(mapWidth: int, mapHeight: int, grid: Grid, maxSteps: int,
                                              d: Dir, r0: Ray, k: nat)
    requires ValidDir(d)
    requires forall i: nat | i < k :: MaxStepsAt(mapWidth, mapHeight, grid, maxSteps, d, Walk(d, r0, i), i).None?
    ensures maxSteps < 2 || k + 2 <= maxSteps
    ensures forall i: nat | i < k :: Inside(mapWidth, mapHeight, Walk(d, r0, i))
  {
    if k > 0 {
      CounterBelowBudget(mapWidth, mapHeight, grid, maxSteps, d, r0, k - 1);
      assert MaxStepsAt(mapWidth, mapHeight, grid, maxSteps, d, Walk(d, r0, k - 1), k - 1).None?;
    }
  }

  /** A reader meets the first solid cell j and stops there. */
  lemma {:induction false} SolidFirstStops(grid: Grid, cells: seq<Step>, goal: Option<Step>, j: int)
    requires SolidFirst(grid, cells, goal, j)
    ensures Examine(grid, cells, goal) == Stop(j + 1, true)
  {
    if j > 0 {
      assert cells[..j][0] == cells[0];
      assert cells[1..][..j - 1] == cells[..j][1..];
      SolidFirstStops(grid, cells[1..], goal, j - 1);
      ExamineSkip(grid, cells, goal);
    }
  }

  /** A reader meets the first cell j outside the grid and faults there. */
  lemma {:induction false} FaultFirstStops(grid: Grid, cells: seq<Step>, goal: Option<Step>, j: int)
    requires FaultFirst(grid, cells, goal, j)
    ensures Examine(grid, cells, goal) == Fault(cells[j].x, cells[j].y)
  {
    if j > 0 {
      assert cells[..j][0] == cells[0];
      assert cells[1..][..j - 1] == cells[..j][1..];
      FaultFirstStops(grid, cells[1..], goal, j - 1);
      ExamineSkip(grid, cells, goal);
    }
  }

  /** Iteration i of castMaxSteps goes on: its position is inside the
      rectangle, its counter i + 2 is not maxSteps, and every cell it enters
      is open. */
  ghost predicate MaxStepsPasses(mapWidth: int, mapHeight: int, grid: Grid, maxSteps: int, d: Dir, r0: Ray, i: nat)
    requires ValidDir(d)
  {
    Inside(mapWidth, mapHeight, Walk(d, r0, i)) && i + 2 != maxSteps && AllOpen(grid, Entered(d, Walk(d, r0, i)), None)
  }

  /** Every iteration before k of castMaxSteps goes on. */
  ghost predicate MaxStepsPassesBefore(mapWidth: int, mapHeight: int, grid: Grid, maxSteps: int, d: Dir, r0: Ray, k: nat)
    requires ValidDir(d)
  {
    forall i: nat | i < k :: MaxStepsPasses(mapWidth, mapHeight, grid, maxSteps, d, r0, i)
  }

  /** An iteration of castMaxSteps goes on exactly when it passes. */
  lemma MaxStepsPassMeaning(mapWidth: int, mapHeight: int, grid: Grid, maxSteps: int, d: Dir, r0: Ray, i: nat)
    requires ValidDir(d)
    ensures MaxStepsAt(mapWidth, mapHeight, grid, maxSteps, d, Walk(d, r0, i), i).None? <==>
            MaxStepsPasses(mapWidth, mapHeight, grid, maxSteps, d, r0, i)
  {
    ExaminePass(grid, Entered(d, Walk(d, r0, i)), None);
  }

  /** The result kinds of castMaxSteps on heading d from origin r0, each
      after iterations 0 to k - 1 that all went on (inside the rectangle,
      below the budget, every entered cell open):
      - a step count is at least 2, is the counter k + 2 of iteration k,
        inside the rectangle, whose reads meet a solid cell j before any
        cell outside the grid, and is below maxSteps whenever maxSteps >= 1;
      - -2 (NO_HIT) comes from the first position outside the open rectangle;
      - -1 (BUDGET_REACHED) is returned when maxSteps == 1, or inside the
        rectangle at the iteration whose counter k + 2 equals maxSteps;
      - OutOfBounds names the first cell of iteration k outside the grid,
        read before any solid cell, and needs maxSteps != 1. */
  ghost predicate MaxStepsOutcome(mapWidth: int, mapHeight: int, grid: Grid, maxSteps: int,
                                  d: Dir, r0: Ray, r: Result<int>)
    requires ValidDir(d)
  {
    (r.Ok? ==> r.value == BUDGET_REACHED || r.value == NO_HIT || r.value >= 2) &&
    (r.Ok? && r.value >= 2 ==> exists k: nat, j ::
       r.value == k + 2 && MaxStepsPassesBefore(mapWidth, mapHeight, grid, maxSteps, d, r0, k) &&
       Inside(mapWidth, mapHeight, Walk(d, r0, k)) && SolidFirst(grid, Entered(d, Walk(d, r0, k)), None, j) &&
       (maxSteps >= 1 ==> k + 2 < maxSteps)) &&
    (r == Ok(NO_HIT) ==> maxSteps != 1 && exists k: nat ::
       MaxStepsPassesBefore(mapWidth, mapHeight, grid, maxSteps, d, r0, k) &&
       !Inside(mapWidth, mapHeight, Walk(d, r0, k))) &&
    (r == Ok(BUDGET_REACHED) ==> maxSteps == 1 || exists k: nat ::
       MaxStepsPassesBefore(mapWidth, mapHeight, grid, maxSteps, d, r0, k) &&
       k + 2 == maxSteps && Inside(mapWidth, mapHeight, Walk(d, r0, k))) &&
    (r.OutOfBounds? ==> maxSteps != 1 && exists k: nat, j ::
       MaxStepsPassesBefore(mapWidth, mapHeight, grid, maxSteps, d, r0, k) &&
       Inside(mapWidth, mapHeight, Walk(d, r0, k)) && k + 2 != maxSteps &&
       FaultFirst(grid, Entered(d, Walk(d, r0, k)), None, j) && Entered(d, Walk(d, r0, k))[j] == Step(r.x, r.y))
  }

  /** The first stopping iteration k of castMaxSteps, on any heading d
      and origin r0, returns one of the outcomes MaxStepsOutcome lists. */
  lemma MaxStepsOutcomesOn(mapWidth: int, mapHeight: int, grid: Grid, maxSteps: int,
                           d: Dir, r0: Ray, k: nat, r: Result<int>)
    requires ValidDir(d) && maxSteps != 1
    requires MaxStepsAt(mapWidth, mapHeight, grid, maxSteps, d, Walk(d, r0, k), k) == Some(r)
    requires forall i: nat | i < k :: MaxStepsAt(mapWidth, mapHeight, grid, maxSteps, d, Walk(d, r0, i), i).None?
    ensures MaxStepsOutcome(mapWidth, mapHeight, grid, maxSteps, d, r0, r)
  {
    CounterBelowBudget(mapWidth, mapHeight, grid, maxSteps, d, r0, k);
    GoOnPasses(mapWidth, mapHeight, grid, maxSteps, d, r0, k);
    var p := Walk(d, r0, k);
    if Inside(mapWidth, mapHeight, p) && k + 2 != maxSteps {
      ReadsOutcome(mapWidth, mapHeight, grid, maxSteps, d, r0, k, r);
    }
  }

  /** Iterations that do not stop pass. */
  lemma GoOnPasses(mapWidth: int, mapHeight: int, grid: Grid, maxSteps: int, d: Dir, r0: Ray, k: nat)
    requires ValidDir(d)
    requires forall i: nat | i < k :: MaxStepsAt(mapWidth, mapHeight, grid, maxSteps, d, Walk(d, r0, i), i).None?
    ensures MaxStepsPassesBefore(mapWidth, mapHeight, grid, maxSteps, d, r0, k)
  {
    forall i: nat | i < k
      ensures MaxStepsPasses(mapWidth, mapHeight, grid, maxSteps, d, r0, i)
    {
      MaxStepsPassMeaning(mapWidth, mapHeight, grid, maxSteps, d, r0, i);
    }
  }

  /** A stop of iteration k's reads, after iterations that passed, is a
      count or a fault as MaxStepsOutcome lists them. */
  lemma ReadsOutcome(mapWidth: int, mapHeight: int, grid: Grid, maxSteps: int, d: Dir, r0: Ray, k: nat, r: Result<int>)
    requires ValidDir(d) && maxSteps != 1 && (maxSteps < 2 || k + 2 <= maxSteps) && k + 2 != maxSteps
    requires MaxStepsPassesBefore(mapWidth, mapHeight, grid, maxSteps, d, r0, k)
    requires Inside(mapWidth, mapHeight, Walk(d, r0, k))
    requires MaxStepsReads(grid, d, Walk(d, r0, k), k + 2) == Some(r)
    ensures MaxStepsOutcome(mapWidth, mapHeight, grid, maxSteps, d, r0, r)
  {
    var p := Walk(d, r0, k);
    MaxStepsReadStop(grid, d, p, k + 2, r);
    if r.Ok? {
      var j :| SolidFirst(grid, Entered(d, p), None, j);
      assert r.value == k + 2 && MaxStepsPassesBefore(mapWidth, mapHeight, grid, maxSteps, d, r0, k) &&
        Inside(mapWidth, mapHeight, Walk(d, r0, k)) && SolidFirst(grid, Entered(d, Walk(d, r0, k)), None, j) &&
        (maxSteps >= 1 ==> k + 2 < maxSteps);
    } else {
      var j :| FaultFirst(grid, Entered(d, p), None, j) && Entered(d, p)[j] == Step(r.x, r.y);
      assert MaxStepsPassesBefore(mapWidth, mapHeight, grid, maxSteps, d, r0, k) &&
        Inside(mapWidth, mapHeight, Walk(d, r0, k)) && k + 2 != maxSteps &&
        FaultFirst(grid, Entered(d, Walk(d, r0, k)), None, j) && Entered(d, Walk(d, r0, k))[j] == Step(r.x, r.y);
    }
  }

  /** Every result of castMaxSteps is one of the outcomes MaxStepsOutcome
      lists for the ray from (sx, sy) along (vx, vy). */
  lemma CastMaxStepsOutcomes(sx: real, sy: real, vx: real, vy: real, mapWidth: int, mapHeight: int,
                             grid: Grid, maxSteps: int, r: Result<int>)
    requires CastMaxStepsSpec(sx, sy, vx, vy, mapWidth, mapHeight, grid, maxSteps, r)
    ensures MaxStepsOutcome(mapWidth, mapHeight, grid, maxSteps, Heading(vx, vy), Origin(sx, sy, vx, vy), r)
  {
    if maxSteps != 1 {
      var k: nat :| MaxStepsEvent(sx, sy, vx, vy, mapWidth, mapHeight, grid, maxSteps, k) == Some(r) &&
        forall i: nat | i < k :: MaxStepsEvent(sx, sy, vx, vy, mapWidth, mapHeight, grid, maxSteps, i).None?;
      var d, r0 := Heading(vx, vy), Origin(sx, sy, vx, vy);
      forall i: nat | i <= k
        ensures MaxStepsEvent(sx, sy, vx, vy, mapWidth, mapHeight, grid, maxSteps, i) ==
                MaxStepsAt(mapWidth, mapHeight, grid, maxSteps, d, Walk(d, r0, i), i)
      {
      }
      MaxStepsOutcomesOn(mapWidth, mapHeight, grid, maxSteps, d, r0, k, r);
    }
  }

  /** Iterations that pass do not stop. */
  lemma PassesGoOn(mapWidth: int, mapHeight: int, grid: Grid, maxSteps: int, d: Dir, r0: Ray, k: nat)
    requires ValidDir(d) && MaxStepsPassesBefore(mapWidth, mapHeight, grid, maxSteps, d, r0, k)
    ensures forall i: nat | i < k :: MaxStepsAt(mapWidth, mapHeight, grid, maxSteps, d, Walk(d, r0, i), i).None?
  {
    forall i: nat | i < k
      ensures MaxStepsAt(mapWidth, mapHeight, grid, maxSteps, d, Walk(d, r0, i), i).None?
    {
      MaxStepsPassMeaning(mapWidth, mapHeight, grid, maxSteps, d, r0, i);
    }
  }

  /** Reads that meet a solid cell first stop with the counter; reads that
      meet a cell outside the grid first stop with that fault. */
  lemma CountReadsStop(grid: Grid, cells: seq<Step>, n: int, j: int)
    requires SolidFirst(grid, cells, None, j) || FaultFirst(grid, cells, None, j)
    ensures SolidFirst(grid, cells, None, j) ==> CountReads(grid, cells, n) == Some(Ok(n))
    ensures FaultFirst(grid, cells, None, j) ==> CountReads(grid, cells, n) == Some(OutOfBounds(cells[j].x, cells[j].y))
  {
    if SolidFirst(grid, cells, None, j) {
      SolidFirstStops(grid, cells, None, j);
    } else {
      FaultFirstStops(grid, cells, None, j);
    }
  }

  /** The converse of MaxStepsOutcomesOn: an outcome MaxStepsOutcome
      lists is the result of the first stopping iteration. */
  lemma MaxStepsOutcomeStops(mapWidth: int, mapHeight: int, grid: Grid, maxSteps: int,
                             d: Dir, r0: Ray, r: Result<int>) returns (k: nat)
    requires ValidDir(d) && maxSteps != 1
    requires MaxStepsOutcome(mapWidth, mapHeight, grid, maxSteps, d, r0, r)
    ensures MaxStepsAt(mapWidth, mapHeight, grid, maxSteps, d, Walk(d, r0, k), k) == Some(r)
    ensures forall i: nat | i < k :: MaxStepsAt(mapWidth, mapHeight, grid, maxSteps, d, Walk(d, r0, i), i).None?
  {
    if r.OutOfBounds? {
      k := FaultOutcomeStops(mapWidth, mapHeight, grid, maxSteps, d, r0, r);
    } else if r.value >= 2 {
      k := CountOutcomeStops(mapWidth, mapHeight, grid, maxSteps, d, r0, r);
    } else {
      k :| MaxStepsPassesBefore(mapWidth, mapHeight, grid, maxSteps, d, r0, k) &&
        (if r.value == NO_HIT then !Inside(mapWidth, mapHeight, Walk(d, r0, k))
         else k + 2 == maxSteps && Inside(mapWidth, mapHeight, Walk(d, r0, k)));
    }
    PassesGoOn(mapWidth, mapHeight, grid, maxSteps, d, r0, k);
  }

  /** The iteration of a fault that MaxStepsOutcome lists. */
  lemma FaultOutcomeStops(mapWidth: int, mapHeight: int, grid: Grid, maxSteps: int,
                          d: Dir, r0: Ray, r: Result<int>) returns (k: nat)
    requires ValidDir(d) && r.OutOfBounds?
    requires MaxStepsOutcome(mapWidth, mapHeight, grid, maxSteps, d, r0, r)
    ensures MaxStepsPassesBefore(mapWidth, mapHeight, grid, maxSteps, d, r0, k)
    ensures MaxStepsAt(mapWidth, mapHeight, grid, maxSteps, d, Walk(d, r0, k), k) == Some(r)
  {
    var j;
    k, j :| MaxStepsPassesBefore(mapWidth, mapHeight, grid, maxSteps, d, r0, k) &&
      Inside(mapWidth, mapHeight, Walk(d, r0, k)) && k + 2 != maxSteps &&
      FaultFirst(grid, Entered(d, Walk(d, r0, k)), None, j) && Entered(d, Walk(d, r0, k))[j] == Step(r.x, r.y);
    CountReadsStop(grid, Entered(d, Walk(d, r0, k)), k + 2, j);
  }

  /** The iteration of a step count that MaxStepsOutcome lists. */
  lemma CountOutcomeStops(mapWidth: int, mapHeight: int, grid: Grid, maxSteps: int,
                          d: Dir, r0: Ray, r: Result<int>) returns (k: nat)
    requires ValidDir(d) && r.Ok?
    requires exists k: nat, j ::
       r.value == k + 2 && MaxStepsPassesBefore(mapWidth, mapHeight, grid, maxSteps, d, r0, k) &&
       Inside(mapWidth, mapHeight, Walk(d, r0, k)) && SolidFirst(grid, Entered(d, Walk(d, r0, k)), None, j) &&
       (maxSteps >= 1 ==> k + 2 < maxSteps)
    ensures MaxStepsPassesBefore(mapWidth, mapHeight, grid, maxSteps, d, r0, k)
    ensures MaxStepsAt(mapWidth, mapHeight, grid, maxSteps, d, Walk(d, r0, k), k) == Some(r)
  {
    var j;
    k, j :| r.value == k + 2 && MaxStepsPassesBefore(mapWidth, mapHeight, grid, maxSteps, d, r0, k) &&
      Inside(mapWidth, mapHeight, Walk(d, r0, k)) && SolidFirst(grid, Entered(d, Walk(d, r0, k)), None, j) &&
      (maxSteps >= 1 ==> k + 2 < maxSteps);
    CountStopsAt(mapWidth, mapHeight, grid, maxSteps, d, r0, k, j, r);
  }

  /** An iteration inside the rectangle, below the budget, whose reads meet
      the solid cell j first, stops with its counter. */
  lemma CountStopsAt(mapWidth: int, mapHeight: int, grid: Grid, maxSteps: int, d: Dir, r0: Ray, k: nat, j: int,
                     r: Result<int>)
    requires ValidDir(d) && Inside(mapWidth, mapHeight, Walk(d, r0, k)) && k + 2 != maxSteps
    requires SolidFirst(grid, Entered(d, Walk(d, r0, k)), None, j) && r == Ok(k + 2)
    ensures MaxStepsAt(mapWidth, mapHeight, grid, maxSteps, d, Walk(d, r0, k), k) == Some(r)
  {
    CountReadsStop(grid, Entered(d, Walk(d, r0, k)), k + 2, j);
  }

  /** castMaxSteps returns exactly the outcomes MaxStepsOutcome lists: with
      CastMaxStepsOutcomes, r is the result if and only if it is such an
      outcome. */
  lemma OutcomeIsCastMaxSteps(sx: real, sy: real, vx: real, vy: real, mapWidth: int, mapHeight: int,
                              grid: Grid, maxSteps: int, r: Result<int>)
    requires MaxStepsOutcome(mapWidth, mapHeight, grid, maxSteps, Heading(vx, vy), Origin(sx, sy, vx, vy), r)
    ensures CastMaxStepsSpec(sx, sy, vx, vy, mapWidth, mapHeight, grid, maxSteps, r)
  {
    if maxSteps != 1 {
      var d, r0 := Heading(vx, vy), Origin(sx, sy, vx, vy);
      var k := MaxStepsOutcomeStops(mapWidth, mapHeight, grid, maxSteps, d, r0, r);
      forall i: nat | i <= k
        ensures MaxStepsEvent(sx, sy, vx, vy, mapWidth, mapHeight, grid, maxSteps, i) ==
                MaxStepsAt(mapWidth, mapHeight, grid, maxSteps, d, Walk(d, r0, i), i)
      {
      }
      MaxStepsStopsAt(sx, sy, vx, vy, mapWidth, mapHeight, grid, maxSteps, k, r);
    }
  }

  /** What a stop of castMaxSteps' reads means: a count is the counter
      and the reads met a solid cell first; a fault names the first entered
      cell outside the grid, read before any solid cell. */
  lemma MaxStepsReadStop(grid: Grid, d: Dir, p: Ray, n: int, r: Result<int>)
    requires ValidDir(d) && MaxStepsReads(grid, d, p, n) == Some(r)
    ensures r.Ok? ==> r.value == n && SolidEntered(grid, d, p, None)
    ensures r.OutOfBounds? ==> exists j :: FaultFirst(grid, Entered(d, p), None, j) && Entered(d, p)[j] == Step(r.x, r.y)
  {
    var cells := Entered(d, p);
    ExamineMeaning(grid, cells, None);
    var s := Examine(grid, cells, None);
    if s.Stop? {
      ExamineSolidFirst(grid, cells, None);
    } else if s.Fault? {
      var j := ExamineFaultFirst(grid, cells, None);
    }
  }

  /** A ray with a zero y component that steps right keeps tMaxY
      infinite, so every iteration moves the x axis alone, one column. */
  lemma {:induction false} RowWalk(d: Dir, r0: Ray, k: nat)
    requires ValidDir(d) && d.stepX == 1 && d.tDeltaX.Fin? && d.tDeltaY == Inf
    requires r0.tMaxX.Fin? && r0.tMaxY == Inf
    ensures Walk(d, r0, k).x == r0.x + k as real && Walk(d, r0, k).y == r0.y
    ensures Walk(d, r0, k).tMaxX.Fin? && Walk(d, r0, k).tMaxY == Inf
  {
    if k > 0 {
      RowWalk(d, r0, k - 1);
    }
  }

  /** Along a row from column x0 = (int) r0.x, iteration k enters column
      x0 + k + 1 alone. */
  lemma RowEntered(d: Dir, r0: Ray, k: nat)
    requires ValidDir(d) && d.stepX == 1 && d.tDeltaX.Fin? && d.tDeltaY == Inf
    requires r0.tMaxX.Fin? && r0.tMaxY == Inf && r0.x > 0.0
    ensures Walk(d, r0, k).x > 0.0
    ensures Entered(d, Walk(d, r0, k)) == [Step(Trunc(r0.x) + k + 1, Trunc(r0.y))]
  {
    RowWalk(d, r0, k);
    RowWalk(d, r0, k + 1);
  }

  /** Iteration i of castMaxSteps along a row from column x0 = (int) r0.x,
      before or at the one that enters the solid column c: it goes on past
      an open column and stops with the counter i + 2 at column c. */
  lemma RowEvent(mapWidth: int, mapHeight: int, grid: Grid, maxSteps: int, d: Dir, r0: Ray, c: int, i: nat)
    requires ValidDir(d) && d.stepX == 1 && d.tDeltaX.Fin? && d.tDeltaY == Inf
    requires r0.tMaxX.Fin? && r0.tMaxY == Inf
    requires 0.0 < r0.x && 0.0 < r0.y < mapHeight as real && i < c - Trunc(r0.x) <= mapWidth - Trunc(r0.x)
    requires i + 1 < c - Trunc(r0.x) ==> IsOpen(grid, Step(Trunc(r0.x) + i + 1, Trunc(r0.y)))
    requires i + 1 == c - Trunc(r0.x) ==> IsSolid(grid, Step(c, Trunc(r0.y)))
    requires i + 2 != maxSteps
    ensures MaxStepsAt(mapWidth, mapHeight, grid, maxSteps, d, Walk(d, r0, i), i) ==
            if i + 1 < c - Trunc(r0.x) then None else Some(Ok(i + 2))
  {
    RowWalk(d, r0, i);
    RowEntered(d, r0, i);
    assert Inside(mapWidth, mapHeight, Walk(d, r0, i));
    var cell := Step(Trunc(r0.x) + i + 1, Trunc(r0.y));
    assert MaxStepsReads(grid, d, Walk(d, r0, i), i + 2) == CountReads(grid, [cell], i + 2);
    CountReadsCons(grid, [cell], i + 2);
    CountReadsCons(grid, [cell][1..], i + 2);
  }

  /** The counter castMaxSteps returns along a row: moving right from
      (sx, sy), with columns x0 + 1 .. c - 1 of row (int) sy open and
      column c solid, where x0 = (int) sx, the result is c - x0 + 1 (the
      iteration entering column x0 + j has the counter at j + 1), unless
      the budget maxSteps is met first. */
  lemma RowHitCount(sx: real, sy: real, vx: real, mapWidth: int, mapHeight: int, grid: Grid, maxSteps: int, c: int)
    requires vx > 0.0 && 0.0 < sx && 0.0 < sy < mapHeight as real && Trunc(sx) < c <= mapWidth
    requires forall x | Trunc(sx) < x < c :: IsOpen(grid, Step(x, Trunc(sy)))
    requires IsSolid(grid, Step(c, Trunc(sy)))
    requires maxSteps < 1 || c - Trunc(sx) + 1 < maxSteps
    ensures CastMaxStepsSpec(sx, sy, vx, 0.0, mapWidth, mapHeight, grid, maxSteps, Ok(c - Trunc(sx) + 1))
  {
    var d, r0 := Heading(vx, 0.0), Origin(sx, sy, vx, 0.0);
    var x0 := Trunc(sx);
    var k := c - x0 - 1;
    forall i: nat | i <= k
      ensures MaxStepsEvent(sx, sy, vx, 0.0, mapWidth, mapHeight, grid, maxSteps, i) ==
              if i < k then None else Some(Ok(c - x0 + 1))
    {
      if i < k {
        var x := x0 + i + 1;
        assert x0 < x < c;
        assert IsOpen(grid, Step(x, Trunc(sy)));
      }
      RowEvent(mapWidth, mapHeight, grid, maxSteps, d, r0, c, i);
    }
    MaxStepsStopsAt(sx, sy, vx, 0.0, mapWidth, mapHeight, grid, maxSteps, k, Ok(c - x0 + 1));
  }

  // ------------------------------------------------------- castSteplist

  /** castSteplist has exactly one result. */
  lemma CastSteplistDeterministic(sx: real, sy: real, tx: real, ty: real, mapWidth: int, mapHeight: int,
                                  grid: Grid, r1: Result<seq<Step>>, r2: Result<seq<Step>>)
    requires CastSteplistSpec(sx, sy, tx, ty, mapWidth, mapHeight, grid, r1)
    requires CastSteplistSpec(sx, sy, tx, ty, mapWidth, mapHeight, grid, r2)
    ensures r1 == r2
  {
    if TargetTile(sx, sy) != TargetTile(tx, ty) {
      var k1: nat :| SteplistEvent(sx, sy, tx, ty, mapWidth, mapHeight, grid, k1) == Some(r1) &&
        forall i: nat | i < k1 :: SteplistEvent(sx, sy, tx, ty, mapWidth, mapHeight, grid, i).None?;
      var k2: nat :| SteplistEvent(sx, sy, tx, ty, mapWidth, mapHeight, grid, k2) == Some(r2) &&
        forall i: nat | i < k2 :: SteplistEvent(sx, sy, tx, ty, mapWidth, mapHeight, grid, i).None?;
      assert k1 == k2;
    }
  }

  /** The shape of a step list p that castSteplist returns on heading d
      from origin r0 towards the target tile goal (different from the start
      tile): it starts at the start tile and is a chain of neighbouring
      cells; every element between the first and the last was read, is
      open and is not the target; and it ends with a solid cell, with the
      target tile, or with the tile of the first position outside the
      rectangle. */
  ghost predicate SteplistShape(mapWidth: int, mapHeight: int, grid: Grid, d: Dir, r0: Ray, goal: Step,
                                p: seq<Step>)
    requires ValidDir(d)
  {
    |p| >= 1 && p[0] == Tile(r0) && Linked(p) &&
    (forall j | 0 < j < |p| - 1 :: IsOpen(grid, p[j]) && p[j] != goal) &&
    (IsSolid(grid, p[|p| - 1]) || (IsOpen(grid, p[|p| - 1]) && p[|p| - 1] == goal) ||
     exists k: nat ::
       !Inside(mapWidth, mapHeight, Walk(d, r0, k)) && p[|p| - 1] == Tile(Walk(d, r0, k)) &&
       forall i: nat | i < k :: Inside(mapWidth, mapHeight, Walk(d, r0, i)))
  }

  /** When no iteration before k stopped, every cell the list gained
      after the start tile was read open and is not the target tile. */
  lemma {:induction false} TrailOpen(mapWidth: int, mapHeight: int, grid: Grid, d: Dir, r0: Ray, goal: Step, k: nat)
    requires ValidDir(d)
    requires forall i: nat | i < k :: SteplistOn(mapWidth, mapHeight, grid, d, r0, goal, i).None?
    ensures forall j | 0 < j < |Trail(d, r0, k)| :: IsOpen(grid, Trail(d, r0, k)[j]) && Trail(d, r0, k)[j] != goal
  {
    if k > 0 {
      TrailOpen(mapWidth, mapHeight, grid, d, r0, goal, k - 1);
      var q, cells := Trail(d, r0, k - 1), Entered(d, Walk(d, r0, k - 1));
      assert SteplistOn(mapWidth, mapHeight, grid, d, r0, goal, k - 1).None?;
      assert Examine(grid, cells, Some(goal)).Pass?;
      ExamineMeaning(grid, cells, Some(goal));
      var p := Trail(d, r0, k);
      assert p == q + cells;
      forall j | 0 < j < |p|
        ensures IsOpen(grid, p[j]) && p[j] != goal
      {
        if j >= |q| {
          assert p[j] == cells[j - |q|];
        }
      }
    }
  }

  /** A stop of castSteplist's reads of cells after list appends the
      first n cells, of which the last is solid or the goal and the others
      are open and not the goal. */
  lemma ListStopShape(grid: Grid, cells: seq<Step>, goal: Step, list: seq<Step>, p: seq<Step>) returns (n: nat)
    requires ListReads(grid, cells, goal, list) == Some(Ok(p))
    ensures 1 <= n <= |cells| && p == list + cells[..n]
    ensures forall i | 0 <= i < n - 1 :: IsOpen(grid, cells[i]) && cells[i] != goal
    ensures IsSolid(grid, cells[n - 1]) || (IsOpen(grid, cells[n - 1]) && cells[n - 1] == goal)
  {
    ExamineMeaning(grid, cells, Some(goal));
    n := Examine(grid, cells, Some(goal)).len;
  }

  /** The list castSteplist returns at its first stopping iteration k has
      the shape SteplistShape. */
  lemma SteplistShapeOn(mapWidth: int, mapHeight: int, grid: Grid, d: Dir, r0: Ray, goal: Step, k: nat, p: seq<Step>)
    requires ValidDir(d)
    requires SteplistOn(mapWidth, mapHeight, grid, d, r0, goal, k) == Some(Ok(p))
    requires forall i: nat | i < k :: SteplistOn(mapWidth, mapHeight, grid, d, r0, goal, i).None?
    ensures SteplistShape(mapWidth, mapHeight, grid, d, r0, goal, p)
  {
    TrailOpen(mapWidth, mapHeight, grid, d, r0, goal, k);
    if Inside(mapWidth, mapHeight, Walk(d, r0, k)) {
      SteplistStopShape(mapWidth, mapHeight, grid, d, r0, goal, k, p);
    } else {
      TrailShape(d, r0, k);
      forall i: nat | i < k
        ensures Inside(mapWidth, mapHeight, Walk(d, r0, i))
      {
        assert SteplistOn(mapWidth, mapHeight, grid, d, r0, goal, i).None?;
      }
    }
  }

  /** A stop inside the rectangle: the list is the trail so far and the
      entered cells up to the first solid one or the target. */
  lemma SteplistStopShape(mapWidth: int, mapHeight: int, grid: Grid, d: Dir, r0: Ray, goal: Step, k: nat, p: seq<Step>)
    requires ValidDir(d) && Inside(mapWidth, mapHeight, Walk(d, r0, k))
    requires SteplistReads(grid, d, Walk(d, r0, k), goal, Trail(d, r0, k)) == Some(Ok(p))
    requires forall j | 0 < j < |Trail(d, r0, k)| :: IsOpen(grid, Trail(d, r0, k)[j]) && Trail(d, r0, k)[j] != goal
    ensures SteplistShape(mapWidth, mapHeight, grid, d, r0, goal, p)
  {
    var t, cells := Trail(d, r0, k), Entered(d, Walk(d, r0, k));
    var n := ListStopShape(grid, cells, goal, t, p);
    TrailShape(d, r0, k);
    TrailShape(d, r0, k + 1);
    assert Trail(d, r0, k + 1) == t + cells;
    JoinedStopShape(grid, goal, t, cells, n, p);
  }

  /** The list t + cells[..n] when t's elements after the first and
      cells' first n - 1 are open and not the goal. */
  lemma JoinedStopShape(grid: Grid, goal: Step, t: seq<Step>, cells: seq<Step>, n: nat, p: seq<Step>)
    requires |t| >= 1 && Linked(t + cells) && 1 <= n <= |cells| && p == t + cells[..n]
    requires forall j | 0 < j < |t| :: IsOpen(grid, t[j]) && t[j] != goal
    requires forall i | 0 <= i < n - 1 :: IsOpen(grid, cells[i]) && cells[i] != goal
    ensures |p| >= 1 && p[0] == t[0] && p[|p| - 1] == cells[n - 1] && Linked(p)
    ensures forall j | 0 < j < |p| - 1 :: IsOpen(grid, p[j]) && p[j] != goal
  {
    var q := t + cells;
    assert p == q[..|t| + n];
    LinkedPrefix(q, |t| + n);
    forall j | 0 < j < |p| - 1
      ensures IsOpen(grid, p[j]) && p[j] != goal
    {
      if j < |t| {
        assert p[j] == t[j];
      } else {
        assert p[j] == cells[j - |t|];
      }
    }
  }

  /** A prefix of a chain of neighbouring cells is one. */
  lemma LinkedPrefix(q: seq<Step>, m: nat)
    requires Linked(q) && m <= |q|
    ensures Linked(q[..m])
  {
    forall i | 0 < i < m
      ensures Near(q[..m][i - 1], q[..m][i])
    {
      assert q[..m][i - 1] == q[i - 1] && q[..m][i] == q[i];
    }
  }

  /** castSteplist's list is never empty and starts at the start tile; on
      the same tile it is that tile alone, and otherwise it has the shape
      SteplistShape (a chain of neighbouring cells, open and not the target
      between the ends, ending at a solid cell, the target or the exit). */
  lemma CastSteplistShape(sx: real, sy: real, tx: real, ty: real, mapWidth: int, mapHeight: int,
                          grid: Grid, p: seq<Step>)
    requires CastSteplistSpec(sx, sy, tx, ty, mapWidth, mapHeight, grid, Ok(p))
    ensures |p| >= 1 && p[0] == TargetTile(sx, sy)
    ensures TargetTile(sx, sy) == TargetTile(tx, ty) ==> p == [TargetTile(sx, sy)]
    ensures TargetTile(sx, sy) != TargetTile(tx, ty) ==>
      SteplistShape(mapWidth, mapHeight, grid, Heading(tx - sx, ty - sy), Origin(sx, sy, tx - sx, ty - sy),
                    TargetTile(tx, ty), p)
  {
    if TargetTile(sx, sy) != TargetTile(tx, ty) {
      var k: nat :| SteplistEvent(sx, sy, tx, ty, mapWidth, mapHeight, grid, k) == Some(Ok(p)) &&
        forall i: nat | i < k :: SteplistEvent(sx, sy, tx, ty, mapWidth, mapHeight, grid, i).None?;
      var d, r0, goal := Heading(tx - sx, ty - sy), Origin(sx, sy, tx - sx, ty - sy), TargetTile(tx, ty);
      forall i: nat | i <= k
        ensures SteplistEvent(sx, sy, tx, ty, mapWidth, mapHeight, grid, i) ==
                SteplistOn(mapWidth, mapHeight, grid, d, r0, goal, i)
      {
      }
      SteplistShapeOn(mapWidth, mapHeight, grid, d, r0, goal, k, p);
    }
  }

  // --------------------------------------------------------- rayBlocked

  /** rayBlocked has exactly one result. */
  lemma RayBlockedDeterministic(sx: real, sy: real, tx: real, ty: real, mapWidth: int, mapHeight: int,
                                grid: Grid, r1: Result<bool>, r2: Result<bool>)
    requires RayBlockedSpec(sx, sy, tx, ty, mapWidth, mapHeight, grid, r1)
    requires RayBlockedSpec(sx, sy, tx, ty, mapWidth, mapHeight, grid, r2)
    ensures r1 == r2
  {
    if TargetTile(sx, sy) != TargetTile(tx, ty) {
      var k1: nat :| RayBlockedEvent(sx, sy, tx, ty, mapWidth, mapHeight, grid, k1) == Some(r1) &&
        forall i: nat | i < k1 :: RayBlockedEvent(sx, sy, tx, ty, mapWidth, mapHeight, grid, i).None?;
      var k2: nat :| RayBlockedEvent(sx, sy, tx, ty, mapWidth, mapHeight, grid, k2) == Some(r2) &&
        forall i: nat | i < k2 :: RayBlockedEvent(sx, sy, tx, ty, mapWidth, mapHeight, grid, i).None?;
      assert k1 == k2;
    }
  }

  /** On the way to the goal, some iteration k inside the rectangle meets
      a solid cell before any goal cell: every iteration before k is inside
      the rectangle and enters only open cells other than the goal. */
  ghost predicate SolidOnPath(mapWidth: int, mapHeight: int, grid: Grid, d: Dir, r0: Ray, goal: Step)
    requires ValidDir(d)
  {
    exists k: nat ::
      Inside(mapWidth, mapHeight, Walk(d, r0, k)) && SolidEntered(grid, d, Walk(d, r0, k), Some(goal)) &&
      forall i: nat | i < k ::
        Inside(mapWidth, mapHeight, Walk(d, r0, i)) && AllOpen(grid, Entered(d, Walk(d, r0, i)), Some(goal))
  }

  /** A list is open and goal-free exactly when both its parts are. */
  lemma AllOpenJoin(grid: Grid, a: seq<Step>, b: seq<Step>, goal: Option<Step>)
    ensures AllOpen(grid, a + b, goal) <==> AllOpen(grid, a, goal) && AllOpen(grid, b, goal)
  {
    if AllOpen(grid, a, goal) && AllOpen(grid, b, goal) {
      forall i | 0 <= i < |a + b|
        ensures IsOpen(grid, (a + b)[i]) && goal != Some((a + b)[i])
      {
        if i >= |a| {
          assert (a + b)[i] == b[i - |a|];
        }
      }
    }
    if AllOpen(grid, a + b, goal) {
      forall i | 0 <= i < |a|
        ensures IsOpen(grid, a[i]) && goal != Some(a[i])
      {
        assert (a + b)[i] == a[i];
      }
      forall i | 0 <= i < |b|
        ensures IsOpen(grid, b[i]) && goal != Some(b[i])
      {
        assert (a + b)[|a| + i] == b[i];
      }
    }
  }

  /** An iteration of rayBlocked goes on only when every cell it enters is
      open and not the goal. */
  lemma ReadsGoOnOpen(grid: Grid, d: Dir, r: Ray, goal: Step, corner: bool, straight: bool)
    requires ValidDir(d) && RayBlockedReads(grid, d, r, goal, corner, straight).None?
    ensures AllOpen(grid, Entered(d, r), Some(goal))
  {
    var nb, t := Neighbours(d, r), Tile(Next(d, r));
    assert Entered(d, r) == nb + [t];
    ExaminePass(grid, nb, Some(goal));
    ExaminePass(grid, [t], Some(goal));
    AllOpenJoin(grid, nb, [t], Some(goal));
  }

  /** rayBlocked's reads stop blocked only at a solid cell: the i-th cell
      is solid and the ones before it are open and not the goal. */
  lemma BlockReadsTrue(grid: Grid, cells: seq<Step>, goal: Step) returns (i: nat)
    requires BlockReads(grid, cells, goal) == Some(Ok(true))
    ensures i < |cells| && IsSolid(grid, cells[i])
    ensures forall j | 0 <= j < i :: IsOpen(grid, cells[j]) && cells[j] != goal
  {
    ExamineMeaning(grid, cells, Some(goal));
    i := Examine(grid, cells, Some(goal)).len - 1;
  }

  /** One iteration of rayBlocked reports blocked only when a cell it
      enters is solid and is met before any goal cell. */
  lemma ReadsBlockedSolid(grid: Grid, d: Dir, r: Ray, goal: Step, corner: bool, straight: bool)
    requires ValidDir(d) && RayBlockedReads(grid, d, r, goal, corner, straight) == Some(Ok(true))
    ensures SolidEntered(grid, d, r, Some(goal))
  {
    var cells := Entered(d, r);
    var nb := Neighbours(d, r);
    assert cells == nb + [Tile(Next(d, r))];
    if BlockReads(grid, nb, goal).Some? {
      var i := BlockReadsTrue(grid, nb, goal);
      assert cells[i] == nb[i] && cells[..i] == nb[..i];
      assert SolidFirst(grid, cells, Some(goal), i);
    } else {
      var i := BlockReadsTrue(grid, [Tile(Next(d, r))], goal);
      ExaminePass(grid, nb, Some(goal));
      assert cells[|nb|] == Tile(Next(d, r)) && cells[..|nb|] == nb;
      assert SolidFirst(grid, cells, Some(goal), |nb|);
    }
  }

  /** rayBlocked returns true only if a grid read on the path was true:
      on the same tile the target cell is solid; otherwise some iteration
      inside the rectangle met a solid cell before the target tile, after
      iterations that entered only open cells other than the target tile. */
  lemma RayBlockedTrueMeansSolid(sx: real, sy: real, tx: real, ty: real, mapWidth: int, mapHeight: int,
                                 grid: Grid)
    requires RayBlockedSpec(sx, sy, tx, ty, mapWidth, mapHeight, grid, Ok(true))
    ensures TargetTile(sx, sy) == TargetTile(tx, ty) ==> IsSolid(grid, TargetTile(tx, ty))
    ensures TargetTile(sx, sy) != TargetTile(tx, ty) ==>
      SolidOnPath(mapWidth, mapHeight, grid, Heading(tx - sx, ty - sy), Origin(sx, sy, tx - sx, ty - sy),
                  TargetTile(tx, ty))
  {
    if TargetTile(sx, sy) != TargetTile(tx, ty) {
      var k: nat :| RayBlockedEvent(sx, sy, tx, ty, mapWidth, mapHeight, grid, k) == Some(Ok(true)) &&
        forall i: nat | i < k :: RayBlockedEvent(sx, sy, tx, ty, mapWidth, mapHeight, grid, i).None?;
      var d, r0 := Heading(tx - sx, ty - sy), Origin(sx, sy, tx - sx, ty - sy);
      var r := Walk(d, r0, k);
      assert RayBlockedOn(mapWidth, mapHeight, grid, d, r0, TargetTile(tx, ty), TargetIsCorner(tx, ty),
                          StraightPositive(tx - sx, ty - sy), k) == Some(Ok(true));
      ReadsBlockedSolid(grid, d, r, TargetTile(tx, ty), TargetIsCorner(tx, ty), StraightPositive(tx - sx, ty - sy));
      forall i: nat | i < k
        ensures Inside(mapWidth, mapHeight, Walk(d, r0, i))
        ensures AllOpen(grid, Entered(d, Walk(d, r0, i)), Some(TargetTile(tx, ty)))
      {
        assert RayBlockedEvent(sx, sy, tx, ty, mapWidth, mapHeight, grid, i).None?;
        ReadsGoOnOpen(grid, d, Walk(d, r0, i), TargetTile(tx, ty), TargetIsCorner(tx, ty),
                      StraightPositive(tx - sx, ty - sy));
      }
    }
  }

  /** The corner shortcut: when the target is a lattice corner and the
      ray at iteration k (inside the rectangle, at a corner tie) picks the
      target tile as its corner tile, rayBlocked stops unblocked whatever
      the grid holds, without reading a cell. */
  lemma CornerShortcut(sx: real, sy: real, tx: real, ty: real, mapWidth: int, mapHeight: int, grid: Grid, k: nat)
    requires TargetIsCorner(tx, ty)
    requires Inside(mapWidth, mapHeight, Position(sx, sy, tx - sx, ty - sy, k))
    requires Choose(Position(sx, sy, tx - sx, ty - sy, k)) == Corner
    requires CornerTile(Heading(tx - sx, ty - sy), Position(sx, sy, tx - sx, ty - sy, k)) == TargetTile(tx, ty)
    ensures RayBlockedEvent(sx, sy, tx, ty, mapWidth, mapHeight, grid, k) == Some(Ok(false))
  {
  }

  /** Where the corner shortcut fires: the corner the ray is crossing is
      the target point itself (the two first boundaries ahead of the ray),
      reached at ray parameter 1 on every axis that moves. */
  lemma CornerShortcutAtTarget(sx: real, sy: real, tx: real, ty: real, mapWidth: int, mapHeight: int, k: nat)
    requires TargetIsCorner(tx, ty)
    requires Inside(mapWidth, mapHeight, Position(sx, sy, tx - sx, ty - sy, k))
    requires CornerTile(Heading(tx - sx, ty - sy), Position(sx, sy, tx - sx, ty - sy, k)) == TargetTile(tx, ty)
    ensures tx == FirstBoundary(Position(sx, sy, tx - sx, ty - sy, k).x, StepSign(tx - sx)) as real
    ensures ty == FirstBoundary(Position(sx, sy, tx - sx, ty - sy, k).y, StepSign(ty - sy)) as real
    ensures tx != sx ==> Position(sx, sy, tx - sx, ty - sy, k).tMaxX == Fin(1.0)
    ensures ty != sy ==> Position(sx, sy, tx - sx, ty - sy, k).tMaxY == Fin(1.0)
  {
    var d, r := Heading(tx - sx, ty - sy), Position(sx, sy, tx - sx, ty - sy, k);
    TMaxTracksBoundary(sx, sy, tx - sx, ty - sy, k);
    CornerAtTargetOn(sx, sy, tx, ty, d, r);
  }

  /** CornerShortcutAtTarget for any state r satisfying TracksBoundary. */
  lemma CornerAtTargetOn(sx: real, sy: real, tx: real, ty: real, d: Dir, r: Ray)
    requires ValidDir(d) && d.stepX == StepSign(tx - sx) && d.stepY == StepSign(ty - sy)
    requires r.x > 0.0 && r.y > 0.0 && TargetIsCorner(tx, ty) && CornerTile(d, r) == TargetTile(tx, ty)
    requires TracksBoundary(sx, tx - sx, r.x, r.tMaxX) && TracksBoundary(sy, ty - sy, r.y, r.tMaxY)
    ensures tx == FirstBoundary(r.x, d.stepX) as real && ty == FirstBoundary(r.y, d.stepY) as real
    ensures tx != sx ==> r.tMaxX == Fin(1.0)
    ensures ty != sy ==> r.tMaxY == Fin(1.0)
  {
    CornerTileIsCrossing(d, r);
    AxisAtTarget(sx, tx - sx, r.x, r.tMaxX);
    AxisAtTarget(sy, ty - sy, r.y, r.tMaxY);
  }

  /** One axis: when the first boundary ahead of u is the target
      coordinate s + v, a moving axis reaches it at ray parameter 1. */
  lemma AxisAtTarget(s: real, v: real, u: real, t: Ext)
    requires TracksBoundary(s, v, u, t) && s + v == FirstBoundary(u, StepSign(v)) as real
    ensures v != 0.0 ==> t == Fin(1.0)
  {
    if v != 0.0 {
      assert s + t.r * v == s + v;
      UnitParameter(t.r, v);
    }
  }

  /** The ray parameter at which s + t * v reaches s + v is 1. */
  lemma UnitParameter(t: real, v: real)
    requires v != 0.0 && t * v == v
    ensures t == 1.0
  {
    assert (t - 1.0) * v == 0.0;
  }

  // ------------------------------- rayBlocked agrees with castSteplist

  /** rayBlocked's reads of a + b: those of a when they stop, else those of b. */
  lemma {:induction false} BlockReadsAppend(grid: Grid, a: seq<Step>, b: seq<Step>, goal: Step)
    ensures BlockReads(grid, a + b, goal) ==
      if BlockReads(grid, a, goal).Some? then BlockReads(grid, a, goal) else BlockReads(grid, b, goal)
  {
    BlockReadsCons(grid, a, goal);
    if a == [] {
      assert a + b == b;
    } else {
      BlockReadsCons(grid, a + b, goal);
      assert (a + b)[1..] == a[1..] + b;
      BlockReadsAppend(grid, a[1..], b, goal);
    }
  }

  /** Away from a corner target, an iteration of rayBlocked reads the
      cells it enters, front to back. */
  lemma NonCornerReads(grid: Grid, d: Dir, r: Ray, goal: Step, straight: bool)
    requires ValidDir(d)
    ensures RayBlockedReads(grid, d, r, goal, false, straight) == BlockReads(grid, Entered(d, r), goal)
  {
    BlockReadsAppend(grid, Neighbours(d, r), [Tile(Next(d, r))], goal);
  }

  /** A rayBlocked result b matches a castSteplist result s: both fail at
      the same out-of-range cell, or b is true exactly when the list went
      past the start tile and ends at a solid cell. */
  ghost predicate SightMatches(grid: Grid, b: Result<bool>, s: Result<seq<Step>>) {
    (b.OutOfBounds? <==> s.OutOfBounds?) &&
    (b.OutOfBounds? && s.OutOfBounds? ==> b.x == s.x && b.y == s.y) &&
    (b == Ok(true) <==> s.Ok? && |s.value| > 1 && IsSolid(grid, s.value[|s.value| - 1]))
  }

  /** The reads of rayBlocked and of castSteplist over the same cells stop
      together, and then agree. */
  lemma BlockAgreesWithList(grid: Grid, cells: seq<Step>, goal: Step, list: seq<Step>)
    requires |list| >= 1
    ensures BlockReads(grid, cells, goal).None? <==> ListReads(grid, cells, goal, list).None?
    ensures BlockReads(grid, cells, goal).Some? ==>
      SightMatches(grid, BlockReads(grid, cells, goal).value, ListReads(grid, cells, goal, list).value)
  {
    ExamineMeaning(grid, cells, Some(goal));
    var e := Examine(grid, cells, Some(goal));
    if e.Stop? {
      var p := list + cells[..e.len];
      assert p[|p| - 1] == cells[e.len - 1];
    }
  }

  /** Away from a corner target, iteration k of rayBlocked stops exactly
      when iteration k of castSteplist does. */
  lemma StopsTogether(mapWidth: int, mapHeight: int, grid: Grid, d: Dir, r0: Ray, goal: Step, straight: bool, k: nat)
    requires ValidDir(d)
    ensures RayBlockedOn(mapWidth, mapHeight, grid, d, r0, goal, false, straight, k).None? <==>
            SteplistOn(mapWidth, mapHeight, grid, d, r0, goal, k).None?
  {
    var r := Walk(d, r0, k);
    if Inside(mapWidth, mapHeight, r) {
      NonCornerReads(grid, d, r, goal, straight);
      TrailShape(d, r0, k);
      BlockAgreesWithList(grid, Entered(d, r), goal, Trail(d, r0, k));
    }
  }

  /** Away from a corner target, at the first stopping iteration k the
      two results match. At an exit the list ends at a cell that was read
      open (or is the start tile alone), so rayBlocked's false matches. */
  lemma ResultsMatch(mapWidth: int, mapHeight: int, grid: Grid, d: Dir, r0: Ray, goal: Step, straight: bool, k: nat)
    requires ValidDir(d)
    requires forall i: nat | i < k :: SteplistOn(mapWidth, mapHeight, grid, d, r0, goal, i).None?
    requires SteplistOn(mapWidth, mapHeight, grid, d, r0, goal, k).Some?
    requires RayBlockedOn(mapWidth, mapHeight, grid, d, r0, goal, false, straight, k).Some?
    ensures SightMatches(grid, RayBlockedOn(mapWidth, mapHeight, grid, d, r0, goal, false, straight, k).value,
                         SteplistOn(mapWidth, mapHeight, grid, d, r0, goal, k).value)
  {
    var r := Walk(d, r0, k);
    TrailShape(d, r0, k);
    if Inside(mapWidth, mapHeight, r) {
      NonCornerReads(grid, d, r, goal, straight);
      BlockAgreesWithList(grid, Entered(d, r), goal, Trail(d, r0, k));
    } else {
      TrailOpen(mapWidth, mapHeight, grid, d, r0, goal, k);
      var t := Trail(d, r0, k);
      if |t| > 1 {
        assert IsOpen(grid, t[|t| - 1]);
      }
    }
  }

  /** Away from a corner target, a solid cell on the path makes the
      iteration k that enters it stop rayBlocked blocked, after iterations
      that all go on. */
  lemma SolidOnPathBlocksOn(mapWidth: int, mapHeight: int, grid: Grid, d: Dir, r0: Ray, goal: Step,
                            straight: bool) returns (k: nat)
    requires ValidDir(d) && SolidOnPath(mapWidth, mapHeight, grid, d, r0, goal)
    ensures RayBlockedOn(mapWidth, mapHeight, grid, d, r0, goal, false, straight, k) == Some(Ok(true))
    ensures forall i: nat | i < k :: RayBlockedOn(mapWidth, mapHeight, grid, d, r0, goal, false, straight, i).None?
  {
    k :| Inside(mapWidth, mapHeight, Walk(d, r0, k)) && SolidEntered(grid, d, Walk(d, r0, k), Some(goal)) &&
      (forall i: nat | i < k :: Inside(mapWidth, mapHeight, Walk(d, r0, i)) &&
         AllOpen(grid, Entered(d, Walk(d, r0, i)), Some(goal)));
    var p := Walk(d, r0, k);
    var j :| SolidFirst(grid, Entered(d, p), Some(goal), j);
    SolidFirstStops(grid, Entered(d, p), Some(goal), j);
    NonCornerReads(grid, d, p, goal, straight);
    forall i: nat | i < k
      ensures RayBlockedOn(mapWidth, mapHeight, grid, d, r0, goal, false, straight, i).None?
    {
      ExaminePass(grid, Entered(d, Walk(d, r0, i)), Some(goal));
      NonCornerReads(grid, d, Walk(d, r0, i), goal, straight);
    }
  }

  /** For a target that is not a lattice corner, rayBlocked's iterations are
      RayBlockedOn with the corner flag off. */
  lemma NonCornerEvents(sx: real, sy: real, tx: real, ty: real, mapWidth: int, mapHeight: int, grid: Grid)
    requires !TargetIsCorner(tx, ty)
    ensures forall i: nat :: (RayBlockedEvent(sx, sy, tx, ty, mapWidth, mapHeight, grid, i) ==
      RayBlockedOn(mapWidth, mapHeight, grid, Heading(tx - sx, ty - sy), Origin(sx, sy, tx - sx, ty - sy),
                   TargetTile(tx, ty), false, StraightPositive(tx - sx, ty - sy), i))
  {
  }

  /** The converse of RayBlockedTrueMeansSolid for a target that is not a
      lattice corner: a solid cell entered before the target tile makes
      rayBlocked true, so the walk never sees through a wall. */
  lemma SolidOnPathMeansTrue(sx: real, sy: real, tx: real, ty: real, mapWidth: int, mapHeight: int, grid: Grid)
    requires !TargetIsCorner(tx, ty) && TargetTile(sx, sy) != TargetTile(tx, ty)
    requires SolidOnPath(mapWidth, mapHeight, grid, Heading(tx - sx, ty - sy), Origin(sx, sy, tx - sx, ty - sy),
                         TargetTile(tx, ty))
    ensures RayBlockedSpec(sx, sy, tx, ty, mapWidth, mapHeight, grid, Ok(true))
  {
    var k := SolidOnPathBlocksOn(mapWidth, mapHeight, grid, Heading(tx - sx, ty - sy), Origin(sx, sy, tx - sx, ty - sy),
                                 TargetTile(tx, ty), StraightPositive(tx - sx, ty - sy));
    NonCornerEvents(sx, sy, tx, ty, mapWidth, mapHeight, grid);
    RayBlockedStopsAt(sx, sy, tx, ty, mapWidth, mapHeight, grid, k, Ok(true));
  }

  /** For a target that is not a lattice corner and lies on another tile,
      rayBlocked is true exactly when a solid cell is entered before the
      target tile is reached. */
  lemma RayBlockedIffSolidOnPath(sx: real, sy: real, tx: real, ty: real, mapWidth: int, mapHeight: int,
                                 grid: Grid, r: Result<bool>)
    requires !TargetIsCorner(tx, ty) && TargetTile(sx, sy) != TargetTile(tx, ty)
    requires RayBlockedSpec(sx, sy, tx, ty, mapWidth, mapHeight, grid, r)
    ensures r == Ok(true) <==>
      SolidOnPath(mapWidth, mapHeight, grid, Heading(tx - sx, ty - sy), Origin(sx, sy, tx - sx, ty - sy),
                  TargetTile(tx, ty))
  {
    if r == Ok(true) {
      RayBlockedTrueMeansSolid(sx, sy, tx, ty, mapWidth, mapHeight, grid);
    }
    if SolidOnPath(mapWidth, mapHeight, grid, Heading(tx - sx, ty - sy), Origin(sx, sy, tx - sx, ty - sy),
                   TargetTile(tx, ty)) {
      SolidOnPathMeansTrue(sx, sy, tx, ty, mapWidth, mapHeight, grid);
      RayBlockedDeterministic(sx, sy, tx, ty, mapWidth, mapHeight, grid, r, Ok(true));
    }
  }

  /** When the target is not a lattice corner, rayBlocked is castSteplist
      with a verdict: both fail at the same out-of-range cell, and
      rayBlocked returns true exactly when castSteplist's list goes past
      the start tile and ends at a solid cell. */
  lemma SightAgreesWithSteplist(sx: real, sy: real, tx: real, ty: real, mapWidth: int, mapHeight: int,
                                grid: Grid, b: Result<bool>, s: Result<seq<Step>>)
    requires !TargetIsCorner(tx, ty) && TargetTile(sx, sy) != TargetTile(tx, ty)
    requires RayBlockedSpec(sx, sy, tx, ty, mapWidth, mapHeight, grid, b)
    requires CastSteplistSpec(sx, sy, tx, ty, mapWidth, mapHeight, grid, s)
    ensures SightMatches(grid, b, s)
  {
    var k1: nat :| RayBlockedEvent(sx, sy, tx, ty, mapWidth, mapHeight, grid, k1) == Some(b) &&
      forall i: nat | i < k1 :: RayBlockedEvent(sx, sy, tx, ty, mapWidth, mapHeight, grid, i).None?;
    var k2: nat :| SteplistEvent(sx, sy, tx, ty, mapWidth, mapHeight, grid, k2) == Some(s) &&
      forall i: nat | i < k2 :: SteplistEvent(sx, sy, tx, ty, mapWidth, mapHeight, grid, i).None?;
    var d, r0, goal := Heading(tx - sx, ty - sy), Origin(sx, sy, tx - sx, ty - sy), TargetTile(tx, ty);
    var straight := StraightPositive(tx - sx, ty - sy);
    forall i: nat
      ensures RayBlockedEvent(sx, sy, tx, ty, mapWidth, mapHeight, grid, i) ==
              RayBlockedOn(mapWidth, mapHeight, grid, d, r0, goal, false, straight, i)
      ensures SteplistEvent(sx, sy, tx, ty, mapWidth, mapHeight, grid, i) ==
              SteplistOn(mapWidth, mapHeight, grid, d, r0, goal, i)
    {
    }
    StopsTogether(mapWidth, mapHeight, grid, d, r0, goal, straight, k1);
    StopsTogether(mapWidth, mapHeight, grid, d, r0, goal, straight, k2);
    assert k1 == k2;
    ResultsMatch(mapWidth, mapHeight, grid, d, r0, goal, straight, k1);
  }
}
