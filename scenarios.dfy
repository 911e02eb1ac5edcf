/** Worked inputs of castSteplist, castMaxSteps and rayBlocked that show how the code walks. */
module RayCasterScenarios {
  import opened Numerics
  import opened Outcomes
  import opened Traversal
  import opened RayCasterSpec
  import opened RayCasterProperties

  /** An open grid of 8 by 8 cells. */
  function OpenGrid(): Grid {
    seq(8, _ => seq(8, _ => false))
  }

  /** The setup of the diagonal ray from (2.5, 2.5) to (5.5, 5.5). */
  lemma DiagonalSetup()
    ensures Heading(3.0, 3.0) == Dir(1, 1, Fin(1.0 / 3.0), Fin(1.0 / 3.0))
    ensures Origin(2.5, 2.5, 3.0, 3.0) == Ray(2.5, 2.5, Fin(1.0 / 6.0), Fin(1.0 / 6.0))
  {
  }

  /** The diagonal walk from (2.5, 2.5) to (5.5, 5.5) goes corner to
      corner, and at every corner the list gets the x-neighbour and the
      y-neighbour before the diagonal cell. */
  lemma DiagonalPath()
    ensures CastSteplistSpec(2.5, 2.5, 5.5, 5.5, 8, 8, OpenGrid(),
      Ok([Step(2, 2), Step(3, 2), Step(2, 3), Step(3, 3), Step(4, 3), Step(3, 4), Step(4, 4),
          Step(5, 4), Step(4, 5), Step(5, 5)]))
  {
    DiagonalSetup();
    var d := Dir(1, 1, Fin(1.0 / 3.0), Fin(1.0 / 3.0));
    var r0 := Ray(2.5, 2.5, Fin(1.0 / 6.0), Fin(1.0 / 6.0));
    var r1 := Ray(3.5, 3.5, Fin(1.0 / 2.0), Fin(1.0 / 2.0));
    var r2 := Ray(4.5, 4.5, Fin(5.0 / 6.0), Fin(5.0 / 6.0));
    assert Walk(d, r0, 1) == r1;
    assert Walk(d, r0, 2) == r2;
    assert Entered(d, r0) == [Step(3, 2), Step(2, 3), Step(3, 3)];
    assert Entered(d, r1) == [Step(4, 3), Step(3, 4), Step(4, 4)];
    assert Entered(d, r2) == [Step(5, 4), Step(4, 5), Step(5, 5)];
    assert SteplistEvent(2.5, 2.5, 5.5, 5.5, 8, 8, OpenGrid(), 0).None?;
    assert SteplistEvent(2.5, 2.5, 5.5, 5.5, 8, 8, OpenGrid(), 1).None?;
    assert Trail(d, r0, 2) == [Step(2, 2), Step(3, 2), Step(2, 3), Step(3, 3), Step(4, 3), Step(3, 4), Step(4, 4)];
    var last := Entered(d, r2);
    assert IsOpen(OpenGrid(), Step(5, 4)) && IsOpen(OpenGrid(), Step(4, 5)) && IsOpen(OpenGrid(), Step(5, 5));
    assert Examine(OpenGrid(), last[2..], Some(Step(5, 5))) == Stop(1, false);
    assert Examine(OpenGrid(), last[1..], Some(Step(5, 5))) == Stop(2, false);
    assert Examine(OpenGrid(), last, Some(Step(5, 5))) == Stop(3, false);
    var path := [Step(2, 2), Step(3, 2), Step(2, 3), Step(3, 3), Step(4, 3), Step(3, 4), Step(4, 4),
                 Step(5, 4), Step(4, 5), Step(5, 5)];
    assert TargetTile(5.5, 5.5) == Step(5, 5);
    assert Trail(d, r0, 2) + last[..3] == path;
    assert SteplistOn(8, 8, OpenGrid(), d, r0, Step(5, 5), 2) == Some(Ok(path));
    SteplistStopsAt(2.5, 2.5, 5.5, 5.5, 8, 8, OpenGrid(), 2, Ok(path));
  }

  /** The setup of the ray from (0.5, 0.5) to (-1.5, 0.5): a zero y
      component steps up with an infinite tMaxY. */
  lemma StallSetup()
    ensures Heading(-2.0, 0.0) == Dir(-1, 1, Fin(0.5), Inf)
    ensures Origin(0.5, 0.5, -2.0, 0.0) == Ray(0.5, 0.5, Fin(0.25), Inf)
  {
  }

  /** Truncation toward zero: stepping left from x = 0.5 reaches x = -0.5,
      whose cell index is still 0, so the list holds the start tile twice
      and never names the target tile (-1, 0). */
  lemma TruncationStall()
    ensures CastSteplistSpec(0.5, 0.5, -1.5, 0.5, 1, 1, [[false]], Ok([Step(0, 0), Step(0, 0)]))
  {
    StallSetup();
    var d := Dir(-1, 1, Fin(0.5), Inf);
    var r0 := Ray(0.5, 0.5, Fin(0.25), Inf);
    assert Walk(d, r0, 1) == Ray(-0.5, 0.5, Fin(0.75), Inf);
    assert Trunc(-0.5) == 0 && TargetTile(-1.5, 0.5) == Step(-1, 0);
    assert Entered(d, r0) == [Step(0, 0)];
    assert SteplistEvent(0.5, 0.5, -1.5, 0.5, 1, 1, [[false]], 0).None?;
    assert Trail(d, r0, 1) == [Step(0, 0), Step(0, 0)];
    SteplistStopsAt(0.5, 0.5, -1.5, 0.5, 1, 1, [[false]], 1, Ok([Step(0, 0), Step(0, 0)]));
  }

  /** An open grid of 2 columns of 4 cells. */
  function NarrowGrid(): Grid {
    seq(2, _ => seq(4, _ => false))
  }

  /** Leaving at the edge: from the integer x = 1.0 the first boundary
      stepping left is x = 1 itself (tMaxX = 0), so the first move reaches
      x = 0.0, outside the open rectangle; the list ends at the exit tile
      (0, 0), not at the target tile (0, 3). */
  lemma EdgeExit()
    ensures CastSteplistSpec(1.0, 0.5, 0.5, 3.5, 2, 4, NarrowGrid(), Ok([Step(1, 0), Step(0, 0)]))
  {
    assert Heading(-0.5, 3.0) == Dir(-1, 1, Fin(2.0), Fin(1.0 / 3.0));
    assert Origin(1.0, 0.5, -0.5, 3.0) == Ray(1.0, 0.5, Fin(0.0), Fin(1.0 / 6.0));
    var d := Dir(-1, 1, Fin(2.0), Fin(1.0 / 3.0));
    var r0 := Ray(1.0, 0.5, Fin(0.0), Fin(1.0 / 6.0));
    assert Walk(d, r0, 1) == Ray(0.0, 0.5, Fin(2.0), Fin(1.0 / 6.0));
    assert TargetTile(0.5, 3.5) == Step(0, 3);
    assert Entered(d, r0) == [Step(0, 0)];
    assert IsOpen(NarrowGrid(), Step(0, 0));
    assert SteplistEvent(1.0, 0.5, 0.5, 3.5, 2, 4, NarrowGrid(), 0).None?;
    assert Trail(d, r0, 1) == [Step(1, 0), Step(0, 0)];
    SteplistStopsAt(1.0, 0.5, 0.5, 3.5, 2, 4, NarrowGrid(), 1, Ok([Step(1, 0), Step(0, 0)]));
  }

  /** A grid of 4 by 4 cells whose only solid cell is (2, 1). */
  function OneSolidGrid(): Grid {
    seq(4, x => seq(4, y => x == 2 && y == 1))
  }

  /** castMaxSteps counts from 2: a solid cell right next to the start
      cell, entered by the first iteration, gives 2. */
  lemma AdjacentSolidCount()
    ensures CastMaxStepsSpec(1.5, 1.5, 1.0, 0.0, 4, 4, OneSolidGrid(), 0, Ok(2))
  {
    RowHitCount(1.5, 1.5, 1.0, 4, 4, OneSolidGrid(), 0, 2);
  }

  /** The solid cell next to the start is the first stop, so MaxStepsOutcome
      does not also admit NO_HIT for the same walk. */
  lemma AdjacentSolidNotMissed()
    ensures !MaxStepsOutcome(4, 4, OneSolidGrid(), 0, Heading(1.0, 0.0), Origin(1.5, 1.5, 1.0, 0.0), Ok(NO_HIT))
  {
    if MaxStepsOutcome(4, 4, OneSolidGrid(), 0, Heading(1.0, 0.0), Origin(1.5, 1.5, 1.0, 0.0), Ok(NO_HIT)) {
      OutcomeIsCastMaxSteps(1.5, 1.5, 1.0, 0.0, 4, 4, OneSolidGrid(), 0, Ok(NO_HIT));
      AdjacentSolidCount();
      CastMaxStepsDeterministic(1.5, 1.5, 1.0, 0.0, 4, 4, OneSolidGrid(), 0, Ok(NO_HIT), Ok(2));
      assert false;
    }
  }

  /** A grid of 4 by 4 cells whose only solid cell is (3, 1). */
  function FarSolidGrid(): Grid {
    seq(4, x => seq(4, y => x == 3 && y == 1))
  }

  /** rayBlocked from (1.5, 1.5) to (2.5, 1.5) reads the target tile (2, 1)
      first and answers unblocked; the solid cell (3, 1) beyond the target
      does not count as on the path. */
  lemma SolidPastTarget()
    ensures RayBlockedSpec(1.5, 1.5, 2.5, 1.5, 4, 4, FarSolidGrid(), Ok(false))
    ensures !SolidOnPath(4, 4, FarSolidGrid(), Heading(1.0, 0.0), Origin(1.5, 1.5, 1.0, 0.0), Step(2, 1))
  {
    var d := Dir(1, 1, Fin(1.0), Inf);
    var r0 := Ray(1.5, 1.5, Fin(0.5), Inf);
    assert Heading(1.0, 0.0) == d;
    assert Origin(1.5, 1.5, 1.0, 0.0) == r0;
    assert TargetTile(2.5, 1.5) == Step(2, 1) && TargetTile(1.5, 1.5) == Step(1, 1);
    assert Entered(d, r0) == [Step(2, 1)];
    assert IsOpen(FarSolidGrid(), Step(2, 1));
    assert RayBlockedEvent(1.5, 1.5, 2.5, 1.5, 4, 4, FarSolidGrid(), 0) == Some(Ok(false));
    RayBlockedStopsAt(1.5, 1.5, 2.5, 1.5, 4, 4, FarSolidGrid(), 0, Ok(false));
    forall k: nat
      ensures !(Inside(4, 4, Walk(d, r0, k)) && SolidEntered(FarSolidGrid(), d, Walk(d, r0, k), Some(Step(2, 1))) &&
                forall i: nat | i < k :: Inside(4, 4, Walk(d, r0, i)) &&
                  AllOpen(FarSolidGrid(), Entered(d, Walk(d, r0, i)), Some(Step(2, 1))))
    {
      if k != 0 {
        assert !AllOpen(FarSolidGrid(), Entered(d, Walk(d, r0, 0)), Some(Step(2, 1)));
      }
    }
  }
}
