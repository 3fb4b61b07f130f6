/**
 * What a caller of the sketch state can conclude from the operations'
 * contracts alone: a blinker returns after two frames, a shrink followed by
 * a grow keeps exactly the shared corner, and a motion effect lasts exactly
 * 5000 ms after its last trigger.
 */
module Scenarios {
  import opened GridStore
  import opened LifeRules
  import opened Patterns
  import opened LifeSketch

  /** With the motion effect off, two steps bring a horizontal blinker back. */
  method BlinkerHasPeriodTwo(s: Sketch, frameCount: nat, pick: (int, int))
    requires s.Valid() && Holds(s.grid, 5, InHorizontal) && !s.motionDetected
    requires InRange(pick.0, pick.1, 5, 5)
    modifies s
    ensures s.Valid() && Holds(s.grid, 5, InHorizontal) && !s.motionDetected
  {
    HorizontalBlinkerTurns(s.grid);
    s.Step(frameCount, pick);
    assert Holds(s.grid, 5, InVertical);
    VerticalBlinkerTurns(s.grid);
    s.Step(frameCount + 1, pick);
  }

  /** Shrinking a 10x10 grid to 5x5 and growing it back keeps the 5x5 corner and clears the rest. */
  method ShrinkThenGrow(s: Sketch)
    requires s.Valid() && s.cols == 10 && s.rows == 10
    modifies s
    ensures s.Valid() && s.cols == 10 && s.rows == 10
    ensures forall i, j :: 0 <= i < 10 && 0 <= j < 10 ==>
      s.grid[i, j] == if i < 5 && j < 5 then old(s.grid[i, j]) else 0
  {
    s.WindowResized(5 * Resolution, 5 * Resolution);
    s.WindowResized(10 * Resolution, 10 * Resolution);
  }

  /** A motion effect triggered at time t is still on when checked at t + 5000 ms. */
  method MotionStaysOnAtFiveSeconds(s: Sketch, x: real, y: real, t: real, draws: seq<(int, int)>)
    requires s.Valid() && |draws| == MotionDraws && OffsetsInBlock(draws)
    modifies s, s.grid
    ensures s.Valid() && s.motionDetected
  {
    s.MakeMotionEffect(x, y, t, draws);
    s.ExpireMotion(t + MotionEffectDuration);
  }

  /**
   * A motion effect triggered at time t is off when checked any time after
   * t + 5000 ms, however little after: `millis()` is fractional.
   */
  method MotionEndsAfterFiveSeconds(s: Sketch, x: real, y: real, t: real, dt: real, draws: seq<(int, int)>)
    requires s.Valid() && |draws| == MotionDraws && OffsetsInBlock(draws) && dt > 0.0
    modifies s, s.grid
    ensures s.Valid() && !s.motionDetected
  {
    s.MakeMotionEffect(x, y, t, draws);
    s.ExpireMotion(t + MotionEffectDuration);
    s.ExpireMotion(t + MotionEffectDuration + dt);
  }
}
