/**
 * The sketch's mutable simulation state and the operations that change it:
 * setup, reseeding, the synchronous step, motion injection, random cells,
 * motion expiry, the window-resize resampling and the hand-trigger gate.
 *
 * The sketch keeps this state in globals; here they are the fields of one
 * `Sketch` object. Randomness (`random`), time (`millis`, a fractional
 * number of milliseconds, hence `real`) and `frameCount`
 * arrive as parameters whose preconditions state the ranges p5 draws from.
 */
module LifeSketch {
  import opened Wrappers
  import opened GridStore
  import opened LifeRules
  import opened HandTracking

  /** `motionEffectDuration`, in milliseconds. */
  const MotionEffectDuration: real := 5000.0
  /** Random cells planted around a motion point. */
  const MotionDraws: int := 15
  /** Offsets of those cells lie in [-MotionRadius, MotionRadius] on each axis. */
  const MotionRadius: int := 5
  /** While the motion effect is on, every this many frames one random cell is born. */
  const RandomCellCadence: int := 10

  /** The cell index of a pixel coordinate: `floor(v / resolution)`. */
  function CellOf(v: real): (c: int)
    ensures (c * Resolution) as real <= v < ((c + 1) * Resolution) as real
  {
    (v / Resolution as real).Floor
  }

  /** (i, j) is a cell of a cols x rows grid. */
  predicate InRange(i: int, j: int, cols: int, rows: int) {
    0 <= i < cols && 0 <= j < rows
  }

  /** `floor(random(2))` for every cell: a cols x rows table of 0s and 1s. */
  predicate CoinsFor(coins: seq<seq<int>>, cols: int, rows: int) {
    |coins| == cols
    && (forall i :: 0 <= i < cols ==> |coins[i]| == rows)
    && (forall i, j :: 0 <= i < cols && 0 <= j < rows ==> coins[i][j] == 0 || coins[i][j] == 1)
  }

  /** `floor(random(-5, 6))` twice per planted cell: offsets within the 11x11 block. */
  predicate OffsetsInBlock(draws: seq<(int, int)>) {
    forall k :: 0 <= k < |draws| ==>
      -MotionRadius <= draws[k].0 <= MotionRadius && -MotionRadius <= draws[k].1 <= MotionRadius
  }

  /** One of the first n offsets, applied to (ci, cj), lands on (a, b). */
  predicate Planted(ci: int, cj: int, draws: seq<(int, int)>, n: int, a: int, b: int)
    requires n <= |draws|
  {
    exists k :: 0 <= k < n && ci + draws[k].0 == a && cj + draws[k].1 == b
  }

  /** The motion effect at cell (ci, cj) sets (a, b): the target itself or one of the planted cells. */
  predicate MotionTouches(ci: int, cj: int, draws: seq<(int, int)>, a: int, b: int) {
    (a == ci && b == cj) || (exists k :: 0 <= k < |draws| && ci + draws[k].0 == a && cj + draws[k].1 == b)
  }

  class Sketch {
    var grid: array2<int>
    var cols: int
    var rows: int
    var motionDetected: bool
    var lastMotionTime: real
    var handDetectionReady: bool
    var handDetected: bool
    var lastHandPosition: Point
    var handCooldown: int

    /** The grid is cols x rows, both at least 1, and every cell is 0 or 1. */
    ghost predicate Valid()
      reads this, grid
    {
      1 <= cols && 1 <= rows && grid.Length0 == cols && grid.Length1 == rows
      && forall i, j :: 0 <= i < cols && 0 <= j < rows ==> grid[i, j] == 0 || grid[i, j] == 1
    }

    /**
     * `setup`: dimensions from the canvas size, a zero grid, then a random
     * fill. The hand model is not ready until its loader reports it.
     */
    constructor (width: int, height: int, coins: seq<seq<int>>)
      requires CoinsFor(coins, GridDimension(width), GridDimension(height))
      ensures Valid() && fresh(grid)
      ensures cols == GridDimension(width) && rows == GridDimension(height)
      ensures forall i, j :: 0 <= i < cols && 0 <= j < rows ==> grid[i, j] == coins[i][j]
      ensures !motionDetected && lastMotionTime == 0.0
      ensures !handDetectionReady && !handDetected && lastHandPosition == Point(0.0, 0.0) && handCooldown == 0
    {
      var c, r := GridDimension(width), GridDimension(height);
      var arr := Make2DArray(c, r);
      cols, rows, grid := c, r, arr;
      motionDetected := false;
      lastMotionTime := 0.0;
      handDetectionReady := false;
      handDetected := false;
      lastHandPosition := Point(0.0, 0.0);
      handCooldown := 0;
      new;
      FillGridWithRandomStuff(coins);
    }

    /** `modelIsReady`: the hand model has loaded, so `lookForHands` starts looking. */
    method ModelIsReady()
      modifies this`handDetectionReady
      ensures handDetectionReady
    {
      handDetectionReady := true;
    }

    /** `fillGridWithRandomStuff` (also the key-press reset): every cell takes its coin, in place. */
    method FillGridWithRandomStuff(coins: seq<seq<int>>)
      requires 1 <= cols && 1 <= rows && grid.Length0 == cols && grid.Length1 == rows
      requires CoinsFor(coins, cols, rows)
      modifies grid
      ensures Valid()
      ensures forall i, j :: 0 <= i < cols && 0 <= j < rows ==> grid[i, j] == coins[i][j]
    {
      for i := 0 to cols
        invariant forall a, b :: 0 <= a < i && 0 <= b < rows ==> grid[a, b] == coins[a][b]
      {
        for j := 0 to rows
          invariant forall a, b :: 0 <= a < i && 0 <= b < rows ==> grid[a, b] == coins[a][b]
          invariant forall b :: 0 <= b < j ==> grid[i, b] == coins[i][b]
        {
          grid[i, j] := coins[i][j];
        }
      }
    }

    /**
     * `makeMotionEffect(x, y)`: the effect flag and its timestamp are set
     * first, whether or not (x, y) is over the grid; only an on-grid target
     * is set alive, together with up to 15 planted cells in the 11x11 block
     * around it, skipping those off the grid.
     */
    method MakeMotionEffect(x: real, y: real, now: real, draws: seq<(int, int)>)
      requires Valid()
      requires |draws| == MotionDraws && OffsetsInBlock(draws)
      modifies this, grid
      ensures Valid() && grid == old(grid) && cols == old(cols) && rows == old(rows)
      ensures motionDetected && lastMotionTime == now
      ensures handDetectionReady == old(handDetectionReady) && handDetected == old(handDetected)
      ensures lastHandPosition == old(lastHandPosition) && handCooldown == old(handCooldown)
      ensures forall i, j :: 0 <= i < cols && 0 <= j < rows ==>
        grid[i, j] == if InRange(CellOf(x), CellOf(y), cols, rows) && MotionTouches(CellOf(x), CellOf(y), draws, i, j)
                      then 1 else old(grid[i, j])
      ensures InRange(CellOf(x), CellOf(y), cols, rows) ==> grid[CellOf(x), CellOf(y)] == 1
      ensures forall i, j :: 0 <= i < cols && 0 <= j < rows && grid[i, j] != old(grid[i, j]) ==>
        grid[i, j] == 1 && -MotionRadius <= i - CellOf(x) <= MotionRadius && -MotionRadius <= j - CellOf(y) <= MotionRadius
    {
      motionDetected := true;
      lastMotionTime := now;
      var i := CellOf(x);
      var j := CellOf(y);
      if 0 <= i < cols && 0 <= j < rows {
        grid[i, j] := 1;
        for n := 0 to MotionDraws
          modifies grid
          invariant forall a, b :: 0 <= a < cols && 0 <= b < rows ==>
            grid[a, b] == if (a == i && b == j) || Planted(i, j, draws, n, a, b) then 1 else old(grid[a, b])
        {
          var ni := i + draws[n].0;
          var nj := j + draws[n].1;
          if 0 <= ni < cols && 0 <= nj < rows {
            grid[ni, nj] := 1;
          }
        }
      }
    }

    /** `addSomeRandomCells(|picks|)`: each picked cell is set alive, nothing else changes. */
    method AddSomeRandomCells(picks: seq<(int, int)>)
      requires Valid()
      requires forall k :: 0 <= k < |picks| ==> InRange(picks[k].0, picks[k].1, cols, rows)
      modifies grid
      ensures Valid()
      ensures forall i, j :: 0 <= i < cols && 0 <= j < rows ==>
        grid[i, j] == if (i, j) in picks then 1 else old(grid[i, j])
    {
      for n := 0 to |picks|
        invariant forall a, b :: 0 <= a < cols && 0 <= b < rows ==>
          grid[a, b] == if (a, b) in picks[..n] then 1 else old(grid[a, b])
      {
        var (i, j) := picks[n];
        grid[i, j] := 1;
      }
      assert picks[..|picks|] == picks;
    }

    /** The expiry test in `draw`: the effect ends only once strictly more than 5000 ms have passed. */
    method ExpireMotion(now: real)
      modifies this`motionDetected
      ensures motionDetected == (old(motionDetected) && now - lastMotionTime <= MotionEffectDuration)
    {
      if motionDetected && now - lastMotionTime > MotionEffectDuration {
        motionDetected := false;
      }
    }

    /**
     * The Game of Life update in `draw`: a fresh grid in which every cell is
     * the rule applied to the cell and its neighbour count in the pre-step
     * grid; while the motion effect is on and the frame count is a multiple
     * of 10, the picked cell is then forced alive.
     */
    method Step(frameCount: nat, pick: (int, int))
      requires Valid()
      requires InRange(pick.0, pick.1, cols, rows)
      modifies this
      ensures Valid() && fresh(grid) && cols == old(cols) && rows == old(rows)
      ensures motionDetected == old(motionDetected) && lastMotionTime == old(lastMotionTime)
      ensures handDetectionReady == old(handDetectionReady) && handDetected == old(handDetected)
      ensures lastHandPosition == old(lastHandPosition) && handCooldown == old(handCooldown)
      ensures forall i, j :: 0 <= i < cols && 0 <= j < rows ==>
        grid[i, j] == if motionDetected && frameCount % RandomCellCadence == 0 && (i, j) == pick
                      then 1 else NextCell(old(grid), i, j)
      ensures forall i, j :: 0 <= i < cols && 0 <= j < rows && grid[i, j] != NextCell(old(grid), i, j) ==>
        (i, j) == pick && grid[i, j] == 1
    {
      var g := grid;
      var next := Make2DArray(cols, rows);
      for i := 0 to cols
        modifies next
        invariant forall a, b :: 0 <= a < i && 0 <= b < rows ==> next[a, b] == NextCell(g, a, b)
      {
        for j := 0 to rows
          modifies next
          invariant forall a, b :: 0 <= a < i && 0 <= b < rows ==> next[a, b] == NextCell(g, a, b)
          invariant forall b :: 0 <= b < j ==> next[i, b] == NextCell(g, i, b)
        {
          var state := g[i, j];
          var neighbors := CountLivingNeighbors(g, i, j);
          if state == 0 && neighbors == 3 {
            next[i, j] := 1;
          } else if state == 1 && (neighbors < 2 || neighbors > 3) {
            next[i, j] := 0;
          } else {
            next[i, j] := state;
          }
        }
      }
      if motionDetected && frameCount % RandomCellCadence == 0 {
        next[pick.0, pick.1] := 1;
      }
      grid := next;
    }

    /**
     * The grid part of `windowResized`: new dimensions from the canvas size,
     * a zero grid, and the rectangle both grids share copied across.
     */
    method WindowResized(width: int, height: int)
      requires Valid()
      modifies this
      ensures Valid() && fresh(grid)
      ensures cols == GridDimension(width) && rows == GridDimension(height)
      ensures forall i, j :: 0 <= i < cols && 0 <= j < rows ==>
        grid[i, j] == if i < old(cols) && j < old(rows) then old(grid[i, j]) else 0
      ensures motionDetected == old(motionDetected) && lastMotionTime == old(lastMotionTime)
      ensures handDetectionReady == old(handDetectionReady) && handDetected == old(handDetected)
      ensures lastHandPosition == old(lastHandPosition) && handCooldown == old(handCooldown)
    {
      var old_grid := grid;
      cols := GridDimension(width);
      rows := GridDimension(height);
      var newGrid := Make2DArray(cols, rows);
      var keepCols := if old_grid.Length0 < cols then old_grid.Length0 else cols;
      var keepRows := if old_grid.Length1 < rows then old_grid.Length1 else rows;
      for i := 0 to keepCols
        modifies newGrid
        invariant forall a, b :: 0 <= a < cols && 0 <= b < rows ==>
          newGrid[a, b] == if a < i && b < keepRows then old_grid[a, b] else 0
      {
        for j := 0 to keepRows
          modifies newGrid
          invariant forall a, b :: 0 <= a < cols && 0 <= b < rows ==>
            newGrid[a, b] == if (a < i && b < keepRows) || (a == i && b < j) then old_grid[a, b] else 0
        {
          newGrid[i, j] := old_grid[i, j];
        }
      }
      grid := newGrid;
    }

    /**
     * The gate in `lookForHands`. A missing, malformed or unconfident
     * detection only clears `handDetected`. An accepted one sets it, fires the
     * motion effect at the fingertip when the hand moved more than 30 pixels
     * and the cooldown has passed (then restarting the 15-frame cooldown), and
     * always records the fingertip as the last hand position. `toCanvas` is
     * the video-to-canvas `map`.
     */
    method LookForHands(hands: seq<Option<Hand>>, frameCount: nat, now: real,
                        toCanvas: Point -> Point, draws: seq<(int, int)>)
      requires Valid()
      requires |draws| == MotionDraws && OffsetsInBlock(draws)
      modifies this, grid
      ensures Valid() && grid == old(grid) && cols == old(cols) && rows == old(rows)
      ensures handDetectionReady == old(handDetectionReady)
      ensures !handDetectionReady || !Accepted(hands) ==>
        handCooldown == old(handCooldown) && lastHandPosition == old(lastHandPosition)
        && motionDetected == old(motionDetected) && lastMotionTime == old(lastMotionTime)
        && forall i, j :: 0 <= i < cols && 0 <= j < rows ==> grid[i, j] == old(grid[i, j])
      ensures handDetectionReady ==> handDetected == Accepted(hands)
      ensures !handDetectionReady ==> handDetected == old(handDetected)
      ensures handDetectionReady && Accepted(hands) ==>
        var p := toCanvas(FingertipOf(hands));
        var fire := MovedFarEnough(p, old(lastHandPosition)) && frameCount > old(handCooldown);
        lastHandPosition == p
        && handCooldown == (if fire then frameCount + CooldownFrames else old(handCooldown))
        && motionDetected == (fire || old(motionDetected))
        && lastMotionTime == (if fire then now else old(lastMotionTime))
        && forall i, j :: 0 <= i < cols && 0 <= j < rows ==>
             grid[i, j] == if fire && InRange(CellOf(p.x), CellOf(p.y), cols, rows)
                              && MotionTouches(CellOf(p.x), CellOf(p.y), draws, i, j)
                           then 1 else old(grid[i, j])
    {
      if !handDetectionReady {
        return;
      }
      if |hands| == 0 {
        handDetected := false;
        return;
      }
      var hand := hands[0];
      if hand.None? || !hand.value.landmarks.Points? || |hand.value.landmarks.points| < MinLandmarks {
        handDetected := false;
        return;
      }
      var confidence := 0.0;
      if hand.value.handInViewConfidence.Some? {
        confidence := hand.value.handInViewConfidence.value;
      } else if hand.value.score.Some? && hand.value.score.value != 0.0 {
        confidence := hand.value.score.value;
      }
      if confidence < HandConfidenceThreshold {
        handDetected := false;
        return;
      }
      handDetected := true;
      var fingerTip := hand.value.landmarks.points[Fingertip];
      var handPosition := toCanvas(fingerTip);
      if MovedFarEnough(handPosition, lastHandPosition) && frameCount > handCooldown {
        MakeMotionEffect(handPosition.x, handPosition.y, now, draws);
        handCooldown := frameCount + CooldownFrames;
      }
      lastHandPosition := handPosition;
    }
  }
}
