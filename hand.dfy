/**
 * What the hand tracker delivers to `lookForHands`, and the tests the sketch
 * applies to it before trusting a detection.
 */
module HandTracking {
  import opened Wrappers

  /** `handConfidenceThreshold`. */
  const HandConfidenceThreshold: real := 0.7
  /** A detection needs at least this many landmarks. */
  const MinLandmarks: int := 9
  /** Index of the index-finger tip among the landmarks. */
  const Fingertip: int := 8
  /** The hand must move further than this many pixels to trigger an effect. */
  const MoveThreshold: real := 30.0
  /** Frames to wait after a trigger (`handCooldown = frameCount + 15`). */
  const CooldownFrames: int := 15

  /** A position, in video or canvas pixels. */
  datatype Point = Point(x: real, y: real)

  /** The `landmarks` field of a detection: missing (falsy), present but not an array, or a list of points. */
  datatype Landmarks = Missing | NotAnArray | Points(points: seq<Point>)

  /**
   * One detected hand. `handInViewConfidence` is `Some` when it is a number;
   * `score` is `Some` when it is a number. The sketch only tests `score`
   * for truthiness, so a truthy non-number score would also be read as the
   * confidence and coerced by the threshold comparison; that case is not
   * modelled.
   */
  datatype Hand = Hand(landmarks: Landmarks, handInViewConfidence: Option<real>, score: Option<real>)

  /**
   * The confidence the sketch reads: `handInViewConfidence` when numeric,
   * else `score` when truthy, else 0. A zero score is falsy but gives the
   * same value, so the confidence is simply the first numeric field, or 0.
   */
  function Confidence(h: Hand): (c: real)
    ensures h.handInViewConfidence.Some? ==> c == h.handInViewConfidence.value
    ensures h.handInViewConfidence.None? && h.score.Some? ==> c == h.score.value
    ensures h.handInViewConfidence.None? && h.score.None? ==> c == 0.0
  {
    if h.handInViewConfidence.Some? then h.handInViewConfidence.value
    else if h.score.Some? && h.score.value != 0.0 then h.score.value
    else 0.0
  }

  /** The landmark list is an array of at least nine points. */
  predicate WellFormed(h: Hand) {
    h.landmarks.Points? && |h.landmarks.points| >= MinLandmarks
  }

  /**
   * The first entry of `hands` is a hand the sketch trusts: present, well
   * formed and at least as confident as the threshold.
   */
  predicate Accepted(hands: seq<Option<Hand>>) {
    |hands| > 0 && hands[0].Some? && WellFormed(hands[0].value)
    && Confidence(hands[0].value) >= HandConfidenceThreshold
  }

  /** The fingertip landmark of an accepted detection, in video pixels. */
  function FingertipOf(hands: seq<Option<Hand>>): Point
    requires Accepted(hands)
  {
    hands[0].value.landmarks.points[Fingertip]
  }

  function SquaredDistance(p: Point, q: Point): real {
    (p.x - q.x) * (p.x - q.x) + (p.y - q.y) * (p.y - q.y)
  }

  /**
   * `dist(p, q) > 30`, stated on squares: both sides are non-negative, so the
   * comparison of distances and of their squares agree.
   */
  predicate MovedFarEnough(p: Point, q: Point) {
    SquaredDistance(p, q) > MoveThreshold * MoveThreshold
  }
}
