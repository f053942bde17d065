/** Fingertip samples, pinch events and the two geometric helpers the
    detector uses: a squared distance and a per-axis midpoint. Coordinates
    are real numbers; the floating-point rounding of the Go code is not
    modelled. */
module Geometry {

  /** A point in the sensor's 3D space. */
  datatype Vec = Vec(x: real, y: real, z: real)

  /** One tracked fingertip in one frame: its finger id, the id of the hand
      that owns it (-1 when the sensor does not know), and its tip position. */
  datatype Pointable = Pointable(id: int, handId: int, tip: Vec)

  /** The event the detector emits: the hand that pinched and the point
      between the two fingertips. */
  datatype Pinch = Pinch(x: real, y: real, z: real, handId: int)

  /** The square of a coordinate difference, as `math.Pow(d, 2)`. */
  function Square(d: real): (r: real)
    ensures r >= 0.0
  {
    d * d
  }

  /** Sum of the squared per-axis differences of two points; the square root
      is deliberately never taken. */
  function DistanceBetween(x: real, y: real, z: real, x2: real, y2: real, z2: real): (d: real)
    ensures d >= 0.0
  {
    Square(x - x2) + Square(y - y2) + Square(z - z2)
  }

  /** Squared distance between the tips of two pointables. */
  function DistanceBetweenPointables(p1: Pointable, p2: Pointable): (d: real)
    ensures d >= 0.0
  {
    DistanceBetween(p1.tip.x, p1.tip.y, p1.tip.z, p2.tip.x, p2.tip.y, p2.tip.z)
  }

  /** The coordinate half way from `a` to `b`, computed as `a + 0.5 * (b - a)`. */
  function Halfway(a: real, b: real): (h: real)
    ensures h - a == b - h
    ensures a <= b ==> a <= h <= b
    ensures b <= a ==> b <= h <= a
  {
    a + 0.5 * (b - a)
  }

  /** The pinch event for two pointables: the midpoint of their tips, tagged
      with the hand of the first. */
  function SetFrom2Pointables(p1: Pointable, p2: Pointable): (p: Pinch)
    ensures p.handId == p1.handId
    ensures p.x == (p1.tip.x + p2.tip.x) / 2.0
    ensures p.y == (p1.tip.y + p2.tip.y) / 2.0
    ensures p.z == (p1.tip.z + p2.tip.z) / 2.0
  {
    Pinch(Halfway(p1.tip.x, p2.tip.x), Halfway(p1.tip.y, p2.tip.y), Halfway(p1.tip.z, p2.tip.z), p1.handId)
  }

  /** Two fingertips at the same place are at squared distance zero. */
  lemma DistanceZeroWhenCoincide(p1: Pointable, p2: Pointable)
    requires p1.tip == p2.tip
    ensures DistanceBetweenPointables(p1, p2) == 0.0
  {
  }

  /** The squared distance does not depend on the order of the two points. */
  lemma DistanceSymmetric(p1: Pointable, p2: Pointable)
    ensures DistanceBetweenPointables(p1, p2) == DistanceBetweenPointables(p2, p1)
  {
    assert Square(p1.tip.x - p2.tip.x) == Square(p2.tip.x - p1.tip.x);
    assert Square(p1.tip.y - p2.tip.y) == Square(p2.tip.y - p1.tip.y);
    assert Square(p1.tip.z - p2.tip.z) == Square(p2.tip.z - p1.tip.z);
  }

  /** The midpoint is the arithmetic mean of the two coordinates, so it does
      not depend on their order. */
  lemma HalfwaySymmetric(a: real, b: real)
    ensures Halfway(a, b) == Halfway(b, a) == (a + b) / 2.0
  {
  }

  /** The pinch point is at a quarter of the squared distance from each of
      the two fingertips. */
  lemma PinchPointIsCentred(p1: Pointable, p2: Pointable)
    ensures var c := SetFrom2Pointables(p1, p2);
            var m := Pointable(p1.id, p1.handId, Vec(c.x, c.y, c.z));
            DistanceBetweenPointables(m, p1) == DistanceBetweenPointables(m, p2)
                                          == DistanceBetweenPointables(p1, p2) / 4.0
  {
    var c := SetFrom2Pointables(p1, p2);
    assert Square(c.x - p1.tip.x) == Square(c.x - p2.tip.x) == Square(p1.tip.x - p2.tip.x) / 4.0;
    assert Square(c.y - p1.tip.y) == Square(c.y - p2.tip.y) == Square(p1.tip.y - p2.tip.y) / 4.0;
    assert Square(c.z - p1.tip.z) == Square(c.z - p2.tip.z) == Square(p1.tip.z - p2.tip.z) / 4.0;
  }

  /** Swapping the two pointables of one hand yields the same pinch event. */
  lemma SetFrom2PointablesSymmetric(p1: Pointable, p2: Pointable)
    requires p1.handId == p2.handId
    ensures SetFrom2Pointables(p1, p2) == SetFrom2Pointables(p2, p1)
  {
    HalfwaySymmetric(p1.tip.x, p2.tip.x);
    HalfwaySymmetric(p1.tip.y, p2.tip.y);
    HalfwaySymmetric(p1.tip.z, p2.tip.z);
  }
}
