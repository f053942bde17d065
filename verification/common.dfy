/** Small shared vocabulary: an optional value, integer minimum, and the
    tuning constants of the pinch detector. */
module Common {

  /** A value that may be missing: a failed buffer read, an absent pinch. */
  datatype Option<+T> = None | Some(value: T)

  /** The smaller of two integers. */
  function Min(a: int, b: int): int
  {
    if a <= b then a else b
  }

  /** Squared distance (not square-rooted) below which two fingertips count as touching. */
  const PinchDistanceThreshold: real := 1900.0

  /** Capacity of each finger's circular history buffer. */
  const MaxPointablesPerHistory: nat := 15

  /** Largest number of sampled steps whose distance may grow while still converging. */
  const ConvergenceThreshold: nat := 6

  /** A finger updated less than this many milliseconds ago is a pinch candidate. */
  const RecentWindowMs: int := 50

  /** A finger not updated for more than this many milliseconds is evicted. */
  const StaleWindowMs: int := 60

  /** A candidate finger must have had at least this many samples appended. */
  const MinHistoryForPairing: nat := 6

  /** The hand id the sensor reports for a finger it cannot attribute to a hand. */
  const UnknownHand: int := -1

  /** Every finite set of integers with a positive size has a member. */
  lemma Inhabited(c: set<int>)
    requires |c| > 0
    ensures exists x :: x in c
  {
    if forall x :: x !in c {
      assert false;
    }
  }

  /** A two-element set of integers is a smaller and a larger element. */
  lemma TwoElements(c: set<int>)
    requires |c| == 2
    ensures exists a, b :: c == {a, b} && a < b
  {
    Inhabited(c);
    var x :| x in c;
    Inhabited(c - {x});
    var y :| y in c - {x};
    assert |c - {x, y}| == 0;
    assert c == {x, y} by {
      if exists z :: z in c && z !in {x, y} {
        assert false;
      }
    }
    if y < x {
      assert c == {y, x};
    }
  }

  /** The two members of a two-element set, smaller first. */
  function PairOf(c: set<int>): (r: (int, int))
    requires |c| == 2
    ensures r.0 < r.1 && c == {r.0, r.1}
  {
    TwoElements(c);
    var a, b :| c == {a, b} && a < b;
    (a, b)
  }
}
