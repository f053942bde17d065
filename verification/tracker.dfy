/** The per-hand tracker: a map from finger id to that finger's history and
    the time it was last updated. It handles two messages, a new pointable
    of this hand and a signal that the hand's finger count dropped, and
    after either it evicts fingers that have gone stale. Time is an explicit
    argument `now`, in milliseconds. */
module HandTracker {
  import opened Common
  import opened Geometry
  import opened CircBuf
  import opened Convergence

  /** One tracked finger: its bounded history and when it was last appended to. */
  datatype Finger = Finger(history: Buffer, lastUpdate: int)

  /** The state of the tracker of hand `hand`. */
  datatype Tracker = Tracker(hand: int, fingers: map<int, Finger>)

  /** The result of one message: the new state and the pinch emitted, if
      any, or `Crashed` when the detector would abort the process (a failed
      read of a history buffer). */
  datatype Outcome = Stepped(tracker: Tracker, pinch: Option<Pinch>) | Crashed

  /** A tracker created for a hand seen for the first time. */
  function NewTracker(hand: int): Tracker
  {
    Tracker(hand, map[])
  }

  /** Milliseconds since the finger was last updated. */
  function Age(f: Finger, now: int): int
  {
    now - f.lastUpdate
  }

  /** The finger was updated within the pairing window. */
  predicate IsRecent(f: Finger, now: int)
  {
    Age(f, now) < RecentWindowMs
  }

  /** The finger has not been updated for longer than the eviction window. */
  predicate IsStale(f: Finger, now: int)
  {
    Age(f, now) > StaleWindowMs
  }

  /** The eviction pass run after every message: drop the stale fingers. */
  function RemoveOld(fingers: map<int, Finger>, now: int): (r: map<int, Finger>)
    ensures forall id :: id in r <==> id in fingers && Age(fingers[id], now) <= StaleWindowMs
    ensures forall id :: id in r ==> r[id] == fingers[id]
  {
    map id | id in fingers && !IsStale(fingers[id], now) :: fingers[id]
  }

  /** Evicting twice at the same instant removes nothing more. */
  lemma RemoveOldIdempotent(fingers: map<int, Finger>, now: int)
    ensures RemoveOld(RemoveOld(fingers, now), now) == RemoveOld(fingers, now)
  {
  }

  /** The fingers that may have pinched: updated within the recent window
      and with enough history to judge convergence. */
  function Candidates(fingers: map<int, Finger>, now: int): (c: set<int>)
    ensures forall id :: id in c <==>
              id in fingers && Age(fingers[id], now) < RecentWindowMs &&
              fingers[id].history.added >= MinHistoryForPairing
  {
    set id | id in fingers && IsRecent(fingers[id], now) && fingers[id].history.added >= MinHistoryForPairing
  }

  /** The first arm of the tracker loop: a pointable arrives. Its finger's
      history is created if needed, the sample appended and the finger
      stamped with `now`; then stale fingers are evicted. */
  function OnPointable(t: Tracker, p: Pointable, now: int): (r: Tracker)
    ensures r.hand == t.hand
    ensures p.id in r.fingers && r.fingers[p.id].lastUpdate == now
    ensures r.fingers[p.id].history ==
              AddItem(if p.id in t.fingers then t.fingers[p.id].history else Empty, p)
    ensures ReadFromEnd(r.fingers[p.id].history, 0) == Some(p)
    ensures r.fingers[p.id].history.added ==
              (if p.id in t.fingers then t.fingers[p.id].history.added else 0) + 1
    ensures forall id :: id != p.id ==>
              (id in r.fingers <==> id in t.fingers && Age(t.fingers[id], now) <= StaleWindowMs)
    ensures forall id :: id != p.id && id in r.fingers ==> r.fingers[id] == t.fingers[id]
  {
    var history := if p.id in t.fingers then t.fingers[p.id].history else Empty;
    var fingers := t.fingers[p.id := Finger(AddItem(history, p), now)];
    Tracker(t.hand, RemoveOld(fingers, now))
  }

  /** What the disappearance arm decides for the candidate pair with
      histories `a` and `b`. */
  datatype Decision = NoPinch | Emit(pinch: Pinch) | Fatal

  /** The distance gate, then the convergence gate, on the newest sample of
      each history. */
  function Decide(walk: Walk, a: Buffer, b: Buffer): (d: Decision)
    ensures |a.items| == 0 || |b.items| == 0 ==> d == Fatal
    ensures |a.items| > 0 && |b.items| > 0 ==>
              var close := DistanceBetweenPointables(Newest(a), Newest(b)) < PinchDistanceThreshold;
              && (d.Emit? <==> close && Verdict(walk, a, b) == Some(true))
              && (d.Fatal? <==> close && Verdict(walk, a, b).None?)
              && (d.Emit? ==> d.pinch == SetFrom2Pointables(Newest(a), Newest(b)))
  {
    match (ReadFromEnd(a, 0), ReadFromEnd(b, 0))
    case (Some(pa), Some(pb)) =>
      if DistanceBetweenPointables(pa, pb) < PinchDistanceThreshold then
        match Verdict(walk, a, b)
        case None => Fatal
        case Some(converging) => if converging then Emit(SetFrom2Pointables(pa, pb)) else NoPinch
      else NoPinch
    case _ => Fatal
  }

  /** The second arm of the tracker loop: the hand's finger count dropped.
      Only when exactly two candidates exist are the gates evaluated; the
      fingers themselves are left as they were, apart from eviction. */
  function OnFingerDisappeared(walk: Walk, t: Tracker, now: int): (o: Outcome)
    ensures o.Stepped? ==> o.tracker == Tracker(t.hand, RemoveOld(t.fingers, now))
    ensures |Candidates(t.fingers, now)| != 2 ==> o.Stepped? && o.pinch.None?
  {
    var c := Candidates(t.fingers, now);
    var rest := Tracker(t.hand, RemoveOld(t.fingers, now));
    if |c| != 2 then Stepped(rest, None)
    else
      var (a, b) := PairOf(c);
      match Decide(walk, t.fingers[a].history, t.fingers[b].history)
      case NoPinch => Stepped(rest, None)
      case Emit(pinch) => Stepped(rest, Some(pinch))
      case Fatal => Crashed
  }

  /** Every history was built by appends and holds only samples of its own
      finger of this hand. */
  ghost predicate ValidTracker(t: Tracker)
  {
    forall id | id in t.fingers ::
      Valid(t.fingers[id].history) &&
      forall q | q in t.fingers[id].history.items :: q.handId == t.hand && q.id == id
  }

  /** The newest sample of a non-empty history. */
  function Newest(b: Buffer): Pointable
    requires |b.items| > 0
  {
    b.items[|b.items| - 1]
  }

  /** A fresh tracker has no history to violate the invariant. */
  lemma NewTrackerValid(hand: int)
    ensures ValidTracker(NewTracker(hand))
  {
  }

  /** Delivering a pointable of this hand keeps the tracker valid. */
  lemma OnPointablePreservesValid(t: Tracker, p: Pointable, now: int)
    requires ValidTracker(t) && p.handId == t.hand
    ensures ValidTracker(OnPointable(t, p, now))
  {
    var r := OnPointable(t, p, now);
    var history := if p.id in t.fingers then t.fingers[p.id].history else Empty;
    assert r.fingers[p.id].history == AddItem(history, p);
  }

  /** Handling a disappearance keeps the tracker valid. */
  lemma OnFingerDisappearedPreservesValid(walk: Walk, t: Tracker, now: int)
    requires ValidTracker(t)
    ensures OnFingerDisappeared(walk, t, now).Stepped? ==> ValidTracker(OnFingerDisappeared(walk, t, now).tracker)
  {
  }

  /** Swapping the two histories of one hand does not change the decision. */
  lemma DecideSymmetric(walk: Walk, a: Buffer, b: Buffer)
    requires |a.items| > 0 && |b.items| > 0
    requires Newest(a).handId == Newest(b).handId
    ensures Decide(walk, a, b) == Decide(walk, b, a)
  {
    var pa, pb := Newest(a), Newest(b);
    assert ReadFromEnd(a, 0) == Some(pa) && ReadFromEnd(b, 0) == Some(pb);
    var close := DistanceBetweenPointables(pa, pb) < PinchDistanceThreshold;
    assert close == (DistanceBetweenPointables(pb, pa) < PinchDistanceThreshold) by {
      DistanceSymmetric(pa, pb);
    }
    VerdictSymmetric(walk, a, b);
    SetFrom2PointablesSymmetric(pa, pb);
  }

  /** The disappearance arm decides on the candidate pair, in either order. */
  lemma DisappearedDecides(walk: Walk, t: Tracker, now: int, a: int, b: int)
    requires ValidTracker(t)
    requires a != b && Candidates(t.fingers, now) == {a, b}
    ensures |t.fingers[a].history.items| > 0 && |t.fingers[b].history.items| > 0
    ensures var rest := Tracker(t.hand, RemoveOld(t.fingers, now));
            OnFingerDisappeared(walk, t, now) ==
              match Decide(walk, t.fingers[a].history, t.fingers[b].history)
              case NoPinch => Stepped(rest, None)
              case Emit(pinch) => Stepped(rest, Some(pinch))
              case Fatal => Crashed
  {
    var ha := t.fingers[a].history;
    var hb := t.fingers[b].history;
    assert |ha.items| > 0 && |hb.items| > 0;
    assert Newest(ha) in ha.items && Newest(hb) in hb.items;
    DecideSymmetric(walk, ha, hb);
  }

  /** With exactly the two candidates `a` and `b`, in either order: the
      tracker emits a pinch exactly when their newest samples are at squared
      distance strictly below the threshold and the convergence test passes,
      and the pinch is their midpoint; it aborts exactly when the distance
      gate passes and the walk reads past a buffer. */
  lemma PinchDecision(walk: Walk, t: Tracker, now: int, a: int, b: int)
    requires ValidTracker(t)
    requires a != b && Candidates(t.fingers, now) == {a, b}
    ensures |t.fingers[a].history.items| > 0 && |t.fingers[b].history.items| > 0
    ensures var ha := t.fingers[a].history;
            var hb := t.fingers[b].history;
            var close := DistanceBetweenPointables(Newest(ha), Newest(hb)) < PinchDistanceThreshold;
            var o := OnFingerDisappeared(walk, t, now);
            && (o.Crashed? <==> close && Verdict(walk, ha, hb).None?)
            && (o.Stepped? && o.pinch.Some? <==> close && Verdict(walk, ha, hb) == Some(true))
            && (o.Stepped? && o.pinch.Some? ==> o.pinch.value == SetFrom2Pointables(Newest(ha), Newest(hb)))
  {
    DisappearedDecides(walk, t, now, a, b);
  }

  /** A tracker with fewer or more than two candidates never emits. */
  lemma NoPinchWithoutExactlyTwo(walk: Walk, t: Tracker, now: int)
    requires |Candidates(t.fingers, now)| != 2
    ensures OnFingerDisappeared(walk, t, now) == Stepped(Tracker(t.hand, RemoveOld(t.fingers, now)), None)
  {
  }

  /** Every pinch a valid tracker emits carries the tracker's own hand id. */
  lemma PinchCarriesHand(walk: Walk, t: Tracker, now: int)
    requires ValidTracker(t)
    ensures var o := OnFingerDisappeared(walk, t, now);
            o.Stepped? && o.pinch.Some? ==> o.pinch.value.handId == t.hand
  {
    var c := Candidates(t.fingers, now);
    if |c| == 2 {
      var (a, b) := PairOf(c);
      var ha := t.fingers[a].history;
      if |ha.items| > 0 {
        assert Newest(ha) in ha.items;
      }
    }
  }

  /** With the capped walk a valid tracker never aborts. */
  lemma CappedTrackerNeverCrashes(t: Tracker, now: int)
    requires ValidTracker(t)
    ensures OnFingerDisappeared(Capped, t, now).Stepped?
  {
    var c := Candidates(t.fingers, now);
    if |c| == 2 {
      var (a, b) := PairOf(c);
      CappedWalkNeverFaults(t.fingers[a].history, t.fingers[b].history);
    }
  }

  /** As written, a valid tracker aborts exactly when its two candidates are
      close enough and both have had at least 17 samples. */
  lemma AsWrittenCrashIff(t: Tracker, now: int, a: int, b: int)
    requires ValidTracker(t)
    requires a != b && Candidates(t.fingers, now) == {a, b}
    ensures |t.fingers[a].history.items| > 0 && |t.fingers[b].history.items| > 0
    ensures var ha := t.fingers[a].history;
            var hb := t.fingers[b].history;
            OnFingerDisappeared(AsWritten, t, now).Crashed? <==>
              DistanceBetweenPointables(Newest(ha), Newest(hb)) < PinchDistanceThreshold &&
              Min(ha.added, hb.added) >= 17
  {
    PinchDecision(AsWritten, t, now, a, b);
    WalkFaultIff(t.fingers[a].history, t.fingers[b].history);
  }

  /** The condition under which the walk as written aborts a tracker on a
      disappearance: exactly two candidates, newest tips closer than the
      pinch threshold, and both fingers with at least 17 samples. */
  predicate AbortsAsWritten(t: Tracker, now: int)
  {
    var c := Candidates(t.fingers, now);
    |c| == 2 &&
    var (a, b) := PairOf(c);
    var ha := t.fingers[a].history;
    var hb := t.fingers[b].history;
    |ha.items| > 0 && |hb.items| > 0 &&
    DistanceBetweenPointables(Newest(ha), Newest(hb)) < PinchDistanceThreshold &&
    Min(ha.added, hb.added) >= 17
  }

  /** As written, a valid tracker aborts on a disappearance exactly under
      `AbortsAsWritten`, whatever its number of candidates. */
  lemma AsWrittenAbortsIff(t: Tracker, now: int)
    requires ValidTracker(t)
    ensures OnFingerDisappeared(AsWritten, t, now).Crashed? <==> AbortsAsWritten(t, now)
  {
    var c := Candidates(t.fingers, now);
    if |c| == 2 {
      var (a, b) := PairOf(c);
      AsWrittenCrashIff(t, now, a, b);
    }
  }
}
