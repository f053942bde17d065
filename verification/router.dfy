/** The frame router: for every frame it counts the known-hand pointables
    per hand, delivers each of them to its hand's tracker (creating the
    tracker on the hand's first pointable), and then signals a disappearance
    to every hand present in both this and the previous frame whose count
    dropped. The concurrent trackers become sequential state transitions;
    every message of a frame is handled at the frame's time. */
module HandRouter {
  import opened Common
  import opened Geometry
  import opened Convergence
  import opened HandTracker

  /** One sensor frame and the time, in milliseconds, at which it is handled. */
  datatype Frame = Frame(time: int, pointables: seq<Pointable>)

  /** The router's state: a tracker per hand ever seen, and the previous
      frame's pointable count per hand. */
  datatype Router = Router(trackers: map<int, Tracker>, past: map<int, nat>)

  /** The result of one frame: the new state and the pinch each hand emitted
      while handling it, or `Halted` when a tracker aborted the process. */
  datatype FrameResult = Running(router: Router, pinches: map<int, Pinch>) | Halted

  /** The router before the first frame. */
  const Initial: Router := Router(map[], map[])

  /** The hands with at least one pointable in `ps`, the unknown hand excluded. */
  function HandsOf(ps: seq<Pointable>): set<int>
  {
    set p | p in ps && p.handId != UnknownHand :: p.handId
  }

  /** The pointables of hand `h` in `ps`, in order. */
  function OfHand(ps: seq<Pointable>, h: int): (r: seq<Pointable>)
    ensures forall q :: q in r ==> q in ps && q.handId == h
  {
    if ps == [] then []
    else
      var init := OfHand(ps[..|ps| - 1], h);
      if ps[|ps| - 1].handId == h then init + [ps[|ps| - 1]] else init
  }

  /** Selection keeps every pointable of hand `h`, as often as it occurs,
      and nothing else. */
  lemma {:induction false} OfHandCounts(ps: seq<Pointable>, h: int)
    ensures forall q :: multiset(OfHand(ps, h))[q] == if q.handId == h then multiset(ps)[q] else 0
  {
    if ps != [] {
      var init := ps[..|ps| - 1];
      OfHandCounts(init, h);
      assert ps == init + [ps[|ps| - 1]];
    }
  }

  /** A known hand with no pointable in `ps` has none to count. */
  lemma OfAbsentHand(ps: seq<Pointable>, h: int)
    ensures h != UnknownHand && h !in HandsOf(ps) ==> OfHand(ps, h) == []
  {
    var r := OfHand(ps, h);
    if h != UnknownHand && r != [] {
      assert r[0] in r;
      assert r[0].handId in HandsOf(ps);
    }
  }

  /** Appending a pointable adds its hand, unless it is the unknown hand. */
  lemma HandsOfSnoc(ps: seq<Pointable>, p: Pointable)
    ensures HandsOf(ps + [p]) == HandsOf(ps) + (if p.handId != UnknownHand then {p.handId} else {})
  {
    assert forall q :: q in ps + [p] <==> q in ps || q == p;
  }

  /** Appending a pointable extends the selection of its own hand only. */
  lemma OfHandSnoc(ps: seq<Pointable>, p: Pointable, h: int)
    ensures OfHand(ps + [p], h) == OfHand(ps, h) + (if p.handId == h then [p] else [])
  {
    assert (ps + [p])[..|ps|] == ps;
  }

  /** `HandsOfSnoc` read from the end of a non-empty sequence. */
  lemma HandsOfLast(ps: seq<Pointable>)
    requires ps != []
    ensures var p := ps[|ps| - 1];
            HandsOf(ps) == HandsOf(ps[..|ps| - 1]) + (if p.handId != UnknownHand then {p.handId} else {})
  {
    assert ps == ps[..|ps| - 1] + [ps[|ps| - 1]];
    HandsOfSnoc(ps[..|ps| - 1], ps[|ps| - 1]);
  }

  /** One more pointable of a known hand adds one to that hand's count. */
  function Tally(counts: map<int, nat>, p: Pointable): map<int, nat>
  {
    if p.handId == UnknownHand then counts
    else counts[p.handId := (if p.handId in counts then counts[p.handId] else 0) + 1]
  }

  /** Tallying a pointable keeps the counts in step with the pointables seen. */
  lemma TallyCounts(ps: seq<Pointable>, counts: map<int, nat>, p: Pointable)
    requires counts.Keys == HandsOf(ps)
    requires forall h :: h in counts ==> counts[h] == |OfHand(ps, h)|
    ensures Tally(counts, p).Keys == HandsOf(ps + [p])
    ensures forall h :: h in Tally(counts, p) ==> Tally(counts, p)[h] == |OfHand(ps + [p], h)|
  {
    HandsOfSnoc(ps, p);
    forall h | h in Tally(counts, p)
      ensures Tally(counts, p)[h] == |OfHand(ps + [p], h)|
    {
      TallyCountsAt(ps, counts, p, h);
    }
  }

  /** The tally of one hand after one more pointable. */
  lemma TallyCountsAt(ps: seq<Pointable>, counts: map<int, nat>, p: Pointable, h: int)
    requires counts.Keys == HandsOf(ps)
    requires h in counts ==> counts[h] == |OfHand(ps, h)|
    requires h in Tally(counts, p)
    ensures Tally(counts, p)[h] == |OfHand(ps + [p], h)|
  {
    OfHandSnoc(ps, p, h);
    if h == p.handId {
      OfAbsentHand(ps, h);
      assert |OfHand(ps + [p], h)| == |OfHand(ps, h)| + 1;
    } else {
      assert OfHand(ps + [p], h) == OfHand(ps, h);
    }
  }

  /** The per-hand counting of the first loop: one increment per pointable of
      a known hand. */
  function CountPerHand(ps: seq<Pointable>): (counts: map<int, nat>)
    ensures counts.Keys == HandsOf(ps)
    ensures forall h :: h in counts ==> counts[h] == |OfHand(ps, h)|
  {
    if ps == [] then map[]
    else
      var init := ps[..|ps| - 1];
      var p := ps[|ps| - 1];
      assert ps == init + [p];
      TallyCounts(init, CountPerHand(init), p);
      Tally(CountPerHand(init), p)
  }

  /** The tracker of hand `h`, or a fresh one when the hand has none yet. */
  function Lookup(trackers: map<int, Tracker>, h: int): Tracker
  {
    if h in trackers then trackers[h] else NewTracker(h)
  }

  /** Forwards one pointable of a known hand to its hand's tracker. */
  function Route(trackers: map<int, Tracker>, p: Pointable, now: int): map<int, Tracker>
  {
    if p.handId == UnknownHand then trackers
    else trackers[p.handId := OnPointable(Lookup(trackers, p.handId), p, now)]
  }

  /** The delivering side of the first loop: each pointable of a known hand
      goes to that hand's tracker, created on first sight. */
  function Deliver(trackers: map<int, Tracker>, ps: seq<Pointable>, now: int): (r: map<int, Tracker>)
    ensures r.Keys == trackers.Keys + HandsOf(ps)
  {
    if ps == [] then trackers
    else
      HandsOfLast(ps);
      Route(Deliver(trackers, ps[..|ps| - 1], now), ps[|ps| - 1], now)
  }

  /** A tracker fed the pointables `ps` one after another. */
  function Feed(t: Tracker, ps: seq<Pointable>, now: int): Tracker
  {
    if ps == [] then t else OnPointable(Feed(t, ps[..|ps| - 1], now), ps[|ps| - 1], now)
  }

  /** The hands to signal: present in the previous and the current frame,
      with fewer pointables now. */
  function Signalled(past: map<int, nat>, curr: map<int, nat>): set<int>
  {
    set h | h in past && h in curr && curr[h] < past[h]
  }

  /** The second loop of an iteration: every hand in `hands` gets the
      disappearance signal. The trackers are independent, so the order does
      not matter. `None` when one of them aborts. */
  function SignalAll(walk: Walk, trackers: map<int, Tracker>, hands: set<int>, now: int)
    : (res: Option<(map<int, Tracker>, map<int, Pinch>)>)
    requires hands <= trackers.Keys
    ensures res.Some? ==> res.value.0.Keys == trackers.Keys && res.value.1.Keys <= hands
    ensures res.None? <==> exists h | h in hands :: OnFingerDisappeared(walk, trackers[h], now).Crashed?
  {
    var outcomes := map h | h in hands :: OnFingerDisappeared(walk, trackers[h], now);
    if exists h | h in outcomes :: outcomes[h].Crashed? then None
    else
      var next := map h | h in trackers :: if h in outcomes then outcomes[h].tracker else trackers[h];
      var pinches := map h | h in outcomes && outcomes[h].pinch.Some? :: outcomes[h].pinch.value;
      Some((next, pinches))
  }

  /** One iteration of the router loop. */
  function OnFrame(walk: Walk, r: Router, frame: Frame): (res: FrameResult)
    ensures res.Running? ==> res.router.past == CountPerHand(frame.pointables)
    ensures res.Running? ==> res.router.trackers.Keys == r.trackers.Keys + HandsOf(frame.pointables)
    ensures res.Running? ==> res.pinches.Keys <= Signalled(r.past, CountPerHand(frame.pointables))
  {
    var curr := CountPerHand(frame.pointables);
    var trackers := Deliver(r.trackers, frame.pointables, frame.time);
    match SignalAll(walk, trackers, Signalled(r.past, curr), frame.time)
    case None => Halted
    case Some((next, pinches)) => Running(Router(next, curr), pinches)
  }

  /** A frame halts exactly when one of the hands it signals aborts on the
      disappearance, judged on that hand's tracker after delivery. */
  lemma FrameHaltsIff(walk: Walk, r: Router, frame: Frame)
    ensures var trackers := Deliver(r.trackers, frame.pointables, frame.time);
            var signalled := Signalled(r.past, CountPerHand(frame.pointables));
            && signalled <= trackers.Keys
            && (OnFrame(walk, r, frame).Halted? <==>
                  exists h | h in signalled :: OnFingerDisappeared(walk, trackers[h], frame.time).Crashed?)
  {
    var curr := CountPerHand(frame.pointables);
    var trackers := Deliver(r.trackers, frame.pointables, frame.time);
    var signalled := Signalled(r.past, curr);
    var outcome := SignalAll(walk, trackers, signalled, frame.time);
    assert OnFrame(walk, r, frame).Halted? <==> outcome.None?;
  }

  /** The outcome of a run over a sequence of frames: the final state and
      the pinches of each frame, or `Aborted` when some frame halted, with
      the pinches the frames completed before it produced. */
  datatype RunResult =
    | Completed(router: Router, pinches: seq<map<int, Pinch>>)
    | Aborted(pinches: seq<map<int, Pinch>>)

  /** The hands seen in any of `frames`. */
  function HandsSeen(frames: seq<Frame>): set<int>
  {
    if frames == [] then {} else HandsOf(frames[0].pointables) + HandsSeen(frames[1..])
  }

  /** The router loop over `frames` for a given per-frame step: it stops at
      the first frame that halts. */
  function Loop(step: (Router, Frame) -> FrameResult, r: Router, frames: seq<Frame>): (res: RunResult)
    decreases |frames|
    ensures res.Completed? ==> |res.pinches| == |frames|
    ensures res.Aborted? ==> |res.pinches| < |frames|
  {
    if frames == [] then Completed(r, [])
    else
      match step(r, frames[0])
      case Halted => Aborted([])
      case Running(next, pinches) =>
        match Loop(step, next, frames[1..])
        case Aborted(later) => Aborted([pinches] + later)
        case Completed(final, later) => Completed(final, [pinches] + later)
  }

  /** One iteration of the router loop as a step function. */
  function StepOf(walk: Walk): (Router, Frame) -> FrameResult
  {
    (x: Router, f: Frame) => OnFrame(walk, x, f)
  }

  /** The router loop over a sequence of frames. A hand seen once keeps its
      tracker forever. */
  function Run(walk: Walk, r: Router, frames: seq<Frame>): (res: RunResult)
    ensures res.Completed? ==> |res.pinches| == |frames|
    ensures res.Completed? ==> res.router.trackers.Keys == r.trackers.Keys + HandsSeen(frames)
    ensures res.Aborted? ==> |res.pinches| < |frames|
  {
    LoopKeepsHands(walk, r, frames);
    Loop(StepOf(walk), r, frames)
  }

  /** A completed loop has a tracker for every hand seen and no other new one. */
  lemma {:induction false} LoopKeepsHands(walk: Walk, r: Router, frames: seq<Frame>)
    decreases |frames|
    ensures var res := Loop(StepOf(walk), r, frames);
            res.Completed? ==> res.router.trackers.Keys == r.trackers.Keys + HandsSeen(frames)
  {
    if frames != [] {
      var first := OnFrame(walk, r, frames[0]);
      assert StepOf(walk)(r, frames[0]) == first;
      if first.Running? {
        LoopKeepsHands(walk, first.router, frames[1..]);
      }
    }
  }

  /** A non-empty prefix starts with the first frame, and its tail is a
      prefix of the tail. */
  lemma PrefixSplits(frames: seq<Frame>, k: nat)
    requires 0 < k <= |frames|
    ensures frames[..k] != [] && frames[..k][0] == frames[0]
    ensures frames[..k][1..] == frames[1..][..k - 1]
  {
  }

  /** For any step, an aborted loop reports exactly the pinches of a
      completed loop over the frames before the one that halted. */
  lemma {:induction false} LoopAbortKeepsPrefix(step: (Router, Frame) -> FrameResult, r: Router, frames: seq<Frame>)
    decreases |frames|
    ensures var res := Loop(step, r, frames);
            res.Aborted? ==>
              var k := |res.pinches|;
              var before := Loop(step, r, frames[..k]);
              && before.Completed?
              && before.pinches == res.pinches
              && step(before.router, frames[k]).Halted?
  {
    if frames != [] && Loop(step, r, frames).Aborted? {
      var first := step(r, frames[0]);
      if first.Halted? {
        assert frames[..0] == [];
      } else {
        LoopAbortKeepsPrefix(step, first.router, frames[1..]);
        var k := |Loop(step, first.router, frames[1..]).pinches| + 1;
        PrefixSplits(frames, k);
      }
    }
  }

  /** An aborted run reports exactly the pinches of a completed run over the
      frames before the one that halted, and that frame does halt. */
  lemma AbortedRunKeepsEarlierPinches(walk: Walk, r: Router, frames: seq<Frame>)
    ensures var res := Run(walk, r, frames);
            res.Aborted? ==>
              var k := |res.pinches|;
              var before := Run(walk, r, frames[..k]);
              && before.Completed?
              && before.pinches == res.pinches
              && OnFrame(walk, before.router, frames[k]).Halted?
  {
    LoopAbortKeepsPrefix(StepOf(walk), r, frames);
    var res := Run(walk, r, frames);
    if res.Aborted? {
      var before := Run(walk, r, frames[..|res.pinches|]);
      assert StepOf(walk)(before.router, frames[|res.pinches|])
          == OnFrame(walk, before.router, frames[|res.pinches|]);
    }
  }

  /** The k-th pinch map a loop reports is what the step reports for the
      k-th frame, from the state the loop has reached after the first k
      frames. */
  lemma {:induction false} LoopReportsEachStep(step: (Router, Frame) -> FrameResult, r: Router, frames: seq<Frame>, k: nat)
    requires k < |Loop(step, r, frames).pinches|
    decreases |frames|
    ensures var before := Loop(step, r, frames[..k]);
            && before.Completed?
            && step(before.router, frames[k]).Running?
            && Loop(step, r, frames).pinches[k] == step(before.router, frames[k]).pinches
  {
    var first := step(r, frames[0]);
    if k == 0 {
      assert frames[..0] == [];
    } else {
      LoopReportsEachStep(step, first.router, frames[1..], k - 1);
      PrefixSplits(frames, k);
    }
  }

  /** A completed loop ends in the state the step reaches on the last frame
      from the state after all the frames before it. */
  lemma {:induction false} LoopEndsAtLastStep(step: (Router, Frame) -> FrameResult, r: Router, frames: seq<Frame>)
    requires frames != []
    decreases |frames|
    ensures var res := Loop(step, r, frames);
            var n := |frames| - 1;
            var before := Loop(step, r, frames[..n]);
            res.Completed? ==>
              && before.Completed?
              && step(before.router, frames[n]).Running?
              && res.router == step(before.router, frames[n]).router
  {
    var first := step(r, frames[0]);
    if |frames| == 1 {
      assert frames[..0] == [];
    } else if Loop(step, r, frames).Completed? {
      LoopEndsAtLastStep(step, first.router, frames[1..]);
      PrefixSplits(frames, |frames| - 1);
    }
  }

  /** The k-th pinch map of a run is the one frame k reports from the state
      the run reached after the first k frames. */
  lemma RunReportsEachFrame(walk: Walk, r: Router, frames: seq<Frame>, k: nat)
    requires k < |Run(walk, r, frames).pinches|
    ensures var before := Run(walk, r, frames[..k]);
            && before.Completed?
            && OnFrame(walk, before.router, frames[k]).Running?
            && Run(walk, r, frames).pinches[k] == OnFrame(walk, before.router, frames[k]).pinches
  {
    LoopReportsEachStep(StepOf(walk), r, frames, k);
    var before := Run(walk, r, frames[..k]);
    assert StepOf(walk)(before.router, frames[k]) == OnFrame(walk, before.router, frames[k]);
  }

  /** A completed run ends in the state the last frame leaves. */
  lemma RunEndsAtLastFrame(walk: Walk, r: Router, frames: seq<Frame>)
    requires frames != []
    ensures var res := Run(walk, r, frames);
            var n := |frames| - 1;
            var before := Run(walk, r, frames[..n]);
            res.Completed? ==>
              && before.Completed?
              && OnFrame(walk, before.router, frames[n]).Running?
              && res.router == OnFrame(walk, before.router, frames[n]).router
  {
    LoopEndsAtLastStep(StepOf(walk), r, frames);
    var before := Run(walk, r, frames[..|frames| - 1]);
    if before.Completed? {
      assert StepOf(walk)(before.router, frames[|frames| - 1]) == OnFrame(walk, before.router, frames[|frames| - 1]);
    }
  }

  /** Every tracker is filed under its own hand and is valid. */
  ghost predicate ValidTrackers(trackers: map<int, Tracker>)
  {
    forall h | h in trackers :: trackers[h].hand == h && ValidTracker(trackers[h])
  }

  /** Every tracker of the router is valid and filed under its own hand. */
  ghost predicate ValidRouter(r: Router)
  {
    ValidTrackers(r.trackers)
  }

  /** A known hand has pointables in `ps` exactly when it has some to count. */
  lemma {:induction false} OfHandPresent(ps: seq<Pointable>, h: int)
    requires h != UnknownHand
    ensures h in HandsOf(ps) <==> |OfHand(ps, h)| > 0
  {
    OfAbsentHand(ps, h);
    if ps != [] {
      var init := ps[..|ps| - 1];
      var p := ps[|ps| - 1];
      OfHandPresent(init, h);
      HandsOfSnoc(init, p);
      assert ps == init + [p];
    }
  }

  /** Feeding one more pointable is one more `OnPointable` step. */
  lemma FeedSnoc(t: Tracker, ps: seq<Pointable>, p: Pointable, now: int)
    ensures Feed(t, ps + [p], now) == OnPointable(Feed(t, ps, now), p, now)
  {
    assert (ps + [p])[..|ps|] == ps;
  }

  /** Each hand's tracker sees exactly that hand's pointables, in frame order:
      delivery to one hand is the tracker fed its own pointables. */
  lemma {:induction false} DeliverRoutesByHand(trackers: map<int, Tracker>, ps: seq<Pointable>, now: int, h: int)
    requires h != UnknownHand && (h in trackers || h in HandsOf(ps))
    ensures Deliver(trackers, ps, now)[h] == Feed(Lookup(trackers, h), OfHand(ps, h), now)
  {
    if ps != [] {
      var init := ps[..|ps| - 1];
      var p := ps[|ps| - 1];
      HandsOfLast(ps);
      var before := Deliver(trackers, init, now);
      if h in trackers || h in HandsOf(init) {
        DeliverRoutesByHand(trackers, init, now, h);
      } else {
        OfAbsentHand(init, h);
      }
      assert Lookup(before, h) == Feed(Lookup(trackers, h), OfHand(init, h), now);
      if p.handId == h {
        FeedSnoc(Lookup(trackers, h), OfHand(init, h), p, now);
      }
    }
  }

  /** A hand without pointables in the frame keeps its tracker untouched by
      delivery. */
  lemma DeliverLeavesOtherHands(trackers: map<int, Tracker>, ps: seq<Pointable>, now: int, h: int)
    requires h in trackers && h !in HandsOf(ps)
    ensures Deliver(trackers, ps, now)[h] == trackers[h]
  {
    if h != UnknownHand {
      OfAbsentHand(ps, h);
      DeliverRoutesByHand(trackers, ps, now, h);
    } else {
      DeliverKeepsUnknown(trackers, ps, now);
    }
  }

  /** Pointables of the unknown hand are never delivered, so a tracker filed
      under it is left untouched. */
  lemma {:induction false} DeliverKeepsUnknown(trackers: map<int, Tracker>, ps: seq<Pointable>, now: int)
    requires UnknownHand in trackers
    ensures Deliver(trackers, ps, now)[UnknownHand] == trackers[UnknownHand]
  {
    if ps != [] {
      DeliverKeepsUnknown(trackers, ps[..|ps| - 1], now);
    }
  }

  /** A hand is signalled exactly when it had a count in the previous frame,
      has pointables in this frame, and has fewer of them than before. A hand
      absent from this frame is never signalled. */
  lemma SignalledIff(past: map<int, nat>, ps: seq<Pointable>, h: int)
    ensures h in Signalled(past, CountPerHand(ps)) <==>
              h != UnknownHand && h in past && 0 < |OfHand(ps, h)| < past[h]
  {
    if h != UnknownHand {
      OfHandPresent(ps, h);
    }
  }

  /** What one frame does to hand `h`'s tracker: delivery of its pointables,
      then, if and only if it is signalled, the disappearance step, whose
      pinch (if any) is the one reported for `h`. */
  lemma FrameEffectOnHand(walk: Walk, r: Router, frame: Frame, h: int)
    requires h in r.trackers || h in HandsOf(frame.pointables)
    ensures var res := OnFrame(walk, r, frame);
            var delivered := Deliver(r.trackers, frame.pointables, frame.time)[h];
            res.Running? ==>
              && h in res.router.trackers
              && if h != UnknownHand && h in r.past && 0 < |OfHand(frame.pointables, h)| < r.past[h] then
                   var o := OnFingerDisappeared(walk, delivered, frame.time);
                   && o.Stepped?
                   && res.router.trackers[h] == o.tracker
                   && (h in res.pinches <==> o.pinch.Some?)
                   && (h in res.pinches ==> res.pinches[h] == o.pinch.value)
                 else
                   res.router.trackers[h] == delivered && h !in res.pinches
  {
    SignalledIff(r.past, frame.pointables, h);
  }

  /** Delivering a frame keeps every tracker valid and filed under its hand. */
  lemma {:induction false} DeliverPreservesValid(trackers: map<int, Tracker>, ps: seq<Pointable>, now: int)
    requires ValidTrackers(trackers)
    ensures ValidTrackers(Deliver(trackers, ps, now))
  {
    if ps != [] {
      var init := ps[..|ps| - 1];
      var p := ps[|ps| - 1];
      DeliverPreservesValid(trackers, init, now);
      var ts := Deliver(trackers, init, now);
      if p.handId != UnknownHand {
        NewTrackerValid(p.handId);
        OnPointablePreservesValid(Lookup(ts, p.handId), p, now);
      }
    }
  }

  /** Signalling valid trackers keeps them valid, every reported pinch
      carries the hand it is reported for, and with the capped walk no
      tracker aborts. */
  lemma SignalAllFacts(walk: Walk, trackers: map<int, Tracker>, hands: set<int>, now: int)
    requires hands <= trackers.Keys
    requires ValidTrackers(trackers)
    ensures var res := SignalAll(walk, trackers, hands, now);
            && (res.Some? ==> ValidTrackers(res.value.0))
            && (res.Some? ==> forall h | h in res.value.1 :: res.value.1[h].handId == h)
            && (walk.Capped? ==> res.Some?)
  {
    forall h | h in hands
      ensures var o := OnFingerDisappeared(walk, trackers[h], now);
              && (o.Stepped? ==> ValidTracker(o.tracker) && o.tracker.hand == h)
              && (o.Stepped? && o.pinch.Some? ==> o.pinch.value.handId == h)
              && (walk.Capped? ==> o.Stepped?)
    {
      assert ValidTracker(trackers[h]) && trackers[h].hand == h;
      OnFingerDisappearedPreservesValid(walk, trackers[h], now);
      PinchCarriesHand(walk, trackers[h], now);
      if walk.Capped? {
        CappedTrackerNeverCrashes(trackers[h], now);
      }
    }
  }

  /** One frame keeps the router valid, reports each pinch under its own
      hand, and with the capped walk never halts. */
  lemma OnFrameFacts(walk: Walk, r: Router, frame: Frame)
    requires ValidRouter(r)
    ensures var res := OnFrame(walk, r, frame);
            && (res.Running? ==> ValidRouter(res.router))
            && (res.Running? ==> forall h | h in res.pinches :: res.pinches[h].handId == h)
            && (walk.Capped? ==> res.Running?)
  {
    var curr := CountPerHand(frame.pointables);
    var trackers := Deliver(r.trackers, frame.pointables, frame.time);
    DeliverPreservesValid(r.trackers, frame.pointables, frame.time);
    SignalAllFacts(walk, trackers, Signalled(r.past, curr), frame.time);
  }

  /** With the capped walk, a run from a valid router processes every frame. */
  lemma {:induction false} CappedRunCompletes(r: Router, frames: seq<Frame>)
    requires ValidRouter(r)
    ensures Run(Capped, r, frames).Completed?
    decreases |frames|
  {
    if frames != [] {
      OnFrameFacts(Capped, r, frames[0]);
      assert StepOf(Capped)(r, frames[0]) == OnFrame(Capped, r, frames[0]);
      var next := OnFrame(Capped, r, frames[0]).router;
      CappedRunCompletes(next, frames[1..]);
    }
  }

  /** The router before the first frame satisfies the invariant. */
  lemma InitialValid()
    ensures ValidRouter(Initial)
  {
  }

  /** As written, a frame from a valid router halts exactly when some
      signalled hand's delivered tracker meets the abort condition: two
      close candidates with at least 17 samples each. */
  lemma AsWrittenFrameHaltsIff(r: Router, frame: Frame)
    requires ValidRouter(r)
    ensures var trackers := Deliver(r.trackers, frame.pointables, frame.time);
            var signalled := Signalled(r.past, CountPerHand(frame.pointables));
            && signalled <= trackers.Keys
            && (OnFrame(AsWritten, r, frame).Halted? <==>
                  exists h | h in signalled :: AbortsAsWritten(trackers[h], frame.time))
  {
    FrameHaltsIff(AsWritten, r, frame);
    var trackers := Deliver(r.trackers, frame.pointables, frame.time);
    var signalled := Signalled(r.past, CountPerHand(frame.pointables));
    DeliverPreservesValid(r.trackers, frame.pointables, frame.time);
    forall h | h in signalled
      ensures OnFingerDisappeared(AsWritten, trackers[h], frame.time).Crashed? <==> AbortsAsWritten(trackers[h], frame.time)
    {
      AsWrittenAbortsIff(trackers[h], frame.time);
    }
  }
}
