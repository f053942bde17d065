# Pinch detector — a Dafny model

This project models the decision logic of a pinch-gesture detector for a
hand-tracking sensor. The sensor delivers frames of fingertip samples
("pointables"). A router splits each frame by hand and forwards each sample
to that hand's tracker, creating the tracker on first sight. It then compares
per-hand finger counts with the previous frame. When a hand that is still
visible has fewer fingers than before, the router signals a disappearance to
its tracker.

Each tracker keeps a bounded history per finger. On a disappearance signal it
looks for exactly two recently updated fingers that have enough history. It
checks that their newest tips are at a squared distance strictly below 1900, and that
their distance has mostly been shrinking. If both gates pass, it emits a
`Pinch` at the midpoint of the two tips.

The goroutines and channels of the Go code become pure step functions:

- `HandTracker.OnPointable` and `HandTracker.OnFingerDisappeared` are the two
  arms of the tracker loop, each followed by the eviction pass.
- `HandRouter.OnFrame` is one iteration of the router loop.
- `HandRouter.Run` folds `OnFrame` over a sequence of frames.

Time is an explicit argument in milliseconds. The external circular buffer is
an abstract bounded sequence with a monotone `added` counter.

Modules, leaves first:

- `common.dfy` holds `Option`, the tuning constants, and the deterministic
  choice of a two-element set.
- `geometry.dfy` holds squared distance, midpoint and the pinch record.
- `circbuf.dfy` holds the bounded history with its append and its reads from
  either end.
- `convergence.dfy` holds the convergence walk, both as a reference function
  (`Verdict`) and as the loop the detector runs (`CalculateConvergence`).
- `tracker.dfy` holds the per-hand tracker.
- `router.dfy` holds the frame router.

The walk bound is a parameter, `Convergence.Walk`:

- `AsWritten` is the bound the code computes.
- `Capped` is the bound its dead cap evidently meant; see Findings.

The tracker and the router take this parameter, so the lemmas state facts
about both versions.

## Model

| member | source | states |
|---|---|---|
| `Geometry.Square` | pinch.go:354-356 | A squared coordinate difference is never negative |
| `Geometry.DistanceBetween` | pinch.go:353-358 | The sum of squared per-axis differences is non-negative |
| `Geometry.DistanceBetweenPointables` | pinch.go:338-343 | The squared distance between two tips is non-negative |
| `Geometry.DistanceSymmetric` | pinch.go:353-358 | The squared distance does not depend on the order of the two points |
| `Geometry.DistanceZeroWhenCoincide` | pinch.go:353-358 | Coinciding tips are at squared distance zero |
| `Geometry.Halfway` | pinch.go:346-348 | `a + 0.5*(b-a)` is equally far from `a` and `b` and lies between them |
| `Geometry.HalfwaySymmetric` | pinch.go:346-348 | The midpoint equals `(a+b)/2`, so it is symmetric in its arguments |
| `Geometry.SetFrom2Pointables` | pinch.go:323-331 | The pinch takes its hand id from the first pointable, and each coordinate is the mean of the two tips' coordinates |
| `Geometry.PinchPointIsCentred` | pinch.go:323-331 | The pinch point is at a quarter of the tips' squared distance from each tip |
| `Geometry.SetFrom2PointablesSymmetric` | pinch.go:323-331 | For two pointables of one hand, their order does not change the pinch |
| `CircBuf.ReadFromStart` | pinch.go:79-83 | A read from the oldest sample succeeds exactly for offsets below the occupancy, and returns a retained sample |
| `CircBuf.ReadFromEnd` | pinch.go:186-189 | A read from the newest sample succeeds exactly for offsets below the occupancy, and returns a retained sample |
| `CircBuf.AddItem` | pinch.go:148-155 | An append adds one to `added` and makes the sample the newest. Older samples shift back by one. Occupancy grows by one until capacity, then stays there. Validity is preserved |
| `CircBuf.FillKeepsLatest` | pinch.go:148-155 | After k appends to a fresh buffer, `added == k` and the buffer holds exactly the last `min(k, 15)` samples in order |
| `CircBuf.AppendKeepsLatest` | pinch.go:148-155 | Appending to a full buffer drops the oldest sample, and appending to a non-full one keeps all samples, so the newest `min(k, 15)` samples are retained |
| `CircBuf.ReadEndsAgree` | pinch.go:186-189 | Offset `i` from the start is the same sample as offset `n-1-i` from the end |
| `Convergence.WalkBound` | pinch.go:62-76 | As written, `maxCount` is `min(Added_A, Added_B)` because the cap never fires; the capped variant is additionally at most 15 |
| `Convergence.WalkReadsEvenOffsetsBelowBound` | pinch.go:78 | The walk samples offsets `0, 2, ..., 2(n-1)`, all below its bound, while the next even offset `2n` is not below it. With `SampledDistances`, this means the walk reads exactly the even offsets below the bound |
| `Convergence.SampledDistances` | pinch.go:78-90 | The sampled distances exist exactly when the last offset read is inside both buffers; the k-th is the squared distance of both samples at offset 2k |
| `Convergence.Regressions` | pinch.go:91-94 | Over n sampled distances at most n-1 steps can regress |
| `Convergence.Advance` | pinch.go:78-94 | One step of the walk extends the sampled distances by the distance at the next even offset, and counts a regression exactly when that distance grew from a non-zero predecessor |
| `Convergence.CalculateConvergence` | pinch.go:52-104 | The loop, with its running `dLast` starting at 0, computes the reference verdict: a failed read, or whether the count of regressing consecutive pairs is within 6. So the first sampled step never counts |
| `Convergence.NonIncreasingHasNoRegressions` | pinch.go:91-94 | Distances that never grow give zero regressions |
| `Convergence.FullCountIffDiverging` | pinch.go:91-94 | The count reaches its maximum n-1 exactly when every step grows from a non-zero predecessor |
| `Convergence.DecreasingDistancesConverge` | pinch.go:91-103 | Pairs whose sampled distances never grow pass the test |
| `Convergence.ShortWalksConverge` | pinch.go:97-103 | For histories built by appends, when either has at most 14 samples the test accepts, with either walk |
| `Convergence.RejectsOnlyDivergingPairs` | pinch.go:97-103 | A completed walk rejects exactly when both histories have at least 15 samples and all 7 sampled steps grew |
| `Convergence.WalkFaultIff` | pinch.go:62-88 | As written, a walk over histories built by appends reads past the buffers exactly when both have at least 17 samples |
| `Convergence.CappedWalkNeverFaults` | pinch.go:74-79 | With the intended cap, the walk never reads past the buffers |
| `Convergence.AsWrittenAgreesWithCapped` | pinch.go:62-103 | Whenever the walk as written completes, its verdict equals the capped walk's verdict |
| `Convergence.VerdictSymmetric` | pinch.go:62-103 | The verdict does not depend on which finger of the pair comes first |
| `Convergence.SeventeenSamplesAbort` | pinch.go:62-88 | Two fingers with 17 samples each make the walk as written fail its read, while the capped walk succeeds |
| `HandTracker.RemoveOld` | pinch.go:225-230 | Eviction keeps exactly the fingers aged at most 60 ms, unchanged |
| `HandTracker.RemoveOldIdempotent` | pinch.go:225-230 | Evicting twice at the same instant equals evicting once |
| `HandTracker.Candidates` | pinch.go:161-168 | A finger is a candidate iff it is tracked, aged under 50 ms and has at least 6 samples appended |
| `HandTracker.OnPointable` | pinch.go:142-155 | The sample's finger exists afterwards, stamped with `now`; its history is its previous history, or a fresh one, with the sample appended, so earlier samples are kept up to capacity. The sample is its newest, and `added` grew by one from the old value or from 0. Every other finger is unchanged, or evicted if older than 60 ms |
| `HandTracker.Decide` | pinch.go:184-206 | With either history empty the read fails and the process aborts. Otherwise: a pinch is emitted iff the newest tips are at squared distance strictly below 1900 and the convergence test passes, and the pinch is their midpoint. The process aborts iff the distance gate passes and the walk fails a read |
| `HandTracker.OnFingerDisappeared` | pinch.go:157-230 | A disappearance changes no history, only evicts. Without exactly two candidates it emits nothing |
| `HandTracker.NoPinchWithoutExactlyTwo` | pinch.go:177-222 | Without exactly two candidates, the result is the evicted state with no pinch |
| `HandTracker.DecideSymmetric` | pinch.go:184-206 | For two histories of one hand, the gate decision does not depend on their order, which the Go code takes from map iteration |
| `HandTracker.DisappearedDecides` | pinch.go:161-222 | With candidates exactly `{a, b}`, in either order, the outcome is the gate decision on their histories |
| `HandTracker.PinchDecision` | pinch.go:178-206 | With exactly two candidates, a pinch is emitted iff their newest tips are at squared distance strictly below 1900 and the convergence test passes; the pinch is their midpoint. The tracker aborts iff the distance gate passes and the walk fails a read |
| `HandTracker.PinchCarriesHand` | pinch.go:203-205 | Every pinch a valid tracker emits carries the tracker's hand id |
| `HandTracker.CappedTrackerNeverCrashes` | pinch.go:196-206 | With the capped walk, a valid tracker never aborts on a disappearance |
| `HandTracker.AsWrittenCrashIff` | pinch.go:196-206 | As written, a valid tracker aborts iff its two candidates pass the distance gate and both have at least 17 samples |
| `HandTracker.AsWrittenAbortsIff` | pinch.go:157-206 | As written, a valid tracker aborts on a disappearance iff it has exactly two candidates, they pass the distance gate, and both have at least 17 samples |
| `HandTracker.NewTrackerValid` | pinch.go:287-294 | A new tracker satisfies the tracker invariant |
| `HandTracker.OnPointablePreservesValid` | pinch.go:142-155 | Delivering a pointable of the tracker's hand keeps every history valid and homogeneous |
| `HandTracker.OnFingerDisappearedPreservesValid` | pinch.go:157-230 | A disappearance keeps the tracker valid |
| `HandRouter.OfHand` | pinch.go:262-268 | The pointables selected for a hand belong to the frame and to that hand |
| `HandRouter.OfHandCounts` | pinch.go:262-281 | Selection keeps every pointable of the hand, as often as it occurs in the frame, and nothing else |
| `HandRouter.TallyCounts` | pinch.go:270-281 | Counting one more pointable keeps each known hand's count equal to the number of its pointables seen so far, and leaves the unknown hand uncounted |
| `HandRouter.CountPerHand` | pinch.go:262-281 | The counts cover exactly the known hands of the frame, and each count is the number of that hand's pointables |
| `HandRouter.Deliver` | pinch.go:283-298 | After delivery the trackers are exactly the old ones plus one per known hand in the frame; none is removed |
| `HandRouter.OfHandPresent` | pinch.go:262-281 | A known hand appears in a frame exactly when it has at least one pointable there |
| `HandRouter.DeliverRoutesByHand` | pinch.go:283-298 | Each hand's tracker ends as its old tracker, or a new one, fed exactly that hand's pointables in frame order. Unknown-hand pointables reach no tracker |
| `HandRouter.DeliverKeepsUnknown` | pinch.go:265-268 | Pointables with the unknown hand id -1 never reach a tracker filed under -1, so any such tracker is left as it was |
| `HandRouter.DeliverLeavesOtherHands` | pinch.go:262-298 | A hand with no pointables in the frame keeps its tracker unchanged |
| `HandRouter.SignalledIff` | pinch.go:302-308 | A hand is signalled iff it is known, was in the previous snapshot, has pointables now, and has fewer than before. A hand absent from the frame is never signalled |
| `HandRouter.SignalAll` | pinch.go:302-308 | Signalling keeps the tracker set and reports pinches only for signalled hands. It fails iff some signalled tracker aborts |
| `HandRouter.OnFrame` | pinch.go:261-311 | After a frame, the snapshot is this frame's counts. The trackers are the old ones plus the frame's known hands. Pinches come only from signalled hands |
| `HandRouter.FrameHaltsIff` | pinch.go:283-308 | A frame halts iff some hand it signals aborts on the disappearance, judged on that hand's tracker after delivery |
| `HandRouter.AsWrittenFrameHaltsIff` | pinch.go:283-308 | As written, a frame from a valid router halts iff some signalled hand has two close candidates with at least 17 samples each |
| `HandRouter.FrameEffectOnHand` | pinch.go:261-311 | For each hand: its tracker receives its pointables, then the disappearance step iff the signal condition holds, and that step's pinch is the one reported; otherwise no pinch is reported for it |
| `HandRouter.DeliverPreservesValid` | pinch.go:283-298 | Delivery keeps every tracker valid and filed under its own hand |
| `HandRouter.SignalAllFacts` | pinch.go:302-308 | Signalling keeps trackers valid and reports each pinch under its own hand. With the capped walk, no tracker aborts |
| `HandRouter.OnFrameFacts` | pinch.go:261-311 | A frame keeps the router valid and reports each pinch under its own hand. With the capped walk, it never halts |
| `HandRouter.Loop` | pinch.go:261-311 | The loop reports one pinch map per frame when it completes, and fewer than one per frame when a frame halts it |
| `HandRouter.Run` | pinch.go:261-311 | A completed run yields one pinch map per frame. Its trackers are the initial ones plus every hand seen, so trackers are never removed. An aborted run reports fewer pinch maps than frames |
| `HandRouter.LoopReportsEachStep` | pinch.go:261-311 | For any per-frame step, the k-th pinch map the loop reports is the step's pinches on frame k, from the state reached after the first k frames |
| `HandRouter.LoopEndsAtLastStep` | pinch.go:261-311 | For any per-frame step, a completed loop ends in the state the step reaches on the last frame |
| `HandRouter.RunReportsEachFrame` | pinch.go:261-311 | The k-th pinch map of a run is what `OnFrame` reports for frame k from the state after the first k frames, and that frame runs |
| `HandRouter.RunEndsAtLastFrame` | pinch.go:261-311 | A completed run ends in the state `OnFrame` leaves after the last frame |
| `HandRouter.LoopKeepsHands` | pinch.go:283-298 | A completed loop has added a tracker for exactly the hands seen |
| `HandRouter.LoopAbortKeepsPrefix` | pinch.go:261-311 | For any per-frame step, an aborted loop reports exactly the pinches of the completed loop over the frames before the halting one, and that frame's step halts |
| `HandRouter.AbortedRunKeepsEarlierPinches` | pinch.go:88-205 | When a run halts, the pinches it reports are exactly those of the frames completed before the halting frame, and the halting frame's own step halts |
| `HandRouter.CappedRunCompletes` | pinch.go:261-311 | With the capped walk, a run from a valid router processes every frame |
| `HandRouter.InitialValid` | pinch.go:258-259 | The initial router is valid |

## Left out

- Goroutines, channels and the synchronous hand-off are not modelled. Each tracker is a state with two step functions, and the router is a fold over frames. Interleavings across hands and the order of pinches across hands are not modelled. A frame reports at most one pinch per hand, as a map from hand id to pinch.
- `time.Now` and `time.Since` are replaced by an explicit `now` in whole milliseconds. Every message of a frame is handled at the frame's time, and sub-millisecond ages are not modelled.
- Logging and the `DEBUG*` constants (pinch.go:27-40) have no effect on the decisions and are not modelled.
- The failed type assertions that call `logger.Fatal` cannot happen with typed sequences. The one fatal path that remains reachable is a failed buffer read. It is modelled as `Crashed` in the tracker and `Halted` in the router.
- The circular buffer's internals belong to an external package and are not part of this model. The model assumes `ReadFromStart(0)` is the oldest retained sample and that a read at or beyond the occupancy reports an error.
- The sensor library's types are reduced to `Pointable(id, handId, tip)`, and `XYZFromPointable` to field access.
- The `LastUpdate` map (pinch.go:123, pinch.go:143) is written but never read, so it is not modelled.
- IEEE-754 rounding is not modelled. Coordinates are `real`, and `math.Pow(d, 2)` is `d * d`.
- Go's random map iteration order decides which candidate is `pair[0]`. The model takes the smaller finger id first. `HandTracker.DecideSymmetric` and `HandTracker.DisappearedDecides` show that the order does not matter.
- Counting and delivery are interleaved per pointable in the Go code. The model runs them as two passes over the frame. Neither reads the other's state, so the results agree.
- HandRouter.Run: pinches that other hands emit within the halting frame itself, before the aborting hand is signalled, are not reported. Whether any exist depends on Go's map iteration order in the signalling loop (pinch.go:302). The model also stops at the halting frame itself and reports every pinch of the earlier frames. In the Go code, each tracker runs concurrently with the router: the signal send (pinch.go:305) completes as soon as the tracker receives it, and the router moves on. So the aborting tracker's `logger.Fatal` (pinch.go:88) may end the process before a pinch from an earlier frame, still waiting at pinch.go:205, has been received. It may also end it only after later frames have been handled and their pinches delivered. The model does not claim that the reported pinches were delivered, and it does not model the pinches of later frames.
- Geometry.DistanceZeroWhenCoincide: states only that coinciding tips are at distance zero. The converse, that a zero distance means the tips coincide, needs nonlinear real reasoning and is not proved.

## Findings

| source | as written | input that shows it | evidently intended | confidence | as-written member | corrected member |
|---|---|---|---|---|---|---|
| pinch.go:65-88 | The cap tests `max`, which is declared and never assigned, so `maxCount = min(Added_A, Added_B)`. The walk then reads offset 16 of buffers that hold 15 samples. It discards the read error, and the failed type assertion calls `logger.Fatal` | A disappearance signal while the two candidate fingers each have 17 samples and their newest tips are at squared distance below 1900 | `if maxCount > MAX_POINTABLES_PER_HISTORY { maxCount = MAX_POINTABLES_PER_HISTORY }`, so the walk stays inside the buffers | medium, not executed; relies on the buffer reporting an error for an out-of-range offset and returning an item that is not a `Pointable` (such as nil), so that the type assertion at pinch.go:80 fails | `Convergence.WalkFaultIff` | `Convergence.CappedWalkNeverFaults` |

The `Walk` parameter carries the intended cap through the tracker and the
router. With it, `HandRouter.CappedRunCompletes` proves that no frame ever
halts. `Convergence.AsWrittenAgreesWithCapped` proves that the two walks
agree whenever the one as written completes.

Two further consequences of the convergence test follow from the lemmas
above:

- With the capped walk at most 8 distances are sampled. A pair is therefore
  rejected only when all 7 sampled steps grew (`Convergence.RejectsOnlyDivergingPairs`).
- Whenever the walk completes, any pattern with at least one sampled step that does not grow is accepted. With the walk as written, histories of 17 or more samples abort instead of completing (`HandTracker.AsWrittenCrashIff`).
