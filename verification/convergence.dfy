/** The convergence test run on the two fingers of a candidate pinch: walk
    both histories from their oldest sample at every other offset, and count
    the sampled steps at which the squared distance between the two tips grew
    ("regressions"). The pair converges when at most `ConvergenceThreshold`
    steps regressed. */
module Convergence {
  import opened Common
  import opened Geometry
  import opened CircBuf

  /** How far the walk goes. `AsWritten` is the bound the Go code computes:
      `min(added1, added2)`, because its cap compares a variable that is never
      assigned. `Capped` is the evidently intended bound, additionally capped
      at the buffer capacity. */
  datatype Walk = AsWritten | Capped

  /** The walk bound `maxCount`. */
  function WalkBound(walk: Walk, added1: nat, added2: nat): (n: nat)
    ensures walk.AsWritten? ==> n == Min(added1, added2)
    ensures walk.Capped? ==> n == Min(Min(added1, added2), MaxPointablesPerHistory)
  {
    var maxCount := if added1 == added2 || added1 < added2 then added1 else added2;
    match walk
    case AsWritten =>
      var max := 0;  // declared but never assigned, so the cap below is dead
      if max > MaxPointablesPerHistory then MaxPointablesPerHistory else maxCount
    case Capped =>
      if maxCount > MaxPointablesPerHistory then MaxPointablesPerHistory else maxCount
  }

  /** The number of offsets `0, 2, 4, ...` below `bound`. */
  function SampleCount(bound: nat): nat
  {
    (bound + 1) / 2
  }

  /** The squared distances between the two histories at the first `n`
      offsets of the walk (`0, 2, ..., 2 * (n - 1)`), or `None` when the last
      of them lies beyond either buffer's contents. */
  function SampledDistances(a: Buffer, b: Buffer, n: nat): (r: Option<seq<real>>)
    ensures r.Some? <==> n == 0 || (2 * (n - 1) < |a.items| && 2 * (n - 1) < |b.items|)
    ensures r.Some? ==> |r.value| == n
    ensures r.Some? ==> forall k :: 0 <= k < n ==>
              r.value[k] == DistanceBetweenPointables(a.items[2 * k], b.items[2 * k])
  {
    if n == 0 then Some([])
    else
      match SampledDistances(a, b, n - 1)
      case None => None
      case Some(ds) =>
        match (ReadFromStart(a, 2 * (n - 1)), ReadFromStart(b, 2 * (n - 1)))
        case (Some(pa), Some(pb)) => Some(ds + [DistanceBetweenPointables(pa, pb)])
        case _ => None
  }

  /** A sampled step regresses when the previous distance is non-zero and
      strictly smaller than the current one. */
  predicate IsRegression(dLast: real, dCurrent: real)
  {
    dLast < dCurrent && dLast != 0.0
  }

  /** The number of consecutive pairs of `ds` that regress. */
  function Regressions(ds: seq<real>): (n: nat)
    ensures |ds| > 0 ==> n <= |ds| - 1
  {
    if |ds| <= 1 then 0
    else
      Regressions(ds[..|ds| - 1]) + (if IsRegression(ds[|ds| - 2], ds[|ds| - 1]) then 1 else 0)
  }

  /** The convergence verdict for two histories: `None` when the walk reads
      past a buffer's contents (the detector then aborts the process), else
      whether the regressions stay within `ConvergenceThreshold`. */
  function Verdict(walk: Walk, a: Buffer, b: Buffer): Option<bool>
  {
    match SampledDistances(a, b, SampleCount(WalkBound(walk, a.added, b.added)))
    case None => None
    case Some(ds) => Some(Regressions(ds) <= ConvergenceThreshold)
  }

  /** Appending one distance adds one regression exactly when it grew from a
      non-zero predecessor. */
  lemma RegressionsStep(ds: seq<real>, d: real)
    ensures Regressions(ds + [d]) ==
              Regressions(ds) + (if |ds| > 0 && IsRegression(ds[|ds| - 1], d) then 1 else 0)
  {
    assert (ds + [d])[..|ds|] == ds;
  }

  /** A walk that has read `k` offsets and reached its bound has read all
      of them; one still below it has more to read. */
  lemma SampleCountReached(k: nat, bound: nat)
    ensures 2 * k >= bound && 2 * k <= bound + 1 ==> SampleCount(bound) == k
    ensures 2 * k < bound ==> k < SampleCount(bound)
  {
  }

  /** The state of the walk after sampling the distances `ds`: the counter
      holds their regressions and `dLast` the latest of them, zero before
      the first. */
  ghost predicate Walked(a: Buffer, b: Buffer, ds: seq<real>, failThreshold: nat, dLast: real)
  {
    && SampledDistances(a, b, |ds|) == Some(ds)
    && failThreshold == Regressions(ds)
    && dLast == (if |ds| == 0 then 0.0 else ds[|ds| - 1])
  }

  /** Reading both histories at the next offset extends the walk by the
      distance of the two samples read there, counting it as a regression
      when it grew from a non-zero predecessor. */
  lemma Advance(a: Buffer, b: Buffer, ds: seq<real>, failThreshold: nat, dLast: real,
                pa: Pointable, pb: Pointable)
    requires Walked(a, b, ds, failThreshold, dLast)
    requires ReadFromStart(a, 2 * |ds|) == Some(pa) && ReadFromStart(b, 2 * |ds|) == Some(pb)
    ensures var d := DistanceBetweenPointables(pa, pb);
            Walked(a, b, ds + [d], failThreshold + (if IsRegression(dLast, d) then 1 else 0), d)
  {
    RegressionsStep(ds, DistanceBetweenPointables(pa, pb));
  }

  /** A failed read at an offset below the bound makes the whole walk fail. */
  lemma SampleFails(walk: Walk, a: Buffer, b: Buffer, k: nat)
    requires 2 * k < WalkBound(walk, a.added, b.added)
    requires ReadFromStart(a, 2 * k).None? || ReadFromStart(b, 2 * k).None?
    ensures Verdict(walk, a, b).None?
  {
    SampleCountReached(k, WalkBound(walk, a.added, b.added));
  }

  /** A walk that has read every offset below its bound reaches the verdict
      of the distances it sampled. */
  lemma WalkCompletes(walk: Walk, a: Buffer, b: Buffer, ds: seq<real>)
    requires SampledDistances(a, b, |ds|) == Some(ds)
    requires 2 * |ds| >= WalkBound(walk, a.added, b.added)
    requires 2 * |ds| <= WalkBound(walk, a.added, b.added) + 1
    ensures Verdict(walk, a, b) == Some(Regressions(ds) <= ConvergenceThreshold)
  {
    SampleCountReached(|ds|, WalkBound(walk, a.added, b.added));
  }

  /** The walk itself, step by step as the detector performs it: a running
      `dLast` starting at zero and a counter of regressed steps. */
  method CalculateConvergence(walk: Walk, mp: Buffer, p: Buffer) returns (r: Option<bool>)
    ensures r == Verdict(walk, mp, p)
  {
    var maxCount := WalkBound(walk, mp.added, p.added);
    var dLast: real := 0.0;
    var failThreshold: nat := 0;
    var i: nat := 0;
    ghost var ds: seq<real> := [];
    while i < maxCount
      invariant i == 2 * |ds| && i <= maxCount + 1
      invariant Walked(mp, p, ds, failThreshold, dLast)
    {
      var myA := ReadFromStart(mp, i);
      var myB := ReadFromStart(p, i);
      if myA.None? || myB.None? {
        SampleFails(walk, mp, p, |ds|);
        return None;
      }
      var dCurrent := DistanceBetweenPointables(myA.value, myB.value);
      Advance(mp, p, ds, failThreshold, dLast, myA.value, myB.value);
      if dLast < dCurrent && dLast != 0.0 {
        failThreshold := failThreshold + 1;
      }
      dLast := dCurrent;
      ds := ds + [dCurrent];
      i := i + 2;
    }
    WalkCompletes(walk, mp, p, ds);
    r := Some(!(failThreshold > ConvergenceThreshold));
  }

  /** Every sampled step grows the distance from a non-zero predecessor. */
  predicate Diverging(ds: seq<real>)
  {
    forall k :: 0 < k < |ds| ==> IsRegression(ds[k - 1], ds[k])
  }

  /** No sampled step grows the distance. */
  predicate NonIncreasing(ds: seq<real>)
  {
    forall k :: 0 < k < |ds| ==> ds[k] <= ds[k - 1]
  }

  /** The distances that `Verdict` judges, when every read succeeds. */
  function WalkDistances(walk: Walk, a: Buffer, b: Buffer): Option<seq<real>>
  {
    SampledDistances(a, b, SampleCount(WalkBound(walk, a.added, b.added)))
  }

  /** The walk samples the offsets `0, 2, ..., 2 * (n - 1)`: every one of
      them lies below the bound and the next even offset does not, so it
      reads exactly the even offsets below the bound. */
  lemma WalkReadsEvenOffsetsBelowBound(walk: Walk, a: Buffer, b: Buffer)
    ensures var bound := WalkBound(walk, a.added, b.added);
            var n := SampleCount(bound);
            && (WalkDistances(walk, a, b).Some? ==> |WalkDistances(walk, a, b).value| == n)
            && (n > 0 ==> 2 * (n - 1) < bound)
            && 2 * n >= bound
  {
    SampleCountReached(SampleCount(WalkBound(walk, a.added, b.added)), WalkBound(walk, a.added, b.added));
  }

  /** Distances that never grow produce no regression. */
  lemma {:induction false} NonIncreasingHasNoRegressions(ds: seq<real>)
    requires NonIncreasing(ds)
    ensures Regressions(ds) == 0
  {
    if |ds| > 1 {
      NonIncreasingHasNoRegressions(ds[..|ds| - 1]);
    }
  }

  /** Every step regresses exactly when the regression count reaches its
      largest possible value, one less than the number of samples. */
  lemma {:induction false} FullCountIffDiverging(ds: seq<real>)
    requires |ds| > 0
    ensures Regressions(ds) == |ds| - 1 <==> Diverging(ds)
  {
    if |ds| > 1 {
      var init := ds[..|ds| - 1];
      FullCountIffDiverging(init);
      if Diverging(ds) {
        assert Diverging(init);
      }
      if Regressions(ds) == |ds| - 1 {
        assert Regressions(init) == |init| - 1;
        assert Diverging(init);
        forall k | 0 < k < |ds|
          ensures IsRegression(ds[k - 1], ds[k])
        {
          if k < |ds| - 1 {
            assert init[k - 1] == ds[k - 1] && init[k] == ds[k];
          }
        }
      }
    }
  }

  /** Pairs whose sampled distances never grow always converge. */
  lemma DecreasingDistancesConverge(walk: Walk, a: Buffer, b: Buffer)
    requires WalkDistances(walk, a, b).Some?
    requires NonIncreasing(WalkDistances(walk, a, b).value)
    ensures Verdict(walk, a, b) == Some(true)
  {
    NonIncreasingHasNoRegressions(WalkDistances(walk, a, b).value);
  }

  /** With at most 14 samples in either history the walk samples at most
      seven distances, so at most six steps can regress: the test cannot
      reject. For histories built by appends the walk also stays inside the
      buffers, so the test accepts. */
  lemma ShortWalksConverge(walk: Walk, a: Buffer, b: Buffer)
    requires Valid(a) && Valid(b)
    requires Min(a.added, b.added) <= 14
    ensures Verdict(walk, a, b) == Some(true)
  {
    if walk.AsWritten? {
      WalkFaultIff(a, b);
    } else {
      CappedWalkNeverFaults(a, b);
    }
  }

  /** For histories built by appends, the walk as written reads past the
      buffers exactly when both fingers have had at least 17 samples. */
  lemma WalkFaultIff(a: Buffer, b: Buffer)
    requires Valid(a) && Valid(b)
    ensures Verdict(AsWritten, a, b).None? <==> Min(a.added, b.added) >= 17
  {
    var m := Min(a.added, b.added);
    SampleCountReached(8, 16);
    if m >= 17 {
      SampleCountReached(8, m);
    } else if m > 0 {
      assert SampleCount(m) <= 8;
      assert 2 * (SampleCount(m) - 1) < m;
    }
  }

  /** The capped walk never reads past the buffers of histories built by appends. */
  lemma CappedWalkNeverFaults(a: Buffer, b: Buffer)
    requires Valid(a) && Valid(b)
    ensures Verdict(Capped, a, b).Some?
  {
    var m := WalkBound(Capped, a.added, b.added);
    if m > 0 {
      assert SampleCount(m) <= 8;
      assert 2 * (SampleCount(m) - 1) < m;
    }
  }

  /** Whenever the walk as written completes, it reaches the same verdict as
      the capped walk. */
  lemma AsWrittenAgreesWithCapped(a: Buffer, b: Buffer)
    requires Valid(a) && Valid(b)
    requires Verdict(AsWritten, a, b).Some?
    ensures Verdict(AsWritten, a, b) == Verdict(Capped, a, b)
  {
    WalkFaultIff(a, b);
    var m := Min(a.added, b.added);
    if m == 16 {
      SampleCountReached(8, 16);
      SampleCountReached(8, 15);
    }
  }

  /** The test rejects a pair only when it sampled eight distances (both
      histories have at least 15 samples) and every sampled step grew: all
      other completed walks converge. */
  lemma RejectsOnlyDivergingPairs(walk: Walk, a: Buffer, b: Buffer)
    requires Valid(a) && Valid(b)
    requires Verdict(walk, a, b).Some?
    ensures Verdict(walk, a, b) == Some(false) <==>
              Min(a.added, b.added) >= 15 && Diverging(WalkDistances(walk, a, b).value)
  {
    var ds := WalkDistances(walk, a, b).value;
    var m := Min(a.added, b.added);
    if walk.AsWritten? {
      WalkFaultIff(a, b);
    }
    var bound := WalkBound(walk, a.added, b.added);
    if m >= 15 {
      SampleCountReached(8, bound);
      assert |ds| == 8;
    } else {
      assert |ds| <= 7;
    }
    if |ds| > 0 {
      FullCountIffDiverging(ds);
    }
  }

  /** The verdict does not depend on which finger of the pair comes first. */
  lemma VerdictSymmetric(walk: Walk, a: Buffer, b: Buffer)
    ensures Verdict(walk, a, b) == Verdict(walk, b, a)
  {
    var n := SampleCount(WalkBound(walk, a.added, b.added));
    assert n == SampleCount(WalkBound(walk, b.added, a.added));
    var r1 := SampledDistances(a, b, n);
    var r2 := SampledDistances(b, a, n);
    if r1.Some? {
      forall k | 0 <= k < n
        ensures r1.value[k] == r2.value[k]
      {
        DistanceSymmetric(a.items[2 * k], b.items[2 * k]);
      }
      assert r1.value == r2.value;
    }
  }

  /** Two fingers tracked for 17 frames each make the walk as written read
      offset 16 of buffers that hold 15 samples: the read fails, while the
      capped walk reaches a verdict. */
  lemma SeventeenSamplesAbort(ps1: seq<Pointable>, ps2: seq<Pointable>)
    requires |ps1| == 17 && |ps2| == 17
    ensures Verdict(AsWritten, Fill(ps1), Fill(ps2)).None?
    ensures Verdict(Capped, Fill(ps1), Fill(ps2)).Some?
  {
    FillKeepsLatest(ps1);
    FillKeepsLatest(ps2);
    WalkFaultIff(Fill(ps1), Fill(ps2));
    CappedWalkNeverFaults(Fill(ps1), Fill(ps2));
  }
}
