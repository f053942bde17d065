/** The bounded history of one finger. The Go code keeps it in an external
    circular-buffer package whose internals are not part of this model; here
    it is the sequence of retained samples, oldest first, together with the
    total number of samples ever appended. */
module CircBuf {
  import opened Common
  import opened Geometry

  /** `items` holds at most `MaxPointablesPerHistory` samples, the oldest at
      index 0; `added` counts every append, including the overwritten ones. */
  datatype Buffer = Buffer(items: seq<Pointable>, added: nat)

  /** A freshly created buffer. */
  const Empty: Buffer := Buffer([], 0)

  /** Every buffer built from `Empty` by appends holds exactly the last
      `min(added, capacity)` samples. */
  ghost predicate Valid(b: Buffer)
  {
    |b.items| == Min(b.added, MaxPointablesPerHistory)
  }

  /** The sample `offset` places after the oldest retained one, or `None`
      when the buffer holds no such sample. */
  function ReadFromStart(b: Buffer, offset: nat): (r: Option<Pointable>)
    ensures r.Some? <==> offset < |b.items|
    ensures r.Some? ==> r.value in b.items
  {
    if offset < |b.items| then Some(b.items[offset]) else None
  }

  /** The sample `offset` places before the newest one, or `None` when the
      buffer holds no such sample. */
  function ReadFromEnd(b: Buffer, offset: nat): (r: Option<Pointable>)
    ensures r.Some? <==> offset < |b.items|
    ensures r.Some? ==> r.value in b.items
  {
    if offset < |b.items| then Some(b.items[|b.items| - 1 - offset]) else None
  }

  /** Appends a sample, dropping the oldest one when the buffer is full. */
  function AddItem(b: Buffer, p: Pointable): (r: Buffer)
    ensures r.added == b.added + 1
    ensures ReadFromEnd(r, 0) == Some(p)
    ensures forall i: nat :: i + 1 < |r.items| ==> ReadFromEnd(r, i + 1) == ReadFromEnd(b, i)
    ensures |b.items| < MaxPointablesPerHistory ==> |r.items| == |b.items| + 1
    ensures |b.items| >= MaxPointablesPerHistory ==> |r.items| == |b.items|
    ensures forall q :: q in r.items ==> q == p || q in b.items
    ensures Valid(b) ==> Valid(r)
  {
    if |b.items| < MaxPointablesPerHistory then Buffer(b.items + [p], b.added + 1)
    else Buffer(b.items[1..] + [p], b.added + 1)
  }

  /** The buffer obtained by appending `ps` in order to a fresh buffer. */
  function Fill(ps: seq<Pointable>): (b: Buffer)
  {
    if ps == [] then Empty else AddItem(Fill(ps[..|ps| - 1]), ps[|ps| - 1])
  }

  /** Appending the last of `ps` to a buffer holding the latest samples of
      the ones before it yields the latest samples of `ps`. */
  lemma AppendKeepsLatest(ps: seq<Pointable>, b: Buffer)
    requires ps != []
    requires b.items == ps[..|ps| - 1][|ps| - 1 - Min(|ps| - 1, MaxPointablesPerHistory)..]
    ensures AddItem(b, ps[|ps| - 1]).items == ps[|ps| - Min(|ps|, MaxPointablesPerHistory)..]
  {
    var k := |ps| - 1;
    if k < MaxPointablesPerHistory {
      assert b.items == ps[..k];
      AppendBelowCapacity(ps, b);
    } else {
      assert b.items == ps[k - MaxPointablesPerHistory..k];
      AppendAtCapacity(ps, b);
    }
  }

  /** Below capacity an append keeps every earlier sample. */
  lemma AppendBelowCapacity(ps: seq<Pointable>, b: Buffer)
    requires ps != [] && |ps| - 1 < MaxPointablesPerHistory
    requires b.items == ps[..|ps| - 1]
    ensures AddItem(b, ps[|ps| - 1]).items == ps
  {
    assert AddItem(b, ps[|ps| - 1]).items == b.items + [ps[|ps| - 1]];
  }

  /** At capacity an append drops the oldest sample. */
  lemma AppendAtCapacity(ps: seq<Pointable>, b: Buffer)
    requires |ps| > MaxPointablesPerHistory
    requires b.items == ps[|ps| - 1 - MaxPointablesPerHistory..|ps| - 1]
    ensures AddItem(b, ps[|ps| - 1]).items == ps[|ps| - MaxPointablesPerHistory..]
  {
    assert AddItem(b, ps[|ps| - 1]).items == b.items[1..] + [ps[|ps| - 1]];
  }

  /** However many samples are appended, the buffer keeps exactly the most
      recent `min(k, capacity)` of them, in order, and `added` counts all `k`. */
  lemma {:induction false} FillKeepsLatest(ps: seq<Pointable>)
    ensures var b := Fill(ps);
            b.added == |ps| &&
            b.items == ps[|ps| - Min(|ps|, MaxPointablesPerHistory)..] &&
            Valid(b)
  {
    if ps != [] {
      FillKeepsLatest(ps[..|ps| - 1]);
      AppendKeepsLatest(ps, Fill(ps[..|ps| - 1]));
    }
  }

  /** Reading from the start and reading from the end address the same
      samples in opposite directions. */
  lemma ReadEndsAgree(b: Buffer, offset: nat)
    requires offset < |b.items|
    ensures ReadFromStart(b, offset) == ReadFromEnd(b, |b.items| - 1 - offset)
  {
  }
}
