/** The limit on the size of a log directory: the oldest segments are deleted, whatever they own. */
module LogLimit {
  import opened LogReplay
  import opened Store
  import opened Retire
  import opened LiveMaps
  import opened Gc

  function Sum(sizes: seq<nat>): nat { if sizes == [] then 0 else sizes[0] + Sum(sizes[1..]) }

  lemma {:induction false} KeptRest(store: seq<Segment>, bs: nat)
    requires bs > 0 && StoreOk(store, bs) && store != []
    ensures Kept(store, {store[0].id}) == store[1..]
  {
    var n := |store| - 1;
    if n > 0 {
      KeptRest(store[..n], bs);
      assert store[1..] == store[..n][1..] + [store[n]];
    }
  }

  lemma {:induction false} SumNext(sizes: seq<nat>, i: nat)
    requires i < |sizes|
    ensures Sum(sizes[i..]) == sizes[i] + Sum(sizes[i + 1..])
  {
    assert sizes[i..][1..] == sizes[i + 1..];
  }

  lemma {:induction false} RestOk(store: seq<Segment>, d: nat, bs: nat)
    requires bs > 0 && StoreOk(store, bs) && d <= |store|
    ensures StoreOk(store[d..], bs) && (d < |store| ==> Kept(store[d..], {store[d].id}) == store[d + 1..])
  {
    forall i | 0 <= i < |store[d..]| ensures store[d..][i] == store[d + i] { }
    if d < |store| {
      KeptRest(store[d..], bs);
      assert store[d..][1..] == store[d + 1..];
    }
  }

  /** enforceLogLimit: deletes the d oldest segments, the fewest that bring the total down to
      the limit; sizes are those of the files. */
  method EnforceLogLimit(store: LogStore, sizes: seq<nat>, limit: nat, ghost bs: nat) returns (d: nat)
    requires bs > 0 && StoreOk(store.segments, bs) && |sizes| == |store.segments|
    modifies store
    ensures d <= |sizes| && store.segments == old(store.segments)[d..] && StoreOk(store.segments, bs)
    ensures Sum(sizes[d..]) <= limit && forall k | 0 <= k < d :: Sum(sizes[k..]) > limit
  {
    hide StoreOk; hide Kept;
    ghost var before := store.segments;
    var total := 0;
    for i := 0 to |sizes|
      invariant store.segments == before && total + Sum(sizes[i..]) == Sum(sizes[0..])
    {
      SumNext(sizes, i);
      hide Sum;
      total := total + sizes[i];
    }
    d := 0;
    assert before[0..] == before;
    while total > limit && d < |sizes|
      invariant d <= |sizes| && total == Sum(sizes[d..])
      invariant store.segments == before[d..]
      invariant forall k | 0 <= k < d :: Sum(sizes[k..]) > limit
    {
      SumNext(sizes, d);
      hide Sum;
      RestOk(before, d, bs);
      store.Delete(store.segments[0].id);
      total := total - sizes[d];
      d := d + 1;
    }
    RestOk(before, d, bs);
  }

  /** The limit, then a garbage collection: from a map that tracked the log, no byte of what
      the limit left changes, unless an extent is hidden; and the map tracks the log again. */
  method LimitThenCollect(store: LogStore, sizes: seq<nat>, limit: nat, lm: LiveMap, threshold: nat, dryRun: bool,
                          newId: nat) returns (d: nat, r: GcResult, ghost seen: MapState)
    requires Tracks(lm.State(), store.segments, lm.blockSize) && |sizes| == |store.segments|
    requires forall j | 0 <= j < |store.segments| :: store.segments[j].id < newId
    modifies store, lm
    ensures d <= |sizes| && Sum(sizes[d..]) <= limit && forall k | 0 <= k < d :: Sum(sizes[k..]) > limit
    ensures r.NoLogs? <==> d == |sizes|
    ensures r.Done? ==> Agrees(seen.extents, old(store.segments)[d..], lm.blockSize)
    ensures Harmless(r, old(store.segments)[d..], seen, dryRun, lm.blockSize) ==>
      && SameEffect(store.segments, old(store.segments)[d..], lm.blockSize)
      && (r.Done? ==> Tracks(lm.State(), store.segments, lm.blockSize))
  {
    ghost var m, before, bs := lm.State(), store.segments, lm.blockSize;
    d := EnforceLogLimit(store, sizes, limit, bs);
    assert before[d..] + [] == before[d..];
    OldestLost(m, before, d, [], bs);
    r, seen := RunGC(store, lm, threshold, dryRun, newId);
  }
}
