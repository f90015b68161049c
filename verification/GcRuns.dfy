/** Any number of garbage collections of a growing log. */
module GcRuns {
  import opened Bytes
  import opened LogReplay
  import opened IntervalMap
  import opened Store
  import opened Retire
  import opened LiveMaps
  import opened Accounting
  import opened Gc

  /** Segments that arrived since the last run, then a run; newId is the label it may use. */
  datatype Round = Round(arrived: seq<Segment>, threshold: nat, dryRun: bool, newId: nat)

  /** The latest label used so far. */
  function Clock(rounds: seq<Round>): int { if rounds == [] then -1 else rounds[|rounds| - 1].newId }

  /** Labels are times: what arrives is newer than every label before, and a run's label newer
      than what has arrived. */
  ghost predicate InOrder(rounds: seq<Round>, bs: nat)
    requires bs > 0
  {
    rounds == [] ||
    var before, r := rounds[..|rounds| - 1], rounds[|rounds| - 1];
    && InOrder(before, bs) && StoreOk(r.arrived, bs) && Clock(before) < r.newId
    && forall i | 0 <= i < |r.arrived| :: Clock(before) < r.arrived[i].id < r.newId
  }

  /** Everything ever logged. */
  function Logged(rounds: seq<Round>): seq<Segment> {
    if rounds == [] then [] else Logged(rounds[..|rounds| - 1]) + rounds[|rounds| - 1].arrived
  }

  /** The labels of all runs. */
  function Outputs(rounds: seq<Round>): set<nat> {
    if rounds == [] then {} else Outputs(rounds[..|rounds| - 1]) + {rounds[|rounds| - 1].newId}
  }

  lemma {:induction false} OutputsBelow(rounds: seq<Round>, bs: nat)
    requires bs > 0 && InOrder(rounds, bs)
    ensures forall id | id in Outputs(rounds) :: id <= Clock(rounds)
  {
    if rounds != [] { OutputsBelow(rounds[..|rounds| - 1], bs); }
  }

  // ---------------------------------------------------------------- growing

  lemma {:induction false} EntriesAppend(a: seq<Segment>, b: seq<Segment>)
    ensures Entries(a + b) == Entries(a) + Entries(b)
  {
    if b == [] {
      assert a + b == a;
    } else {
      var n := |b| - 1;
      assert (a + b)[..|a + b| - 1] == a + b[..n];
      EntriesAppend(a, b[..n]);
    }
  }

  lemma {:induction false} SameEffectGrows(a: seq<Segment>, b: seq<Segment>, more: seq<Segment>, bs: nat)
    requires SameEffect(a, b, bs)
    ensures SameEffect(a + more, b + more, bs)
  {
    EntriesAppend(a, more);
    EntriesAppend(b, more);
    forall p: nat ensures Effect(Entries(a + more), bs, p) == Effect(Entries(b + more), bs, p) {
      EffectAppend(Entries(a), Entries(more), bs, p);
      EffectAppend(Entries(b), Entries(more), bs, p);
    }
  }

  lemma {:induction false} SameEffectTrans(a: seq<Segment>, b: seq<Segment>, c: seq<Segment>, bs: nat)
    requires SameEffect(a, b, bs) && SameEffect(b, c, bs)
    ensures SameEffect(a, c, bs)
  {
  }

  /** Stores that do the same to every byte have the same written blocks. */
  lemma {:induction false} SameEffectCounts(a: seq<Segment>, b: seq<Segment>, bs: nat, n: nat)
    requires SameEffect(a, b, bs)
    ensures Untouched(a, bs, n) <==> Untouched(b, bs, n)
    ensures WrittenBlocks(a, bs, n) == WrittenBlocks(b, bs, n)
  {
    forall k: nat
      ensures StoreEffect(a, bs, k * bs).None? <==> StoreEffect(b, bs, k * bs).None?
      ensures LastIsWrite(a, bs, k) == LastIsWrite(b, bs, k)
    {
      EntriesEffect(a, bs, k * bs);
      EntriesEffect(b, bs, k * bs);
      assert Effect(Entries(a), bs, k * bs) == Effect(Entries(b), bs, k * bs);
    }
    SumSame(k => LastIsWrite(a, bs, k), k => LastIsWrite(b, bs, k), n);
  }

  lemma {:induction false} GrownOk(store: seq<Segment>, arrived: seq<Segment>, bs: nat, clock: int, newId: nat)
    requires bs > 0 && StoreOk(store, bs) && StoreOk(arrived, bs)
    requires forall j | 0 <= j < |store| :: store[j].id <= clock
    requires clock < newId && forall i | 0 <= i < |arrived| :: clock < arrived[i].id < newId
    ensures StoreOk(store + arrived, bs)
    ensures forall j | 0 <= j < |store + arrived| :: (store + arrived)[j].id < newId
  {
  }

  // ---------------------------------------------------------------- what the totals are

  /** How often a segment has been counted: once when it was read, and once more if a run wrote
      it and recorded its size. */
  function Times(m: MapState, outputs: set<nat>, id: nat): nat {
    (if id <= m.lastLabel then 1 else 0) + if id in outputs then 1 else 0
  }

  /** Every total is a multiple of the bytes the segment writes. */
  ghost predicate CountedTimes(m: MapState, store: seq<Segment>, outputs: set<nat>) {
    forall id | id in Ids(store) :: TotalOf(m.totals, id) == BytesIn(store, id) * Times(m, outputs, id)
  }

  lemma {:induction false} BytesInAppend(a: seq<Segment>, b: seq<Segment>, id: nat)
    ensures BytesIn(a + b, id) == BytesIn(a, id) + BytesIn(b, id)
  {
    if b == [] {
      assert a + b == a;
    } else {
      var n := |b| - 1;
      assert (a + b)[..|a + b| - 1] == a + b[..n];
      BytesInAppend(a, b[..n], id);
    }
  }

  lemma {:induction false} BytesInNone(store: seq<Segment>, id: nat)
    requires id !in Ids(store)
    ensures BytesIn(store, id) == 0
  {
    if store != [] {
      var n := |store| - 1;
      assert store == store[..n] + [store[n]];
      IdsAppend(store[..n], [store[n]]);
      BytesInNone(store[..n], id);
      assert store[n].id in Ids(store);
    }
  }

  lemma {:induction false} BytesInKept(store: seq<Segment>, gone: set<nat>, id: nat)
    requires id !in gone
    ensures BytesIn(Kept(store, gone), id) == BytesIn(store, id)
  {
    if store != [] {
      var n := |store| - 1;
      BytesInKept(store[..n], gone, id);
      if store[n].id in gone {
        assert Kept(store, gone) == Kept(store[..n], gone);
      } else {
        var k := Kept(store, gone);
        assert k[..|k| - 1] == Kept(store[..n], gone);
      }
    }
  }

  /** New segments have been counted no time. */
  lemma {:induction false} CountedGrowth(m: MapState, store: seq<Segment>, arrived: seq<Segment>, outputs: set<nat>,
                                         clock: int)
    requires CountedTimes(m, store, outputs) && m.totals.Keys <= Ids(store) && m.lastLabel <= clock
    requires forall j | 0 <= j < |store| :: store[j].id <= clock
    requires forall i | 0 <= i < |arrived| :: clock < arrived[i].id
    requires forall id | id in outputs :: id <= clock
    ensures CountedTimes(m, store + arrived, outputs) && m.totals.Keys <= Ids(store + arrived)
  {
    IdsAppend(store, arrived);
    forall id | id in Ids(store + arrived)
      ensures TotalOf(m.totals, id) == BytesIn(store + arrived, id) * Times(m, outputs, id)
    {
      BytesInAppend(store, arrived, id);
      if id in Ids(store) {
        assert id !in Ids(arrived);
        BytesInNone(arrived, id);
      } else {
        assert id in Ids(arrived) && clock < id && id !in m.totals;
      }
    }
  }

  /** Reading counts every segment past the last label once more. */
  lemma {:induction false} CountedUpdate(m: MapState, store: seq<Segment>, outputs: set<nat>, bs: nat, repaired: bool)
    requires bs > 0 && StoreOk(store, bs) && store != [] && Usable(m) && CountedTimes(m, store, outputs)
    requires m.totals.Keys <= Ids(store)
    ensures CountedTimes(Updated(m, store, bs, repaired), store, outputs)
    ensures forall id | id in Ids(store) :: id <= Updated(m, store, bs, repaired).lastLabel
  {
    UpdatedUsable(m, store, bs, repaired);
    var u := Updated(m, store, bs, repaired);
    var n := |store| - 1;
    forall id | id in Ids(store)
      ensures id <= u.lastLabel && TotalOf(u.totals, id) == BytesIn(store, id) * Times(u, outputs, id)
    {
      var i :| 0 <= i < |store| && store[i].id == id;
      if i < n { assert store[i].id < store[n].id; }
      UpdatedTotal(m, store, bs, repaired, id);
      assert TotalOf(m.totals, id) == BytesIn(store, id) * Times(m, outputs, id);
    }
  }

  lemma {:induction false} CountedKept(store: seq<Segment>, m: MapState, gone: set<nat>, outputs: set<nat>, newId: nat,
                                       id: nat)
    requires CountedTimes(m, store, outputs) && id in Ids(Kept(store, gone)) && id != newId
    ensures id !in gone && TotalOf(m.totals, id) == BytesIn(Kept(store, gone), id) * Times(m, outputs + {newId}, id)
  {
    hide BytesIn; hide TotalOf; hide Kept; hide Ids;
    KeptIds(store, gone);
    BytesInKept(store, gone, id);
    assert TotalOf(m.totals, id) == BytesIn(store, id) * Times(m, outputs, id);
  }

  lemma {:induction false} CountedDead(store: seq<Segment>, m: MapState, gone: set<nat>, outputs: set<nat>, newId: nat)
    requires CountedTimes(m, store, outputs) && newId !in Ids(store)
    ensures CountedTimes(m.(totals := m.totals - gone), Kept(store, gone), outputs + {newId})
  {
    hide BytesIn; hide Kept; hide Ids;
    KeptIds(store, gone);
    var now := m.(totals := m.totals - gone);
    forall id | id in Ids(Kept(store, gone))
      ensures TotalOf(now.totals, id) == BytesIn(Kept(store, gone), id) * Times(now, outputs + {newId}, id)
    {
      CountedKept(store, m, gone, outputs, newId, id);
    }
  }

  lemma {:induction false} BytesInSnoc(store: seq<Segment>, s: Segment, id: nat)
    ensures BytesIn(store + [s], id) == BytesIn(store, id) + if id == s.id then WriteBytes(s.entries) else 0
  {
    assert (store + [s])[..|store|] == store;
  }

  lemma {:induction false} CountedNew(store: seq<Segment>, m: MapState, gone: set<nat>, outputs: set<nat>,
                                      now: MapState, out: Segment, n: nat)
    requires CountedTimes(m, store, outputs) && out.id !in Ids(store) && m.lastLabel < out.id
    requires now.totals == (m.totals - gone)[out.id := SegInfo(n, WriteBytes(out.entries))]
    requires now.lastLabel == m.lastLabel
    ensures CountedTimes(now, Kept(store, gone) + [out], outputs + {out.id})
  {
    hide BytesIn; hide Kept; hide WriteBytes; hide Ids;
    var after := Kept(store, gone) + [out];
    assert after[..|after| - 1] == Kept(store, gone);
    IdsMore(after);
    KeptIds(store, gone);
    forall id | id in Ids(after)
      ensures TotalOf(now.totals, id) == BytesIn(after, id) * Times(now, outputs + {out.id}, id)
    {
      BytesInSnoc(Kept(store, gone), out, id);
      if id == out.id {
        BytesInNone(Kept(store, gone), id);
      } else {
        CountedKept(store, m, gone, outputs, out.id, id);
      }
    }
  }

  lemma {:induction false} CountedRetired(store: seq<Segment>, m: MapState, retire: seq<nat>, bs: nat, newId: nat,
                                          outputs: set<nat>)
    requires MayRetire(store, m, retire, bs, newId) && CountedTimes(m, store, outputs) && m.lastLabel < newId
    ensures var o := Retired(store, m, retire, bs, newId); CountedTimes(o.map_, o.store, outputs + {newId})
  {
    hide CountedTimes; hide Kept; hide Ids; hide StoreOk;
    var o := Retired(store, m, retire, bs, newId);
    var gone := SetOf(retire);
    NewIsNew(store, m, retire, bs, newId);
    if retire == [] {
      CountedMore(m, store, outputs, newId);
    } else if !OwnsAny(m.extents, retire) {
      CountedDead(store, m, gone, outputs, newId);
    } else {
      var out := Copied(store, m.extents, gone, bs);
      CountedNew(store, m, gone, outputs, o.map_, Segment(newId, out), |out|);
    }
  }

  lemma {:induction false} CountedMore(m: MapState, store: seq<Segment>, outputs: set<nat>, newId: nat)
    requires CountedTimes(m, store, outputs) && newId !in Ids(store)
    ensures CountedTimes(m, store, outputs + {newId})
  {
    forall id | id in Ids(store) ensures TotalOf(m.totals, id) == BytesIn(store, id) * Times(m, outputs + {newId}, id) {
      assert TotalOf(m.totals, id) == BytesIn(store, id) * Times(m, outputs, id);
    }
  }

  lemma {:induction false} KeptIds(store: seq<Segment>, gone: set<nat>)
    ensures forall id | id in Ids(Kept(store, gone)) :: id in Ids(store) && id !in gone
  {
    KeptShape(store, gone);
    forall id | id in Ids(Kept(store, gone)) ensures id in Ids(store) && id !in gone {
      var i :| 0 <= i < |Kept(store, gone)| && Kept(store, gone)[i].id == id;
      assert Kept(store, gone)[i] in store;
    }
  }

  lemma {:induction false} CountedRan(store: seq<Segment>, m: MapState, r: Round, bs: nat, repaired: bool,
                                      res: GcResult, seen: MapState, left: Outcome, outputs: set<nat>)
    requires bs > 0 && StoreOk(store, bs) && Usable(m) && forall j | 0 <= j < |store| :: store[j].id < r.newId
    requires Ran(store, m, r.threshold, r.dryRun, r.newId, bs, repaired, res, seen, left)
    requires CountedTimes(m, store, outputs) && m.totals.Keys <= Ids(store) && m.lastLabel < r.newId
    ensures CountedTimes(left.map_, left.store, outputs + {r.newId})
  {
    if store != [] {
      CountedUpdate(m, store, outputs, bs, repaired);
      UpdatedUsable(m, store, bs, repaired);
      if r.dryRun {
        CountedMore(seen, store, outputs, r.newId);
      } else {
        CountedRetired(store, seen, res.retire, bs, r.newId, outputs);
      }
    }
  }

  // ---------------------------------------------------------------- all runs

  /** One run of many: the store it started from, the map before and after reading, and what it
      left behind. */
  datatype Trace = Trace(store: seq<Segment>, from: MapState, seen: MapState, left: Outcome)

  function LeftBy(trace: seq<Trace>): Outcome {
    if trace == [] then Outcome([], MapState(-1, [], map[])) else trace[|trace| - 1].left
  }

  /** The runs follow from the rounds, one after the other, from an empty store and map. */
  ghost predicate Linked(rounds: seq<Round>, bs: nat, repaired: bool, results: seq<GcResult>, trace: seq<Trace>)
    requires bs > 0
  {
    && |rounds| == |results| == |trace|
    && forall i | 0 <= i < |rounds| ::
         && trace[i].store == LeftBy(trace[..i]).store + rounds[i].arrived && trace[i].from == LeftBy(trace[..i]).map_
         && Ran(trace[i].store, trace[i].from, rounds[i].threshold, rounds[i].dryRun, rounds[i].newId, bs, repaired,
                results[i], trace[i].seen, trace[i].left)
  }

  /** No run before the i-th deleted anything hidden from it. */
  ghost predicate CleanBefore(rounds: seq<Round>, bs: nat, results: seq<GcResult>, trace: seq<Trace>, i: nat)
    requires bs > 0 && |rounds| == |results| == |trace| && i <= |rounds|
  {
    forall k | 0 <= k < i :: Harmless(results[k], trace[k].store, trace[k].seen, rounds[k].dryRun, bs)
  }

  /** No run before the i-th lost a live write. */
  ghost predicate KeptBefore(rounds: seq<Round>, bs: nat, results: seq<GcResult>, trace: seq<Trace>, i: nat)
    requires bs > 0 && |rounds| == |results| == |trace| && i <= |rounds|
  {
    forall k | 0 <= k < i :: KeepsWrites(results[k], trace[k].store, trace[k].seen, rounds[k].dryRun, bs)
  }

  /** A run reports live bytes within the totals, and leaves them so exactly when it loses no
      live write. */
  ghost predicate StaysInBounds(r: Round, res: GcResult, t: Trace, bs: nat)
    requires bs > 0
  {
    && (res.Done? ==> InBounds(res.stats))
    && (Bounded(t.left.map_.extents, t.left.map_.totals, bs) <==> KeepsWrites(res, t.store, t.seen, r.dryRun, bs))
  }

  /** Statistics that are right for a device: live bytes are together exactly those of the
      blocks last written. */
  ghost predicate TrueStats(stats: seq<SegmentStats>, logged: seq<Segment>, bs: nat) {
    forall n: nat | Untouched(logged, bs, n) :: LiveBytes(stats) == WrittenBlocks(logged, bs, n) * bs
  }

  /** Between runs, whatever was hidden. */
  ghost predicate Standing(store: seq<Segment>, m: MapState, rounds: seq<Round>, bs: nat, repaired: bool)
    requires bs > 0
  {
    && StoreOk(store, bs) && Usable(m) && m.totals.Keys <= Ids(store) && m.lastLabel <= Clock(rounds)
    && (forall j | 0 <= j < |store| :: store[j].id <= Clock(rounds))
    && CountedTimes(m, store, Outputs(rounds)) && (repaired ==> Sorted(m.extents))
  }

  /** Between runs, if nothing was hidden. */
  ghost predicate Faithful(store: seq<Segment>, m: MapState, logged: seq<Segment>, bs: nat) {
    Tracks(m, store, bs) && SameEffect(store, logged, bs)
  }

  lemma {:induction false} Arrive(store: seq<Segment>, m: MapState, before: seq<Round>, r: Round, bs: nat,
                                  repaired: bool)
    requires bs > 0 && InOrder(before + [r], bs) && Standing(store, m, before, bs, repaired)
    ensures StoreOk(store + r.arrived, bs) && CountedTimes(m, store + r.arrived, Outputs(before))
    ensures m.totals.Keys <= Ids(store + r.arrived)
    ensures forall j | 0 <= j < |store + r.arrived| :: (store + r.arrived)[j].id < r.newId
    ensures m.lastLabel < r.newId && r.newId !in Outputs(before)
    ensures Faithful(store, m, Logged(before), bs) ==> Faithful(store + r.arrived, m, Logged(before + [r]), bs)
    ensures Accounted(m, store, bs) ==> Accounted(m, store + r.arrived, bs)
  {
    assert (before + [r])[..|before|] == before && (before + [r])[|before|] == r;
    OutputsBelow(before, bs);
    GrownOk(store, r.arrived, bs, Clock(before), r.newId);
    CountedGrowth(m, store, r.arrived, Outputs(before), Clock(before));
    if Faithful(store, m, Logged(before), bs) {
      TracksGrowth(m, store, r.arrived, bs);
      SameEffectGrows(store, Logged(before), r.arrived, bs);
    }
    if Accounted(m, store, bs) { BackedGrowth(m, store, r.arrived, bs); }
  }

  lemma {:induction false} Leave(store: seq<Segment>, m: MapState, before: seq<Round>, r: Round, bs: nat,
                                 repaired: bool, res: GcResult, seen: MapState, left: Outcome)
    requires bs > 0 && StoreOk(store, bs) && Usable(m) && m.totals.Keys <= Ids(store)
    requires CountedTimes(m, store, Outputs(before)) && (repaired ==> Sorted(m.extents))
    requires forall j | 0 <= j < |store| :: store[j].id < r.newId
    requires m.lastLabel < r.newId && r.newId !in Outputs(before)
    requires Ran(store, m, r.threshold, r.dryRun, r.newId, bs, repaired, res, seen, left)
    ensures Standing(left.store, left.map_, before + [r], bs, repaired)
    ensures repaired ==> Harmless(res, store, seen, r.dryRun, bs)
    ensures Faithful(store, m, Logged(before + [r]), bs) ==>
      && (res.Done? ==> TrueStats(res.stats, Logged(before + [r]), bs))
      && (Harmless(res, store, seen, r.dryRun, bs) ==> Faithful(left.store, left.map_, Logged(before + [r]), bs))
  {
    assert (before + [r])[..|before|] == before && (before + [r])[|before|] == r;
    hide Ran; hide StoreOk; hide Usable; hide Sorted; hide Harmless; hide CountedTimes; hide Tracks; hide SameEffect;
    RanUsable(store, m, r.threshold, r.dryRun, r.newId, bs, repaired, res, seen, left);
    CountedRan(store, m, r, bs, repaired, res, seen, left, Outputs(before));
    if Faithful(store, m, Logged(before + [r]), bs) {
      RanMeans(store, m, r.threshold, r.dryRun, r.newId, bs, repaired, res, seen, left);
      if res.Done? { StatsOfLogged(store, Logged(before + [r]), res.stats, bs); }
      if Harmless(res, store, seen, r.dryRun, bs) { SameEffectTrans(left.store, store, Logged(before + [r]), bs); }
    }
  }

  /** What a run does to the accounts. */
  lemma {:induction false} LeaveAccounts(store: seq<Segment>, m: MapState, r: Round, bs: nat, repaired: bool,
                                         res: GcResult, seen: MapState, left: Outcome)
    requires bs > 0 && StoreOk(store, bs) && Usable(m)
    requires forall j | 0 <= j < |store| :: store[j].id < r.newId
    requires Ran(store, m, r.threshold, r.dryRun, r.newId, bs, repaired, res, seen, left)
    ensures Accounted(m, store, bs) ==>
      && StaysInBounds(r, res, Trace(store, m, seen, left), bs)
      && (KeepsWrites(res, store, seen, r.dryRun, bs) ==> Accounted(left.map_, left.store, bs))
    ensures Harmless(res, store, seen, r.dryRun, bs) ==> KeepsWrites(res, store, seen, r.dryRun, bs)
  {
    hide StoreOk; hide Usable; hide Accounted; hide InBounds; hide WritesKept; hide Bounded; hide Updated;
    hide NothingHidden; hide Chosen; hide StatsFor; hide Left; hide Reports; hide MayRetire;
    if res.Done? && Harmless(res, store, seen, r.dryRun, bs) {
      UpdatedUsable(m, store, bs, repaired);
      HarmlessKeepsWrites(res, store, seen, r.dryRun, bs);
    }
    if Accounted(m, store, bs) {
      RanAccounted(store, m, r.threshold, r.dryRun, r.newId, bs, repaired, res, seen, left);
    }
  }

  lemma {:induction false} StatsOfLogged(store: seq<Segment>, logged: seq<Segment>, stats: seq<SegmentStats>, bs: nat)
    requires SameEffect(store, logged, bs) && TrueStats(stats, store, bs)
    ensures TrueStats(stats, logged, bs)
  {
    hide SameEffect; hide Untouched; hide WrittenBlocks; hide LiveBytes;
    forall n: nat | Untouched(logged, bs, n) ensures LiveBytes(stats) == WrittenBlocks(logged, bs, n) * bs {
      SameEffectCounts(store, logged, bs, n);
    }
  }

  lemma {:induction false} StandingParts(store: seq<Segment>, m: MapState, rounds: seq<Round>, bs: nat, repaired: bool)
    requires bs > 0 && Standing(store, m, rounds, bs, repaired)
    ensures StoreOk(store, bs) && Usable(m) && m.totals.Keys <= Ids(store) && (repaired ==> Sorted(m.extents))
    ensures CountedTimes(m, store, Outputs(rounds))
  {
  }

  lemma {:induction false} FaithfulParts(store: seq<Segment>, m: MapState, logged: seq<Segment>, bs: nat)
    requires Faithful(store, m, logged, bs)
    ensures Tracks(m, store, bs) && SameEffect(store, logged, bs)
  {
  }

  lemma {:induction false} Start(bs: nat, repaired: bool)
    requires bs > 0
    ensures Standing([], MapState(-1, [], map[]), [], bs, repaired)
    ensures Faithful([], MapState(-1, [], map[]), Logged([]), bs) && Accounted(MapState(-1, [], map[]), [], bs)
    ensures KeptBefore([], bs, [], [], 0)
    ensures Progress([], bs, repaired, [], []) && LeftBy([]) == Outcome([], MapState(-1, [], map[]))
  {
    var m := MapState(-1, [], map[]);
    assert Seen(m, [], 0, bs);
  }

  lemma {:induction false} InOrderPrefix(rounds: seq<Round>, bs: nat, n: nat)
    requires bs > 0 && InOrder(rounds, bs) && n <= |rounds|
    ensures InOrder(rounds[..n], bs)
  {
    if n < |rounds| {
      InOrderPrefix(rounds[..|rounds| - 1], bs, n);
      assert rounds[..|rounds| - 1][..n] == rounds[..n];
    } else {
      assert rounds[..n] == rounds;
    }
  }

  /** The runs so far. */
  ghost predicate Progress(rounds: seq<Round>, bs: nat, repaired: bool, results: seq<GcResult>, trace: seq<Trace>)
    requires bs > 0
  {
    && Linked(rounds, bs, repaired, results, trace) && (repaired ==> CleanBefore(rounds, bs, results, trace, |rounds|))
    && (forall k | 0 <= k < |rounds| && results[k].Done? && CleanBefore(rounds, bs, results, trace, k) ::
          TrueStats(results[k].stats, Logged(rounds[..k + 1]), bs))
    && forall k | 0 <= k < |rounds| && KeptBefore(rounds, bs, results, trace, k) ::
         StaysInBounds(rounds[k], results[k], trace[k], bs)
  }

  lemma {:induction false} LinkedNext(rounds: seq<Round>, r: Round, bs: nat, repaired: bool, results: seq<GcResult>,
                                      trace: seq<Trace>, res: GcResult, t: Trace)
    requires bs > 0 && Linked(rounds, bs, repaired, results, trace)
    requires t.store == LeftBy(trace).store + r.arrived && t.from == LeftBy(trace).map_
    requires Ran(t.store, t.from, r.threshold, r.dryRun, r.newId, bs, repaired, res, t.seen, t.left)
    ensures Linked(rounds + [r], bs, repaired, results + [res], trace + [t])
  {
    hide Ran; hide LeftBy;
    var n := |rounds|;
    forall i | 0 <= i < n + 1
      ensures var ts, rs := trace + [t], rounds + [r];
        && ts[i].store == LeftBy(ts[..i]).store + rs[i].arrived && ts[i].from == LeftBy(ts[..i]).map_
        && Ran(ts[i].store, ts[i].from, rs[i].threshold, rs[i].dryRun, rs[i].newId, bs, repaired,
               (results + [res])[i], ts[i].seen, ts[i].left)
    {
      assert (trace + [t])[..i] == trace[..i];
      if i == n { assert trace[..n] == trace; }
    }
  }

  lemma {:induction false} CleanSame(rounds: seq<Round>, r: Round, bs: nat, results: seq<GcResult>, trace: seq<Trace>,
                                     res: GcResult, t: Trace, i: nat)
    requires bs > 0 && |rounds| == |results| == |trace| && i <= |rounds|
    ensures CleanBefore(rounds + [r], bs, results + [res], trace + [t], i) <==>
      CleanBefore(rounds, bs, results, trace, i)
  {
    hide Harmless;
    forall k | 0 <= k < i
      ensures (rounds + [r])[k] == rounds[k] && (results + [res])[k] == results[k] && (trace + [t])[k] == trace[k]
    {
    }
  }

  lemma {:induction false} CleanSnoc(rounds: seq<Round>, r: Round, bs: nat, results: seq<GcResult>, trace: seq<Trace>,
                                     res: GcResult, t: Trace)
    requires bs > 0 && |rounds| == |results| == |trace|
    ensures CleanBefore(rounds + [r], bs, results + [res], trace + [t], |rounds| + 1) <==>
            CleanBefore(rounds, bs, results, trace, |rounds|) && Harmless(res, t.store, t.seen, r.dryRun, bs)
  {
    var n := |rounds|;
    CleanSame(rounds, r, bs, results, trace, res, t, n);
    hide Harmless;
    assert (rounds + [r])[n] == r && (results + [res])[n] == res && (trace + [t])[n] == t;
    if CleanBefore(rounds + [r], bs, results + [res], trace + [t], n + 1) {
      assert CleanBefore(rounds + [r], bs, results + [res], trace + [t], n);
    }
  }

  lemma {:induction false} KeptSame(rounds: seq<Round>, r: Round, bs: nat, results: seq<GcResult>, trace: seq<Trace>,
                                    res: GcResult, t: Trace, i: nat)
    requires bs > 0 && |rounds| == |results| == |trace| && i <= |rounds|
    ensures KeptBefore(rounds + [r], bs, results + [res], trace + [t], i) <==>
      KeptBefore(rounds, bs, results, trace, i)
  {
    hide KeepsWrites;
    forall k | 0 <= k < i
      ensures (rounds + [r])[k] == rounds[k] && (results + [res])[k] == results[k] && (trace + [t])[k] == trace[k]
    {
    }
  }

  lemma {:induction false} KeptSnoc(rounds: seq<Round>, r: Round, bs: nat, results: seq<GcResult>, trace: seq<Trace>,
                                    res: GcResult, t: Trace)
    requires bs > 0 && |rounds| == |results| == |trace|
    ensures KeptBefore(rounds + [r], bs, results + [res], trace + [t], |rounds| + 1) <==>
            KeptBefore(rounds, bs, results, trace, |rounds|) && KeepsWrites(res, t.store, t.seen, r.dryRun, bs)
  {
    var n := |rounds|;
    KeptSame(rounds, r, bs, results, trace, res, t, n);
    hide KeepsWrites;
    assert (rounds + [r])[n] == r && (results + [res])[n] == res && (trace + [t])[n] == t;
    if KeptBefore(rounds + [r], bs, results + [res], trace + [t], n + 1) {
      assert KeptBefore(rounds + [r], bs, results + [res], trace + [t], n);
    }
  }

  lemma {:induction false} ProgressNext(rounds: seq<Round>, r: Round, bs: nat, repaired: bool, results: seq<GcResult>,
                                        trace: seq<Trace>, res: GcResult, t: Trace)
    requires bs > 0 && Progress(rounds, bs, repaired, results, trace)
    requires t.store == LeftBy(trace).store + r.arrived && t.from == LeftBy(trace).map_
    requires Ran(t.store, t.from, r.threshold, r.dryRun, r.newId, bs, repaired, res, t.seen, t.left)
    requires repaired ==> Harmless(res, t.store, t.seen, r.dryRun, bs)
    requires res.Done? && CleanBefore(rounds, bs, results, trace, |rounds|) ==>
      TrueStats(res.stats, Logged(rounds + [r]), bs)
    requires |rounds| == |results| == |trace| && KeptBefore(rounds, bs, results, trace, |rounds|) ==>
      StaysInBounds(r, res, t, bs)
    ensures Progress(rounds + [r], bs, repaired, results + [res], trace + [t])
  {
    hide TrueStats; hide Harmless; hide Linked; hide Ran; hide CleanBefore; hide Logged; hide KeptBefore;
    hide StaysInBounds;
    var n := |rounds|;
    LinkedLengths(rounds, bs, repaired, results, trace);
    LinkedNext(rounds, r, bs, repaired, results, trace, res, t);
    CleanSnoc(rounds, r, bs, results, trace, res, t);
    forall k | 0 <= k < n + 1 && (results + [res])[k].Done?
               && CleanBefore(rounds + [r], bs, results + [res], trace + [t], k)
      ensures TrueStats((results + [res])[k].stats, Logged((rounds + [r])[..k + 1]), bs)
    {
      CleanSame(rounds, r, bs, results, trace, res, t, k);
      if k == n {
        assert (rounds + [r])[..k + 1] == rounds + [r];
      } else {
        assert (rounds + [r])[..k + 1] == rounds[..k + 1];
      }
    }
    forall k | 0 <= k < n + 1 && KeptBefore(rounds + [r], bs, results + [res], trace + [t], k)
      ensures StaysInBounds((rounds + [r])[k], (results + [res])[k], (trace + [t])[k], bs)
    {
      KeptSame(rounds, r, bs, results, trace, res, t, k);
    }
  }

  lemma {:induction false} LinkedLengths(rounds: seq<Round>, bs: nat, repaired: bool, results: seq<GcResult>,
                                         trace: seq<Trace>)
    requires bs > 0 && Linked(rounds, bs, repaired, results, trace)
    ensures |rounds| == |results| == |trace|
  {
  }

  lemma {:induction false} ProgressParts(rounds: seq<Round>, bs: nat, repaired: bool, results: seq<GcResult>,
                                         trace: seq<Trace>)
    requires bs > 0 && Progress(rounds, bs, repaired, results, trace)
    ensures Linked(rounds, bs, repaired, results, trace) && |rounds| == |results| == |trace|
    ensures repaired ==> CleanBefore(rounds, bs, results, trace, |rounds|)
    ensures forall k | 0 <= k < |rounds| && results[k].Done? && CleanBefore(rounds, bs, results, trace, k) ::
              TrueStats(results[k].stats, Logged(rounds[..k + 1]), bs)
    ensures forall k | 0 <= k < |rounds| && KeptBefore(rounds, bs, results, trace, k) ::
              StaysInBounds(rounds[k], results[k], trace[k], bs)
  {
    hide TrueStats; hide CleanBefore; hide Ran; hide KeptBefore; hide StaysInBounds;
  }

  /** Every run leaves the map in bounds exactly when no run loses a live write. */
  lemma {:induction false} BoundsOfRuns(rounds: seq<Round>, bs: nat, results: seq<GcResult>, trace: seq<Trace>, n: nat)
    requires bs > 0 && |rounds| == |results| == |trace| && n <= |rounds|
    requires forall k | 0 <= k < |rounds| && KeptBefore(rounds, bs, results, trace, k) ::
               StaysInBounds(rounds[k], results[k], trace[k], bs)
    ensures (forall k | 0 <= k < n :: Bounded(trace[k].left.map_.extents, trace[k].left.map_.totals, bs)) <==>
            KeptBefore(rounds, bs, results, trace, n)
  {
    hide KeepsWrites; hide Bounded; hide InBounds;
    if n > 0 {
      BoundsOfRuns(rounds, bs, results, trace, n - 1);
      if KeptBefore(rounds, bs, results, trace, n - 1) {
        assert StaysInBounds(rounds[n - 1], results[n - 1], trace[n - 1], bs);
      }
    }
  }

  lemma {:induction false} LeftBySnoc(trace: seq<Trace>, t: Trace)
    ensures LeftBy(trace + [t]) == t.left
  {
  }

  /** Any number of runs over a growing log, from an empty map. The totals are exact multiples on
      every run. As long as nothing is hidden, the store does to every byte what everything ever
      logged does, and every run's statistics are those of that device. Live bytes stay within
      the totals exactly until a run loses a live write. With the repaired insertion nothing is
      ever hidden. */
  method Runs(bs: nat, repaired: bool, rounds: seq<Round>)
    returns (store: LogStore, lm: LiveMap, results: seq<GcResult>, ghost trace: seq<Trace>)
    requires bs > 0 && InOrder(rounds, bs)
    ensures lm.blockSize == bs && Linked(rounds, bs, repaired, results, trace)
    ensures LeftBy(trace) == Outcome(store.segments, lm.State())
    ensures StoreOk(store.segments, bs) && CountedTimes(lm.State(), store.segments, Outputs(rounds))
    ensures repaired ==> CleanBefore(rounds, bs, results, trace, |rounds|)
    ensures forall i | 0 <= i < |rounds| && results[i].Done? && CleanBefore(rounds, bs, results, trace, i) ::
              TrueStats(results[i].stats, Logged(rounds[..i + 1]), bs)
    ensures CleanBefore(rounds, bs, results, trace, |rounds|) ==>
      && SameEffect(store.segments, Logged(rounds), bs) && Tracks(lm.State(), store.segments, bs)
      && KeptBefore(rounds, bs, results, trace, |rounds|)
    ensures forall i | 0 <= i < |rounds| && results[i].Done? && KeptBefore(rounds, bs, results, trace, i) ::
              InBounds(results[i].stats)
    ensures (forall i | 0 <= i < |rounds| :: Bounded(trace[i].left.map_.extents, trace[i].left.map_.totals, bs)) <==>
            KeptBefore(rounds, bs, results, trace, |rounds|)
    ensures KeptBefore(rounds, bs, results, trace, |rounds|) ==> Accounted(lm.State(), store.segments, bs)
  {
    hide StoreOk; hide Usable; hide Harmless; hide TrueStats; hide Faithful; hide Standing; hide CountedTimes; hide Ran;
    hide Tracks; hide Bounded; hide SameEffect; hide Sorted; hide InOrder; hide Logged; hide Outputs; hide CleanBefore;
    hide Progress; hide Linked; hide LeftBy; hide LiveMap.State; hide Untouched; hide WrittenBlocks; hide LiveBytes;
    hide Agrees; hide NothingHidden; hide KeptBefore; hide KeepsWrites; hide InBounds; hide Accounted; hide Picked;
    hide Updated; hide StaysInBounds;
    store := new LogStore([]);
    lm := new LiveMap(bs, repaired);
    results, trace := [], [];
    Start(bs, repaired);
    assert rounds[..0] == [];
    for i := 0 to |rounds|
      invariant fresh(store) && fresh(lm) && lm.blockSize == bs && lm.repaired == repaired
      invariant Progress(rounds[..i], bs, repaired, results, trace)
      invariant LeftBy(trace) == Outcome(store.segments, lm.State())
      invariant Standing(store.segments, lm.State(), rounds[..i], bs, repaired)
      invariant |results| == |trace| == i
      invariant CleanBefore(rounds[..i], bs, results, trace, i) ==>
        && Faithful(store.segments, lm.State(), Logged(rounds[..i]), bs)
        && KeptBefore(rounds[..i], bs, results, trace, i)
      invariant KeptBefore(rounds[..i], bs, results, trace, i) ==> Accounted(lm.State(), store.segments, bs)
    {
      ghost var before, rs, ts, m := rounds[..i], results, trace, lm.State();
      var r := rounds[i];
      assert rounds[..i + 1] == before + [r];
      InOrderPrefix(rounds, bs, i + 1);
      Arrive(store.segments, m, before, r, bs, repaired);
      StandingParts(store.segments, m, before, bs, repaired);
      StateParts(lm);
      store.segments := store.segments + r.arrived;
      ghost var grown := store.segments;
      var res;
      ghost var seen;
      res, seen := RunGC(store, lm, r.threshold, r.dryRun, r.newId);
      ghost var t := Trace(grown, m, seen, Outcome(store.segments, lm.State()));
      Leave(grown, m, before, r, bs, repaired, res, seen, t.left);
      LeaveAccounts(grown, m, r, bs, repaired, res, seen, t.left);
      ProgressNext(before, r, bs, repaired, rs, ts, res, t);
      CleanSnoc(before, r, bs, rs, ts, res, t);
      KeptSnoc(before, r, bs, rs, ts, res, t);
      LeftBySnoc(ts, t);
      results, trace := results + [res], trace + [t];
    }
    assert rounds[..|rounds|] == rounds;
    ProgressParts(rounds, bs, repaired, results, trace);
    BoundsOfRuns(rounds, bs, results, trace, |rounds|);
    InBoundsOf(rounds, bs, results, trace);
    StateParts(lm);
    StandingParts(store.segments, lm.State(), rounds, bs, repaired);
    if CleanBefore(rounds, bs, results, trace, |rounds|) {
      FaithfulParts(store.segments, lm.State(), Logged(rounds), bs);
    }
  }

  lemma {:induction false} InBoundsOf(rounds: seq<Round>, bs: nat, results: seq<GcResult>, trace: seq<Trace>)
    requires bs > 0 && |rounds| == |results| == |trace|
    requires forall k | 0 <= k < |rounds| && KeptBefore(rounds, bs, results, trace, k) ::
               StaysInBounds(rounds[k], results[k], trace[k], bs)
    ensures forall k | 0 <= k < |rounds| && results[k].Done? && KeptBefore(rounds, bs, results, trace, k) ::
              InBounds(results[k].stats)
  {
    hide KeptBefore; hide InBounds; hide Bounded; hide KeepsWrites;
  }

  // ---------------------------------------------------------------- a second look at an output

  /** Reading the new segment again over the renamed map changes no owner: what was copied is of
      the kind the map says already, and what was not copied is not touched. */
  lemma {:induction false} RereadOwner(store: seq<Segment>, m: MapState, retire: seq<nat>, bs: nat, newId: nat,
                                       ys: seq<Extent<Tag>>, b: nat)
    requires MayRetire(store, m, retire, bs, newId) && Agrees(m.extents, store, bs)
    requires var out := Segment(newId, Copied(store, m.extents, SetOf(retire), bs));
      Layered(ys, Reattributed(m.extents, retire, newId), [out], bs)
    ensures Owner(ys, b) == Owner(Reattributed(m.extents, retire, newId), b)
  {
    var xs, gone, p := m.extents, SetOf(retire), b * bs;
    var out := Segment(newId, Copied(store, xs, gone, bs));
    MulDivMod(b, bs);
    NewIsNew(store, m, retire, bs, newId);
    assert Owner(xs, p / bs) == TagOf(StoreEffect(store, bs, p));
    assert Owner(ys, p / bs) == if StoreEffect([out], bs, p).Some? then TagOf(StoreEffect([out], bs, p))
                                else Owner(Reattributed(xs, retire, newId), p / bs);
    hide Agrees; hide Copied; hide Reattributed; hide Layered; hide Owner; hide StoreEffect; hide Effect; hide Skipped;
    StoreEffectOne(out, bs, p);
    ReattributedOwner(xs, retire, newId, b);
    if Owner(xs, b).Some? && Owner(xs, b).value.seg in gone {
      var j := StoreEffectIndex(store, bs, p);
      CopiedOwned(store, xs, gone, bs, p, j);
    } else {
      CopiedNone(store, xs, gone, bs, p);
    }
  }

  /** After a run the only segment newer than the last label is the one it wrote. */
  lemma {:induction false} OnlyOutputNew(store: seq<Segment>, m: MapState, retire: seq<nat>, bs: nat, newId: nat)
    requires MayRetire(store, m, retire, bs, newId) && m.lastLabel < newId
    requires forall j | 0 <= j < |store| :: store[j].id <= m.lastLabel
    ensures After(Collected(store, m.extents, SetOf(retire), bs, newId), m.lastLabel) ==
      [Segment(newId, Copied(store, m.extents, SetOf(retire), bs))]
  {
    var gone := SetOf(retire);
    var kept, out := Kept(store, gone), Segment(newId, Copied(store, m.extents, gone, bs));
    KeptShape(store, gone);
    NoneAfter(kept, m.lastLabel);
    hide After;
    AfterNext(kept + [out], m.lastLabel);
    assert (kept + [out])[..|kept|] == kept;
  }

  lemma {:induction false} NoneAfter(store: seq<Segment>, mark: int)
    requires forall i | 0 <= i < |store| :: store[i].id <= mark
    ensures After(store, mark) == []
  {
    if store != [] { NoneAfter(store[..|store| - 1], mark); }
  }

  lemma {:induction false} SecondRead(store: seq<Segment>, m: MapState, retire: seq<nat>, bs: nat, newId: nat,
                                      repaired: bool)
    requires MayRetire(store, m, retire, bs, newId) && retire != [] && OwnsAny(m.extents, retire) && m.lastLabel < newId
    requires forall j | 0 <= j < |store| :: store[j].id <= m.lastLabel
    ensures var o := Retired(store, m, retire, bs, newId);
      var out := Segment(newId, Copied(store, m.extents, SetOf(retire), bs));
      Updated(o.map_, o.store, bs, repaired) == Read(o.map_, [out], bs, repaired) && StoreOk([out], bs)
  {
    var o := Retired(store, m, retire, bs, newId);
    hide *;
    RetireFacts(store, m, retire, bs, newId);
    RetiredExtents(store, m, retire, bs, newId);
    RetiredUsable(store, m, retire, bs, newId);
    OnlyOutputNew(store, m, retire, bs, newId);
    CleanedUsable(o.map_, Ids(o.store));
    UpdatedIs(o.map_, o.store, bs, repaired);
    CopiedAligned(store, m.extents, SetOf(retire), bs);
    OneOk(Segment(newId, Copied(store, m.extents, SetOf(retire), bs)), bs);
  }

  lemma {:induction false} OneOk(s: Segment, bs: nat)
    requires bs > 0 && AllAligned(s.entries, bs)
    ensures StoreOk([s], bs)
  {
  }

  lemma {:induction false} SecondOwners(store: seq<Segment>, m: MapState, retire: seq<nat>, bs: nat, newId: nat,
                                        repaired: bool)
    requires MayRetire(store, m, retire, bs, newId) && retire != [] && OwnsAny(m.extents, retire) && m.lastLabel < newId
    requires Agrees(m.extents, store, bs) && forall j | 0 <= j < |store| :: store[j].id <= m.lastLabel
    ensures var o := Retired(store, m, retire, bs, newId);
      forall b: nat :: Owner(Updated(o.map_, o.store, bs, repaired).extents, b) ==
                       Owner(Reattributed(m.extents, retire, newId), b)
  {
    var o, xs' := Retired(store, m, retire, bs, newId), Reattributed(m.extents, retire, newId);
    var out := Segment(newId, Copied(store, m.extents, SetOf(retire), bs));
    assert bs > 0;
    hide *;
    RetiredExtents(store, m, retire, bs, newId);
    SecondRead(store, m, retire, bs, newId, repaired);
    ReadLayered(o.map_, [out], bs, repaired);
    forall b: nat ensures Owner(Updated(o.map_, o.store, bs, repaired).extents, b) == Owner(xs', b) {
      RereadOwner(store, m, retire, bs, newId, Updated(o.map_, o.store, bs, repaired).extents, b);
    }
  }

  /** The next run finds the live bytes of the new segment where this one left them, lost or not. */
  lemma {:induction false} SecondLive(store: seq<Segment>, m: MapState, retire: seq<nat>, bs: nat, newId: nat,
                                      repaired: bool)
    requires MayRetire(store, m, retire, bs, newId) && retire != [] && OwnsAny(m.extents, retire) && m.lastLabel < newId
    requires Agrees(m.extents, store, bs) && forall j | 0 <= j < |store| :: store[j].id <= m.lastLabel
    ensures var o := Retired(store, m, retire, bs, newId);
      LiveBlocks(Updated(o.map_, o.store, bs, repaired).extents, newId) == SumLive(m.extents, retire)
  {
    var o, xs' := Retired(store, m, retire, bs, newId), Reattributed(m.extents, retire, newId);
    RetiredUsable(store, m, retire, bs, newId);
    ReattributedShape(m.extents, retire, newId);
    AgreesBacked(m.extents, store, bs);
    hide Retired; hide Updated; hide Copied; hide Reattributed; hide Agrees; hide LiveBlocks; hide SumLive;
    hide OwnsAny; hide Positive; hide Disjoint; hide Keyed; hide Owner; hide Backed; hide WritesKept;
    UpdatedUsable(o.map_, o.store, bs, repaired);
    SecondOwners(store, m, retire, bs, newId, repaired);
    SameOwnersSameLive(Updated(o.map_, o.store, bs, repaired).extents, xs', newId);
    HandedOverBytes(store, m, retire, bs, newId);
  }

  lemma {:induction false} OutputCounted(store: seq<Segment>, m: MapState, retire: seq<nat>, bs: nat, newId: nat)
    requires MayRetire(store, m, retire, bs, newId) && retire != [] && OwnsAny(m.extents, retire)
    ensures
      var o, bytes := Retired(store, m, retire, bs, newId), WriteBytes(Copied(store, m.extents, SetOf(retire), bs));
      newId in Ids(o.store) && newId in o.map_.totals
      && TotalOf(o.map_.totals, newId) == bytes && BytesIn(o.store, newId) == bytes
  {
    var out := Segment(newId, Copied(store, m.extents, SetOf(retire), bs));
    NewIsNew(store, m, retire, bs, newId);
    KeptIds(store, SetOf(retire));
    BytesInNone(Kept(store, SetOf(retire)), newId);
    BytesInAppend(Kept(store, SetOf(retire)), [out], newId);
    IdsAppend(Kept(store, SetOf(retire)), [out]);
    assert [out][..0] == [] && [out][0].id in Ids([out]);
  }

  /** What a look right after a run reports of the segment the run wrote: as live all that it was
      given, and as total twice what it holds. */
  lemma {:induction false} SecondLook(store: seq<Segment>, m: MapState, retire: seq<nat>, bs: nat, newId: nat,
                                      repaired: bool, stats: seq<SegmentStats>) returns (i: nat)
    requires MayRetire(store, m, retire, bs, newId) && retire != [] && OwnsAny(m.extents, retire) && m.lastLabel < newId
    requires Agrees(m.extents, store, bs) && forall j | 0 <= j < |store| :: store[j].id <= m.lastLabel
    requires var o := Retired(store, m, retire, bs, newId);
      StatsFor(stats, Updated(o.map_, o.store, bs, repaired), bs)
    ensures i < |stats| && stats[i].id == newId
    ensures stats[i].totalWriteBytes == 2 * WriteBytes(Copied(store, m.extents, SetOf(retire), bs))
    ensures stats[i].liveWriteBytes == SumLive(m.extents, retire) * bs
  {
    var o := Retired(store, m, retire, bs, newId);
    var u := Updated(o.map_, o.store, bs, repaired);
    RetiredUsable(store, m, retire, bs, newId);
    OutputCounted(store, m, retire, bs, newId);
    hide Retired; hide Updated; hide TotalOf; hide BytesIn; hide LiveBlocks; hide WriteBytes; hide Usable; hide StoreOk;
    hide Ids;
    hide StatsFor; hide MayRetire; hide Copied; hide NothingHidden; hide Agrees; hide OwnsAny;
    UpdatedTotal(o.map_, o.store, bs, repaired, newId);
    i := StatOf(stats, u, bs, newId, o, repaired);
    SecondLive(store, m, retire, bs, newId, repaired);
  }

  lemma {:induction false} RetiredExtents(store: seq<Segment>, m: MapState, retire: seq<nat>, bs: nat, newId: nat)
    requires MayRetire(store, m, retire, bs, newId) && retire != [] && OwnsAny(m.extents, retire)
    ensures Retired(store, m, retire, bs, newId).map_.extents == Reattributed(m.extents, retire, newId)
    ensures Retired(store, m, retire, bs, newId).store == Collected(store, m.extents, SetOf(retire), bs, newId)
  {
  }

  lemma {:induction false} StatOf(stats: seq<SegmentStats>, u: MapState, bs: nat, id: nat, o: Outcome, repaired: bool)
    returns (i: nat)
    requires bs > 0 && StatsFor(stats, u, bs) && u == Updated(o.map_, o.store, bs, repaired)
    requires Usable(o.map_) && o.map_.totals.Keys <= Ids(o.store) && id in o.map_.totals
    ensures i < |stats| && stats[i].id == id
    ensures stats[i].totalWriteBytes == TotalOf(u.totals, id)
    ensures stats[i].liveWriteBytes == LiveBlocks(u.extents, id) * bs
  {
    KeysStay(o.map_, o.store, bs, repaired, id);
    assert id in SetOf(StatIds(stats));
    i :| 0 <= i < |stats| && StatIds(stats)[i] == id;
    assert stats[i] == StatsOf(u.extents, bs, id, u.totals[id]);
  }

  lemma {:induction false} KeysStay(m: MapState, store: seq<Segment>, bs: nat, repaired: bool, id: nat)
    requires bs > 0 && Usable(m) && m.totals.Keys <= Ids(store) && id in m.totals
    ensures id in Updated(m, store, bs, repaired).totals
  {
    CleanedUsable(m, Ids(store));
    ReadKeys(m, After(store, m.lastLabel), bs, repaired, id);
  }

  lemma {:induction false} ReadKeys(m: MapState, todo: seq<Segment>, bs: nat, repaired: bool, id: nat)
    requires bs > 0 && id in m.totals
    ensures id in Read(m, todo, bs, repaired).totals
  {
    if todo != [] {
      var n := |todo| - 1;
      ReadKeys(m, todo[..n], bs, repaired, id);
      TalliedKeys(Read(m, todo[..n], bs, repaired).totals, todo[n], |todo[n].entries|);
    }
  }

  lemma {:induction false} Wrote(store: seq<Segment>, m: MapState, threshold: nat, newId: nat, bs: nat, repaired: bool,
                                 r: GcResult, seen: MapState, left: Outcome)
    requires Tracks(m, store, bs) && m.lastLabel < newId && forall j | 0 <= j < |store| :: store[j].id < newId
    requires Ran(store, m, threshold, false, newId, bs, repaired, r, seen, left) && r.Done? && r.newSegment.Some?
    ensures MayRetire(store, seen, r.retire, bs, newId) && r.retire != [] && OwnsAny(seen.extents, r.retire)
    ensures seen.lastLabel < newId && forall j | 0 <= j < |store| :: store[j].id <= seen.lastLabel
    ensures Agrees(seen.extents, store, bs)
    ensures r.copiedBytes == WriteBytes(Copied(store, seen.extents, SetOf(r.retire), bs))
    ensures left == Retired(store, seen, r.retire, bs, newId) && left.store != []
  {
    hide Agrees; hide Updated; hide StatsFor; hide Chosen; hide Copied; hide WriteBytes;
    UpdatedAgrees(m, store, bs, repaired);
    UpdatedUsable(m, store, bs, repaired);
  }

  /** A run that copies, and a look right after it. The segment it wrote is reported with twice its
      size as total, and with all live bytes that were handed over to it: within the total exactly
      when at least half of them were copied, and half of it when none was lost. */
  method RunThenLook(store: LogStore, lm: LiveMap, threshold: nat, newId: nat, later: nat)
    returns (first: GcResult, second: GcResult, ghost seen: MapState, ghost left: Outcome, ghost i: nat)
    requires Tracks(lm.State(), store.segments, lm.blockSize) && lm.lastLabel < newId < later
    requires forall j | 0 <= j < |store.segments| :: store.segments[j].id < newId
    modifies store, lm
    ensures Ran(old(store.segments), old(lm.State()), threshold, false, newId, lm.blockSize, lm.repaired,
                first, seen, left)
    ensures first.Done? ==> SetOf(first.retire) == Picked(seen, lm.blockSize, threshold)
    ensures first.Done? && first.newSegment.Some? ==>
      && second.Done? && i < |second.stats| && second.stats[i].id == newId
      && second.stats[i].totalWriteBytes == 2 * first.copiedBytes
      && second.stats[i].liveWriteBytes == SumLive(seen.extents, first.retire) * lm.blockSize
      && (second.stats[i].liveWriteBytes <= second.stats[i].totalWriteBytes <==>
            SumLive(seen.extents, first.retire) * lm.blockSize <= 2 * first.copiedBytes)
      && (second.stats[i].liveWriteBytes == first.copiedBytes <==>
            WritesKept(old(store.segments), seen.extents, SetOf(first.retire), lm.blockSize))
  {
    hide NothingHidden; hide Agrees; hide Retired; hide Updated; hide Usable; hide StoreOk; hide StatsFor; hide Chosen;
    hide Bounded; hide SameEffect; hide Untouched; hide LiveBytes; hide WrittenBlocks; hide Harmless; hide Sorted;
    hide Picked; hide Accounted; hide InBounds; hide WritesKept; hide SumLive;
    ghost var bs, before, m := lm.blockSize, store.segments, lm.State();
    first, seen := RunGC(store, lm, threshold, false, newId);
    left := Outcome(store.segments, lm.State());
    ghost var seen';
    second, seen' := RunGC(store, lm, threshold, true, later);
    i := 0;
    if first.Done? && first.newSegment.Some? {
      Wrote(before, m, threshold, newId, bs, lm.repaired, first, seen, left);
      i := SecondLook(before, seen, first.retire, bs, newId, lm.repaired, second.stats);
      AgreesBacked(seen.extents, before, bs);
      HandedOverBytes(before, seen, first.retire, bs, newId);
    }
  }
}
