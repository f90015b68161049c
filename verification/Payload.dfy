/** Exactly when retirement preserves the replayed device for every payload the log entries
    could carry. */
module Payload {
  import opened Bytes
  import opened Options
  import opened LogReplay
  import opened IntervalMap
  import opened Store
  import opened Retire

  // ---------------------------------------------------------------- logs of the same shape

  /** Same operation on the same blocks; only the payload may differ. */
  ghost predicate SameShape(e: Entry, f: Entry) {
    e.Write? == f.Write? && e.block == f.block && e.Length() == f.Length()
  }

  ghost predicate SameShapes(es: seq<Entry>, fs: seq<Entry>) {
    |es| == |fs| && forall i | 0 <= i < |es| :: SameShape(es[i], fs[i])
  }

  ghost predicate SameSegment(s: Segment, r: Segment) { s.id == r.id && SameShapes(s.entries, r.entries) }

  ghost predicate SameStore(s: seq<Segment>, t: seq<Segment>) {
    |s| == |t| && forall i | 0 <= i < |s| :: s[i].id == t[i].id && SameShapes(s[i].entries, t[i].entries)
  }

  lemma {:induction false} SameToucher(es: seq<Entry>, fs: seq<Entry>, bs: nat, b: nat)
    requires bs > 0 && SameShapes(es, fs)
    ensures LastToucher(es, bs, b) == LastToucher(fs, bs, b)
  {
    if es != [] {
      var n := |es| - 1;
      assert SameShape(es[n], fs[n]);
      assert SameShapes(es[..n], fs[..n]);
      SameToucher(es[..n], fs[..n], bs, b);
    }
  }

  /** What is skipped depends on the shape only. */
  lemma {:induction false} SameSkipped(es: seq<Entry>, fs: seq<Entry>, bs: nat, xs: seq<Extent<Tag>>, b: nat)
    requires bs > 0 && SameShapes(es, fs)
    ensures Skipped(es, bs, xs, b) == Skipped(fs, bs, xs, b)
  {
    forall c: nat ensures LastToucher(es, bs, c) == LastToucher(fs, bs, c) { SameToucher(es, fs, bs, c); }
    forall lo: nat, hi: nat ensures RunAt(es, bs, b, lo, hi) == RunAt(fs, bs, b, lo, hi) { }
  }

  /** Kinds, without values. */
  function Kind(h: Option<Hit>): Option<bool> { match h case None => None case Some(x) => Some(x.isTrim) }

  lemma {:induction false} SameKind(es: seq<Entry>, fs: seq<Entry>, bs: nat, p: nat)
    requires SameShapes(es, fs)
    ensures Kind(Effect(es, bs, p)) == Kind(Effect(fs, bs, p))
  {
    if es != [] {
      var n := |es| - 1;
      assert SameShape(es[n], fs[n]);
      assert SameShapes(es[..n], fs[..n]);
      SameKind(es[..n], fs[..n], bs, p);
    }
  }

  lemma {:induction false} SameTag(s: seq<Segment>, t: seq<Segment>, bs: nat, p: nat)
    requires SameStore(s, t)
    ensures TagOf(StoreEffect(s, bs, p)) == TagOf(StoreEffect(t, bs, p))
  {
    if s != [] {
      var n := |s| - 1;
      assert s[n].id == t[n].id && SameShapes(s[n].entries, t[n].entries);
      SameKind(s[n].entries, t[n].entries, bs, p);
      assert SameStore(s[..n], t[..n]);
      SameTag(s[..n], t[..n], bs, p);
    }
  }

  lemma {:induction false} SameKept(s: seq<Segment>, t: seq<Segment>, gone: set<nat>)
    requires SameStore(s, t)
    ensures SameStore(Kept(s, gone), Kept(t, gone))
  {
    if s != [] {
      var n := |s| - 1;
      assert s[n].id == t[n].id && SameShapes(s[n].entries, t[n].entries);
      assert SameStore(s[..n], t[..n]);
      SameKept(s[..n], t[..n], gone);
    }
  }

  lemma {:induction false} SameOk(s: seq<Segment>, t: seq<Segment>, bs: nat)
    requires bs > 0 && StoreOk(s, bs) && SameStore(s, t)
    ensures StoreOk(t, bs)
  {
    forall i | 0 <= i < |t| ensures AllAligned(t[i].entries, bs) {
      assert SameShapes(s[i].entries, t[i].entries) && AllAligned(s[i].entries, bs);
      forall k | 0 <= k < |t[i].entries| ensures t[i].entries[k].Aligned(bs) {
        assert SameShape(s[i].entries[k], t[i].entries[k]) && s[i].entries[k].Aligned(bs);
      }
    }
    forall i, j | 0 <= i < j < |t| ensures t[i].id < t[j].id {
      assert s[i].id == t[i].id && s[j].id == t[j].id && s[i].id < s[j].id;
    }
  }

  lemma {:induction false} SameRetirable(s: seq<Segment>, t: seq<Segment>, xs: seq<Extent<Tag>>, bs: nat, newId: nat)
    requires SameStore(s, t) && Retirable(s, xs, bs, newId)
    ensures Retirable(t, xs, bs, newId)
  {
    SameOk(s, t, bs);
    forall i | 0 <= i < |t| ensures t[i].id < newId { assert s[i].id == t[i].id; }
    forall p: nat ensures Owner(xs, p / bs) == TagOf(StoreEffect(t, bs, p)) {
      SameTag(s, t, bs, p);
      assert Owner(xs, p / bs) == TagOf(StoreEffect(s, bs, p));
    }
  }

  // ---------------------------------------------------------------- one device, any payload

  ghost predicate SameBytes(t: seq<Segment>, xs: seq<Extent<Tag>>, gone: set<nat>, bs: nat, newId: nat, p: nat,
                            base: byte)
    requires Retirable(t, xs, bs, newId)
  {
    Replay(Entries(Collected(t, xs, gone, bs, newId)), bs, p, base) == Replay(Entries(t), bs, p, base)
  }

  /** Retirement preserves the device whatever the payloads are. */
  ghost predicate AlwaysPreserved(store: seq<Segment>, xs: seq<Extent<Tag>>, gone: set<nat>, bs: nat, newId: nat) {
    forall t: seq<Segment>, p: nat, base: byte | SameStore(store, t) && Retirable(t, xs, bs, newId) ::
      SameBytes(t, xs, gone, bs, newId, p, base)
  }

  /** Byte p belongs to retired segment j and its block is skipped. */
  ghost predicate LostAt(store: seq<Segment>, xs: seq<Extent<Tag>>, gone: set<nat>, bs: nat, p: nat, j: nat)
    requires bs > 0 && j < |store|
  {
    && store[j].id in gone
    && StoreEffect(store, bs, p).Some? && StoreEffect(store, bs, p).value.seg == store[j].id
    && Skipped(store[j].entries, bs, SegExtents(xs, store[j].id), p / bs)
  }

  /** When nothing is hidden, no block is lost. */
  lemma {:induction false} NothingLost(store: seq<Segment>, xs: seq<Extent<Tag>>, gone: set<nat>, bs: nat, p: nat)
    requires bs > 0 && Positive(xs) && Disjoint(xs) && NothingHidden(store, xs, gone, bs)
    ensures forall j | 0 <= j < |store| :: !LostAt(store, xs, gone, bs, p, j)
  {
    hide Skipped; hide Clear; hide StoreEffect;
    forall j | 0 <= j < |store| ensures !LostAt(store, xs, gone, bs, p, j) {
      if store[j].id in gone {
        SegExtentsDisjoint(xs, store[j].id);
        ClearSkipsNothing(store[j].entries, bs, SegExtents(xs, store[j].id), p / bs);
      }
    }
  }

  /** If the block of byte p is skipped, it is a trim that a kept trim lies under. */
  ghost predicate HarmlessAt(store: seq<Segment>, xs: seq<Extent<Tag>>, gone: set<nat>, bs: nat, p: nat)
    requires bs > 0
  {
    forall j | 0 <= j < |store| && LostAt(store, xs, gone, bs, p, j) ::
      && StoreEffect(store, bs, p).value.hit.isTrim
      && StoreEffect(Kept(store, gone), bs, p).Some? && StoreEffect(Kept(store, gone), bs, p).value.hit.isTrim
  }

  /** The only blocks skipped are trims that a kept trim lies under. */
  ghost predicate OnlyTrimsLost(store: seq<Segment>, xs: seq<Extent<Tag>>, gone: set<nat>, bs: nat)
    requires bs > 0
  {
    forall p: nat :: HarmlessAt(store, xs, gone, bs, p)
  }

  function ByteOf(o: Option<Owned>, base: byte): byte { match o case None => base case Some(w) => w.hit.value }

  lemma {:induction false} ReplayStore(store: seq<Segment>, bs: nat, p: nat, base: byte)
    ensures Replay(Entries(store), bs, p, base) == ByteOf(StoreEffect(store, bs, p), base)
  {
    EntriesEffect(store, bs, p);
    ReplayByEffect(Entries(store), bs, p, base);
  }

  lemma {:induction false} StoreTrimIsZero(store: seq<Segment>, bs: nat, p: nat)
    requires StoreEffect(store, bs, p).Some? && StoreEffect(store, bs, p).value.hit.isTrim
    ensures StoreEffect(store, bs, p).value.hit.value == 0
  {
    var j := StoreEffectIndex(store, bs, p);
    TrimIsZero(store[j].entries, bs, p);
  }

  lemma {:induction false} HarmlessPreserves(store: seq<Segment>, t: seq<Segment>, xs: seq<Extent<Tag>>, gone: set<nat>,
                                             bs: nat, newId: nat, p: nat, base: byte)
    requires Retirable(store, xs, bs, newId) && HarmlessAt(store, xs, gone, bs, p)
    requires SameStore(store, t) && Retirable(t, xs, bs, newId)
    ensures SameBytes(t, xs, gone, bs, newId, p, base)
  {
    hide Skipped; hide Effect; hide StoreEffect; hide Collected; hide Kept; hide SegExtents; hide Agrees; hide StoreOk;
    hide Disjoint; hide Replay;
    var o := StoreEffect(t, bs, p);
    ReplayStore(t, bs, p, base);
    ReplayStore(Collected(t, xs, gone, bs, newId), bs, p, base);
    RetirableParts(t, xs, bs, newId, p);
    hide PartlyRetirable; hide Retirable; hide Owner;
    if o.Some? && o.value.seg in gone {
      var j := StoreEffectIndex(t, bs, p);
      CollectedGone(t, xs, gone, bs, newId, p, j);
      assert store[j].id == t[j].id && SameShapes(store[j].entries, t[j].entries);
      SameSkipped(store[j].entries, t[j].entries, bs, SegExtents(xs, t[j].id), p / bs);
      if Skipped(t[j].entries, bs, SegExtents(xs, t[j].id), p / bs) {
        SameTag(store, t, bs, p);
        SameKept(store, t, gone);
        SameTag(Kept(store, gone), Kept(t, gone), bs, p);
        assert LostAt(store, xs, gone, bs, p, j);
        StoreTrimIsZero(t, bs, p);
        StoreTrimIsZero(Kept(t, gone), bs, p);
      }
    } else {
      CollectedKept(t, xs, gone, bs, newId, p);
    }
  }

  // ---------------------------------------------------------------- payloads that tell

  function Paint(e: Entry, v: byte): Entry {
    if e.Write? then Write(e.block, seq(|e.data|, _ => v)) else e
  }

  function PaintAll(es: seq<Entry>, v: byte): seq<Entry> {
    seq(|es|, i requires 0 <= i < |es| => Paint(es[i], v))
  }

  /** Writes of segment id carry v, all other writes w. */
  function PaintStore(store: seq<Segment>, id: nat, v: byte, w: byte): seq<Segment> {
    seq(|store|, i requires 0 <= i < |store| =>
      Segment(store[i].id, PaintAll(store[i].entries, if store[i].id == id then v else w)))
  }

  lemma {:induction false} PaintSame(store: seq<Segment>, id: nat, v: byte, w: byte)
    ensures SameStore(store, PaintStore(store, id, v, w))
  {
    forall i | 0 <= i < |store| ensures SameShapes(store[i].entries, PaintStore(store, id, v, w)[i].entries) {
      var c := if store[i].id == id then v else w;
      assert forall k | 0 <= k < |store[i].entries| :: SameShape(store[i].entries[k], PaintAll(store[i].entries, c)[k]);
    }
  }

  lemma {:induction false} PaintedValue(es: seq<Entry>, v: byte, bs: nat, p: nat)
    requires Effect(PaintAll(es, v), bs, p).Some?
    ensures var h := Effect(PaintAll(es, v), bs, p).value; h.value == if h.isTrim then 0 else v
  {
    var n := |es| - 1;
    assert PaintAll(es, v)[..n] == PaintAll(es[..n], v);
    if !PaintAll(es, v)[n].HasByte(bs, p) { PaintedValue(es[..n], v, bs, p); }
  }

  /** Any part of a painted store carries its colours. */
  lemma {:induction false} PaintedPart(store: seq<Segment>, id: nat, v: byte, w: byte, part: seq<Segment>, bs: nat,
                                       p: nat)
    requires forall i | 0 <= i < |part| :: part[i] in PaintStore(store, id, v, w)
    ensures var o := StoreEffect(part, bs, p);
      o.Some? ==> o.value.hit.value == if o.value.hit.isTrim then 0 else if o.value.seg == id then v else w
  {
    var t := PaintStore(store, id, v, w);
    if StoreEffect(part, bs, p).Some? {
      var j := StoreEffectIndex(part, bs, p);
      var i :| 0 <= i < |t| && t[i] == part[j];
      PaintedValue(store[i].entries, if store[i].id == id then v else w, bs, p);
    }
  }

  lemma {:induction false} PaintedStoreValue(store: seq<Segment>, id: nat, v: byte, w: byte, bs: nat, p: nat,
                                             gone: set<nat>)
    ensures var o := StoreEffect(PaintStore(store, id, v, w), bs, p);
      o.Some? ==> o.value.hit.value == if o.value.hit.isTrim then 0 else if o.value.seg == id then v else w
    ensures var k := StoreEffect(Kept(PaintStore(store, id, v, w), gone), bs, p);
      k.Some? ==> k.value.seg !in gone && k.value.hit.value == if k.value.hit.isTrim then 0
        else if k.value.seg == id then v else w
  {
    var t := PaintStore(store, id, v, w);
    KeptEffect(t, gone, bs, p);
    KeptShape(t, gone);
    PaintedPart(store, id, v, w, t, bs, p);
    PaintedPart(store, id, v, w, Kept(t, gone), bs, p);
  }

  /** A harmful loss is visible on some payload: paint the lost segment's writes 1 and all
      others 0, or everything 1 when the lost operation is a trim. */
  lemma {:induction false} HarmShows(store: seq<Segment>, xs: seq<Extent<Tag>>, gone: set<nat>, bs: nat, newId: nat,
                                     p: nat)
    returns (t: seq<Segment>, w: byte)
    requires Retirable(store, xs, bs, newId) && !HarmlessAt(store, xs, gone, bs, p)
    ensures SameStore(store, t) && Retirable(t, xs, bs, newId) && !SameBytes(t, xs, gone, bs, newId, p, w)
  {
    hide Skipped;
    var j :| 0 <= j < |store| && LostAt(store, xs, gone, bs, p, j) &&
      !(&& StoreEffect(store, bs, p).value.hit.isTrim
        && StoreEffect(Kept(store, gone), bs, p).Some? && StoreEffect(Kept(store, gone), bs, p).value.hit.isTrim);
    var trim := StoreEffect(store, bs, p).value.hit.isTrim;
    w := if trim then 1 else 0;
    t := PaintStore(store, store[j].id, 1, w);
    PaintSame(store, store[j].id, 1, w);
    SameRetirable(store, t, xs, bs, newId);
    assert SameShapes(store[j].entries, t[j].entries);
    SameSkipped(store[j].entries, t[j].entries, bs, SegExtents(xs, store[j].id), p / bs);
    SameTag(store, t, bs, p);
    SameKept(store, t, gone);
    SameTag(Kept(store, gone), Kept(t, gone), bs, p);
    CollectedGone(t, xs, gone, bs, newId, p, j);
    PaintedStoreValue(store, store[j].id, 1, w, bs, p, gone);
    ReplayStore(t, bs, p, w);
    ReplayStore(Collected(t, xs, gone, bs, newId), bs, p, w);
  }

  /** Retirement preserves the device for every payload exactly when the only blocks it
      skips are trims lying over a kept trim. */
  lemma {:induction false} PreservedExactly(store: seq<Segment>, xs: seq<Extent<Tag>>, gone: set<nat>, bs: nat,
                                            newId: nat)
    requires Retirable(store, xs, bs, newId)
    ensures AlwaysPreserved(store, xs, gone, bs, newId) <==> OnlyTrimsLost(store, xs, gone, bs)
  {
    if OnlyTrimsLost(store, xs, gone, bs) {
      forall t: seq<Segment>, p: nat, base: byte | SameStore(store, t) && Retirable(t, xs, bs, newId)
        ensures SameBytes(t, xs, gone, bs, newId, p, base)
      {
        HarmlessPreserves(store, t, xs, gone, bs, newId, p, base);
      }
    } else {
      var p: nat :| !HarmlessAt(store, xs, gone, bs, p);
      var t, w := HarmShows(store, xs, gone, bs, newId, p);
    }
  }
}
