/** Incremental replay: an image that holds the logs up to a label is brought up to date with the
    logs past it. Exactly when that gives the full replay, after a garbage collection and for
    segments that arrive late. */
module Incremental {
  import opened Bytes
  import opened Options
  import opened LogReplay
  import opened IntervalMap
  import opened Store
  import opened Retire
  import opened Payload

  /** Byte p of an image that was replayed from old up to label mark, and then from now past it. */
  function UpToDate(old_: seq<Segment>, now: seq<Segment>, mark: int, bs: nat, p: nat, base: byte): byte {
    Replay(Entries(After(now, mark)), bs, p, Replay(Entries(UpTo(old_, mark)), bs, p, base))
  }

  /** What the two replays give: the newer one if it touches the byte past the mark. */
  lemma {:induction false} UpToDateIs(old_: seq<Segment>, now: seq<Segment>, mark: int, bs: nat, p: nat, base: byte)
    requires bs > 0 && StoreOk(now, bs)
    ensures var a := StoreEffect(now, bs, p);
      UpToDate(old_, now, mark, bs, p, base) ==
      ByteOf(if a.Some? && a.value.seg > mark then a else StoreEffect(UpTo(old_, mark), bs, p), base)
  {
    hide Replay; hide StoreEffect;
    var image := Replay(Entries(UpTo(old_, mark)), bs, p, base);
    ReplayStore(UpTo(old_, mark), bs, p, base);
    ReplayStore(After(now, mark), bs, p, image);
    SplitEffect(now, mark, bs, p);
  }

  // ---------------------------------------------------------------- after a garbage collection

  /** What remains of byte p for the incremental replay when its block is lost: the effect of a
      kept segment past the mark, else that of the logs up to it. */
  function Beneath(store: seq<Segment>, gone: set<nat>, bs: nat, mark: int, p: nat): Option<Owned> {
    var k := StoreEffect(Kept(store, gone), bs, p);
    if k.Some? && k.value.seg > mark then k else StoreEffect(UpTo(store, mark), bs, p)
  }

  /** If the block of byte p is lost, the image has it already, or a trim lies over a trim. */
  ghost predicate CurrentAt(store: seq<Segment>, xs: seq<Extent<Tag>>, gone: set<nat>, bs: nat, mark: int, p: nat)
    requires bs > 0
  {
    forall j | 0 <= j < |store| && LostAt(store, xs, gone, bs, p, j) ::
      || store[j].id <= mark
      || (&& StoreEffect(store, bs, p).value.hit.isTrim
          && Beneath(store, gone, bs, mark, p).Some? && Beneath(store, gone, bs, mark, p).value.hit.isTrim)
  }

  ghost predicate SameImage(t: seq<Segment>, xs: seq<Extent<Tag>>, gone: set<nat>, bs: nat, newId: nat, mark: int,
                            p: nat, base: byte)
    requires Retirable(t, xs, bs, newId)
  {
    UpToDate(t, Collected(t, xs, gone, bs, newId), mark, bs, p, base) == Replay(Entries(t), bs, p, base)
  }

  /** Incremental replay across the collection gives the full replay whatever the payloads are. */
  ghost predicate AlwaysCurrent(store: seq<Segment>, xs: seq<Extent<Tag>>, gone: set<nat>, bs: nat, newId: nat,
                                mark: int)
  {
    forall t: seq<Segment>, p: nat, base: byte | SameStore(store, t) && Retirable(t, xs, bs, newId) ::
      SameImage(t, xs, gone, bs, newId, mark, p, base)
  }

  /** A segment that is kept and touches byte p is no newer than the owner of the byte. */
  lemma {:induction false} KeptIsOlder(store: seq<Segment>, gone: set<nat>, bs: nat, p: nat)
    requires bs > 0 && StoreOk(store, bs)
    ensures var k, o := StoreEffect(Kept(store, gone), bs, p), StoreEffect(store, bs, p);
      k.Some? ==> o.Some? && k.value.seg <= o.value.seg
  {
    var kept := Kept(store, gone);
    KeptEffect(store, gone, bs, p);
    if StoreEffect(kept, bs, p).Some? {
      var i := StoreEffectIndex(kept, bs, p);
      KeptShape(store, gone);
      var h :| 0 <= h < |store| && store[h] == kept[i];
      hide Kept; hide StoreEffect; hide Effect;
      var j := StoreEffectIndex(store, bs, p);
      assert h <= j;
    }
  }

  lemma {:induction false} SameUpTo(s: seq<Segment>, t: seq<Segment>, mark: int)
    requires SameStore(s, t)
    ensures SameStore(UpTo(s, mark), UpTo(t, mark))
  {
    hide SameShapes;
    if s != [] {
      var n := |s| - 1;
      assert s[n].id == t[n].id && SameShapes(s[n].entries, t[n].entries);
      assert SameStore(s[..n], t[..n]);
      SameUpTo(s[..n], t[..n], mark);
    }
  }

  lemma {:induction false} UpToShape(store: seq<Segment>, mark: int)
    ensures forall i | 0 <= i < |UpTo(store, mark)| :: UpTo(store, mark)[i] in store && UpTo(store, mark)[i].id <= mark
  {
    if store != [] {
      var n := |store| - 1;
      UpToShape(store[..n], mark);
      assert store == store[..n] + [store[n]];
    }
  }

  lemma {:induction false} SameBeneath(s: seq<Segment>, t: seq<Segment>, gone: set<nat>, bs: nat, mark: int, p: nat)
    requires SameStore(s, t)
    ensures TagOf(Beneath(s, gone, bs, mark, p)) == TagOf(Beneath(t, gone, bs, mark, p))
  {
    hide StoreEffect; hide Kept; hide UpTo; hide SameStore;
    SameKept(s, t, gone);
    SameTag(Kept(s, gone), Kept(t, gone), bs, p);
    SameUpTo(s, t, mark);
    SameTag(UpTo(s, mark), UpTo(t, mark), bs, p);
  }

  /** One byte of the incremental image: what the original logs say, unless its block was lost
      past the mark. */
  lemma {:induction false} ImageByte(t: seq<Segment>, xs: seq<Extent<Tag>>, gone: set<nat>, bs: nat, newId: nat,
                                     mark: int, p: nat, base: byte)
    requires Retirable(t, xs, bs, newId)
    ensures UpToDate(t, Collected(t, xs, gone, bs, newId), mark, bs, p, base) ==
      ByteOf(if exists j :: 0 <= j < |t| && LostAt(t, xs, gone, bs, p, j) && t[j].id > mark
             then Beneath(t, gone, bs, mark, p) else StoreEffect(t, bs, p), base)
  {
    var after, o := Collected(t, xs, gone, bs, newId), StoreEffect(t, bs, p);
    CollectedOk(t, xs, gone, bs, newId);
    hide Collected; hide Skipped; hide StoreEffect; hide Kept; hide Agrees; hide Disjoint; hide UpToDate;
    hide SegExtents; hide UpTo;
    UpToDateIs(t, after, mark, bs, p, base);
    SplitEffect(t, mark, bs, p);
    if o.Some? && o.value.seg in gone {
      var j := StoreEffectIndex(t, bs, p);
      CollectedGone(t, xs, gone, bs, newId, p, j);
      KeptIsOlder(t, gone, bs, p);
      forall i | 0 <= i < |t| && LostAt(t, xs, gone, bs, p, i) ensures i == j { assert t[i].id == t[j].id; }
    } else {
      CollectedKept(t, xs, gone, bs, newId, p);
    }
  }

  lemma {:induction false} CurrentGives(store: seq<Segment>, t: seq<Segment>, xs: seq<Extent<Tag>>, gone: set<nat>,
                                        bs: nat, newId: nat, mark: int, p: nat, base: byte)
    requires Retirable(store, xs, bs, newId) && CurrentAt(store, xs, gone, bs, mark, p)
    requires SameStore(store, t) && Retirable(t, xs, bs, newId)
    ensures SameImage(t, xs, gone, bs, newId, mark, p, base)
  {
    hide Collected; hide Skipped; hide StoreEffect; hide Kept; hide Agrees; hide Disjoint; hide UpToDate;
    hide SegExtents; hide UpTo; hide Replay; hide StoreOk; hide Effect;
    ImageByte(t, xs, gone, bs, newId, mark, p, base);
    ReplayStore(t, bs, p, base);
    SameTag(store, t, bs, p);
    if j :| 0 <= j < |t| && LostAt(t, xs, gone, bs, p, j) && t[j].id > mark {
      assert store[j].id == t[j].id && SameShapes(store[j].entries, t[j].entries);
      SameSkipped(store[j].entries, t[j].entries, bs, SegExtents(xs, t[j].id), p / bs);
      assert LostAt(store, xs, gone, bs, p, j);
      SameBeneath(store, t, gone, bs, mark, p);
      StoreTrimIsZero(t, bs, p);
      BeneathTrimIsZero(t, gone, bs, mark, p);
    }
  }

  lemma {:induction false} BeneathTrimIsZero(t: seq<Segment>, gone: set<nat>, bs: nat, mark: int, p: nat)
    requires var b := Beneath(t, gone, bs, mark, p); b.Some? && b.value.hit.isTrim
    ensures Beneath(t, gone, bs, mark, p).value.hit.value == 0
  {
    hide StoreEffect; hide Kept; hide UpTo;
    var k := StoreEffect(Kept(t, gone), bs, p);
    if k.Some? && k.value.seg > mark {
      StoreTrimIsZero(Kept(t, gone), bs, p);
    } else {
      StoreTrimIsZero(UpTo(t, mark), bs, p);
    }
  }

  /** In a painted store, what lies beneath a lost block past the mark has the other colour. */
  lemma {:induction false} PaintedBeneath(store: seq<Segment>, id: nat, v: byte, w: byte, gone: set<nat>, bs: nat,
                                          mark: int, p: nat)
    requires id in gone && id > mark
    ensures var b := Beneath(PaintStore(store, id, v, w), gone, bs, mark, p);
      b.Some? ==> b.value.hit.value == if b.value.hit.isTrim then 0 else w
  {
    var t := PaintStore(store, id, v, w);
    UpToShape(t, mark);
    PaintedPart(store, id, v, w, UpTo(t, mark), bs, p);
    PaintedStoreValue(store, id, v, w, bs, p, gone);
    hide PaintStore; hide Kept; hide UpTo; hide StoreEffect;
    var u := StoreEffect(UpTo(t, mark), bs, p);
    if u.Some? { var j := StoreEffectIndex(UpTo(t, mark), bs, p); }
  }

  /** A block that is lost past the mark shows on some payload: paint its segment's writes 1 and
      all others 0, or everything 1 when a trim was lost. */
  lemma {:induction false} StaleShows(store: seq<Segment>, xs: seq<Extent<Tag>>, gone: set<nat>, bs: nat, newId: nat,
                                      mark: int, p: nat)
    returns (t: seq<Segment>, w: byte)
    requires Retirable(store, xs, bs, newId) && !CurrentAt(store, xs, gone, bs, mark, p)
    ensures SameStore(store, t) && Retirable(t, xs, bs, newId) && !SameImage(t, xs, gone, bs, newId, mark, p, w)
  {
    hide Skipped; hide Beneath; hide StoreEffect; hide Kept; hide SegExtents;
    var j :| 0 <= j < |store| && LostAt(store, xs, gone, bs, p, j) && store[j].id > mark &&
      !(&& StoreEffect(store, bs, p).value.hit.isTrim
        && Beneath(store, gone, bs, mark, p).Some? && Beneath(store, gone, bs, mark, p).value.hit.isTrim);
    w := if StoreEffect(store, bs, p).value.hit.isTrim then 1 else 0;
    t := PaintStore(store, store[j].id, 1, w);
    PaintSame(store, store[j].id, 1, w);
    SameRetirable(store, t, xs, bs, newId);
    assert t[j].id == store[j].id && SameShapes(store[j].entries, t[j].entries);
    PaintedStoreValue(store, store[j].id, 1, w, bs, p, gone);
    PaintedBeneath(store, store[j].id, 1, w, gone, bs, mark, p);
    hide PaintStore; hide Collected; hide Replay; hide UpToDate; hide Effect; hide Agrees; hide StoreOk;
    SameSkipped(store[j].entries, t[j].entries, bs, SegExtents(xs, store[j].id), p / bs);
    SameTag(store, t, bs, p);
    SameBeneath(store, t, gone, bs, mark, p);
    assert LostAt(t, xs, gone, bs, p, j);
    ImageByte(t, xs, gone, bs, newId, mark, p, w);
    ReplayStore(t, bs, p, w);
  }

  /** Across a collection, incremental replay gives the full replay of the original logs for every
      payload exactly when each lost block is in the image already or is a trim over a trim. */
  lemma {:induction false} CurrentExactly(store: seq<Segment>, xs: seq<Extent<Tag>>, gone: set<nat>, bs: nat,
                                          newId: nat, mark: int)
    requires Retirable(store, xs, bs, newId)
    ensures AlwaysCurrent(store, xs, gone, bs, newId, mark) <==>
            forall p: nat :: CurrentAt(store, xs, gone, bs, mark, p)
  {
    if forall p: nat :: CurrentAt(store, xs, gone, bs, mark, p) {
      forall t: seq<Segment>, p: nat, base: byte | SameStore(store, t) && Retirable(t, xs, bs, newId)
        ensures SameImage(t, xs, gone, bs, newId, mark, p, base)
      {
        CurrentGives(store, t, xs, gone, bs, newId, mark, p, base);
      }
    } else {
      var p: nat :| !CurrentAt(store, xs, gone, bs, mark, p);
      var t, w := StaleShows(store, xs, gone, bs, newId, mark, p);
    }
  }

  /** When nothing is hidden, the incremental image is the full replay for any mark. */
  lemma {:induction false} ReplayCommutes(store: seq<Segment>, xs: seq<Extent<Tag>>, gone: set<nat>, bs: nat,
                                          newId: nat, mark: int, p: nat, base: byte)
    requires Retirable(store, xs, bs, newId) && NothingHidden(store, xs, gone, bs)
    ensures UpToDate(store, Collected(store, xs, gone, bs, newId), mark, bs, p, base) ==
            Replay(Entries(store), bs, p, base)
  {
    NothingLost(store, xs, gone, bs, p);
    SameItself(store);
    hide *;
    CurrentIfKept(store, xs, gone, bs, mark, p);
    CurrentGives(store, store, xs, gone, bs, newId, mark, p, base);
    ImageIs(store, xs, gone, bs, newId, mark, p, base);
  }

  lemma {:induction false} ImageIs(t: seq<Segment>, xs: seq<Extent<Tag>>, gone: set<nat>, bs: nat, newId: nat,
                                   mark: int, p: nat, base: byte)
    requires Retirable(t, xs, bs, newId) && SameImage(t, xs, gone, bs, newId, mark, p, base)
    ensures UpToDate(t, Collected(t, xs, gone, bs, newId), mark, bs, p, base) == Replay(Entries(t), bs, p, base)
  {
  }

  lemma {:induction false} CurrentIfKept(store: seq<Segment>, xs: seq<Extent<Tag>>, gone: set<nat>, bs: nat, mark: int,
                                         p: nat)
    requires bs > 0 && forall j | 0 <= j < |store| :: !LostAt(store, xs, gone, bs, p, j)
    ensures CurrentAt(store, xs, gone, bs, mark, p)
  {
  }

  lemma {:induction false} SameItself(store: seq<Segment>)
    ensures SameStore(store, store)
  {
  }

  // ---------------------------------------------------------------- segments filed late

  /** A segment filed after the image was replayed past its label is never replayed. It does not
      matter at byte p if it is not past the mark, does not touch p, a newer one touches p, or it
      trims what is trimmed. */
  ghost predicate SettledAt(store: seq<Segment>, s: Segment, bs: nat, mark: int, p: nat) {
    var h, o := Effect(s.entries, bs, p), StoreEffect(store, bs, p);
    s.id > mark || h.None? || (o.Some? && (o.value.seg > s.id || (o.value.hit.isTrim && h.value.isTrim)))
  }

  ghost predicate SameFiled(t: seq<Segment>, r: Segment, bs: nat, mark: int, p: nat, base: byte) {
    UpToDate(t, InLabelOrder(t, r), mark, bs, p, base) == Replay(Entries(InLabelOrder(t, r)), bs, p, base)
  }

  /** The image follows the store with the late segment filed, whatever the payloads are. */
  ghost predicate AlwaysFiled(store: seq<Segment>, s: Segment, bs: nat, mark: int)
    requires bs > 0
  {
    forall t: seq<Segment>, r: Segment, p: nat, base: byte | SameStore(store, t) && SameSegment(s, r) ::
      SameFiled(t, r, bs, mark, p, base)
  }

  /** The part up to a label is what stays when the newer segments go, and the other way round. */
  lemma {:induction false} PartsAreKept(store: seq<Segment>, mark: int, newer: set<nat>, older: set<nat>)
    requires forall i | 0 <= i < |store| :: (store[i].id in newer <==> store[i].id > mark)
                                            && (store[i].id in older <==> store[i].id <= mark)
    ensures UpTo(store, mark) == Kept(store, newer) && After(store, mark) == Kept(store, older)
  {
    if store != [] { PartsAreKept(store[..|store| - 1], mark, newer, older); }
  }

  /** Filing a segment under a label of its own keeps the store in order. */
  lemma {:induction false} FiledOk(store: seq<Segment>, s: Segment, bs: nat)
    requires bs > 0 && StoreOk(store, bs) && s.id !in Ids(store) && AllAligned(s.entries, bs)
    ensures StoreOk(InLabelOrder(store, s), bs)
  {
    var newer := set i | 0 <= i < |store| && store[i].id > s.id :: store[i].id;
    var older := set i | 0 <= i < |store| && store[i].id <= s.id :: store[i].id;
    assert forall i | 0 <= i < |store| :: store[i].id in newer <==> store[i].id > s.id;
    assert forall i | 0 <= i < |store| :: store[i].id in older <==> store[i].id <= s.id;
    hide Kept; hide UpTo; hide After; hide AllAligned; hide StoreOk;
    PartsAreKept(store, s.id, newer, older);
    KeptOk(store, newer, bs);
    KeptOk(store, older, bs);
    KeptLabels(store, newer, s.id);
    KeptLabels(store, older, s.id);
    FiledBetween(Kept(store, newer), s, Kept(store, older), bs);
  }

  lemma {:induction false} KeptLabels(store: seq<Segment>, gone: set<nat>, mark: nat)
    requires mark !in Ids(store)
    ensures (forall i | 0 <= i < |store| :: store[i].id in gone <==> store[i].id > mark) ==>
      forall i | 0 <= i < |Kept(store, gone)| :: Kept(store, gone)[i].id < mark
    ensures (forall i | 0 <= i < |store| :: store[i].id in gone <==> store[i].id <= mark) ==>
      forall i | 0 <= i < |Kept(store, gone)| :: mark < Kept(store, gone)[i].id
  {
    KeptShape(store, gone);
    hide Kept;
    forall i | 0 <= i < |Kept(store, gone)| ensures Kept(store, gone)[i].id != mark {
      var j :| 0 <= j < |store| && store[j] == Kept(store, gone)[i];
      assert store[j].id in Ids(store);
    }
  }

  lemma {:induction false} FiledBetween(a: seq<Segment>, s: Segment, b: seq<Segment>, bs: nat)
    requires bs > 0 && StoreOk(a, bs) && StoreOk(b, bs) && AllAligned(s.entries, bs)
    requires (forall i | 0 <= i < |a| :: a[i].id < s.id) && forall i | 0 <= i < |b| :: s.id < b[i].id
    ensures StoreOk(a + [s] + b, bs)
  {
    hide AllAligned;
  }

  /** One byte of the image and of the store, with the late segment filed. */
  lemma {:induction false} FiledByte(t: seq<Segment>, r: Segment, bs: nat, mark: int, p: nat, base: byte)
    requires bs > 0 && StoreOk(t, bs) && r.id !in Ids(t) && AllAligned(r.entries, bs)
    ensures var h, o := Effect(r.entries, bs, p), StoreEffect(t, bs, p);
      if h.Some? && r.id <= mark && !(o.Some? && o.value.seg > r.id)
      then UpToDate(t, InLabelOrder(t, r), mark, bs, p, base) == ByteOf(o, base)
           && Replay(Entries(InLabelOrder(t, r)), bs, p, base) == h.value.value
      else SameFiled(t, r, bs, mark, p, base)
  {
    FiledOk(t, r, bs);
    hide StoreEffect; hide Effect; hide Replay; hide UpToDate; hide InLabelOrder; hide StoreOk; hide UpTo; hide After;
    hide AllAligned; hide Ids;
    InLabelOrderEffect(t, r, bs, p);
    UpToDateIs(t, InLabelOrder(t, r), mark, bs, p, base);
    ReplayStore(InLabelOrder(t, r), bs, p, base);
    SplitEffect(t, mark, bs, p);
  }

  lemma {:induction false} SettledGives(store: seq<Segment>, s: Segment, bs: nat, mark: int, t: seq<Segment>,
                                        r: Segment, p: nat, base: byte)
    requires bs > 0 && StoreOk(store, bs) && s.id !in Ids(store) && AllAligned(s.entries, bs)
    requires SettledAt(store, s, bs, mark, p) && SameStore(store, t) && SameSegment(s, r)
    ensures SameFiled(t, r, bs, mark, p, base)
  {
    SameFiling(store, s, t, r, bs);
    SameTag(store, t, bs, p);
    SameKind(s.entries, r.entries, bs, p);
    hide StoreEffect; hide Effect; hide Replay; hide UpToDate; hide InLabelOrder; hide StoreOk; hide AllAligned;
    hide SameStore;
    FiledByte(t, r, bs, mark, p, base);
    TrimIsZero(r.entries, bs, p);
    var o := StoreEffect(t, bs, p);
    if o.Some? && o.value.hit.isTrim { StoreTrimIsZero(t, bs, p); }
  }

  lemma {:induction false} SameFiling(store: seq<Segment>, s: Segment, t: seq<Segment>, r: Segment, bs: nat)
    requires bs > 0 && StoreOk(store, bs) && s.id !in Ids(store) && AllAligned(s.entries, bs)
    requires SameStore(store, t) && SameSegment(s, r)
    ensures StoreOk(t, bs) && r.id !in Ids(t) && AllAligned(r.entries, bs)
  {
    SameOk(store, t, bs);
    forall i | 0 <= i < |t| ensures t[i].id != r.id { assert store[i].id == t[i].id && store[i].id in Ids(store); }
    forall k | 0 <= k < |r.entries| ensures r.entries[k].Aligned(bs) {
      assert SameShape(s.entries[k], r.entries[k]) && s.entries[k].Aligned(bs);
    }
  }

  /** A segment that is missing from the image shows on some payload: paint its writes 1 and all
      others 0, or the other way round when it trims. */
  lemma {:induction false} UnsettledShows(store: seq<Segment>, s: Segment, bs: nat, mark: int, p: nat)
    returns (t: seq<Segment>, r: Segment, w: byte)
    requires bs > 0 && StoreOk(store, bs) && s.id !in Ids(store) && AllAligned(s.entries, bs)
    requires !SettledAt(store, s, bs, mark, p)
    ensures SameStore(store, t) && SameSegment(s, r) && !SameFiled(t, r, bs, mark, p, w)
  {
    var trim := Effect(s.entries, bs, p).value.isTrim;
    w := if trim then 1 else 0;
    t := PaintStore(store, 0, w, w);
    r := Segment(s.id, PaintAll(s.entries, 1));
    assert SameShapes(s.entries, r.entries) by {
      assert forall k | 0 <= k < |s.entries| :: SameShape(s.entries[k], PaintAll(s.entries, 1)[k]);
    }
    PaintSame(store, 0, w, w);
    SameFiling(store, s, t, r, bs);
    SameTag(store, t, bs, p);
    SameKind(s.entries, r.entries, bs, p);
    PaintedValue(s.entries, 1, bs, p);
    PaintedPart(store, 0, w, w, t, bs, p);
    hide StoreEffect; hide Effect; hide Replay; hide UpToDate; hide InLabelOrder; hide StoreOk; hide AllAligned;
    hide PaintStore; hide PaintAll;
    FiledByte(t, r, bs, mark, p, w);
  }

  /** An image replayed up to a label follows the store into which a segment is filed late, for
      every payload, exactly when the segment is past the label or settled at every byte. */
  lemma {:induction false} LateFiled(store: seq<Segment>, s: Segment, bs: nat, mark: int)
    requires bs > 0 && StoreOk(store, bs) && s.id !in Ids(store) && AllAligned(s.entries, bs)
    ensures AlwaysFiled(store, s, bs, mark) <==> forall p: nat :: SettledAt(store, s, bs, mark, p)
  {
    hide SettledAt; hide SameFiled; hide SameStore; hide SameSegment;
    if forall p: nat :: SettledAt(store, s, bs, mark, p) {
      forall t: seq<Segment>, r: Segment, p: nat, base: byte | SameStore(store, t) && SameSegment(s, r)
        ensures SameFiled(t, r, bs, mark, p, base)
      {
        SettledGives(store, s, bs, mark, t, r, p, base);
      }
    } else {
      var p: nat :| !SettledAt(store, s, bs, mark, p);
      var t, r, w := UnsettledShows(store, s, bs, mark, p);
    }
  }
}
