/** Segments that reach the store after a garbage collection but have an older label than its
    output: exactly when they are replayed as they were logged. */
module LateSegments {
  import opened Bytes
  import opened Options
  import opened LogReplay
  import opened IntervalMap
  import opened Store
  import opened Retire
  import opened Payload

  /** After a run and with the late segment filed by its label, byte p is as if everything had
      been replayed in the order it was logged. */
  ghost predicate LateBytes(t: seq<Segment>, s: Segment, xs: seq<Extent<Tag>>, gone: set<nat>, bs: nat, newId: nat,
                            p: nat, base: byte)
    requires Retirable(t, xs, bs, newId)
  {
    Replay(Entries(InLabelOrder(Collected(t, xs, gone, bs, newId), s)), bs, p, base) ==
    Replay(Entries(t + [s]), bs, p, base)
  }

  /** The late segment is replayed as it was logged, whatever the payloads are. */
  ghost predicate LatePreserved(store: seq<Segment>, s: Segment, xs: seq<Extent<Tag>>, gone: set<nat>, bs: nat,
                                newId: nat)
  {
    forall t: seq<Segment>, r: Segment, p: nat, base: byte
      | SameStore(store, t) && SameSegment(s, r) && Retirable(t, xs, bs, newId) ::
      LateBytes(t, r, xs, gone, bs, newId, p, base)
  }

  /** Who will own the block of byte p once the run is over, read off map and logs before it. */
  ghost function OwnerAfter(store: seq<Segment>, xs: seq<Extent<Tag>>, gone: set<nat>, bs: nat, newId: nat, p: nat):
    Option<Tag>
    requires bs > 0
  {
    var o := Owner(xs, p / bs);
    if o.None? || o.value.seg !in gone then o
    else if LostByte(store, xs, gone, bs, p) then TagOf(StoreEffect(Kept(store, gone), bs, p))
    else Some(Tag(newId, o.value.isTrim))
  }

  ghost predicate LostByte(store: seq<Segment>, xs: seq<Extent<Tag>>, gone: set<nat>, bs: nat, p: nat)
    requires bs > 0
  {
    exists j :: 0 <= j < |store| && LostAt(store, xs, gone, bs, p, j)
  }

  /** If the late segment touches byte p, nothing with a newer label will own its block, or both
      trim it; if it does not, the run itself does no harm there. */
  ghost predicate FitsAt(store: seq<Segment>, s: Segment, xs: seq<Extent<Tag>>, gone: set<nat>, bs: nat, newId: nat,
                         p: nat)
    requires bs > 0
  {
    match Effect(s.entries, bs, p)
    case Some(h) =>
      var a := OwnerAfter(store, xs, gone, bs, newId, p);
      a.None? || a.value.seg <= s.id || (a.value.isTrim && h.isTrim)
    case None => HarmlessAt(store, xs, gone, bs, p)
  }

  lemma {:induction false} OwnerAfterIs(store: seq<Segment>, xs: seq<Extent<Tag>>, gone: set<nat>, bs: nat, newId: nat,
                                        p: nat)
    requires Retirable(store, xs, bs, newId)
    ensures OwnerAfter(store, xs, gone, bs, newId, p) ==
            TagOf(StoreEffect(Collected(store, xs, gone, bs, newId), bs, p))
  {
    var o := StoreEffect(store, bs, p);
    assert Owner(xs, p / bs) == TagOf(o);
    hide Collected; hide Skipped; hide StoreEffect; hide Kept; hide Owner; hide Agrees; hide Disjoint; hide StoreOk;
    hide SegExtents;
    if o.Some? && o.value.seg in gone {
      var j := StoreEffectIndex(store, bs, p);
      CollectedGone(store, xs, gone, bs, newId, p, j);
      LostOnce(store, xs, gone, bs, p, j);
    } else {
      CollectedKept(store, xs, gone, bs, newId, p);
    }
  }

  lemma {:induction false} LostOnce(store: seq<Segment>, xs: seq<Extent<Tag>>, gone: set<nat>, bs: nat, p: nat, j: nat)
    requires bs > 0 && StoreOk(store, bs) && j < |store|
    requires var o := StoreEffect(store, bs, p); o.Some? && o.value.seg == store[j].id
    ensures LostByte(store, xs, gone, bs, p) <==> LostAt(store, xs, gone, bs, p, j)
  {
    hide Skipped; hide StoreEffect; hide SegExtents;
    if LostByte(store, xs, gone, bs, p) {
      var i :| 0 <= i < |store| && LostAt(store, xs, gone, bs, p, i);
      assert store[i].id == store[j].id;
      assert i == j;
    }
  }

  /** The tag depends on the shapes only. */
  lemma {:induction false} SameAfter(store: seq<Segment>, t: seq<Segment>, xs: seq<Extent<Tag>>, gone: set<nat>,
                                     bs: nat, newId: nat, p: nat)
    requires SameStore(store, t) && Retirable(store, xs, bs, newId) && Retirable(t, xs, bs, newId)
    ensures TagOf(StoreEffect(Collected(t, xs, gone, bs, newId), bs, p)) == OwnerAfter(store, xs, gone, bs, newId, p)
  {
    hide Skipped; hide StoreEffect; hide Kept; hide Owner; hide Agrees; hide Disjoint; hide StoreOk; hide SegExtents;
    hide Collected;
    OwnerAfterIs(t, xs, gone, bs, newId, p);
    SameTag(store, t, bs, p);
    SameKept(store, t, gone);
    SameTag(Kept(store, gone), Kept(t, gone), bs, p);
    forall j | 0 <= j < |store| ensures LostAt(store, xs, gone, bs, p, j) <==> LostAt(t, xs, gone, bs, p, j) {
      assert store[j].id == t[j].id && SameShapes(store[j].entries, t[j].entries);
      SameSkipped(store[j].entries, t[j].entries, bs, SegExtents(xs, store[j].id), p / bs);
    }
  }

  /** What the two replays give for one byte. */
  lemma {:induction false} TwoReplays(t: seq<Segment>, s: Segment, xs: seq<Extent<Tag>>, gone: set<nat>, bs: nat,
                                      newId: nat, p: nat, base: byte)
    requires Retirable(t, xs, bs, newId)
    ensures var o, h := StoreEffect(Collected(t, xs, gone, bs, newId), bs, p), Effect(s.entries, bs, p);
      && Replay(Entries(t + [s]), bs, p, base) ==
           (if h.Some? then h.value.value else Replay(Entries(t), bs, p, base))
      && Replay(Entries(InLabelOrder(Collected(t, xs, gone, bs, newId), s)), bs, p, base) ==
           if h.Some? && !(o.Some? && o.value.seg > s.id) then h.value.value
           else Replay(Entries(Collected(t, xs, gone, bs, newId)), bs, p, base)
  {
    var after := Collected(t, xs, gone, bs, newId);
    CollectedOk(t, xs, gone, bs, newId);
    hide Collected; hide StoreEffect; hide Effect; hide Replay; hide InLabelOrder; hide Retirable; hide StoreOk;
    InLabelOrderEffect(after, s, bs, p);
    StoreEffectAppend(t, [s], bs, p);
    StoreEffectOne(s, bs, p);
    ReplayStore(t, bs, p, base);
    ReplayStore(t + [s], bs, p, base);
    ReplayStore(after, bs, p, base);
    ReplayStore(InLabelOrder(after, s), bs, p, base);
  }

  lemma {:induction false} FitsPreserves(store: seq<Segment>, s: Segment, xs: seq<Extent<Tag>>, gone: set<nat>, bs: nat,
                                         newId: nat, t: seq<Segment>, r: Segment, p: nat, base: byte)
    requires Retirable(store, xs, bs, newId) && FitsAt(store, s, xs, gone, bs, newId, p)
    requires SameStore(store, t) && SameSegment(s, r) && Retirable(t, xs, bs, newId)
    ensures LateBytes(t, r, xs, gone, bs, newId, p, base)
  {
    var after := Collected(t, xs, gone, bs, newId);
    hide Collected; hide StoreEffect; hide Effect; hide Replay; hide Retirable; hide OwnerAfter; hide HarmlessAt;
    hide InLabelOrder;
    SameKind(s.entries, r.entries, bs, p);
    SameAfter(store, t, xs, gone, bs, newId, p);
    TwoReplays(t, r, xs, gone, bs, newId, p, base);
    if Effect(r.entries, bs, p).None? {
      HarmlessPreserves(store, t, xs, gone, bs, newId, p, base);
    } else {
      TrimIsZero(r.entries, bs, p);
      ReplayStore(after, bs, p, base);
      var o := StoreEffect(after, bs, p);
      if o.Some? && o.value.hit.isTrim { StoreTrimIsZero(after, bs, p); }
    }
  }

  // ---------------------------------------------------------------- payloads that tell

  lemma {:induction false} PaintedAfter(store: seq<Segment>, v: byte, xs: seq<Extent<Tag>>, gone: set<nat>, bs: nat,
                                        newId: nat, p: nat)
    requires Retirable(PaintStore(store, 0, v, v), xs, bs, newId)
    ensures var o := StoreEffect(Collected(PaintStore(store, 0, v, v), xs, gone, bs, newId), bs, p);
      o.Some? ==> o.value.hit.value == if o.value.hit.isTrim then 0 else v
  {
    var t := PaintStore(store, 0, v, v);
    hide Collected; hide StoreEffect; hide Kept; hide Skipped; hide PaintStore; hide StoreOk; hide Agrees;
    hide SegExtents;
    PaintedStoreValue(store, 0, v, v, bs, p, gone);
    if StoreEffect(t, bs, p).Some? && StoreEffect(t, bs, p).value.seg in gone {
      var j := StoreEffectIndex(t, bs, p);
      CollectedGone(t, xs, gone, bs, newId, p, j);
    } else {
      CollectedKept(t, xs, gone, bs, newId, p);
    }
  }

  /** A newer owner shows on some payload: paint the late segment's writes 1 and all others 0, or
      the other way round when it trims. */
  lemma {:induction false} NewerShows(store: seq<Segment>, s: Segment, xs: seq<Extent<Tag>>, gone: set<nat>, bs: nat,
                                      newId: nat, p: nat)
    returns (t: seq<Segment>, r: Segment)
    requires Retirable(store, xs, bs, newId) && Effect(s.entries, bs, p).Some?
    requires !FitsAt(store, s, xs, gone, bs, newId, p)
    ensures SameStore(store, t) && SameSegment(s, r) && Retirable(t, xs, bs, newId)
    ensures !LateBytes(t, r, xs, gone, bs, newId, p, 0)
  {
    var trim := Effect(s.entries, bs, p).value.isTrim;
    var v: byte, w: byte := if trim then 0 else 1, if trim then 1 else 0;
    t := PaintStore(store, 0, w, w);
    r := Segment(s.id, PaintAll(s.entries, v));
    assert SameShapes(s.entries, r.entries) by {
      assert forall k | 0 <= k < |s.entries| :: SameShape(s.entries[k], PaintAll(s.entries, v)[k]);
    }
    PaintSame(store, 0, w, w);
    SameRetirable(store, t, xs, bs, newId);
    SameKind(s.entries, r.entries, bs, p);
    PaintedValue(s.entries, v, bs, p);
    PaintedAfter(store, w, xs, gone, bs, newId, p);
    hide Collected; hide StoreEffect; hide Effect; hide Replay; hide Retirable; hide OwnerAfter; hide InLabelOrder;
    hide PaintStore; hide PaintAll;
    SameAfter(store, t, xs, gone, bs, newId, p);
    TwoReplays(t, r, xs, gone, bs, newId, p, 0);
    ReplayStore(Collected(t, xs, gone, bs, newId), bs, p, 0);
  }

  /** A segment that was begun before a run and completed after it has a label below the run's.
      Filed by that label it comes before the new segment, which holds older data. Whatever the
      payloads are, it is replayed as it was logged exactly when it fits at every byte. */
  lemma {:induction false} LateSegment(store: seq<Segment>, s: Segment, xs: seq<Extent<Tag>>, gone: set<nat>, bs: nat,
                                       newId: nat)
    requires Retirable(store, xs, bs, newId)
    ensures LatePreserved(store, s, xs, gone, bs, newId) <==> forall p: nat :: FitsAt(store, s, xs, gone, bs, newId, p)
  {
    hide FitsAt; hide LateBytes; hide Retirable; hide SameStore; hide SameSegment;
    assert bs > 0 by { BlockSize(store, xs, bs, newId); }
    if forall p: nat :: FitsAt(store, s, xs, gone, bs, newId, p) {
      forall t: seq<Segment>, r: Segment, p: nat, base: byte
        | SameStore(store, t) && SameSegment(s, r) && Retirable(t, xs, bs, newId)
        ensures LateBytes(t, r, xs, gone, bs, newId, p, base)
      {
        FitsPreserves(store, s, xs, gone, bs, newId, t, r, p, base);
      }
    } else {
      var p: nat :| !FitsAt(store, s, xs, gone, bs, newId, p);
      MisfitShows(store, s, xs, gone, bs, newId, p);
    }
  }

  lemma {:induction false} BlockSize(store: seq<Segment>, xs: seq<Extent<Tag>>, bs: nat, newId: nat)
    requires Retirable(store, xs, bs, newId)
    ensures bs > 0
  {
  }

  lemma {:induction false} MisfitShows(store: seq<Segment>, s: Segment, xs: seq<Extent<Tag>>, gone: set<nat>, bs: nat,
                                       newId: nat, p: nat)
    requires Retirable(store, xs, bs, newId) && !FitsAt(store, s, xs, gone, bs, newId, p)
    ensures !LatePreserved(store, s, xs, gone, bs, newId)
  {
    hide HarmlessAt; hide OwnerAfter; hide Effect; hide SameStore; hide Replay; hide InLabelOrder; hide Collected;
    hide Agrees; hide StoreOk; hide Disjoint; hide Positive;
    if Effect(s.entries, bs, p).Some? {
      var t, r := NewerShows(store, s, xs, gone, bs, newId, p);
    } else {
      var t, w := HarmShows(store, xs, gone, bs, newId, p);
      TwoReplays(t, s, xs, gone, bs, newId, p, w);
      assert SameSegment(s, s) by { SameSelf(s); }
      assert !LateBytes(t, s, xs, gone, bs, newId, p, w);
    }
  }

  lemma {:induction false} SameSelf(s: Segment)
    ensures SameSegment(s, s)
  {
  }

  /** The late segment touches no block that a retired segment owns, but for trims of trims. */
  ghost predicate Avoids(s: Segment, xs: seq<Extent<Tag>>, gone: set<nat>, bs: nat)
    requires bs > 0
  {
    forall p: nat ::
      var h, o := Effect(s.entries, bs, p), Owner(xs, p / bs);
      h.Some? && o.Some? && o.value.seg in gone ==> o.value.isTrim && h.value.isTrim
  }

  /** When nothing is hidden and the late segment is otherwise the newest: it must avoid the
      blocks of the retired segments. */
  lemma {:induction false} LateAvoids(store: seq<Segment>, s: Segment, xs: seq<Extent<Tag>>, gone: set<nat>, bs: nat,
                                      newId: nat)
    requires Retirable(store, xs, bs, newId) && NothingHidden(store, xs, gone, bs) && s.id < newId
    requires forall j | 0 <= j < |store| :: store[j].id < s.id
    ensures LatePreserved(store, s, xs, gone, bs, newId) <==> Avoids(s, xs, gone, bs)
  {
    hide LatePreserved;
    LateSegment(store, s, xs, gone, bs, newId);
    forall p: nat
      ensures FitsAt(store, s, xs, gone, bs, newId, p) <==>
        var h, o := Effect(s.entries, bs, p), Owner(xs, p / bs);
        (h.Some? && o.Some? && o.value.seg in gone ==> o.value.isTrim && h.value.isTrim)
    {
      AvoidsAt(store, s, xs, gone, bs, newId, p);
    }
  }

  lemma {:induction false} AvoidsAt(store: seq<Segment>, s: Segment, xs: seq<Extent<Tag>>, gone: set<nat>, bs: nat,
                                    newId: nat, p: nat)
    requires Retirable(store, xs, bs, newId) && NothingHidden(store, xs, gone, bs) && s.id < newId
    requires forall j | 0 <= j < |store| :: store[j].id < s.id
    ensures FitsAt(store, s, xs, gone, bs, newId, p) <==>
      var h, o := Effect(s.entries, bs, p), Owner(xs, p / bs);
      (h.Some? && o.Some? && o.value.seg in gone ==> o.value.isTrim && h.value.isTrim)
  {
    var o := StoreEffect(store, bs, p);
    assert Owner(xs, p / bs) == TagOf(o);
    NothingLost(store, xs, gone, bs, p);
    if o.Some? { var j := StoreEffectIndex(store, bs, p); }
  }
}
