/** Retirement: which blocks of a retired segment are copied to the new segment, and what
    that does to the store. */
module Retire {
  import opened Bytes
  import opened Options
  import opened BlockSets
  import opened LogReplay
  import opened IntervalMap
  import opened Sweep
  import opened Store

  /** Owner of a live extent: a segment and whether the live operation is a trim. */
  datatype Tag = Tag(seg: nat, isTrim: bool)

  function TagOf(o: Option<Owned>): Option<Tag> {
    match o case None => None case Some(w) => Some(Tag(w.seg, w.hit.isTrim))
  }

  /** The live map names, for every block, the segment and kind of its last toucher. */
  ghost predicate Agrees(xs: seq<Extent<Tag>>, store: seq<Segment>, bs: nat)
    requires bs > 0
  {
    forall p: nat :: Owner(xs, p / bs) == TagOf(StoreEffect(store, bs, p))
  }

  /** The live map names no wrong owner, but may not know the owner of every block. */
  ghost predicate OwnersRight(xs: seq<Extent<Tag>>, store: seq<Segment>, bs: nat)
    requires bs > 0
  {
    forall p: nat :: Owner(xs, p / bs).None? || Owner(xs, p / bs) == TagOf(StoreEffect(store, bs, p))
  }

  // ---------------------------------------------------------------- extents of one segment

  function SegExtents(xs: seq<Extent<Tag>>, seg: nat): seq<Extent<Tag>> {
    if xs == [] then []
    else (if xs[0].tag.seg == seg then [xs[0]] else []) + SegExtents(xs[1..], seg)
  }

  lemma {:induction false} SegExtentsCount(xs: seq<Extent<Tag>>, seg: nat, b: nat)
    ensures Count(SegExtents(xs, seg), b) <= Count(xs, b)
  {
    if xs != [] {
      SegExtentsCount(xs[1..], seg, b);
      var head := if xs[0].tag.seg == seg then [xs[0]] else [];
      CountAppend(head, SegExtents(xs[1..], seg), b);
      CountOne(xs[0], b);
    }
  }

  lemma {:induction false} SegExtentsMember(xs: seq<Extent<Tag>>, seg: nat)
    ensures forall i | 0 <= i < |SegExtents(xs, seg)| ::
      SegExtents(xs, seg)[i] in xs && SegExtents(xs, seg)[i].tag.seg == seg
  {
    if xs != [] { SegExtentsMember(xs[1..], seg); }
  }

  lemma {:induction false} SegExtentsDisjoint(xs: seq<Extent<Tag>>, seg: nat)
    requires Positive(xs) && Disjoint(xs)
    ensures Positive(SegExtents(xs, seg)) && Disjoint(SegExtents(xs, seg))
  {
    SegExtentsMember(xs, seg);
    forall b: nat ensures Count(SegExtents(xs, seg), b) <= 1 {
      SegExtentsCount(xs, seg, b);
      CountsFromDisjoint(xs, b);
    }
    DisjointFromCounts(SegExtents(xs, seg));
  }

  lemma {:induction false} SegExtentsSorted(xs: seq<Extent<Tag>>, seg: nat)
    requires Sorted(xs)
    ensures Sorted(SegExtents(xs, seg))
  {
    if xs != [] {
      SegExtentsSorted(xs[1..], seg);
      SegExtentsMember(xs[1..], seg);
    }
  }

  /** The extents of a segment hold exactly the blocks it owns. */
  lemma {:induction false} SegExtentsOwner(xs: seq<Extent<Tag>>, seg: nat, b: nat)
    requires Positive(xs) && Disjoint(xs)
    ensures Owner(SegExtents(xs, seg), b) ==
            var o := Owner(xs, b); if o.Some? && o.value.seg == seg then o else None
  {
    var ys := SegExtents(xs, seg);
    SegExtentsMember(xs, seg);
    if Owner(ys, b).Some? {
      var k := OwnerWitness(ys, b);
      var i :| 0 <= i < |xs| && xs[i] == ys[k];
      OwnerAt(xs, i, b);
    } else if Owner(xs, b).Some? && Owner(xs, b).value.seg == seg {
      var i := OwnerWitness(xs, b);
      SegExtentsHas(xs, seg, i);
      OwnerNoneForward(ys, b);
    }
  }

  lemma {:induction false} SegExtentsHas(xs: seq<Extent<Tag>>, seg: nat, i: nat)
    requires i < |xs| && xs[i].tag.seg == seg
    ensures xs[i] in SegExtents(xs, seg)
  {
    if i > 0 { SegExtentsHas(xs[1..], seg, i - 1); }
  }

  // ---------------------------------------------------------------- live ranges

  function Spans<T>(qs: seq<Extent<T>>): seq<Interval> {
    seq(|qs|, i requires 0 <= i < |qs| => Interval(qs[i].start, qs[i].End()))
  }

  /** Every range intersected with the extents, one range after the other. */
  function Clip(rs: seq<Interval>, xs: seq<Extent<Tag>>): seq<Interval>
    requires forall i | 0 <= i < |rs| :: rs[i].lo <= rs[i].hi
  {
    if rs == [] then []
    else Clip(rs[..|rs| - 1], xs) + Spans(Query(xs, rs[|rs| - 1].lo, rs[|rs| - 1].hi))
  }

  lemma {:induction false} SpansCovered<T>(qs: seq<Extent<T>>, b: nat)
    ensures Covered(Spans(qs), b) <==> Owner(qs, b).Some?
  {
    if Covered(Spans(qs), b) {
      var i :| 0 <= i < |qs| && Spans(qs)[i].Has(b);
      assert qs[i].Has(b);
    }
    OwnerNone(qs, b);
    if Owner(qs, b).Some? {
      var i := OwnerWitness(qs, b);
      assert Spans(qs)[i].Has(b);
    }
  }

  /** Clipping keeps b exactly if the query on the range holding b reports it. */
  lemma {:induction false} ClipCovered(rs: seq<Interval>, xs: seq<Extent<Tag>>, b: nat)
    requires Canonical(rs) && Positive(xs)
    ensures !Covered(rs, b) ==> !Covered(Clip(rs, xs), b)
    ensures forall i | 0 <= i < |rs| && rs[i].Has(b) ::
              Covered(Clip(rs, xs), b) <==> Owner(Query(xs, rs[i].lo, rs[i].hi), b).Some?
  {
    if rs != [] {
      var n := |rs| - 1;
      var q := Query(xs, rs[n].lo, rs[n].hi);
      ClipCovered(rs[..n], xs, b);
      CoveredSnoc(rs, b);
      CoveredAppend(Clip(rs[..n], xs), Spans(q), b);
      SpansCovered(q, b);
      if Owner(q, b).Some? {
        var k := OwnerWitness(q, b);
        var i := QuerySound(xs, rs[n].lo, rs[n].hi, k);
        assert rs[n].Has(b);
      }
      forall i | 0 <= i < |rs| && rs[i].Has(b)
        ensures Covered(Clip(rs, xs), b) <==> Owner(Query(xs, rs[i].lo, rs[i].hi), b).Some?
      {
        if i < n {
          assert rs[..n][i] == rs[i] && rs[i].hi < rs[n].lo;
        } else {
          assert !Covered(rs[..n], b);
        }
      }
    }
  }

  lemma {:induction false} ClipBounds(rs: seq<Interval>, xs: seq<Extent<Tag>>, lo: nat, hi: nat)
    requires Canonical(rs) && Positive(xs)
    requires forall i | 0 <= i < |rs| :: lo <= rs[i].lo && rs[i].hi <= hi
    ensures forall i | 0 <= i < |Clip(rs, xs)| :: lo <= Clip(rs, xs)[i].lo < Clip(rs, xs)[i].hi <= hi
  {
    if rs != [] {
      var n := |rs| - 1;
      ClipBounds(rs[..n], xs, lo, hi);
      var q := Query(xs, rs[n].lo, rs[n].hi);
      forall k | 0 <= k < |q| ensures lo <= q[k].start < q[k].End() <= hi {
        var i := QuerySound(xs, rs[n].lo, rs[n].hi, k);
      }
    }
  }

  /** The ranges of entry i to copy. */
  function LiveRange(es: seq<Entry>, bs: nat, xs: seq<Extent<Tag>>, i: nat): seq<Interval>
    requires bs > 0 && i < |es|
  {
    SweepRangeExact(es, bs, i);
    Clip(SweepRange(es, bs, i), xs)
  }

  /** computeRetireLiveness: per entry, the ranges to copy. */
  function LiveRanges(es: seq<Entry>, bs: nat, xs: seq<Extent<Tag>>): seq<seq<Interval>>
    requires bs > 0
  {
    seq(|es|, i requires 0 <= i < |es| => LiveRange(es, bs, xs, i))
  }

  lemma {:induction false} LiveRangesWithin(es: seq<Entry>, bs: nat, xs: seq<Extent<Tag>>)
    requires bs > 0 && AllAligned(es, bs) && Positive(xs)
    ensures AllWithin(es, bs, LiveRanges(es, bs, xs)) && OnlyLast(es, bs, LiveRanges(es, bs, xs))
  {
    var live := LiveRanges(es, bs, xs);
    var sweep := seq(|es|, i requires 0 <= i < |es| => SweepRange(es, bs, i));
    assert IsSweep(es, bs, sweep) by {
      forall i | 0 <= i < |es|
        ensures Canonical(sweep[i]) && forall b: nat :: Covered(sweep[i], b) <==> LastToucher(es, bs, b) == i
      { SweepRangeExact(es, bs, i); }
    }
    SweepWithin(es, bs, sweep);
    forall i | 0 <= i < |es| ensures Within(es[i], bs, live[i]) {
      assert Within(es[i], bs, sweep[i]);
      ClipBounds(sweep[i], xs, es[i].block, es[i].block + es[i].NumBlocks(bs));
    }
    forall i, b: nat | 0 <= i < |es| && Covered(live[i], b) ensures LastToucher(es, bs, b) == i {
      ClipCovered(sweep[i], xs, b);
      assert Covered(sweep[i], b);
    }
  }

  // ---------------------------------------------------------------- what may be skipped

  /** No live range of the segment has an owned extent hidden behind the point where
      intersectRange stops. */
  ghost predicate Clear(es: seq<Entry>, bs: nat, xs: seq<Extent<Tag>>)
    requires bs > 0
  {
    forall i, k | 0 <= i < |es| && 0 <= k < |SweepRange(es, bs, i)| ::
      !Hidden(xs, SweepRange(es, bs, i)[k].lo, SweepRange(es, bs, i)[k].hi)
  }

  /** [lo, hi) is the run of blocks around b that have the same last toucher. */
  ghost predicate RunAt(es: seq<Entry>, bs: nat, b: nat, lo: nat, hi: nat)
    requires bs > 0
  {
    && lo <= b < hi && (forall c | lo <= c < hi :: LastToucher(es, bs, c) == LastToucher(es, bs, b))
    && (lo == 0 || LastToucher(es, bs, lo - 1) != LastToucher(es, bs, b))
    && LastToucher(es, bs, hi) != LastToucher(es, bs, b)
  }

  /** Block b is touched by the segment, and its extent is hidden when the run around it is
      looked up: the segment owns the block, but it is not copied. */
  ghost predicate Skipped(es: seq<Entry>, bs: nat, xs: seq<Extent<Tag>>, b: nat)
    requires bs > 0
  {
    LastToucher(es, bs, b) >= 0 && exists lo: nat, hi: nat :: RunAt(es, bs, b, lo, hi) && HiddenAt(xs, lo, hi, b)
  }

  /** The ranges of the sweep are the runs. */
  lemma {:induction false} SweptRun(es: seq<Entry>, bs: nat, b: nat) returns (k: nat)
    requires bs > 0 && LastToucher(es, bs, b) >= 0
    ensures var rs := SweepRange(es, bs, LastToucher(es, bs, b));
      && k < |rs| && rs[k].Has(b) && RunAt(es, bs, b, rs[k].lo, rs[k].hi)
      && forall lo: nat, hi: nat | RunAt(es, bs, b, lo, hi) :: lo == rs[k].lo && hi == rs[k].hi
  {
    var i := LastToucher(es, bs, b);
    var rs := SweepRange(es, bs, i);
    SweepRangeExact(es, bs, i);
    assert Covered(rs, b);
    k :| 0 <= k < |rs| && rs[k].Has(b);
    forall c | rs[k].lo <= c < rs[k].hi ensures LastToucher(es, bs, c) == i {
      assert rs[k].Has(c);
      assert Covered(rs, c);
    }
    RunEnds(rs, k);
    assert RunAt(es, bs, b, rs[k].lo, rs[k].hi);
    forall lo: nat, hi: nat | RunAt(es, bs, b, lo, hi) ensures lo == rs[k].lo && hi == rs[k].hi {
      OneRun(es, bs, b, lo, hi, rs[k].lo, rs[k].hi);
    }
  }

  lemma {:induction false} RunEnds(rs: seq<Interval>, k: nat)
    requires Canonical(rs) && k < |rs|
    ensures !Covered(rs, rs[k].hi) && (rs[k].lo > 0 ==> !Covered(rs, rs[k].lo - 1))
  {
  }

  lemma {:induction false} OneRun(es: seq<Entry>, bs: nat, b: nat, lo: nat, hi: nat, lo': nat, hi': nat)
    requires bs > 0 && RunAt(es, bs, b, lo, hi) && RunAt(es, bs, b, lo', hi')
    ensures lo == lo' && hi == hi'
  {
  }

  /** Skipped blocks are exactly the owned blocks outside the ranges to copy. */
  lemma {:induction false} SkippedIff(es: seq<Entry>, bs: nat, xs: seq<Extent<Tag>>, b: nat)
    requires bs > 0 && Positive(xs) && Disjoint(xs)
    ensures var i := LastToucher(es, bs, b);
      Skipped(es, bs, xs, b) <==> i >= 0 && Owner(xs, b).Some? && !Covered(LiveRanges(es, bs, xs)[i], b)
  {
    var i := LastToucher(es, bs, b);
    if i >= 0 {
      var rs := SweepRange(es, bs, i);
      var k := SweptRun(es, bs, b);
      SweepRangeExact(es, bs, i);
      hide LastToucher; hide RunAt; hide HiddenAt; hide SweepRange; hide Owner; hide Query;
      assert LiveRanges(es, bs, xs)[i] == Clip(rs, xs);
      ClipCovered(rs, xs, b);
      QueryAt(xs, rs[k].lo, rs[k].hi, b);
    }
  }

  lemma {:induction false} ClearSkipsNothing(es: seq<Entry>, bs: nat, xs: seq<Extent<Tag>>, b: nat)
    requires bs > 0 && Positive(xs) && Clear(es, bs, xs)
    ensures !Skipped(es, bs, xs, b)
  {
    if Skipped(es, bs, xs, b) {
      var lo: nat, hi: nat :| RunAt(es, bs, b, lo, hi) && HiddenAt(xs, lo, hi, b);
      var k := SweptRun(es, bs, b);
      HiddenBlock(xs, lo, hi);
    }
  }

  lemma {:induction false} HiddenSkipsSomething(es: seq<Entry>, bs: nat, xs: seq<Extent<Tag>>) returns (b: nat)
    requires bs > 0 && Positive(xs) && Disjoint(xs) && !Clear(es, bs, xs)
    ensures Skipped(es, bs, xs, b) && Owner(xs, b).Some?
  {
    var i, k :| 0 <= i < |es| && 0 <= k < |SweepRange(es, bs, i)| &&
                Hidden(xs, SweepRange(es, bs, i)[k].lo, SweepRange(es, bs, i)[k].hi);
    var rs := SweepRange(es, bs, i);
    SweepRangeExact(es, bs, i);
    hide SweepRange;
    HiddenBlock(xs, rs[k].lo, rs[k].hi);
    b :| rs[k].lo <= b < rs[k].hi && HiddenAt(xs, rs[k].lo, rs[k].hi, b);
    assert rs[k].Has(b);
    assert Covered(rs, b);
    var m := SweptRun(es, bs, b);
    assert m == k;
    QueryAt(xs, rs[k].lo, rs[k].hi, b);
  }

  // ---------------------------------------------------------------- the new segment

  function SegOut(s: Segment, xs: seq<Extent<Tag>>, bs: nat): seq<Entry>
    requires bs > 0 && AllAligned(s.entries, bs) && Positive(xs)
  {
    var own := SegExtents(xs, s.id);
    SegExtentsMember(xs, s.id);
    LiveRangesWithin(s.entries, bs, own);
    Emit(s.entries, LiveRanges(s.entries, bs, own), bs, |s.entries|)
  }

  /** The entries copied out of the retired segments, in label order. */
  function Copied(store: seq<Segment>, xs: seq<Extent<Tag>>, gone: set<nat>, bs: nat): seq<Entry>
    requires bs > 0 && StoreOk(store, bs) && Positive(xs)
  {
    if store == [] then []
    else
      Copied(store[..|store| - 1], xs, gone, bs) +
      (if store[|store| - 1].id in gone then SegOut(store[|store| - 1], xs, bs) else [])
  }

  /** The store after retirement. */
  function Collected(store: seq<Segment>, xs: seq<Extent<Tag>>, gone: set<nat>, bs: nat, newId: nat): seq<Segment>
    requires bs > 0 && StoreOk(store, bs) && Positive(xs)
  {
    Kept(store, gone) + [Segment(newId, Copied(store, xs, gone, bs))]
  }

  /** One retired segment contributes at byte p what it says there, if it owns the block and
      the block is not skipped; otherwise nothing. */
  lemma {:induction false} SegOutEffect(s: Segment, xs: seq<Extent<Tag>>, bs: nat, p: nat)
    requires bs > 0 && AllAligned(s.entries, bs) && Positive(xs) && Disjoint(xs)
    ensures AllAligned(SegOut(s, xs, bs), bs)
    ensures var o := Owner(xs, p / bs);
      Effect(SegOut(s, xs, bs), bs, p) ==
        if o.Some? && o.value.seg == s.id && !Skipped(s.entries, bs, SegExtents(xs, s.id), p / bs)
        then Effect(s.entries, bs, p) else None
  {
    var own := SegExtents(xs, s.id);
    var b := p / bs;
    SegExtentsDisjoint(xs, s.id);
    SegExtentsOwner(xs, s.id, b);
    LiveRangesWithin(s.entries, bs, own);
    EmitEffect(s.entries, LiveRanges(s.entries, bs, own), bs, |s.entries|, p);
    EffectLast(s.entries, bs, p);
    SkippedIff(s.entries, bs, own, b);
    hide Skipped;
    var i := LastToucher(s.entries, bs, b);
    if i >= 0 && Covered(LiveRanges(s.entries, bs, own)[i], b) {
      var rs := SweepRange(s.entries, bs, i);
      SweepRangeExact(s.entries, bs, i);
      ClipCovered(rs, own, b);
      assert Covered(rs, b);
      var k :| 0 <= k < |rs| && rs[k].Has(b);
      var q := OwnerWitness(Query(own, rs[k].lo, rs[k].hi), b);
      var m := QuerySound(own, rs[k].lo, rs[k].hi, q);
      OwnerAt(own, m, b);
    }
  }

  lemma {:induction false} CopiedAligned(store: seq<Segment>, xs: seq<Extent<Tag>>, gone: set<nat>, bs: nat)
    requires bs > 0 && StoreOk(store, bs) && Positive(xs) && Disjoint(xs)
    ensures AllAligned(Copied(store, xs, gone, bs), bs)
  {
    if store != [] {
      var n := |store| - 1;
      CopiedAligned(store[..n], xs, gone, bs);
      SegOutEffect(store[n], xs, bs, 0);
    }
  }

  /** The copy of the last segment, if it is retired, goes on top of the copies before it. */
  lemma {:induction false} CopiedTop(store: seq<Segment>, xs: seq<Extent<Tag>>, gone: set<nat>, bs: nat, p: nat)
    requires bs > 0 && StoreOk(store, bs) && Positive(xs) && store != []
    ensures var n := |store| - 1; StoreOk(store[..n], bs) && AllAligned(store[n].entries, bs)
    ensures var n := |store| - 1;
      Effect(Copied(store, xs, gone, bs), bs, p) ==
        if store[n].id in gone && Effect(SegOut(store[n], xs, bs), bs, p).Some?
        then Effect(SegOut(store[n], xs, bs), bs, p)
        else Effect(Copied(store[..n], xs, gone, bs), bs, p)
  {
    var n := |store| - 1;
    StoreOkPrefix(store, bs, n);
    assert AllAligned(store[n].entries, bs);
    hide StoreOk;
    hide SegOut;
    var tail := if store[n].id in gone then SegOut(store[n], xs, bs) else [];
    EffectAppend(Copied(store[..n], xs, gone, bs), tail, bs, p);
  }

  /** Block b is owned by segment id. */
  ghost predicate OwnedBy(xs: seq<Extent<Tag>>, b: nat, id: nat) {
    Owner(xs, b).Some? && Owner(xs, b).value.seg == id
  }

  /** Bytes of blocks that no retired segment owns are not copied. */
  lemma {:induction false} CopiedNone(store: seq<Segment>, xs: seq<Extent<Tag>>, gone: set<nat>, bs: nat, p: nat)
    requires bs > 0 && StoreOk(store, bs) && Positive(xs) && Disjoint(xs)
    requires forall j | 0 <= j < |store| && store[j].id in gone :: !OwnedBy(xs, p / bs, store[j].id)
    ensures Effect(Copied(store, xs, gone, bs), bs, p).None?
  {
    if store != [] {
      var n := |store| - 1;
      CopiedTop(store, xs, gone, bs, p);
      SegOutEffect(store[n], xs, bs, p);
      hide StoreOk;
      hide Disjoint;
      hide Positive;
      hide Skipped;
      hide Copied;
      CopiedNone(store[..n], xs, gone, bs, p);
    }
  }

  /** Bytes of blocks owned by a retired segment are copied with that segment's effect,
      unless the block is skipped. */
  lemma {:induction false} CopiedOwned(store: seq<Segment>, xs: seq<Extent<Tag>>, gone: set<nat>, bs: nat, p: nat,
                                       j: nat)
    requires bs > 0 && StoreOk(store, bs) && Positive(xs) && Disjoint(xs)
    requires j < |store| && store[j].id in gone && OwnedBy(xs, p / bs, store[j].id)
    ensures Effect(Copied(store, xs, gone, bs), bs, p) ==
            if Skipped(store[j].entries, bs, SegExtents(xs, store[j].id), p / bs) then None
            else Effect(store[j].entries, bs, p)
  {
    var n := |store| - 1;
    assert forall k | 0 <= k < n :: store[k].id < store[n].id;
    CopiedTop(store, xs, gone, bs, p);
    SegOutEffect(store[n], xs, bs, p);
    hide StoreOk;
    hide Disjoint;
    hide Positive;
    hide Skipped;
    hide Copied;
    hide SegOut;
    if j < n {
      CopiedOwned(store[..n], xs, gone, bs, p, j);
    } else {
      CopiedNone(store[..n], xs, gone, bs, p);
    }
  }

  // ---------------------------------------------------------------- main results

  /** No retired segment has a live block that the copy skips. */
  ghost predicate NothingHidden(store: seq<Segment>, xs: seq<Extent<Tag>>, gone: set<nat>, bs: nat)
    requires bs > 0
  {
    forall j | 0 <= j < |store| && store[j].id in gone :: Clear(store[j].entries, bs, SegExtents(xs, store[j].id))
  }

  /** A sorted map hides nothing. */
  lemma {:induction false} SortedHidesNothing(store: seq<Segment>, xs: seq<Extent<Tag>>, gone: set<nat>, bs: nat)
    requires bs > 0 && Sorted(xs)
    ensures NothingHidden(store, xs, gone, bs)
  {
    forall j | 0 <= j < |store| && store[j].id in gone
      ensures Clear(store[j].entries, bs, SegExtents(xs, store[j].id))
    {
      SegExtentsSorted(xs, store[j].id);
      forall i, k | 0 <= i < |store[j].entries| && 0 <= k < |SweepRange(store[j].entries, bs, i)|
        ensures !Hidden(SegExtents(xs, store[j].id), SweepRange(store[j].entries, bs, i)[k].lo,
          SweepRange(store[j].entries, bs, i)[k].hi)
      {
        SortedNeverHides(SegExtents(xs, store[j].id), SweepRange(store[j].entries, bs, i)[k].lo,
          SweepRange(store[j].entries, bs, i)[k].hi);
      }
    }
  }

  /** The effect with retired segments renamed to the new one. */
  function Moved(o: Option<Owned>, gone: set<nat>, newId: nat): Option<Owned> {
    match o
    case None => None
    case Some(w) => if w.seg in gone then Some(Owned(newId, w.hit)) else o
  }

  ghost predicate Retirable(store: seq<Segment>, xs: seq<Extent<Tag>>, bs: nat, newId: nat) {
    && bs > 0 && StoreOk(store, bs) && Positive(xs) && Disjoint(xs) && Agrees(xs, store, bs)
    && forall j | 0 <= j < |store| :: store[j].id < newId
  }

  /** The same of a map that does not know every owner. */
  ghost predicate PartlyRetirable(store: seq<Segment>, xs: seq<Extent<Tag>>, bs: nat, newId: nat) {
    && bs > 0 && StoreOk(store, bs) && Positive(xs) && Disjoint(xs) && OwnersRight(xs, store, bs)
    && forall j | 0 <= j < |store| :: store[j].id < newId
  }

  lemma {:induction false} PartlyParts(store: seq<Segment>, xs: seq<Extent<Tag>>, bs: nat, newId: nat)
    requires PartlyRetirable(store, xs, bs, newId)
    ensures bs > 0 && StoreOk(store, bs) && Positive(xs) && forall j | 0 <= j < |store| :: store[j].id < newId
  {
    hide StoreOk; hide Positive; hide Disjoint; hide OwnersRight;
  }

  lemma {:induction false} RetirableParts(store: seq<Segment>, xs: seq<Extent<Tag>>, bs: nat, newId: nat, p: nat)
    requires Retirable(store, xs, bs, newId)
    ensures PartlyRetirable(store, xs, bs, newId) && Owner(xs, p / bs) == TagOf(StoreEffect(store, bs, p))
  {
    hide Owner; hide StoreEffect;
  }

  /** The kept segments never name the new one. */
  lemma {:induction false} KeptIsOld(store: seq<Segment>, gone: set<nat>, bs: nat, newId: nat, p: nat)
    requires forall j | 0 <= j < |store| :: store[j].id < newId
    ensures var o := StoreEffect(Kept(store, gone), bs, p); o.Some? ==> o.value.seg < newId
  {
    if StoreEffect(Kept(store, gone), bs, p).Some? {
      var k := StoreEffectIndex(Kept(store, gone), bs, p);
      KeptShape(store, gone);
      assert Kept(store, gone)[k] in store;
    }
  }

  lemma {:induction false} CollectedSplit(store: seq<Segment>, xs: seq<Extent<Tag>>, gone: set<nat>, bs: nat,
                                          newId: nat, p: nat)
    requires bs > 0 && StoreOk(store, bs) && Positive(xs)
    ensures StoreEffect(Collected(store, xs, gone, bs, newId), bs, p) ==
            match Effect(Copied(store, xs, gone, bs), bs, p)
            case Some(h) => Some(Owned(newId, h))
            case None => StoreEffect(Kept(store, gone), bs, p)
  {
    var out := Segment(newId, Copied(store, xs, gone, bs));
    StoreEffectAppend(Kept(store, gone), [out], bs, p);
    StoreEffectOne(out, bs, p);
  }

  /** A byte whose owner stays keeps its effect. */
  lemma {:induction false} CollectedKept(store: seq<Segment>, xs: seq<Extent<Tag>>, gone: set<nat>, bs: nat, newId: nat,
                                         p: nat)
    requires PartlyRetirable(store, xs, bs, newId)
    requires var o := StoreEffect(store, bs, p); o.None? || o.value.seg !in gone
    ensures StoreEffect(Collected(store, xs, gone, bs, newId), bs, p) == StoreEffect(store, bs, p)
  {
    assert Owner(xs, p / bs).None? || Owner(xs, p / bs) == TagOf(StoreEffect(store, bs, p));
    CopiedNone(store, xs, gone, bs, p);
    KeptEffect(store, gone, bs, p);
    CollectedSplit(store, xs, gone, bs, newId, p);
  }

  /** A byte whose owner is retired moves with its effect to the new segment, unless its
      block is skipped; then it falls back to what the kept segments say. */
  lemma {:induction false} CollectedGone(store: seq<Segment>, xs: seq<Extent<Tag>>, gone: set<nat>, bs: nat, newId: nat,
                                         p: nat, j: nat)
    requires PartlyRetirable(store, xs, bs, newId)
    requires j < |store| && store[j].id in gone && Owner(xs, p / bs).Some?
    requires var o := StoreEffect(store, bs, p); o.Some? && o.value.seg == store[j].id
    ensures var o, o' := StoreEffect(store, bs, p), StoreEffect(Collected(store, xs, gone, bs, newId), bs, p);
      if Skipped(store[j].entries, bs, SegExtents(xs, store[j].id), p / bs)
      then o' == StoreEffect(Kept(store, gone), bs, p) && o' != Moved(o, gone, newId)
      else o' == Moved(o, gone, newId)
  {
    var o := StoreEffect(store, bs, p);
    assert Owner(xs, p / bs) == TagOf(o);
    hide Skipped;
    var k := StoreEffectIndex(store, bs, p);
    assert k == j;
    CopiedOwned(store, xs, gone, bs, p, j);
    KeptIsOld(store, gone, bs, newId, p);
    CollectedSplit(store, xs, gone, bs, newId, p);
  }

  /** A byte of an owned block moves with its owner. */
  lemma {:induction false} OwnedMoves(store: seq<Segment>, xs: seq<Extent<Tag>>, gone: set<nat>, bs: nat, newId: nat,
                                      p: nat)
    requires PartlyRetirable(store, xs, bs, newId) && NothingHidden(store, xs, gone, bs) && Owner(xs, p / bs).Some?
    ensures StoreEffect(Collected(store, xs, gone, bs, newId), bs, p) == Moved(StoreEffect(store, bs, p), gone, newId)
  {
    var o := StoreEffect(store, bs, p);
    if o.Some? && o.value.seg in gone {
      var j := StoreEffectIndex(store, bs, p);
      SegExtentsDisjoint(xs, store[j].id);
      ClearSkipsNothing(store[j].entries, bs, SegExtents(xs, store[j].id), p / bs);
      hide Skipped;
      CollectedGone(store, xs, gone, bs, newId, p, j);
    } else {
      CollectedKept(store, xs, gone, bs, newId, p);
    }
  }

  /** A byte of a block without an owner falls back to what the kept segments say. */
  lemma {:induction false} UnownedFalls(store: seq<Segment>, xs: seq<Extent<Tag>>, gone: set<nat>, bs: nat, newId: nat,
                                        p: nat)
    requires bs > 0 && StoreOk(store, bs) && Positive(xs) && Disjoint(xs) && Owner(xs, p / bs).None?
    ensures StoreEffect(Collected(store, xs, gone, bs, newId), bs, p) == StoreEffect(Kept(store, gone), bs, p)
  {
    CopiedNone(store, xs, gone, bs, p);
    CollectedSplit(store, xs, gone, bs, newId, p);
  }

  lemma {:induction false} ClearMoves(store: seq<Segment>, xs: seq<Extent<Tag>>, gone: set<nat>, bs: nat, newId: nat,
                                      p: nat)
    requires Retirable(store, xs, bs, newId) && NothingHidden(store, xs, gone, bs)
    ensures StoreEffect(Collected(store, xs, gone, bs, newId), bs, p) == Moved(StoreEffect(store, bs, p), gone, newId)
  {
    assert Owner(xs, p / bs) == TagOf(StoreEffect(store, bs, p));
    if Owner(xs, p / bs).Some? {
      OwnedMoves(store, xs, gone, bs, newId, p);
    } else {
      CollectedKept(store, xs, gone, bs, newId, p);
    }
  }

  lemma {:induction false} HiddenLoses(store: seq<Segment>, xs: seq<Extent<Tag>>, gone: set<nat>, bs: nat, newId: nat)
    returns (p: nat)
    requires bs > 0 && PartlyRetirable(store, xs, bs, newId) && !NothingHidden(store, xs, gone, bs)
    ensures Owner(xs, p / bs) == TagOf(StoreEffect(store, bs, p))
    ensures StoreEffect(Collected(store, xs, gone, bs, newId), bs, p) != Moved(StoreEffect(store, bs, p), gone, newId)
    ensures StoreEffect(Collected(store, xs, gone, bs, newId), bs, p) == StoreEffect(Kept(store, gone), bs, p)
    ensures StoreEffect(store, bs, p).Some? && StoreEffect(store, bs, p).value.seg in gone
  {
    hide Skipped;
    hide Clear;
    var j :| 0 <= j < |store| && store[j].id in gone && !Clear(store[j].entries, bs, SegExtents(xs, store[j].id));
    SegExtentsDisjoint(xs, store[j].id);
    var b := HiddenSkipsSomething(store[j].entries, bs, SegExtents(xs, store[j].id));
    p := b * bs;
    MulDivMod(b, bs);
    SegExtentsOwner(xs, store[j].id, b);
    assert Owner(xs, p / bs) == TagOf(StoreEffect(store, bs, p));
    CollectedGone(store, xs, gone, bs, newId, p, j);
  }

  /** Retirement moves every live byte to the new segment exactly when no retired segment
      has an owned extent hidden from intersectRange. */
  lemma {:induction false} CollectExact(store: seq<Segment>, xs: seq<Extent<Tag>>, gone: set<nat>, bs: nat, newId: nat)
    requires Retirable(store, xs, bs, newId)
    ensures (forall p: nat ::
               StoreEffect(Collected(store, xs, gone, bs, newId), bs, p) ==
               Moved(StoreEffect(store, bs, p), gone, newId))
            <==> NothingHidden(store, xs, gone, bs)
  {
    if NothingHidden(store, xs, gone, bs) {
      forall p: nat
        ensures StoreEffect(Collected(store, xs, gone, bs, newId), bs, p) == Moved(StoreEffect(store, bs, p), gone,
          newId)
      {
        ClearMoves(store, xs, gone, bs, newId, p);
      }
    } else {
      var p := HiddenLoses(store, xs, gone, bs, newId);
    }
  }

  lemma {:induction false} CollectedOk(store: seq<Segment>, xs: seq<Extent<Tag>>, gone: set<nat>, bs: nat, newId: nat)
    requires bs > 0 && StoreOk(store, bs) && Positive(xs) && Disjoint(xs)
    requires forall j | 0 <= j < |store| :: store[j].id < newId
    ensures StoreOk(Collected(store, xs, gone, bs, newId), bs)
  {
    KeptOk(store, gone, bs);
    KeptShape(store, gone);
    CopiedAligned(store, xs, gone, bs);
  }

  /** Garbage collection preserves replay. */
  lemma {:induction false} CollectPreservesReplay(store: seq<Segment>, xs: seq<Extent<Tag>>, gone: set<nat>, bs: nat,
                                                  newId: nat, p: nat, base: byte)
    requires Retirable(store, xs, bs, newId) && NothingHidden(store, xs, gone, bs)
    ensures Replay(Entries(Collected(store, xs, gone, bs, newId)), bs, p, base) == Replay(Entries(store), bs, p, base)
  {
    var after := Collected(store, xs, gone, bs, newId);
    ClearMoves(store, xs, gone, bs, newId, p);
    EntriesEffect(store, bs, p);
    EntriesEffect(after, bs, p);
    ReplayByEffect(Entries(store), bs, p, base);
    ReplayByEffect(Entries(after), bs, p, base);
  }
}
