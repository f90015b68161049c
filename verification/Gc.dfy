/** RunGC: bring the live map up to date with the store, choose the segments to retire, copy
    their live ranges into a new segment and delete them. */
module Gc {
  import opened Bytes
  import opened Options
  import opened BlockSets
  import opened LogReplay
  import opened IntervalMap
  import opened Sweep
  import opened Store
  import opened Retire
  import opened LiveMaps
  import opened Accounting

  // ---------------------------------------------------------------- applying logs

  function OpExtent(e: Entry, id: nat, bs: nat): Extent<Tag>
    requires bs > 0
  {
    Extent(e.block, e.NumBlocks(bs), Tag(id, e.Trim?))
  }

  /** The extents after applying the entries of one segment in order. */
  function Applied(xs: seq<Extent<Tag>>, s: Segment, bs: nat, n: nat, repaired: bool): seq<Extent<Tag>>
    requires bs > 0 && n <= |s.entries|
  {
    if n == 0 then xs else Placed(Applied(xs, s, bs, n - 1, repaired), OpExtent(s.entries[n - 1], s.id, bs), repaired)
  }

  /** xs is xs0 overlaid with the ownership of the given segments. */
  ghost predicate Layered(xs: seq<Extent<Tag>>, xs0: seq<Extent<Tag>>, store: seq<Segment>, bs: nat)
    requires bs > 0
  {
    forall p: nat :: Owner(xs, p / bs) ==
      if StoreEffect(store, bs, p).Some? then TagOf(StoreEffect(store, bs, p)) else Owner(xs0, p / bs)
  }

  lemma {:induction false} AppliedOwner(xs: seq<Extent<Tag>>, s: Segment, bs: nat, n: nat, repaired: bool, p: nat)
    requires bs > 0 && n <= |s.entries| && AllAligned(s.entries, bs)
    ensures Owner(Applied(xs, s, bs, n, repaired), p / bs) ==
            match Effect(s.entries[..n], bs, p)
            case Some(h) => Some(Tag(s.id, h.isTrim))
            case None => Owner(xs, p / bs)
  {
    if n > 0 {
      hide Placed; hide Owner; hide OpExtent;
      hide Entry.HasByte; hide Entry.NumBlocks; hide Entry.Aligned; hide Entry.Touches; hide Entry.Value;
      AppliedOwner(xs, s, bs, n - 1, repaired, p);
      assert s.entries[..n][..n - 1] == s.entries[..n - 1];
      OpOwner(Applied(xs, s, bs, n - 1, repaired), s.entries[n - 1], s.id, bs, repaired, p);
    }
  }

  lemma {:induction false} OpOwner(xs: seq<Extent<Tag>>, e: Entry, id: nat, bs: nat, repaired: bool, p: nat)
    requires bs > 0 && e.Aligned(bs)
    ensures Owner(Placed(xs, OpExtent(e, id, bs), repaired), p / bs) ==
            if e.HasByte(bs, p) then Some(Tag(id, e.Trim?)) else Owner(xs, p / bs)
  {
    hide Placed; hide Owner; hide Entry.HasByte; hide Entry.NumBlocks; hide Entry.Aligned;
    AlignedBytes(e, bs, p);
    PlacedOwner(xs, OpExtent(e, id, bs), repaired, p / bs);
  }

  lemma {:induction false} AppliedShape(xs: seq<Extent<Tag>>, s: Segment, bs: nat, n: nat, repaired: bool)
    requires bs > 0 && n <= |s.entries| && Positive(xs) && Disjoint(xs)
    ensures Positive(Applied(xs, s, bs, n, repaired)) && Disjoint(Applied(xs, s, bs, n, repaired))
    ensures repaired && Sorted(xs) ==> Sorted(Applied(xs, s, bs, n, repaired))
  {
    if n > 0 {
      hide Placed; hide Positive; hide Disjoint; hide Sorted;
      AppliedShape(xs, s, bs, n - 1, repaired);
      PlacedShape(Applied(xs, s, bs, n - 1, repaired), OpExtent(s.entries[n - 1], s.id, bs), repaired);
    }
  }

  lemma {:induction false} AppliedKeyed(xs: seq<Extent<Tag>>, s: Segment, bs: nat, n: nat, repaired: bool,
                                        keys: set<nat>)
    requires bs > 0 && n <= |s.entries| && Positive(xs) && Disjoint(xs) && Keyed(xs, keys)
    ensures Keyed(Applied(xs, s, bs, n, repaired), keys + if n == 0 then {} else {s.id})
  {
    if n > 0 {
      AppliedKeyed(xs, s, bs, n - 1, repaired, keys);
      AppliedShape(xs, s, bs, n - 1, repaired);
      hide Placed; hide Applied;
      var before, e := Applied(xs, s, bs, n - 1, repaired), OpExtent(s.entries[n - 1], s.id, bs);
      PlacedShape(before, e, repaired);
      PiecesKeyed(Placed(before, e, repaired), [e] + before, keys + {s.id});
    }
  }

  lemma {:induction false} PiecesKeyed(ys: seq<Extent<Tag>>, xs: seq<Extent<Tag>>, keys: set<nat>)
    requires AllPieces(ys, xs) && Keyed(xs, keys)
    ensures Keyed(ys, keys)
  {
    forall k | 0 <= k < |ys| ensures ys[k].tag.seg in keys {
      assert PieceOfSome(ys[k], xs);
      var i :| 0 <= i < |xs| && PieceOf(ys[k], xs[i]);
    }
  }

  lemma {:induction false} LayerByte(xs: seq<Extent<Tag>>, xs0: seq<Extent<Tag>>, store: seq<Segment>, s: Segment,
                                     bs: nat, repaired: bool, p: nat)
    requires bs > 0 && AllAligned(s.entries, bs)
    requires Owner(xs, p / bs) ==
      (if StoreEffect(store, bs, p).Some? then TagOf(StoreEffect(store, bs, p)) else Owner(xs0, p / bs))
    ensures Owner(Applied(xs, s, bs, |s.entries|, repaired), p / bs) ==
            if StoreEffect(store + [s], bs, p).Some? then TagOf(StoreEffect(store + [s], bs, p)) else Owner(xs0, p / bs)
  {
    assert s.entries[..|s.entries|] == s.entries;
    AppliedOwner(xs, s, bs, |s.entries|, repaired, p);
    StoreEffectAppend(store, [s], bs, p);
    StoreEffectOne(s, bs, p);
  }

  lemma {:induction false} LayerSegment(xs: seq<Extent<Tag>>, xs0: seq<Extent<Tag>>, store: seq<Segment>, s: Segment,
                                        bs: nat, repaired: bool)
    requires bs > 0 && AllAligned(s.entries, bs) && Layered(xs, xs0, store, bs)
    ensures Layered(Applied(xs, s, bs, |s.entries|, repaired), xs0, store + [s], bs)
  {
    forall p: nat ensures Owner(Applied(xs, s, bs, |s.entries|, repaired), p / bs) ==
      if StoreEffect(store + [s], bs, p).Some? then TagOf(StoreEffect(store + [s], bs, p)) else Owner(xs0, p / bs)
    {
      LayerByte(xs, xs0, store, s, bs, repaired, p);
    }
  }

  /** Applying a suffix of the store again, over a map that already knows part of it, gives
      the map of the whole store. */
  lemma {:induction false} RereadAgrees(xs: seq<Extent<Tag>>, xs0: seq<Extent<Tag>>, store: seq<Segment>, k: nat,
                                        m: nat, bs: nat)
    requires bs > 0 && k <= m <= |store|
    requires Agrees(xs0, store[..m], bs) && Layered(xs, xs0, store[k..], bs)
    ensures Agrees(xs, store, bs)
  {
    hide Owner; hide StoreEffect;
    var a, b, c := store[..k], store[k..m], store[m..];
    assert store == a + store[k..] && store[..m] == a + b && store[k..] == b + c;
    forall p: nat ensures Owner(xs, p / bs) == TagOf(StoreEffect(store, bs, p)) {
      RereadByte(a, b, c, bs, p);
      assert Owner(xs0, p / bs) == TagOf(StoreEffect(a + b, bs, p));
    }
  }

  lemma {:induction false} RereadByte(a: seq<Segment>, b: seq<Segment>, c: seq<Segment>, bs: nat, p: nat)
    requires bs > 0
    ensures StoreEffect(b + c, bs, p).Some? ==> StoreEffect(a + (b + c), bs, p) == StoreEffect(b + c, bs, p)
    ensures StoreEffect(b + c, bs, p).None? ==> StoreEffect(a + (b + c), bs, p) == StoreEffect(a + b, bs, p)
  {
    hide StoreEffect;
    StoreEffectAppend(a, b + c, bs, p);
    StoreEffectAppend(a, b, bs, p);
    StoreEffectAppend(b, c, bs, p);
  }

  // ---------------------------------------------------------------- tracking a store

  class LogStore {
    var segments: seq<Segment>

    constructor (s: seq<Segment>)
      ensures segments == s
    {
      segments := s;
    }

    method Delete(id: nat)
      modifies this
      ensures segments == Kept(old(segments), {id})
    {
      var rest: seq<Segment> := [];
      for i := 0 to |segments|
        invariant segments == old(segments)
        invariant rest == Kept(segments[..i], {id})
      {
        assert segments[..i + 1][..i] == segments[..i];
        if segments[i].id != id { rest := rest + [segments[i]]; }
      }
      assert segments[..|segments|] == segments;
      segments := rest;
    }
  }

  /** What every live map keeps: extents apart from each other, each owned by a known segment. */
  ghost predicate Usable(m: MapState) {
    Positive(m.extents) && Disjoint(m.extents) && Keyed(m.extents, m.totals.Keys)
  }

  /** A saved map fits a store: it agrees with the segments it has seen, and all the others
      are newer than its last label. */
  ghost predicate Tracks(m: MapState, store: seq<Segment>, bs: nat) {
    && bs > 0 && StoreOk(store, bs) && Usable(m) && m.totals.Keys <= Ids(store)
    && exists k | 0 <= k <= |store| :: Seen(m, store, k, bs)
  }

  ghost predicate Seen(m: MapState, store: seq<Segment>, k: nat, bs: nat)
    requires bs > 0 && k <= |store|
  {
    Agrees(m.extents, store[..k], bs) && forall i | k <= i < |store| :: store[i].id > m.lastLabel
  }

  lemma {:induction false} IdsAppend(a: seq<Segment>, b: seq<Segment>)
    ensures Ids(a + b) == Ids(a) + Ids(b)
  {
    forall id | id in Ids(a) + Ids(b) ensures id in Ids(a + b) {
      if id in Ids(a) {
        var i :| 0 <= i < |a| && a[i].id == id;
        assert (a + b)[i].id == id;
      } else {
        var i :| 0 <= i < |b| && b[i].id == id;
        assert (a + b)[|a| + i].id == id;
      }
    }
  }

  lemma {:induction false} IdsMore(store: seq<Segment>)
    requires store != []
    ensures Ids(store) == Ids(store[..|store| - 1]) + {store[|store| - 1].id}
  {
    var n := |store| - 1;
    assert store == store[..n] + [store[n]];
    IdsAppend(store[..n], [store[n]]);
    assert Ids([store[n]]) == {store[n].id};
  }

  /** New segments with larger labels do not disturb a saved map. */
  lemma {:induction false} TracksGrowth(m: MapState, store: seq<Segment>, more: seq<Segment>, bs: nat)
    requires Tracks(m, store, bs) && StoreOk(store + more, bs)
    requires forall i | 0 <= i < |more| :: more[i].id > m.lastLabel
    ensures Tracks(m, store + more, bs)
  {
    var k :| 0 <= k <= |store| && Seen(m, store, k, bs);
    assert (store + more)[..k] == store[..k];
    assert Seen(m, store + more, k, bs);
    IdsAppend(store, more);
  }

  lemma {:induction false} AgreesTracks(m: MapState, store: seq<Segment>, bs: nat)
    requires bs > 0 && StoreOk(store, bs) && Usable(m) && m.totals.Keys <= Ids(store) && Agrees(m.extents, store, bs)
    ensures Tracks(m, store, bs)
  {
    assert store[..|store|] == store;
    assert Seen(m, store, |store|, bs);
  }

  // ---------------------------------------------------------------- reading logs, as values

  /** The per-segment totals after counting the first n entries of a segment. */
  function Tallied(segments: map<nat, SegInfo>, s: Segment, n: nat): map<nat, SegInfo>
    requires n <= |s.entries|
  {
    if n == 0 then segments
    else
      var before := Tallied(segments, s, n - 1);
      var e := s.entries[n - 1];
      before[s.id := Counted(before, s.id, e.Write?, e.Length())]
  }

  lemma {:induction false} TalliedKeys(segments: map<nat, SegInfo>, s: Segment, n: nat)
    requires n <= |s.entries|
    ensures Tallied(segments, s, n).Keys == segments.Keys + if n == 0 then {} else {s.id}
  {
    if n > 0 { TalliedKeys(segments, s, n - 1); }
  }

  /** Counting a segment adds its write bytes to its own total and to no other. */
  lemma {:induction false} TalliedTotal(segments: map<nat, SegInfo>, s: Segment, n: nat, id: nat)
    requires n <= |s.entries|
    ensures TotalOf(Tallied(segments, s, n), id) ==
            TotalOf(segments, id) + if id == s.id then WriteBytes(s.entries[..n]) else 0
  {
    if n > 0 {
      TalliedTotal(segments, s, n - 1, id);
      assert s.entries[..n][..n - 1] == s.entries[..n - 1];
    }
  }

  lemma {:induction false} AppliedBounded(xs: seq<Extent<Tag>>, segments: map<nat, SegInfo>, s: Segment, bs: nat,
                                          n: nat, repaired: bool)
    requires bs > 0 && n <= |s.entries| && AllAligned(s.entries, bs) && Bounded(xs, segments, bs)
    ensures Bounded(Applied(xs, s, bs, n, repaired), Tallied(segments, s, n), bs)
  {
    if n > 0 {
      hide Placed; hide Bounded;
      AppliedBounded(xs, segments, s, bs, n - 1, repaired);
      EntryBounded(Applied(xs, s, bs, n - 1, repaired), Tallied(segments, s, n - 1), s.entries[n - 1], s.id, bs,
        repaired);
    }
  }

  /** The map after one more log. */
  function ReadOne(m: MapState, s: Segment, bs: nat, repaired: bool): MapState
    requires bs > 0
  {
    MapState(s.id, Applied(m.extents, s, bs, |s.entries|, repaired), Tallied(m.totals, s, |s.entries|))
  }

  function Read(m: MapState, todo: seq<Segment>, bs: nat, repaired: bool): MapState
    requires bs > 0
  {
    if todo == [] then m else ReadOne(Read(m, todo[..|todo| - 1], bs, repaired), todo[|todo| - 1], bs, repaired)
  }

  lemma {:induction false} ReadOneUsable(m: MapState, s: Segment, bs: nat, repaired: bool)
    requires bs > 0 && Usable(m)
    ensures Usable(ReadOne(m, s, bs, repaired))
    ensures repaired && Sorted(m.extents) ==> Sorted(ReadOne(m, s, bs, repaired).extents)
    ensures ReadOne(m, s, bs, repaired).totals.Keys <= m.totals.Keys + {s.id}
    ensures ReadOne(m, s, bs, repaired).lastLabel == s.id
  {
    hide Applied; hide Tallied; hide Positive; hide Disjoint; hide Sorted; hide Keyed;
    AppliedShape(m.extents, s, bs, |s.entries|, repaired);
    AppliedKeyed(m.extents, s, bs, |s.entries|, repaired, m.totals.Keys);
    TalliedKeys(m.totals, s, |s.entries|);
  }

  lemma {:induction false} ReadUsable(m: MapState, todo: seq<Segment>, bs: nat, repaired: bool)
    requires bs > 0 && Usable(m)
    ensures var r := Read(m, todo, bs, repaired);
      Usable(r) && (repaired && Sorted(m.extents) ==> Sorted(r.extents)) && r.totals.Keys <= m.totals.Keys + Ids(todo)
    ensures Read(m, todo, bs, repaired).lastLabel == if todo == [] then m.lastLabel else todo[|todo| - 1].id
  {
    hide Usable; hide Sorted; hide ReadOne;
    if todo != [] {
      var n := |todo| - 1;
      ReadUsable(m, todo[..n], bs, repaired);
      ReadOneUsable(Read(m, todo[..n], bs, repaired), todo[n], bs, repaired);
      IdsMore(todo);
    }
  }

  lemma {:induction false} ReadLayered(m: MapState, todo: seq<Segment>, bs: nat, repaired: bool)
    requires bs > 0 && StoreOk(todo, bs)
    ensures Layered(Read(m, todo, bs, repaired).extents, m.extents, todo, bs)
  {
    if todo != [] {
      var n := |todo| - 1;
      assert todo == todo[..n] + [todo[n]];
      ReadLayered(m, todo[..n], bs, repaired);
      hide Layered;
      LayerSegment(Read(m, todo[..n], bs, repaired).extents, m.extents, todo[..n], todo[n], bs, repaired);
    }
  }

  lemma {:induction false} ReadBounded(m: MapState, todo: seq<Segment>, bs: nat, repaired: bool)
    requires bs > 0 && StoreOk(todo, bs) && Bounded(m.extents, m.totals, bs)
    ensures Bounded(Read(m, todo, bs, repaired).extents, Read(m, todo, bs, repaired).totals, bs)
  {
    if todo != [] {
      var n := |todo| - 1;
      ReadBounded(m, todo[..n], bs, repaired);
      hide Bounded;
      var b := Read(m, todo[..n], bs, repaired);
      AppliedBounded(b.extents, b.totals, todo[n], bs, |todo[n].entries|, repaired);
    }
  }

  /** The bytes written by the segment of that label. */
  function BytesIn(store: seq<Segment>, id: nat): nat {
    if store == [] then 0
    else BytesIn(store[..|store| - 1], id) + if store[|store| - 1].id == id then WriteBytes(store[|store| - 1].entries)
      else 0
  }

  lemma {:induction false} ReadTotal(m: MapState, todo: seq<Segment>, bs: nat, repaired: bool, id: nat)
    requires bs > 0
    ensures TotalOf(Read(m, todo, bs, repaired).totals, id) == TotalOf(m.totals, id) + BytesIn(todo, id)
  {
    if todo != [] {
      var n := |todo| - 1;
      ReadTotal(m, todo[..n], bs, repaired, id);
      hide Applied; hide Tallied; hide TotalOf;
      TalliedTotal(Read(m, todo[..n], bs, repaired).totals, todo[n], |todo[n].entries|, id);
      assert todo[n].entries[..|todo[n].entries|] == todo[n].entries;
    }
  }

  lemma {:induction false} AfterBytes(store: seq<Segment>, mark: int, id: nat)
    ensures BytesIn(After(store, mark), id) == if id > mark then BytesIn(store, id) else 0
  {
    if store != [] {
      var n := |store| - 1;
      AfterBytes(store[..n], mark, id);
      if store[n].id > mark {
        var a := After(store, mark);
        assert a[..|a| - 1] == After(store[..n], mark);
      } else {
        assert After(store, mark) == After(store[..n], mark);
      }
    }
  }

  /** In a sorted store the logs past a label are a suffix. */
  lemma {:induction false} AfterSuffix(store: seq<Segment>, mark: int) returns (k: nat)
    requires forall i, j | 0 <= i < j < |store| :: store[i].id < store[j].id
    ensures k <= |store| && After(store, mark) == store[k..]
    ensures forall i | 0 <= i < |store| :: store[i].id > mark <==> k <= i
  {
    AfterNext(store, mark);
    hide After;
    if store == [] {
      k := 0;
    } else {
      var last, before := store[|store| - 1], store[..|store| - 1];
      var k' := AfterSuffix(before, mark);
      assert store == before + [last];
      SuffixNext(before, last, mark, k');
      k := if last.id > mark then k' else |store|;
    }
  }

  lemma {:induction false} AfterNext(store: seq<Segment>, mark: int)
    ensures After(store, mark) ==
      if store == [] then []
      else After(store[..|store| - 1], mark) + if store[|store| - 1].id > mark then [store[|store| - 1]] else []
  {
  }

  lemma {:induction false} SuffixNext(before: seq<Segment>, last: Segment, mark: int, k: nat)
    requires k <= |before| && forall i | 0 <= i < |before| :: before[i].id > mark <==> k <= i
    requires forall i | 0 <= i < |before| :: before[i].id < last.id
    ensures last.id <= mark ==> k == |before|
    ensures (before + [last])[k..] == before[k..] + [last]
  {
    if k < |before| { assert before[k].id > mark; }
  }

  // ---------------------------------------------------------------- bringing a map up to date

  /** The extents of all segments but the given ones, in order. */
  ghost function WithoutAll(xs: seq<Extent<Tag>>, gone: set<nat>): seq<Extent<Tag>> {
    if xs == [] then []
    else WithoutAll(xs[..|xs| - 1], gone) + (if xs[|xs| - 1].tag.seg in gone then [] else [xs[|xs| - 1]])
  }

  lemma {:induction false} WithoutNone(xs: seq<Extent<Tag>>)
    ensures WithoutAll(xs, {}) == xs
  {
    if xs != [] {
      WithoutNone(xs[..|xs| - 1]);
      assert xs == xs[..|xs| - 1] + [xs[|xs| - 1]];
    }
  }

  lemma {:induction false} WithoutOneMore(xs: seq<Extent<Tag>>, gone: set<nat>, id: nat)
    ensures WithoutSegment(WithoutAll(xs, gone), id) == WithoutAll(xs, gone + {id})
  {
    if xs != [] {
      var init, last := WithoutAll(xs[..|xs| - 1], gone), xs[|xs| - 1];
      WithoutOneMore(xs[..|xs| - 1], gone, id);
      if last.tag.seg !in gone {
        var all := WithoutAll(xs, gone);
        assert all == init + [last];
        assert all[..|all| - 1] == init && all[|all| - 1] == last;
      } else {
        assert WithoutAll(xs, gone) == init;
      }
    }
  }

  lemma {:induction false} WithoutMember(xs: seq<Extent<Tag>>, gone: set<nat>)
    ensures forall i | 0 <= i < |WithoutAll(xs, gone)| ::
      WithoutAll(xs, gone)[i] in xs && WithoutAll(xs, gone)[i].tag.seg !in gone
  {
    if xs != [] { WithoutMember(xs[..|xs| - 1], gone); }
  }

  lemma {:induction false} WithoutCount(xs: seq<Extent<Tag>>, gone: set<nat>, b: nat)
    ensures Count(WithoutAll(xs, gone), b) <= Count(xs, b)
  {
    if xs != [] {
      var n := |xs| - 1;
      var tail := if xs[n].tag.seg in gone then [] else [xs[n]];
      WithoutCount(xs[..n], gone, b);
      assert xs == xs[..n] + [xs[n]];
      CountAppend(xs[..n], [xs[n]], b);
      CountAppend(WithoutAll(xs[..n], gone), tail, b);
      CountOne(xs[n], b);
    }
  }

  lemma {:induction false} WithoutSorted(xs: seq<Extent<Tag>>, gone: set<nat>)
    requires Sorted(xs)
    ensures Sorted(WithoutAll(xs, gone))
  {
    if xs != [] {
      var n := |xs| - 1;
      SortedInit(xs);
      WithoutSorted(xs[..n], gone);
      WithoutMember(xs[..n], gone);
      assert EndsBy(WithoutAll(xs[..n], gone), xs[n].start);
      hide Sorted;
      SortedSnoc(WithoutAll(xs[..n], gone), xs[n]);
    }
  }

  /** A map without the segments that the store no longer has. */
  ghost function Cleaned(m: MapState, ids: set<nat>): MapState {
    m.(extents := WithoutAll(m.extents, m.totals.Keys - ids), totals := m.totals - (m.totals.Keys - ids))
  }

  lemma {:induction false} CleanedUsable(m: MapState, ids: set<nat>)
    requires Usable(m)
    ensures Usable(Cleaned(m, ids)) && Cleaned(m, ids).totals.Keys <= ids
    ensures Sorted(m.extents) ==> Sorted(Cleaned(m, ids).extents)
    ensures m.totals.Keys <= ids ==> Cleaned(m, ids) == m
  {
    var gone := m.totals.Keys - ids;
    WithoutMember(m.extents, gone);
    forall b: nat ensures Count(WithoutAll(m.extents, gone), b) <= 1 {
      WithoutCount(m.extents, gone, b);
      CountsFromDisjoint(m.extents, b);
    }
    DisjointFromCounts(WithoutAll(m.extents, gone));
    if Sorted(m.extents) { WithoutSorted(m.extents, gone); }
    if m.totals.Keys <= ids {
      assert gone == {};
      WithoutNone(m.extents);
    }
  }

  lemma {:induction false} WithoutHas(xs: seq<Extent<Tag>>, gone: set<nat>, i: nat)
    requires i < |xs| && xs[i].tag.seg !in gone
    ensures xs[i] in WithoutAll(xs, gone)
  {
    if i < |xs| - 1 { WithoutHas(xs[..|xs| - 1], gone, i); }
  }

  function IfThere(o: Option<Tag>, ids: set<nat>): Option<Tag> {
    if o.Some? && o.value.seg in ids then o else None
  }

  /** Cleaning up forgets the owners that are gone, and no other. */
  lemma {:induction false} CleanedOwner(m: MapState, ids: set<nat>, b: nat)
    requires Usable(m)
    ensures Owner(Cleaned(m, ids).extents, b) == IfThere(Owner(m.extents, b), ids)
  {
    var xs, ys, gone := m.extents, Cleaned(m, ids).extents, m.totals.Keys - ids;
    WithoutMember(xs, gone);
    if Owner(ys, b).Some? {
      var k := OwnerWitness(ys, b);
      var i :| 0 <= i < |xs| && xs[i] == ys[k];
      OwnerAt(xs, i, b);
    } else if Owner(xs, b).Some? && Owner(xs, b).value.seg in ids {
      var i := OwnerWitness(xs, b);
      WithoutHas(xs, gone, i);
      OwnerNoneForward(ys, b);
    }
  }

  /** The map once a run has dropped what is gone and read what is new. */
  ghost function Updated(m: MapState, store: seq<Segment>, bs: nat, repaired: bool): MapState
    requires bs > 0
  {
    Read(Cleaned(m, Ids(store)), After(store, m.lastLabel), bs, repaired)
  }

  lemma {:induction false} UpdatedUsable(m: MapState, store: seq<Segment>, bs: nat, repaired: bool)
    requires bs > 0 && StoreOk(store, bs) && Usable(m)
    ensures var u := Updated(m, store, bs, repaired);
      && Usable(u) && u.totals.Keys <= Ids(store)
      && u.lastLabel == (if store == [] || store[|store| - 1].id <= m.lastLabel then m.lastLabel
        else store[|store| - 1].id)
      && (repaired && Sorted(m.extents) ==> Sorted(u.extents))
  {
    var k := AfterSuffix(store, m.lastLabel);
    IdsAppend(store[..k], store[k..]);
    assert store == store[..k] + store[k..];
    hide Usable; hide Sorted; hide Read; hide Cleaned; hide StoreOk; hide After;
    CleanedUsable(m, Ids(store));
    assert Cleaned(m, Ids(store)).lastLabel == m.lastLabel by { CleanedLabel(m, Ids(store)); }
    ReadUsable(Cleaned(m, Ids(store)), store[k..], bs, repaired);
  }

  lemma {:induction false} CleanedLabel(m: MapState, ids: set<nat>)
    ensures Cleaned(m, ids).lastLabel == m.lastLabel
  {
  }

  /** A map that tracks the store agrees with all of it afterwards. */
  lemma {:induction false} UpdatedAgrees(m: MapState, store: seq<Segment>, bs: nat, repaired: bool)
    requires Tracks(m, store, bs)
    ensures Agrees(Updated(m, store, bs, repaired).extents, store, bs)
  {
    CleanedUsable(m, Ids(store));
    var k := AfterSuffix(store, m.lastLabel);
    assert StoreOk(store[k..], bs);
    var j :| 0 <= j <= |store| && Seen(m, store, j, bs);
    if j < |store| { assert store[j].id > m.lastLabel; }
    hide Layered; hide Agrees; hide Read; hide StoreOk; hide Usable; hide Cleaned;
    ReadLayered(m, store[k..], bs, repaired);
    RereadAgrees(Read(m, store[k..], bs, repaired).extents, m.extents, store, k, j, bs);
  }

  // ---------------------------------------------------------------- segments deleted by others

  /** As Tracks, but the map need not know every owner: a segment it knew may have been deleted
      by others, and then it knows no owner of the blocks that segment owned. */
  ghost predicate Remembers(m: MapState, store: seq<Segment>, bs: nat) {
    && bs > 0 && StoreOk(store, bs) && Usable(m) && m.totals.Keys <= Ids(store)
    && exists k | 0 <= k <= |store| :: Recalled(m, store, k, bs)
  }

  ghost predicate Recalled(m: MapState, store: seq<Segment>, k: nat, bs: nat)
    requires bs > 0 && k <= |store|
  {
    OwnersRight(m.extents, store[..k], bs) && forall i | k <= i < |store| :: store[i].id > m.lastLabel
  }

  lemma {:induction false} TracksRemembers(m: MapState, store: seq<Segment>, bs: nat)
    requires Tracks(m, store, bs)
    ensures Remembers(m, store, bs)
  {
    var k :| 0 <= k <= |store| && Seen(m, store, k, bs);
    hide Owner; hide StoreEffect;
    assert Recalled(m, store, k, bs);
  }

  lemma {:induction false} RightRemembers(m: MapState, store: seq<Segment>, bs: nat)
    requires bs > 0 && StoreOk(store, bs) && Usable(m) && m.totals.Keys <= Ids(store)
    requires OwnersRight(m.extents, store, bs)
    ensures Remembers(m, store, bs)
  {
    assert store[..|store|] == store;
    assert Recalled(m, store, |store|, bs);
  }

  lemma {:induction false} KeptAppend(a: seq<Segment>, b: seq<Segment>, gone: set<nat>)
    ensures Kept(a + b, gone) == Kept(a, gone) + Kept(b, gone)
  {
    if b == [] {
      assert a + b == a;
    } else {
      assert (a + b)[..|a + b| - 1] == a + b[..|b| - 1];
      KeptAppend(a, b[..|b| - 1], gone);
    }
  }

  /** An owner that is still there has not been deleted. */
  lemma {:induction false} StillThere(m: MapState, store: seq<Segment>, gone: set<nat>, more: seq<Segment>, b: nat)
    requires Usable(m) && forall i | 0 <= i < |more| :: more[i].id !in m.totals
    requires IfThere(Owner(m.extents, b), Ids(Kept(store, gone) + more)).Some?
    ensures Owner(m.extents, b).value.seg !in gone
  {
    var k := OwnerWitness(m.extents, b);
    IdsAppend(Kept(store, gone), more);
    KeptShape(store, gone);
  }

  /** Whatever was deleted from a store and whatever newer has arrived, the owners that are
      still there are right. */
  lemma {:induction false} LossesRemembered(m: MapState, store: seq<Segment>, gone: set<nat>, more: seq<Segment>,
                                            bs: nat)
    requires Remembers(m, store, bs) && StoreOk(Kept(store, gone) + more, bs)
    requires forall i | 0 <= i < |more| :: more[i].id > m.lastLabel && more[i].id !in m.totals
    ensures var now := Kept(store, gone) + more; Remembers(Cleaned(m, Ids(now)), now, bs)
  {
    var now, c := Kept(store, gone) + more, Cleaned(m, Ids(Kept(store, gone) + more));
    CleanedUsable(m, Ids(now));
    CleanedLabel(m, Ids(now));
    var k :| 0 <= k <= |store| && Recalled(m, store, k, bs);
    var j := LossSplit(store, k, gone, more, m.lastLabel);
    hide Owner; hide StoreEffect; hide Kept; hide Cleaned; hide Usable; hide StoreOk; hide IfThere; hide Ids;
    forall p: nat
      ensures Owner(c.extents, p / bs).None? || Owner(c.extents, p / bs) == TagOf(StoreEffect(now[..j], bs, p))
    {
      CleanedOwner(m, Ids(now), p / bs);
      LossAt(m, store, store[..k], gone, more, bs, p);
    }
    assert Recalled(c, now, j, bs);
  }

  lemma {:induction false} LossSplit(store: seq<Segment>, k: nat, gone: set<nat>, more: seq<Segment>, mark: int)
    returns (j: nat)
    requires k <= |store| && (forall i | k <= i < |store| :: store[i].id > mark)
    requires forall i | 0 <= i < |more| :: more[i].id > mark
    ensures var now := Kept(store, gone) + more;
      j <= |now| && now[..j] == Kept(store[..k], gone) && forall i | j <= i < |now| :: now[i].id > mark
  {
    var a, b := store[..k], store[k..];
    assert store == a + b;
    KeptAppend(a, b, gone);
    KeptShape(b, gone);
    hide Kept;
    j := |Kept(a, gone)|;
    var now := Kept(store, gone) + more;
    assert now[..j] == Kept(a, gone) && now[j..] == Kept(b, gone) + more;
    forall i | j <= i < |now| ensures now[i].id > mark {
      assert now[i] == now[j..][i - j];
      if i - j < |Kept(b, gone)| { assert Kept(b, gone)[i - j] in b; }
    }
  }

  lemma {:induction false} LossAt(m: MapState, store: seq<Segment>, a: seq<Segment>, gone: set<nat>, more: seq<Segment>,
                                  bs: nat, p: nat)
    requires bs > 0 && Usable(m) && forall i | 0 <= i < |more| :: more[i].id !in m.totals
    requires Owner(m.extents, p / bs).None? || Owner(m.extents, p / bs) == TagOf(StoreEffect(a, bs, p))
    ensures var o := IfThere(Owner(m.extents, p / bs), Ids(Kept(store, gone) + more));
      o.None? || o == TagOf(StoreEffect(Kept(a, gone), bs, p))
  {
    hide Owner; hide StoreEffect; hide Kept; hide Usable; hide Ids;
    if IfThere(Owner(m.extents, p / bs), Ids(Kept(store, gone) + more)).Some? {
      StillThere(m, store, gone, more, p / bs);
      KeptEffect(a, gone, bs, p);
    }
  }

  /** If the oldest segments were deleted, as a limit on the size of the log does, the map fits
      what is left: no block of theirs has an older owner. */
  lemma {:induction false} OldestLost(m: MapState, store: seq<Segment>, d: nat, more: seq<Segment>, bs: nat)
    requires Tracks(m, store, bs) && d <= |store| && StoreOk(store[d..] + more, bs)
    requires forall i | 0 <= i < |more| :: more[i].id > m.lastLabel && more[i].id !in m.totals
    ensures var now := store[d..] + more; Tracks(Cleaned(m, Ids(now)), now, bs)
  {
    var now, c := store[d..] + more, Cleaned(m, Ids(store[d..] + more));
    CleanedUsable(m, Ids(now));
    CleanedLabel(m, Ids(now));
    var k :| 0 <= k <= |store| && Seen(m, store, k, bs);
    var j := if d <= k then k - d else 0;
    hide Owner; hide StoreEffect; hide Cleaned; hide Usable; hide IfThere;
    assert now[..j] == if d <= k then store[d..k] else [];
    forall i | j <= i < |now| ensures now[i].id > m.lastLabel {
      if i < |store| - d { assert now[i] == store[d + i]; } else { assert now[i] == more[i - (|store| - d)]; }
    }
    forall p: nat ensures Owner(c.extents, p / bs) == TagOf(StoreEffect(now[..j], bs, p)) {
      CleanedOwner(m, Ids(now), p / bs);
      OldestLostAt(m, store, d, k, more, bs, p);
    }
    assert Seen(c, now, j, bs);
  }

  lemma {:induction false} OldestLostAt(m: MapState, store: seq<Segment>, d: nat, k: nat, more: seq<Segment>, bs: nat,
                                        p: nat)
    requires bs > 0 && Usable(m) && d <= |store| && k <= |store| && StoreOk(store, bs)
    requires forall i | 0 <= i < |more| :: more[i].id !in m.totals
    requires Owner(m.extents, p / bs) == TagOf(StoreEffect(store[..k], bs, p))
    ensures IfThere(Owner(m.extents, p / bs), Ids(store[d..] + more)) ==
            TagOf(StoreEffect(if d <= k then store[d..k] else [], bs, p))
  {
    var e := StoreEffect(store[..k], bs, p);
    var a, b := if d <= k then store[..d] else store[..k], if d <= k then store[d..k] else [];
    assert store[..k] == a + b;
    assert e.Some? ==> e.value.seg in m.totals by {
      if e.Some? { var w := OwnerWitness(m.extents, p / bs); }
    }
    StoreEffectAppend(a, b, bs, p);
    assert StoreEffect([], bs, p).None?;
    hide Owner; hide StoreEffect; hide Usable; hide StoreOk; hide Ids;
    if StoreEffect(b, bs, p).Some? {
      var q := StoreEffectIndex(b, bs, p);
      LeftThere(store, d, d + q, more, bs);
    } else if e.Some? {
      var q := StoreEffectIndex(a, bs, p);
      LeftThere(store, d, q, more, bs);
      assert a[q] == store[q];
    }
  }

  lemma {:induction false} LeftThere(store: seq<Segment>, d: nat, q: nat, more: seq<Segment>, bs: nat)
    requires bs > 0 && StoreOk(store, bs) && d <= |store| && q < |store|
    ensures q >= d ==> store[q].id in Ids(store[d..] + more)
    ensures q < d && store[q].id in Ids(store[d..] + more) ==> exists i | 0 <= i < |more| :: more[i].id == store[q].id
  {
    IdsAppend(store[d..], more);
    if q >= d { assert store[d..][q - d] == store[q]; }
    forall i | q < d && 0 <= i < |store[d..]| ensures store[d..][i].id != store[q].id {
      assert store[d..][i] == store[d + i];
    }
  }

  /** Once a map with no wrong owner has read what is new, it still has none. */
  lemma {:induction false} UpdatedRight(m: MapState, store: seq<Segment>, bs: nat, repaired: bool)
    requires Remembers(m, store, bs)
    ensures OwnersRight(Updated(m, store, bs, repaired).extents, store, bs)
  {
    CleanedUsable(m, Ids(store));
    var k := AfterSuffix(store, m.lastLabel);
    assert StoreOk(store[k..], bs);
    var j :| 0 <= j <= |store| && Recalled(m, store, j, bs);
    if j < |store| { assert store[j].id > m.lastLabel; }
    hide Layered; hide OwnersRight; hide Read; hide StoreOk; hide Usable; hide Cleaned;
    ReadLayered(m, store[k..], bs, repaired);
    RereadRight(Read(m, store[k..], bs, repaired).extents, m.extents, store, k, j, bs);
  }

  lemma {:induction false} RereadRight(xs: seq<Extent<Tag>>, xs0: seq<Extent<Tag>>, store: seq<Segment>, k: nat,
                                       m: nat, bs: nat)
    requires bs > 0 && k <= m <= |store|
    requires OwnersRight(xs0, store[..m], bs) && Layered(xs, xs0, store[k..], bs)
    ensures OwnersRight(xs, store, bs)
  {
    hide Owner; hide StoreEffect;
    var a, b, c := store[..k], store[k..m], store[m..];
    assert store == a + store[k..] && store[..m] == a + b && store[k..] == b + c;
    forall p: nat ensures Owner(xs, p / bs).None? || Owner(xs, p / bs) == TagOf(StoreEffect(store, bs, p)) {
      RereadByte(a, b, c, bs, p);
      assert Owner(xs0, p / bs).None? || Owner(xs0, p / bs) == TagOf(StoreEffect(a + b, bs, p));
    }
  }

  /** Cleaning up twice is cleaning up once. */
  lemma {:induction false} UpdatedCleaned(m: MapState, store: seq<Segment>, bs: nat, repaired: bool)
    requires bs > 0 && Usable(m)
    ensures Updated(Cleaned(m, Ids(store)), store, bs, repaired) == Updated(m, store, bs, repaired)
  {
    CleanedUsable(m, Ids(store));
    CleanedLabel(m, Ids(store));
    CleanedUsable(Cleaned(m, Ids(store)), Ids(store));
  }

  // ---------------------------------------------------------------- live bytes and totals

  /** The live writes of the map are in the logs, and live bytes are at most the totals. */
  ghost predicate Accounted(m: MapState, store: seq<Segment>, bs: nat) {
    bs > 0 && m.totals.Keys <= Ids(store) && Backed(m.extents, store, bs) && Bounded(m.extents, m.totals, bs)
  }

  lemma {:induction false} TracksBacked(m: MapState, store: seq<Segment>, bs: nat)
    requires Tracks(m, store, bs)
    ensures Backed(m.extents, store, bs)
  {
    var xs := m.extents;
    var k :| 0 <= k <= |store| && Seen(m, store, k, bs);
    StoreOkPrefix(store, bs, k);
    AgreesBacked(xs, store[..k], bs);
    hide KindIs; hide Owner; hide StoreEffect;
    forall b: nat, j | 0 <= j < |store| && OwnedBy(xs, b, store[j].id)
      ensures KindIs(store[j].entries, bs, b, Owner(xs, b).value.isTrim)
    {
      MulDivMod(b, bs);
      assert Owner(xs, b * bs / bs) == TagOf(StoreEffect(store[..k], bs, b * bs));
      var i := StoreEffectIndex(store[..k], bs, b * bs);
      assert store[..k][i] == store[i] && store[i].id == store[j].id;
      assert i == j;
    }
  }

  /** Segments that the map does not know do not disturb it. */
  lemma {:induction false} BackedGrowth(m: MapState, store: seq<Segment>, more: seq<Segment>, bs: nat)
    requires bs > 0 && StoreOk(store + more, bs) && Usable(m) && m.totals.Keys <= Ids(store)
    requires Backed(m.extents, store, bs)
    ensures Backed(m.extents, store + more, bs)
  {
    var xs, all := m.extents, store + more;
    hide KindIs; hide Owner;
    forall b: nat, j | 0 <= j < |all| && OwnedBy(xs, b, all[j].id)
      ensures KindIs(all[j].entries, bs, b, Owner(xs, b).value.isTrim)
    {
      var k := OwnerWitness(xs, b);
      var i :| 0 <= i < |store| && store[i].id == xs[k].tag.seg;
      assert all[i] == store[i] && all[i].id == all[j].id;
      assert i == j;
    }
  }

  lemma {:induction false} UpdatedBacked(m: MapState, store: seq<Segment>, bs: nat, repaired: bool)
    requires bs > 0 && StoreOk(store, bs) && Usable(m) && m.totals.Keys <= Ids(store) && Backed(m.extents, store, bs)
    ensures Backed(Updated(m, store, bs, repaired).extents, store, bs)
  {
    CleanedUsable(m, Ids(store));
    var k := AfterSuffix(store, m.lastLabel);
    assert StoreOk(store[k..], bs);
    ReadLayered(m, store[k..], bs, repaired);
    var xs := Read(m, store[k..], bs, repaired).extents;
    hide Read; hide KindIs; hide Owner; hide Cleaned; hide After; hide Usable;
    forall b: nat, j | 0 <= j < |store| && OwnedBy(xs, b, store[j].id)
      ensures KindIs(store[j].entries, bs, b, Owner(xs, b).value.isTrim)
    {
      MulDivMod(b, bs);
      assert Owner(xs, b * bs / bs) == Owner(xs, b);
      LayeredKind(xs, m.extents, store, k, bs, b, j);
    }
  }

  lemma {:induction false} LayeredKind(xs: seq<Extent<Tag>>, xs0: seq<Extent<Tag>>, store: seq<Segment>, k: nat,
                                       bs: nat, b: nat, j: nat)
    requires bs > 0 && StoreOk(store, bs) && k <= |store| && j < |store| && Backed(xs0, store, bs)
    requires Layered(xs, xs0, store[k..], bs) && OwnedBy(xs, b, store[j].id)
    ensures KindIs(store[j].entries, bs, b, Owner(xs, b).value.isTrim)
  {
    var p := b * bs;
    MulDivMod(b, bs);
    var e := StoreEffect(store[k..], bs, p);
    hide Owner; hide StoreEffect;
    assert Owner(xs, p / bs) == if e.Some? then TagOf(e) else Owner(xs0, p / bs);
    if e.Some? {
      var i := StoreEffectIndex(store[k..], bs, p);
      assert store[k..][i] == store[k + i];
      assert k + i == j;
      EffectLast(store[j].entries, bs, p);
    }
  }

  lemma {:induction false} UpdatedBounded(m: MapState, store: seq<Segment>, bs: nat, repaired: bool)
    requires bs > 0 && StoreOk(store, bs) && Usable(m) && m.totals.Keys <= Ids(store)
    requires Bounded(m.extents, m.totals, bs)
    ensures var u := Updated(m, store, bs, repaired); Bounded(u.extents, u.totals, bs)
  {
    CleanedUsable(m, Ids(store));
    var k := AfterSuffix(store, m.lastLabel);
    assert StoreOk(store[k..], bs);
    hide Bounded; hide Read; hide StoreOk; hide Usable; hide Cleaned;
    ReadBounded(m, store[k..], bs, repaired);
  }

  /** Reading new logs keeps the accounts. */
  lemma {:induction false} UpdatedAccounted(m: MapState, store: seq<Segment>, bs: nat, repaired: bool)
    requires bs > 0 && StoreOk(store, bs) && Usable(m) && Accounted(m, store, bs)
    ensures Accounted(Updated(m, store, bs, repaired), store, bs)
  {
    hide Updated; hide StoreOk; hide Usable; hide Backed; hide Bounded;
    UpdatedUsable(m, store, bs, repaired);
    UpdatedBacked(m, store, bs, repaired);
    UpdatedBounded(m, store, bs, repaired);
  }

  /** Every total grows by the bytes of its segment, if the segment is newer than the last
      label: also if it has been counted before. */
  lemma {:induction false} UpdatedTotal(m: MapState, store: seq<Segment>, bs: nat, repaired: bool, id: nat)
    requires bs > 0 && m.totals.Keys <= Ids(store) && Usable(m)
    ensures TotalOf(Updated(m, store, bs, repaired).totals, id) ==
            TotalOf(m.totals, id) + if id > m.lastLabel then BytesIn(store, id) else 0
  {
    CleanedUsable(m, Ids(store));
    hide Read; hide TotalOf; hide BytesIn; hide After; hide Cleaned;
    ReadTotal(m, After(store, m.lastLabel), bs, repaired, id);
    AfterBytes(store, m.lastLabel, id);
  }

  /** Where the known totals are right, a total is right again after reading exactly when its
      segment writes nothing or has now been counted once: it was known and is not newer than
      the last label, or the other way round. */
  lemma {:induction false} TotalExactIff(m: MapState, store: seq<Segment>, bs: nat, repaired: bool, id: nat)
    requires bs > 0 && m.totals.Keys <= Ids(store) && Usable(m)
    requires TotalOf(m.totals, id) == if id in m.totals then BytesIn(store, id) else 0
    ensures TotalOf(Updated(m, store, bs, repaired).totals, id) == BytesIn(store, id) <==>
            BytesIn(store, id) == 0 || (id in m.totals <==> id <= m.lastLabel)
  {
    hide Updated; hide TotalOf; hide BytesIn;
    UpdatedTotal(m, store, bs, repaired, id);
  }

  // ---------------------------------------------------------------- the same, in place

  /** Applies one log to the live map, entry by entry. */
  method ProcessLog(s: Segment, lm: LiveMap)
    requires lm.blockSize > 0
    modifies lm
    ensures lm.State() == ReadOne(old(lm.State()), s, lm.blockSize, lm.repaired)
  {
    for i := 0 to |s.entries|
      invariant lm.extents == Applied(old(lm.extents), s, lm.blockSize, i, lm.repaired)
      invariant lm.segments == Tallied(old(lm.segments), s, i)
    {
      hide Placed;
      var e := s.entries[i];
      var numBlocks := e.NumBlocks(lm.blockSize);
      if e.Write? {
        lm.ApplyOp(e.block, numBlocks, s.id, false);
        lm.AddSegmentEntry(s.id, true, e.Length());
      } else {
        lm.ApplyOp(e.block, numBlocks, s.id, true);
        lm.AddSegmentEntry(s.id, false, 0);
      }
    }
    lm.lastLabel := s.id;
  }

  /** The logs an incremental run has to read. */
  method NewLogs(logs: seq<Segment>, lastLabel: int) returns (todo: seq<Segment>)
    ensures todo == After(logs, lastLabel)
  {
    todo := [];
    for i := 0 to |logs|
      invariant todo == After(logs[..i], lastLabel)
    {
      assert logs[..i + 1][..i] == logs[..i];
      if logs[i].id > lastLabel { todo := todo + [logs[i]]; }
    }
    assert logs[..|logs|] == logs;
  }

  /** Reads every log newer than the last label through the live map. */
  method ProcessNewLogs(store: LogStore, lm: LiveMap)
    requires lm.blockSize > 0
    modifies lm
    ensures lm.State() == Read(old(lm.State()), After(store.segments, old(lm.lastLabel)), lm.blockSize, lm.repaired)
  {
    var todo := NewLogs(store.segments, lm.lastLabel);
    for i := 0 to |todo|
      invariant lm.State() == Read(old(lm.State()), todo[..i], lm.blockSize, lm.repaired)
    {
      hide ReadOne;
      assert todo[..i + 1][..i] == todo[..i];
      ProcessLog(todo[i], lm);
    }
    assert todo[..|todo|] == todo;
  }

  /** Drops segments of the map that the store no longer has. */
  method CleanUp(store: LogStore, lm: LiveMap)
    modifies lm
    ensures lm.State() == Cleaned(old(lm.State()), Ids(store.segments))
    ensures forall id :: id in lm.segments <==> id in old(lm.segments) && id in Ids(store.segments)
    ensures forall id | id in lm.segments :: lm.segments[id] == old(lm.segments)[id]
    ensures old(Usable(lm.State())) ==>
      forall b: nat :: Owner(lm.extents, b) == IfThere(old(Owner(lm.extents, b)), Ids(store.segments))
  {
    if Usable(lm.State()) {
      forall b: nat { CleanedOwner(lm.State(), Ids(store.segments), b); }
    }
    var existing := Ids(store.segments);
    var rest := lm.segments.Keys;
    ghost var keys := rest;
    ghost var gone: set<nat> := {};
    WithoutNone(lm.extents);
    while rest != {}
      invariant rest <= keys && lm.lastLabel == old(lm.lastLabel)
      invariant gone == keys - rest - existing
      invariant lm.segments == old(lm.segments) - gone
      invariant lm.extents == WithoutAll(old(lm.extents), gone)
      decreases rest
    {
      var id :| id in rest;
      rest := rest - {id};
      if id !in existing {
        lm.RemoveSegment(id);
        WithoutOneMore(old(lm.extents), gone, id);
        gone := gone + {id};
      }
    }
    assert gone == keys - existing;
  }

  // ---------------------------------------------------------------- choosing segments

  datatype SegmentStats = SegmentStats(id: nat, totalWriteBytes: nat, liveWriteBytes: nat, totalEntries: nat,
    liveEntries: nat)

  function StatsOf(xs: seq<Extent<Tag>>, bs: nat, id: nat, info: SegInfo): SegmentStats {
    SegmentStats(id, info.totalWriteBytes, LiveBlocks(xs, id) * bs, info.totalEntries, LiveCount(xs, id))
  }

  /** The keys in ascending order, as sort.Strings leaves them. */
  method SortedIds(keys: set<nat>) returns (ids: seq<nat>)
    ensures StrictlySorted(ids) && forall x :: x in ids <==> x in keys
  {
    ids := [];
    var rest := keys;
    while rest != {}
      invariant rest <= keys && StrictlySorted(ids)
      invariant forall x :: x in ids <==> x in keys - rest
      invariant forall i, y | 0 <= i < |ids| && y in rest :: ids[i] < y
      decreases rest
    {
      var least :| least in rest;
      var others := rest - {least};
      while others != {}
        invariant others <= rest && least in rest
        invariant forall y | y in rest && y !in others :: least <= y
        decreases others
      {
        var y :| y in others;
        if y < least { least := y; }
        others := others - {y};
      }
      ids := ids + [least];
      rest := rest - {least};
    }
  }

  function At(m: map<nat, nat>, id: nat): nat { if id in m then m[id] else 0 }

  lemma {:induction false} LiveBytesSnoc(xs: seq<Extent<Tag>>, i: nat, id: nat, bs: nat)
    requires i < |xs|
    ensures LiveBlocks(xs[..i + 1], id) * bs ==
            LiveBlocks(xs[..i], id) * bs + if xs[i].tag == Tag(id, false) then xs[i].blocks * bs else 0
    ensures LiveCount(xs[..i + 1], id) == LiveCount(xs[..i], id) + if xs[i].tag.seg == id then 1 else 0
  {
    assert xs[..i + 1][..i] == xs[..i];
    Distribute(LiveBlocks(xs[..i], id), xs[i].blocks, bs);
  }

  /** Per-segment live bytes and counts, in one pass over the extents. */
  method LiveTotals(xs: seq<Extent<Tag>>, bs: nat) returns (bytes: map<nat, nat>, counts: map<nat, nat>)
    ensures forall id: nat :: At(bytes, id) == LiveBlocks(xs, id) * bs
    ensures forall id: nat :: At(counts, id) == LiveCount(xs, id)
  {
    bytes := map[];
    counts := map[];
    assert xs[..0] == [];
    for i := 0 to |xs|
      invariant forall id: nat :: At(bytes, id) == LiveBlocks(xs[..i], id) * bs
      invariant forall id: nat :: At(counts, id) == LiveCount(xs[..i], id)
    {
      var x := xs[i];
      ghost var b0, c0 := bytes, counts;
      if !x.tag.isTrim {
        bytes := bytes[x.tag.seg := At(bytes, x.tag.seg) + x.blocks * bs];
      }
      counts := counts[x.tag.seg := At(counts, x.tag.seg) + 1];
      forall id: nat
        ensures At(bytes, id) == LiveBlocks(xs[..i + 1], id) * bs && At(counts, id) == LiveCount(xs[..i + 1], id)
      {
        LiveBytesSnoc(xs, i, id, bs);
        hide LiveBlocks;
        hide LiveCount;
        assert At(b0, id) == LiveBlocks(xs[..i], id) * bs && At(c0, id) == LiveCount(xs[..i], id);
      }
      hide LiveBlocks;
      hide LiveCount;
    }
    assert xs[..|xs|] == xs;
  }

  function StatIds(stats: seq<SegmentStats>): seq<nat> { seq(|stats|, i requires 0 <= i < |stats| => stats[i].id) }

  /** One record per segment of the map, in label order. */
  ghost predicate StatsFor(stats: seq<SegmentStats>, m: MapState, bs: nat) {
    && StrictlySorted(StatIds(stats)) && SetOf(StatIds(stats)) == m.totals.Keys
    && forall i | 0 <= i < |stats| ::
         stats[i].id in m.totals && stats[i] == StatsOf(m.extents, bs, stats[i].id, m.totals[stats[i].id])
  }

  /** Live bytes of all segments together. */
  function LiveBytes(stats: seq<SegmentStats>): nat {
    if stats == [] then 0 else LiveBytes(stats[..|stats| - 1]) + stats[|stats| - 1].liveWriteBytes
  }

  lemma {:induction false} LiveBytesSum(stats: seq<SegmentStats>, xs: seq<Extent<Tag>>, bs: nat)
    requires forall i | 0 <= i < |stats| :: stats[i].liveWriteBytes == LiveBlocks(xs, stats[i].id) * bs
    ensures LiveBytes(stats) == SumLive(xs, StatIds(stats)) * bs
  {
    if stats != [] {
      var n := |stats| - 1;
      LiveBytesSum(stats[..n], xs, bs);
      assert StatIds(stats)[..n] == StatIds(stats[..n]);
      Distribute(SumLive(xs, StatIds(stats[..n])), LiveBlocks(xs, stats[n].id), bs);
    }
  }

  /** The live bytes in the statistics are the block size times the number of blocks whose
      last toucher is a write. */
  lemma {:induction false} StatsCountWrites(stats: seq<SegmentStats>, m: MapState, store: seq<Segment>, bs: nat, n: nat)
    requires bs > 0 && Usable(m) && Agrees(m.extents, store, bs) && StatsFor(stats, m, bs) && Untouched(store, bs, n)
    ensures LiveBytes(stats) == WrittenBlocks(store, bs, n) * bs
  {
    forall i | 0 <= i < |stats| ensures stats[i].liveWriteBytes == LiveBlocks(m.extents, stats[i].id) * bs {
      assert stats[i] == StatsOf(m.extents, bs, stats[i].id, m.totals[stats[i].id]);
    }
    hide LiveBlocks; hide SumLive; hide WrittenBlocks; hide LiveBytes;
    LiveBytesSum(stats, m.extents, bs);
    LiveWritesCount(store, m.extents, StatIds(stats), bs, n);
  }

  method ComputeStats(lm: LiveMap) returns (stats: seq<SegmentStats>)
    ensures StatsFor(stats, lm.State(), lm.blockSize)
  {
    var bytes, counts := LiveTotals(lm.extents, lm.blockSize);
    var ids := SortedIds(lm.segments.Keys);
    stats := [];
    for i := 0 to |ids|
      invariant |stats| == i
      invariant forall k | 0 <= k < i ::
          stats[k].id == ids[k] && ids[k] in lm.segments
          && stats[k] == StatsOf(lm.extents, lm.blockSize, ids[k], lm.segments[ids[k]])
    {
      assert ids[i] in ids;
      var info := lm.segments[ids[i]];
      stats := stats +
        [SegmentStats(ids[i], info.totalWriteBytes, At(bytes, ids[i]), info.totalEntries, At(counts, ids[i]))];
    }
    assert StatIds(stats) == ids;
  }

  /** Utilization below the threshold, both as exact fractions; trim-only segments and, when
      there are several, the most recent one are never retired. */
  predicate RetiresAt(stats: seq<SegmentStats>, i: nat, threshold: nat)
    requires i < |stats|
  {
    && !(i == |stats| - 1 && |stats| > 1)
    && stats[i].totalWriteBytes > 0
    && stats[i].liveWriteBytes * 100 < threshold * stats[i].totalWriteBytes
  }

  /** Exactly the segments that fall below the threshold, in label order. */
  ghost predicate Chosen(retire: seq<nat>, stats: seq<SegmentStats>, threshold: nat) {
    && StrictlySorted(retire)
    && forall id :: id in retire <==> exists i | 0 <= i < |stats| :: stats[i].id == id && RetiresAt(stats, i, threshold)
  }

  method ChooseRetired(stats: seq<SegmentStats>, threshold: nat) returns (retire: seq<nat>)
    requires StrictlySorted(StatIds(stats))
    ensures Chosen(retire, stats, threshold)
  {
    retire := [];
    ghost var ids := StatIds(stats);
    for i := 0 to |stats|
      invariant StrictlySorted(retire)
      invariant forall id :: id in retire <==>
        exists k | 0 <= k < i :: stats[k].id == id && RetiresAt(stats, k, threshold)
    {
      if !(i == |stats| - 1 && |stats| > 1) &&
         stats[i].liveWriteBytes * 100 < threshold * stats[i].totalWriteBytes && stats[i].totalWriteBytes > 0 {
        forall k | 0 <= k < |retire| ensures retire[k] < stats[i].id {
          assert retire[k] in retire;
          var j :| 0 <= j < i && stats[j].id == retire[k] && RetiresAt(stats, j, threshold);
          assert ids[j] < ids[i];
        }
        retire := retire + [stats[i].id];
      }
    }
  }

  // ---------------------------------------------------------------- copying live data

  method ClipLoop(rs: seq<Interval>, segExtents: seq<Extent<Tag>>) returns (live: seq<Interval>)
    requires forall i | 0 <= i < |rs| :: rs[i].lo <= rs[i].hi
    ensures live == Clip(rs, segExtents)
  {
    live := [];
    for k := 0 to |rs|
      invariant live == Clip(rs[..k], segExtents)
    {
      assert rs[..k + 1][..k] == rs[..k];
      var found := QueryLoop(segExtents, rs[k].lo, rs[k].hi);
      live := live + Spans(found);
    }
    assert rs[..|rs|] == rs;
  }

  /** computeRetireLiveness: the backward sweep, then every range against the extents. */
  method ComputeRetireLiveness(es: seq<Entry>, bs: nat, segExtents: seq<Extent<Tag>>)
    returns (result: seq<seq<Interval>>)
    requires bs > 0
    ensures result == LiveRanges(es, bs, segExtents)
  {
    var within := ReverseSweep(es, bs);
    SweepUnique(es, bs, within);
    result := [];
    for i := 0 to |es|
      invariant |result| == i
      invariant forall k | 0 <= k < i :: result[k] == LiveRange(es, bs, segExtents, k)
    {
      var live := ClipLoop(within[i], segExtents);
      result := result + [live];
    }
  }

  lemma {:induction false} CopiedEmptySet(store: seq<Segment>, xs: seq<Extent<Tag>>, bs: nat)
    requires bs > 0 && StoreOk(store, bs) && Positive(xs)
    ensures Copied(store, xs, {}, bs) == []
  {
    if store != [] { CopiedEmptySet(store[..|store| - 1], xs, bs); }
  }

  lemma {:induction false} CopiedIrrelevant(store: seq<Segment>, xs: seq<Extent<Tag>>, gone: set<nat>, id: nat, bs: nat)
    requires bs > 0 && StoreOk(store, bs) && Positive(xs)
    requires forall k | 0 <= k < |store| :: store[k].id != id
    ensures Copied(store, xs, gone + {id}, bs) == Copied(store, xs, gone, bs)
  {
    if store != [] { CopiedIrrelevant(store[..|store| - 1], xs, gone, id, bs); }
  }

  /** Retiring segments in label order appends their copies one after the other. */
  lemma {:induction false} CopiedNext(store: seq<Segment>, xs: seq<Extent<Tag>>, gone: set<nat>, j: nat, bs: nat)
    requires bs > 0 && StoreOk(store, bs) && Positive(xs) && j < |store|
    requires forall g | g in gone :: g < store[j].id
    ensures Copied(store, xs, gone + {store[j].id}, bs) == Copied(store, xs, gone, bs) + SegOut(store[j], xs, bs)
  {
    var n := |store| - 1;
    if j == n {
      forall k | 0 <= k < n ensures store[k].id != store[n].id { assert store[k].id < store[n].id; }
      CopiedIrrelevant(store[..n], xs, gone, store[n].id, bs);
      assert Copied(store, xs, gone, bs) == Copied(store[..n], xs, gone, bs) + [];
    } else {
      assert store[j].id < store[n].id;
      CopiedNext(store[..n], xs, gone, j, bs);
    }
  }

  method OpenSegment(store: LogStore, id: nat) returns (s: Segment, ghost j: nat)
    requires id in Ids(store.segments)
    ensures j < |store.segments| && s == store.segments[j] && s.id == id
  {
    var i := 0;
    ghost var w :| 0 <= w < |store.segments| && store.segments[w].id == id;
    while store.segments[i].id != id
      invariant 0 <= i <= w
      decreases w - i
    {
      i := i + 1;
    }
    s, j := store.segments[i], i;
  }

  /** The copy loop: the live ranges of every retired segment, in label order. */
  method CopyOut(store: LogStore, lm: LiveMap, retire: seq<nat>) returns (out: seq<Entry>)
    requires lm.blockSize > 0 && StoreOk(store.segments, lm.blockSize) && Positive(lm.extents)
    requires StrictlySorted(retire) && forall id | id in retire :: id in Ids(store.segments)
    ensures out == Copied(store.segments, lm.extents, SetOf(retire), lm.blockSize)
  {
    var bs := lm.blockSize;
    out := [];
    CopiedEmptySet(store.segments, lm.extents, bs);
    assert SetOf(retire[..0]) == {};
    for i := 0 to |retire|
      invariant out == Copied(store.segments, lm.extents, SetOf(retire[..i]), bs)
    {
      assert retire[i] in retire;
      var s, j := OpenSegment(store, retire[i]);
      ghost var gone := SetOf(retire[..i]);
      assert SetOf(retire[..i + 1]) == gone + {s.id};
      CopiedNext(store.segments, lm.extents, gone, j, bs);
      var segExtents := lm.SegmentLiveExtents(s.id);
      SegExtentsMember(lm.extents, s.id);
      LiveRangesWithin(s.entries, bs, segExtents);
      if |segExtents| == 0 {
        NoExtentsNoCopy(s.entries, bs);
        assert out + [] == out;
        continue;
      }
      var live := ComputeRetireLiveness(s.entries, bs, segExtents);
      var copied := EmitLoop(s.entries, live, bs);
      out := out + copied;
    }
    assert retire[..|retire|] == retire;
  }

  lemma {:induction false} ClipNothing(rs: seq<Interval>)
    requires forall i | 0 <= i < |rs| :: rs[i].lo <= rs[i].hi
    ensures Clip(rs, []) == []
  {
    if rs != [] { ClipNothing(rs[..|rs| - 1]); }
  }

  lemma {:induction false} EmitNothing(es: seq<Entry>, ranges: seq<seq<Interval>>, bs: nat, n: nat)
    requires bs > 0 && n <= |es| && AllWithin(es, bs, ranges)
    requires forall i | 0 <= i < |es| :: ranges[i] == []
    ensures Emit(es, ranges, bs, n) == []
  {
    if n > 0 { EmitNothing(es, ranges, bs, n - 1); }
  }

  lemma {:induction false} NoExtentsNoCopy(es: seq<Entry>, bs: nat)
    requires bs > 0 && AllWithin(es, bs, LiveRanges(es, bs, []))
    ensures Emit(es, LiveRanges(es, bs, []), bs, |es|) == []
  {
    forall i | 0 <= i < |es| ensures LiveRanges(es, bs, [])[i] == [] {
      SweepRangeExact(es, bs, i);
      ClipNothing(SweepRange(es, bs, i));
    }
    EmitNothing(es, LiveRanges(es, bs, []), bs, |es|);
  }

  // ---------------------------------------------------------------- deleting

  lemma {:induction false} KeptKept(store: seq<Segment>, a: set<nat>, b: set<nat>)
    ensures Kept(Kept(store, a), b) == Kept(store, a + b)
  {
    if store != [] {
      var n := |store| - 1;
      KeptKept(store[..n], a, b);
      if store[n].id !in a {
        var k := Kept(store[..n], a) + [store[n]];
        assert k[..|k| - 1] == Kept(store[..n], a);
      } else {
        assert Kept(store[..n], a) + [] == Kept(store[..n], a);
      }
    }
  }

  lemma {:induction false} KeptAll(store: seq<Segment>)
    ensures Kept(store, {}) == store
  {
    if store != [] { KeptAll(store[..|store| - 1]); }
  }

  lemma {:induction false} KeptLast(store: seq<Segment>, s: Segment, gone: set<nat>)
    requires s.id !in gone
    ensures Kept(store + [s], gone) == Kept(store, gone) + [s]
  {
    assert (store + [s])[..|store|] == store;
  }

  method DeleteAll(store: LogStore, retire: seq<nat>)
    modifies store
    ensures store.segments == Kept(old(store.segments), SetOf(retire))
  {
    KeptAll(store.segments);
    assert SetOf(retire[..0]) == {};
    for i := 0 to |retire|
      invariant store.segments == Kept(old(store.segments), SetOf(retire[..i]))
    {
      store.Delete(retire[i]);
      KeptKept(old(store.segments), SetOf(retire[..i]), {retire[i]});
      assert SetOf(retire[..i + 1]) == SetOf(retire[..i]) + {retire[i]};
    }
    assert retire[..|retire|] == retire;
  }

  // ---------------------------------------------------------------- updating the map

  /** The tag with every retired segment renamed. */
  function RenamedTag(t: Option<Tag>, gone: set<nat>, newId: nat): Option<Tag> {
    match t case None => None
    case Some(g) => if g.seg in gone then Some(Tag(newId, g.isTrim)) else t
  }

  lemma {:induction false} ReattributeStep(xs: seq<Extent<Tag>>, xs0: seq<Extent<Tag>>, gone: set<nat>, from: nat,
                                           to: nat, b: nat)
    requires Owner(xs, b) == RenamedTag(Owner(xs0, b), gone, to) && from != to
    ensures Owner(Merged(Retagged(xs, from, to)), b) == RenamedTag(Owner(xs0, b), gone + {from}, to)
  {
    RetaggedOwner(xs, from, to, b);
    MergedOwner(Retagged(xs, from, to), b);
  }

  /** Live blocks of a segment once the retired ones have been handed over. */
  function LiveAfter(xs: seq<Extent<Tag>>, retire: seq<nat>, newId: nat, seg: nat): nat {
    if seg in retire then 0
    else if seg == newId then LiveBlocks(xs, newId) + SumLive(xs, retire)
    else LiveBlocks(xs, seg)
  }

  /** The extents once every retired segment has been renamed, one after the other. */
  function Reattributed(xs: seq<Extent<Tag>>, retire: seq<nat>, newId: nat): seq<Extent<Tag>> {
    if retire == [] then xs
    else Merged(Retagged(Reattributed(xs, retire[..|retire| - 1], newId), retire[|retire| - 1], newId))
  }

  lemma {:induction false} ReattributedShape(xs: seq<Extent<Tag>>, retire: seq<nat>, newId: nat)
    requires Positive(xs) && Disjoint(xs)
    ensures var ys := Reattributed(xs, retire, newId); Positive(ys) && Disjoint(ys) && (Sorted(xs) ==> Sorted(ys))
  {
    if retire != [] {
      var n := |retire| - 1;
      var ys := Reattributed(xs, retire[..n], newId);
      ReattributedShape(xs, retire[..n], newId);
      hide Merged; hide Retagged; hide Positive; hide Disjoint; hide Sorted;
      RetaggedDisjoint(ys, retire[n], newId);
      MergedDisjoint(Retagged(ys, retire[n], newId));
      if Sorted(xs) { MergedSorted(Retagged(ys, retire[n], newId)); }
    }
  }

  lemma {:induction false} ReattributedOwner(xs: seq<Extent<Tag>>, retire: seq<nat>, newId: nat, b: nat)
    requires newId !in retire
    ensures Owner(Reattributed(xs, retire, newId), b) == RenamedTag(Owner(xs, b), SetOf(retire), newId)
  {
    if retire != [] {
      var n := |retire| - 1;
      ReattributedOwner(xs, retire[..n], newId, b);
      assert retire == retire[..n] + [retire[n]];
      assert SetOf(retire) == SetOf(retire[..n]) + {retire[n]};
      hide Owner; hide Merged; hide Retagged; hide SetOf;
      ReattributeStep(Reattributed(xs, retire[..n], newId), xs, SetOf(retire[..n]), retire[n], newId, b);
    }
  }

  lemma {:induction false} ReattributedLive(xs: seq<Extent<Tag>>, retire: seq<nat>, newId: nat, seg: nat)
    requires newId !in retire && StrictlySorted(retire)
    ensures LiveBlocks(Reattributed(xs, retire, newId), seg) == LiveAfter(xs, retire, newId, seg)
  {
    if retire != [] {
      var n := |retire| - 1;
      assert retire == retire[..n] + [retire[n]] && retire[n] !in retire[..n];
      ReattributedLive(xs, retire[..n], newId, seg);
      ReattributedLive(xs, retire[..n], newId, newId);
      ReattributedLive(xs, retire[..n], newId, retire[n]);
      var ys := Reattributed(xs, retire[..n], newId);
      hide LiveBlocks; hide Merged; hide Retagged; hide Reattributed;
      MergedLive(Retagged(ys, retire[n], newId), seg);
      RetaggedLive(ys, retire[n], newId, seg);
      assert Reattributed(xs, retire, newId) == Merged(Retagged(ys, retire[n], newId)) by {
        ReattributedSnoc(xs, retire, newId);
      }
    }
  }

  lemma {:induction false} ReattributedSnoc(xs: seq<Extent<Tag>>, retire: seq<nat>, newId: nat)
    requires retire != []
    ensures Reattributed(xs, retire, newId) ==
            Merged(Retagged(Reattributed(xs, retire[..|retire| - 1], newId), retire[|retire| - 1], newId))
  {
  }

  lemma {:induction false} MergedKeyed(xs: seq<Extent<Tag>>, keys: set<nat>)
    requires Keyed(xs, keys)
    ensures Keyed(Merged(xs), keys)
  {
    if |xs| > 1 { MergedKeyed(xs[..|xs| - 1], keys); }
  }

  lemma {:induction false} ReattributedKeyed(xs: seq<Extent<Tag>>, retire: seq<nat>, newId: nat, keys: set<nat>)
    requires Keyed(xs, keys) && newId !in retire
    ensures Keyed(Reattributed(xs, retire, newId), keys - SetOf(retire) + {newId})
  {
    if retire != [] {
      var n := |retire| - 1;
      ReattributedKeyed(xs, retire[..n], newId, keys);
      assert retire == retire[..n] + [retire[n]];
      assert SetOf(retire) == SetOf(retire[..n]) + {retire[n]};
      var ys := Retagged(Reattributed(xs, retire[..n], newId), retire[n], newId);
      hide Merged;
      assert Keyed(ys, keys - SetOf(retire) + {newId});
      MergedKeyed(ys, keys - SetOf(retire) + {newId});
    }
  }

  method ReattributeAll(lm: LiveMap, retire: seq<nat>, newId: nat)
    modifies lm
    ensures lm.lastLabel == old(lm.lastLabel)
    ensures lm.extents == Reattributed(old(lm.extents), retire, newId)
    ensures lm.segments == old(lm.segments) - SetOf(retire)
  {
    for i := 0 to |retire|
      invariant lm.lastLabel == old(lm.lastLabel)
      invariant lm.extents == Reattributed(old(lm.extents), retire[..i], newId)
      invariant lm.segments == old(lm.segments) - SetOf(retire[..i])
    {
      assert retire[..i + 1][..i] == retire[..i];
      assert SetOf(retire[..i + 1]) == SetOf(retire[..i]) + {retire[i]};
      lm.ReattributeSegment(retire[i], newId);
      lm.segments := lm.segments - {retire[i]};
    }
    assert retire[..|retire|] == retire;
  }

  lemma {:induction false} WithoutNothing(xs: seq<Extent<Tag>>, seg: nat)
    requires forall i | 0 <= i < |xs| :: xs[i].tag.seg != seg
    ensures WithoutSegment(xs, seg) == xs
  {
    if xs != [] { WithoutNothing(xs[..|xs| - 1], seg); }
  }

  method RemoveAll(lm: LiveMap, retire: seq<nat>)
    requires forall i | 0 <= i < |lm.extents| :: lm.extents[i].tag.seg !in retire
    modifies lm
    ensures lm.lastLabel == old(lm.lastLabel) && lm.extents == old(lm.extents)
    ensures lm.segments == old(lm.segments) - SetOf(retire)
  {
    for i := 0 to |retire|
      invariant lm.lastLabel == old(lm.lastLabel) && lm.extents == old(lm.extents)
      invariant lm.segments == old(lm.segments) - SetOf(retire[..i])
    {
      assert SetOf(retire[..i + 1]) == SetOf(retire[..i]) + {retire[i]};
      assert retire[i] in retire;
      lm.RemoveSegment(retire[i]);
      WithoutNothing(old(lm.extents), retire[i]);
    }
    assert retire[..|retire|] == retire;
  }

  lemma {:induction false} SegExtentsFrom(xs: seq<Extent<Tag>>, seg: nat) returns (j: nat)
    requires SegExtents(xs, seg) != []
    ensures j < |xs| && xs[j].tag.seg == seg
  {
    if xs[0].tag.seg == seg {
      j := 0;
    } else {
      j := SegExtentsFrom(xs[1..], seg);
      j := j + 1;
    }
  }

  /** Whether some retired segment still owns an extent. */
  method HasLive(lm: LiveMap, retire: seq<nat>) returns (live: bool)
    ensures live <==> OwnsAny(lm.extents, retire)
  {
    live := false;
    for i := 0 to |retire|
      invariant !live ==> forall j, k | 0 <= j < |lm.extents| && 0 <= k < i :: lm.extents[j].tag.seg != retire[k]
    {
      var found := lm.SegmentLiveExtents(retire[i]);
      if |found| > 0 {
        ghost var j := SegExtentsFrom(lm.extents, retire[i]);
        return true;
      }
      forall j | 0 <= j < |lm.extents| ensures lm.extents[j].tag.seg != retire[i] {
        if lm.extents[j].tag.seg == retire[i] { SegExtentsHas(lm.extents, retire[i], j); }
      }
    }
  }

  /** Segments that own nothing can be dropped without changing any byte. */
  lemma {:induction false} DropDead(store: seq<Segment>, xs: seq<Extent<Tag>>, gone: set<nat>, bs: nat, p: nat)
    requires bs > 0 && Agrees(xs, store, bs)
    requires forall i | 0 <= i < |xs| :: xs[i].tag.seg !in gone
    ensures StoreEffect(Kept(store, gone), bs, p) == StoreEffect(store, bs, p)
  {
    assert Owner(xs, p / bs) == TagOf(StoreEffect(store, bs, p));
    if Owner(xs, p / bs).Some? {
      var k := OwnerWitness(xs, p / bs);
    }
    KeptEffect(store, gone, bs, p);
  }

  /** Two stores do the same to every byte. */
  ghost predicate SameEffect(a: seq<Segment>, b: seq<Segment>, bs: nat) {
    forall p: nat :: Effect(Entries(a), bs, p) == Effect(Entries(b), bs, p)
  }

  lemma {:induction false} SameEffectAt(a: seq<Segment>, b: seq<Segment>, bs: nat, p: nat, gone: set<nat>, newId: nat)
    requires StoreEffect(a, bs, p) == Moved(StoreEffect(b, bs, p), gone, newId)
    ensures Effect(Entries(a), bs, p) == Effect(Entries(b), bs, p)
  {
    EntriesEffect(a, bs, p);
    EntriesEffect(b, bs, p);
  }

  // ---------------------------------------------------------------- retirement, as values

  /** Some extent belongs to a retired segment. */
  ghost predicate OwnsAny(xs: seq<Extent<Tag>>, retire: seq<nat>) {
    exists i | 0 <= i < |xs| :: xs[i].tag.seg in retire
  }

  datatype Outcome = Outcome(store: seq<Segment>, map_: MapState)

  /** What retirement leaves behind. */
  ghost function Retired(store: seq<Segment>, m: MapState, retire: seq<nat>, bs: nat, newId: nat): Outcome
    requires bs > 0 && StoreOk(store, bs) && Positive(m.extents)
  {
    var gone := SetOf(retire);
    if retire == [] then Outcome(store, m)
    else if !OwnsAny(m.extents, retire) then Outcome(Kept(store, gone), m.(totals := m.totals - gone))
    else
      var out := Copied(store, m.extents, gone, bs);
      Outcome(Collected(store, m.extents, gone, bs, newId),
              MapState(m.lastLabel, Reattributed(m.extents, retire, newId),
                       (m.totals - gone)[newId := SegInfo(|out|, WriteBytes(out))]))
  }

  /** What a run leaves behind: a dry run retires nothing. */
  ghost function Left(store: seq<Segment>, m: MapState, retire: seq<nat>, dryRun: bool, bs: nat, newId: nat): Outcome
    requires bs > 0 && StoreOk(store, bs) && Positive(m.extents)
  {
    if dryRun then Outcome(store, m) else Retired(store, m, retire, bs, newId)
  }

  /** The labels a run may retire, and the one it may use. */
  ghost predicate MayRetire(store: seq<Segment>, m: MapState, retire: seq<nat>, bs: nat, newId: nat) {
    && bs > 0 && StoreOk(store, bs) && Usable(m) && m.totals.Keys <= Ids(store)
    && (forall j | 0 <= j < |store| :: store[j].id < newId)
    && StrictlySorted(retire) && forall id | id in retire :: id in m.totals
  }

  lemma {:induction false} KnownKept(store: seq<Segment>, gone: set<nat>, known: set<nat>)
    requires known <= Ids(store)
    ensures known - gone <= Ids(Kept(store, gone))
  {
    KeptShape(store, gone);
    forall id | id in known - gone ensures id in Ids(Kept(store, gone)) {
      var i :| 0 <= i < |store| && store[i].id == id;
      assert store[i] in Kept(store, gone);
    }
  }

  /** Whatever is hidden, retirement leaves a store in label order and a usable map. */
  lemma {:induction false} RetiredUsable(store: seq<Segment>, m: MapState, retire: seq<nat>, bs: nat, newId: nat)
    requires MayRetire(store, m, retire, bs, newId)
    ensures var o := Retired(store, m, retire, bs, newId);
      && StoreOk(o.store, bs) && Usable(o.map_) && o.map_.totals.Keys <= Ids(o.store)
      && o.map_.lastLabel == m.lastLabel && (Sorted(m.extents) ==> Sorted(o.map_.extents))
    ensures forall j | 0 <= j < |Retired(store, m, retire, bs, newId).store| ::
              Retired(store, m, retire, bs, newId).store[j].id <= newId
  {
    var gone := SetOf(retire);
    KeptOk(store, gone, bs);
    KnownKept(store, gone, m.totals.Keys);
    KeptShape(store, gone);
    if retire == [] {
    } else if !OwnsAny(m.extents, retire) {
      forall i | 0 <= i < |m.extents| ensures m.extents[i].tag.seg in m.totals.Keys - gone { }
    } else {
      NewIsNew(store, m, retire, bs, newId);
      var out := Segment(newId, Copied(store, m.extents, gone, bs));
      CollectedOk(store, m.extents, gone, bs, newId);
      IdsAppend(Kept(store, gone), [out]);
      assert [out][0].id in Ids([out]);
      ReattributedShape(m.extents, retire, newId);
      ReattributedKeyed(m.extents, retire, newId, m.totals.Keys);
    }
  }

  lemma {:induction false} NewIsNew(store: seq<Segment>, m: MapState, retire: seq<nat>, bs: nat, newId: nat)
    requires MayRetire(store, m, retire, bs, newId)
    ensures newId !in Ids(store) && newId !in retire && newId !in m.totals
  {
  }

  /** Of the live bytes handed over to the new segment, it holds all but the lost ones. */
  lemma {:induction false} HandedOverBytes(store: seq<Segment>, m: MapState, retire: seq<nat>, bs: nat, newId: nat)
    requires MayRetire(store, m, retire, bs, newId) && Backed(m.extents, store, bs)
    ensures LiveBlocks(Reattributed(m.extents, retire, newId), newId) == SumLive(m.extents, retire)
    ensures var copied := WriteBytes(Copied(store, m.extents, SetOf(retire), bs));
      && copied <= SumLive(m.extents, retire) * bs
      && (copied == SumLive(m.extents, retire) * bs <==> WritesKept(store, m.extents, SetOf(retire), bs))
  {
    var xs, gone := m.extents, SetOf(retire);
    var n := ExtentsBound(xs);
    hide *;
    RetireFacts(store, m, retire, bs, newId);
    ReattributedLive(xs, retire, newId, newId);
    GivenLive(xs, retire, newId);
    RetiredSum(store, xs, retire);
    CopiedBytes(store, xs, gone, bs, n);
    NoneLostIff(store, xs, gone, bs, n);
    NothingOrMore(RetiredLost(store, xs, gone, bs, n), bs);
  }

  lemma {:induction false} RetireFacts(store: seq<Segment>, m: MapState, retire: seq<nat>, bs: nat, newId: nat)
    requires MayRetire(store, m, retire, bs, newId)
    ensures bs > 0 && StoreOk(store, bs) && Positive(m.extents) && Disjoint(m.extents) && StrictlySorted(retire)
    ensures forall i, k | 0 <= i < k < |store| :: store[i].id < store[k].id
    ensures newId !in retire && LiveBlocks(m.extents, newId) == 0
    ensures forall id | id in retire :: id in Ids(store)
  {
    NewIsNew(store, m, retire, bs, newId);
    NoLiveBlocks(m.extents, newId);
  }

  lemma {:induction false} GivenLive(xs: seq<Extent<Tag>>, retire: seq<nat>, newId: nat)
    requires newId !in retire
    ensures LiveAfter(xs, retire, newId, newId) == LiveBlocks(xs, newId) + SumLive(xs, retire)
  {
  }

  lemma {:induction false} NothingOrMore(a: nat, bs: nat)
    requires bs > 0
    ensures a * bs == 0 <==> a == 0
  {
    if a > 0 { MulDivMod(a, bs); }
  }

  /** The renamed map agrees with the collected store exactly when every byte was moved. */
  lemma {:induction false} HandedOver(before: seq<Segment>, xs: seq<Extent<Tag>>, xs': seq<Extent<Tag>>, gone: set<nat>,
                                      bs: nat, newId: nat)
    requires Retirable(before, xs, bs, newId)
    requires forall b: nat :: Owner(xs', b) == RenamedTag(Owner(xs, b), gone, newId)
    ensures Agrees(xs', Collected(before, xs, gone, bs, newId), bs) <==> NothingHidden(before, xs, gone, bs)
  {
    var after := Collected(before, xs, gone, bs, newId);
    if NothingHidden(before, xs, gone, bs) {
      forall p: nat ensures Owner(xs', p / bs) == TagOf(StoreEffect(after, bs, p)) {
        ClearMoves(before, xs, gone, bs, newId, p);
        assert Owner(xs, p / bs) == TagOf(StoreEffect(before, bs, p));
      }
    } else {
      var p := HiddenLoses(before, xs, gone, bs, newId);
      assert Owner(xs, p / bs) == TagOf(StoreEffect(before, bs, p));
      KeptIsOld(before, gone, bs, newId, p);
      assert Owner(xs', p / bs) != TagOf(StoreEffect(after, bs, p));
    }
  }

  /** Dropping segments that own nothing: no byte and no block changes. */
  lemma {:induction false} DeadKeeps(store: seq<Segment>, m: MapState, retire: seq<nat>, bs: nat)
    requires bs > 0 && Agrees(m.extents, store, bs) && !OwnsAny(m.extents, retire)
    ensures Agrees(m.extents, Kept(store, SetOf(retire)), bs) && SameEffect(Kept(store, SetOf(retire)), store, bs)
  {
    var gone := SetOf(retire);
    forall p: nat ensures StoreEffect(Kept(store, gone), bs, p) == StoreEffect(store, bs, p) {
      DropDead(store, m.extents, gone, bs, p);
    }
    forall p: nat ensures Effect(Entries(Kept(store, gone)), bs, p) == Effect(Entries(store), bs, p) {
      EntriesEffect(Kept(store, gone), bs, p);
      EntriesEffect(store, bs, p);
    }
  }

  /** Copying: the map still agrees with the store exactly when nothing was hidden, and then no
      byte changes. */
  lemma {:induction false} CopyKeeps(store: seq<Segment>, m: MapState, retire: seq<nat>, bs: nat, newId: nat)
    requires MayRetire(store, m, retire, bs, newId) && Agrees(m.extents, store, bs)
    ensures var after := Collected(store, m.extents, SetOf(retire), bs, newId);
      && (Agrees(Reattributed(m.extents, retire, newId), after, bs) <==>
            NothingHidden(store, m.extents, SetOf(retire), bs))
      && (NothingHidden(store, m.extents, SetOf(retire), bs) ==> SameEffect(after, store, bs))
  {
    var gone := SetOf(retire);
    NewIsNew(store, m, retire, bs, newId);
    forall b: nat
      ensures Owner(Reattributed(m.extents, retire, newId), b) == RenamedTag(Owner(m.extents, b), gone, newId)
    {
      ReattributedOwner(m.extents, retire, newId, b);
    }
    hide Owner; hide Reattributed; hide NothingHidden; hide Agrees; hide SetOf; hide Keyed; hide Disjoint;
    assert Retirable(store, m.extents, bs, newId);
    HandedOver(store, m.extents, Reattributed(m.extents, retire, newId), gone, bs, newId);
    if NothingHidden(store, m.extents, gone, bs) {
      var after := Collected(store, m.extents, gone, bs, newId);
      forall p: nat ensures Effect(Entries(after), bs, p) == Effect(Entries(store), bs, p) {
        ClearMoves(store, m.extents, gone, bs, newId, p);
        SameEffectAt(after, store, bs, p, gone, newId);
      }
    }
  }

  /** When the map agrees with the store and nothing is hidden, retirement changes no byte, and
      the map fits the new store. */
  lemma {:induction false} RetiredKeeps(store: seq<Segment>, m: MapState, retire: seq<nat>, bs: nat, newId: nat)
    requires MayRetire(store, m, retire, bs, newId) && Agrees(m.extents, store, bs)
    requires NothingHidden(store, m.extents, SetOf(retire), bs)
    ensures var o := Retired(store, m, retire, bs, newId); Tracks(o.map_, o.store, bs) && SameEffect(o.store, store, bs)
  {
    var o := Retired(store, m, retire, bs, newId);
    RetiredUsable(store, m, retire, bs, newId);
    if retire != [] {
      if !OwnsAny(m.extents, retire) {
        DeadKeeps(store, m, retire, bs);
      } else {
        CopyKeeps(store, m, retire, bs, newId);
      }
    }
    assert Agrees(o.map_.extents, o.store, bs);
    AgreesTracks(o.map_, o.store, bs);
  }

  // ---------------------------------------------------------------- retirement by a map with gaps

  /** Bytes of owned blocks are as before; the others are as the segments left behind say. */
  ghost predicate OwnedSame(after: seq<Segment>, before: seq<Segment>, xs: seq<Extent<Tag>>, gone: set<nat>, bs: nat)
    requires bs > 0
  {
    forall p: nat :: Effect(Entries(after), bs, p) ==
      Effect(Entries(if Owner(xs, p / bs).Some? then before else Kept(before, gone)), bs, p)
  }

  lemma {:induction false} SameHits(a: seq<Segment>, b: seq<Segment>, bs: nat, p: nat)
    requires StoreEffect(a, bs, p) == StoreEffect(b, bs, p)
    ensures Effect(Entries(a), bs, p) == Effect(Entries(b), bs, p)
  {
    EntriesEffect(a, bs, p);
    EntriesEffect(b, bs, p);
  }

  /** Dropping segments that own nothing. */
  lemma {:induction false} DeadRight(store: seq<Segment>, xs: seq<Extent<Tag>>, retire: seq<nat>, bs: nat)
    requires bs > 0 && OwnersRight(xs, store, bs) && !OwnsAny(xs, retire)
    ensures OwnersRight(xs, Kept(store, SetOf(retire)), bs) && NothingHidden(store, xs, SetOf(retire), bs)
    ensures OwnedSame(Kept(store, SetOf(retire)), store, xs, SetOf(retire), bs)
  {
    var gone := SetOf(retire);
    forall p: nat | Owner(xs, p / bs).Some?
      ensures StoreEffect(Kept(store, gone), bs, p) == StoreEffect(store, bs, p)
    {
      var k := OwnerWitness(xs, p / bs);
      assert Owner(xs, p / bs) == TagOf(StoreEffect(store, bs, p));
      KeptEffect(store, gone, bs, p);
    }
    forall p: nat ensures Effect(Entries(Kept(store, gone)), bs, p) ==
      Effect(Entries(if Owner(xs, p / bs).Some? then store else Kept(store, gone)), bs, p)
    {
      if Owner(xs, p / bs).Some? { SameHits(Kept(store, gone), store, bs, p); }
    }
    forall j | 0 <= j < |store| && store[j].id in gone
      ensures Clear(store[j].entries, bs, SegExtents(xs, store[j].id))
    {
      if SegExtents(xs, store[j].id) != [] { var i := SegExtentsFrom(xs, store[j].id); assert false; }
    }
  }

  lemma {:induction false} CopyRightAt(store: seq<Segment>, xs: seq<Extent<Tag>>, gone: set<nat>, bs: nat, newId: nat,
                                       p: nat)
    requires PartlyRetirable(store, xs, bs, newId) && NothingHidden(store, xs, gone, bs)
    ensures var after, o := Collected(store, xs, gone, bs, newId), Owner(xs, p / bs);
      && (o.Some? ==> RenamedTag(o, gone, newId) == TagOf(StoreEffect(after, bs, p)))
      && Effect(Entries(after), bs, p) == Effect(Entries(if o.Some? then store else Kept(store, gone)), bs, p)
  {
    var after := Collected(store, xs, gone, bs, newId);
    assert Owner(xs, p / bs).None? || Owner(xs, p / bs) == TagOf(StoreEffect(store, bs, p));
    hide Owner; hide NothingHidden; hide Disjoint; hide Collected; hide StoreEffect; hide Effect; hide Kept;
    hide StoreOk;
    if Owner(xs, p / bs).Some? {
      OwnedMoves(store, xs, gone, bs, newId, p);
      SameEffectAt(after, store, bs, p, gone, newId);
    } else {
      UnownedFalls(store, xs, gone, bs, newId, p);
      SameHits(after, Kept(store, gone), bs, p);
    }
  }

  lemma {:induction false} CopyClear(store: seq<Segment>, xs: seq<Extent<Tag>>, retire: seq<nat>, bs: nat, newId: nat)
    requires PartlyRetirable(store, xs, bs, newId) && newId !in retire && NothingHidden(store, xs, SetOf(retire), bs)
    ensures var after := Collected(store, xs, SetOf(retire), bs, newId);
      OwnersRight(Reattributed(xs, retire, newId), after, bs) && OwnedSame(after, store, xs, SetOf(retire), bs)
  {
    var gone := SetOf(retire);
    var xs', after := Reattributed(xs, retire, newId), Collected(store, xs, gone, bs, newId);
    hide PartlyRetirable; hide Owner; hide Reattributed; hide NothingHidden; hide SetOf; hide Collected;
    hide StoreEffect; hide Effect; hide Kept; hide Entries;
    forall p: nat
      ensures Owner(xs', p / bs).None? || Owner(xs', p / bs) == TagOf(StoreEffect(after, bs, p))
      ensures Effect(Entries(after), bs, p) ==
              Effect(Entries(if Owner(xs, p / bs).Some? then store else Kept(store, gone)), bs, p)
    {
      ReattributedOwner(xs, retire, newId, p / bs);
      CopyRightAt(store, xs, gone, bs, newId, p);
    }
  }

  /** A tag renamed to the new segment is not that of an older one. */
  lemma {:induction false} RenamedDiffers(o: Option<Owned>, old_: Option<Owned>, gone: set<nat>, newId: nat)
    requires o.Some? && o.value.seg in gone && (old_.Some? ==> old_.value.seg < newId)
    ensures RenamedTag(TagOf(o), gone, newId).Some? && RenamedTag(TagOf(o), gone, newId) != TagOf(old_)
  {
  }

  lemma {:induction false} OwnerWrong(xs: seq<Extent<Tag>>, store: seq<Segment>, bs: nat, p: nat)
    requires bs > 0 && Owner(xs, p / bs).Some? && Owner(xs, p / bs) != TagOf(StoreEffect(store, bs, p))
    ensures !OwnersRight(xs, store, bs)
  {
  }

  lemma {:induction false} CopyHides(store: seq<Segment>, xs: seq<Extent<Tag>>, retire: seq<nat>, bs: nat, newId: nat)
    requires PartlyRetirable(store, xs, bs, newId) && newId !in retire && !NothingHidden(store, xs, SetOf(retire), bs)
    ensures !OwnersRight(Reattributed(xs, retire, newId), Collected(store, xs, SetOf(retire), bs, newId), bs)
  {
    hide *;
    PartlyParts(store, xs, bs, newId);
    var gone := SetOf(retire);
    var xs', after := Reattributed(xs, retire, newId), Collected(store, xs, gone, bs, newId);
    var p := HiddenLoses(store, xs, gone, bs, newId);
    ReattributedOwner(xs, retire, newId, p / bs);
    KeptIsOld(store, gone, bs, newId, p);
    RenamedDiffers(StoreEffect(store, bs, p), StoreEffect(after, bs, p), gone, newId);
    OwnerWrong(xs', after, bs, p);
  }

  /** Copying: every owner named is right afterwards exactly when nothing was hidden, and then
      the owned bytes are as before. */
  lemma {:induction false} CopyRight(store: seq<Segment>, m: MapState, retire: seq<nat>, bs: nat, newId: nat)
    requires MayRetire(store, m, retire, bs, newId) && OwnersRight(m.extents, store, bs)
    ensures var gone := SetOf(retire); var after := Collected(store, m.extents, gone, bs, newId);
      && (OwnersRight(Reattributed(m.extents, retire, newId), after, bs) <==>
            NothingHidden(store, m.extents, gone, bs))
      && (NothingHidden(store, m.extents, gone, bs) ==> OwnedSame(after, store, m.extents, gone, bs))
  {
    NewIsNew(store, m, retire, bs, newId);
    hide Reattributed; hide NothingHidden; hide Collected; hide OwnersRight; hide SetOf; hide StoreOk; hide Disjoint;
    assert PartlyRetirable(store, m.extents, bs, newId);
    if NothingHidden(store, m.extents, SetOf(retire), bs) {
      CopyClear(store, m.extents, retire, bs, newId);
    } else {
      CopyHides(store, m.extents, retire, bs, newId);
    }
  }

  /** The same for either way of retiring. */
  lemma {:induction false} RetiredRight(store: seq<Segment>, m: MapState, retire: seq<nat>, bs: nat, newId: nat)
    requires MayRetire(store, m, retire, bs, newId) && OwnersRight(m.extents, store, bs)
    ensures var o := Retired(store, m, retire, bs, newId);
      && (OwnersRight(o.map_.extents, o.store, bs) <==> NothingHidden(store, m.extents, SetOf(retire), bs))
      && (NothingHidden(store, m.extents, SetOf(retire), bs) ==>
            Remembers(o.map_, o.store, bs) && OwnedSame(o.store, store, m.extents, SetOf(retire), bs))
  {
    var o := Retired(store, m, retire, bs, newId);
    RetiredUsable(store, m, retire, bs, newId);
    if retire == [] {
      assert SetOf(retire) == {};
      KeptAll(store);
      assert !OwnsAny(m.extents, retire);
      DeadRight(store, m.extents, retire, bs);
    } else if !OwnsAny(m.extents, retire) {
      DeadRight(store, m.extents, retire, bs);
    } else {
      CopyRight(store, m, retire, bs, newId);
    }
    if OwnersRight(o.map_.extents, o.store, bs) { RightRemembers(o.map_, o.store, bs); }
  }

  /** Blocks without owner replay the same without the retired segments. */
  ghost predicate GapsSafe(store: seq<Segment>, xs: seq<Extent<Tag>>, gone: set<nat>, bs: nat)
    requires bs > 0
  {
    forall p: nat | Owner(xs, p / bs).None? ::
      Effect(Entries(Kept(store, gone)), bs, p) == Effect(Entries(store), bs, p)
  }

  /** When nothing is hidden, retirement changes no byte exactly if it is so without the retired
      segments at every block without owner. */
  lemma {:induction false} GapsExactly(store: seq<Segment>, m: MapState, retire: seq<nat>, bs: nat, newId: nat)
    requires MayRetire(store, m, retire, bs, newId) && OwnersRight(m.extents, store, bs)
    requires NothingHidden(store, m.extents, SetOf(retire), bs)
    ensures SameEffect(Retired(store, m, retire, bs, newId).store, store, bs) <==>
            GapsSafe(store, m.extents, SetOf(retire), bs)
  {
    RetiredRight(store, m, retire, bs, newId);
    var after, xs, gone := Retired(store, m, retire, bs, newId).store, m.extents, SetOf(retire);
    hide *;
    SameUpToGaps(after, store, xs, gone, bs);
  }

  lemma {:induction false} SameUpToGaps(after: seq<Segment>, before: seq<Segment>, xs: seq<Extent<Tag>>, gone: set<nat>,
                                        bs: nat)
    requires bs > 0 && OwnedSame(after, before, xs, gone, bs)
    ensures SameEffect(after, before, bs) <==> GapsSafe(before, xs, gone, bs)
  {
    hide Owner; hide Effect; hide Entries; hide Kept;
    if GapsSafe(before, xs, gone, bs) {
      forall p: nat ensures Effect(Entries(after), bs, p) == Effect(Entries(before), bs, p) {
        assert Effect(Entries(after), bs, p) ==
          Effect(Entries(if Owner(xs, p / bs).Some? then before else Kept(before, gone)), bs, p);
      }
    }
    if SameEffect(after, before, bs) {
      forall p: nat | Owner(xs, p / bs).None?
        ensures Effect(Entries(Kept(before, gone)), bs, p) == Effect(Entries(before), bs, p)
      {
        assert Effect(Entries(after), bs, p) ==
          Effect(Entries(if Owner(xs, p / bs).Some? then before else Kept(before, gone)), bs, p);
      }
    }
  }

  /** A segment that is not the oldest may be missed: a block that only it owned now belongs to
      an older segment, which the map takes for dead, so that retiring it loses the block. */
  lemma {:induction false} GapLoses(bs: nat, data: seq<byte>)
    requires |data| == bs > 0
    ensures var store, m := [Segment(1, [Write(0, data)])], MapState(2, [], map[1 := SegInfo(1, bs)]);
      && MayRetire(store, m, [1], bs, 3) && Remembers(m, store, bs) && NothingHidden(store, m.extents, {1}, bs)
      && !SameEffect(Retired(store, m, [1], bs, 3).store, store, bs)
  {
    var s := Segment(1, [Write(0, data)]);
    var store, m: MapState := [s], MapState(2, [], map[1 := SegInfo(1, bs)]);
    assert store[0].id in Ids(store);
    assert SetOf([1]) == {1};
    RightRemembers(m, store, bs);
    DeadRight(store, [], [1], bs);
    assert Kept(store, {1}) == [];
    assert Effect(s.entries, bs, 0).Some?;
    StoreEffectOne(s, bs, 0);
    EntriesEffect(store, bs, 0);
    EntriesEffect([], bs, 0);
    assert Effect(Entries([]), bs, 0) != Effect(Entries(store), bs, 0);
  }

  // ---------------------------------------------------------------- retirement and the totals

  /** After copying, live bytes are at most the totals exactly when no live write was lost:
      the new segment is given all live bytes, but its total is what was copied. */
  lemma {:induction false} CopyBounded(store: seq<Segment>, m: MapState, retire: seq<nat>, bs: nat, newId: nat)
    requires MayRetire(store, m, retire, bs, newId) && Accounted(m, store, bs)
    ensures var out := Copied(store, m.extents, SetOf(retire), bs);
      Bounded(Reattributed(m.extents, retire, newId),
              (m.totals - SetOf(retire))[newId := SegInfo(|out|, WriteBytes(out))], bs) <==>
      WritesKept(store, m.extents, SetOf(retire), bs)
  {
    var out := Copied(store, m.extents, SetOf(retire), bs);
    var bytes := WriteBytes(out);
    hide *;
    RetireFacts(store, m, retire, bs, newId);
    AccountedParts(m, store, bs);
    HandedOverBytes(store, m, retire, bs, newId);
    BoundedByOutput(m, retire, bs, newId, SegInfo(|out|, bytes));
  }

  lemma {:induction false} AccountedParts(m: MapState, store: seq<Segment>, bs: nat)
    requires Accounted(m, store, bs)
    ensures Backed(m.extents, store, bs) && Bounded(m.extents, m.totals, bs)
  {
  }

  /** Renaming keeps the bound exactly when the new total covers what is handed over. */
  lemma {:induction false} BoundedByOutput(m: MapState, retire: seq<nat>, bs: nat, newId: nat, info: SegInfo)
    requires Bounded(m.extents, m.totals, bs) && newId !in retire && StrictlySorted(retire)
    ensures Bounded(Reattributed(m.extents, retire, newId), (m.totals - SetOf(retire))[newId := info], bs) <==>
            LiveBlocks(Reattributed(m.extents, retire, newId), newId) * bs <= info.totalWriteBytes
  {
    var xs', now := Reattributed(m.extents, retire, newId), (m.totals - SetOf(retire))[newId := info];
    hide Reattributed; hide LiveBlocks; hide SumLive;
    assert TotalOf(now, newId) == info.totalWriteBytes;
    forall seg: nat | seg != newId ensures LiveBlocks(xs', seg) * bs <= TotalOf(now, seg) {
      ReattributedLive(m.extents, retire, newId, seg);
      assert LiveBlocks(m.extents, seg) * bs <= TotalOf(m.totals, seg);
    }
    assert Bounded(xs', now, bs) ==> LiveBlocks(xs', newId) * bs <= TotalOf(now, newId);
  }

  lemma {:induction false} DeadAccounted(store: seq<Segment>, m: MapState, retire: seq<nat>, bs: nat)
    requires bs > 0 && Accounted(m, store, bs) && !OwnsAny(m.extents, retire)
    ensures WritesKept(store, m.extents, SetOf(retire), bs)
    ensures Bounded(m.extents, m.totals - SetOf(retire), bs) && Backed(m.extents, Kept(store, SetOf(retire)), bs)
  {
    var xs, gone := m.extents, SetOf(retire);
    hide KindIs; hide Owner; hide Skipped; hide LiveBlocks; hide Kept;
    forall j, b: nat | 0 <= j < |store| && store[j].id in gone ensures !LostWrite(store[j], xs, bs, b) {
      if LostWrite(store[j], xs, bs, b) {
        var k := OwnerWitness(xs, b);
        assert false;
      }
    }
    forall seg: nat ensures LiveBlocks(xs, seg) * bs <= TotalOf(m.totals - gone, seg) {
      assert LiveBlocks(xs, seg) * bs <= TotalOf(m.totals, seg);
      if seg in retire { NoLiveBlocks(xs, seg); }
    }
    KeptBacked(xs, store, gone, bs);
  }

  lemma {:induction false} KeptBacked(xs: seq<Extent<Tag>>, store: seq<Segment>, gone: set<nat>, bs: nat)
    requires bs > 0 && Backed(xs, store, bs)
    ensures Backed(xs, Kept(store, gone), bs)
  {
    var kept := Kept(store, gone);
    KeptShape(store, gone);
    hide KindIs; hide Owner; hide Kept;
    forall b: nat, j | 0 <= j < |kept| && OwnedBy(xs, b, kept[j].id)
      ensures KindIs(kept[j].entries, bs, b, Owner(xs, b).value.isTrim)
    {
      var i :| 0 <= i < |store| && store[i] == kept[j];
    }
  }

  /** What was copied of a retired segment is of the kind the map says. */
  lemma {:induction false} CopiedKind(store: seq<Segment>, xs: seq<Extent<Tag>>, gone: set<nat>, bs: nat, b: nat,
                                      j: nat)
    requires bs > 0 && StoreOk(store, bs) && Positive(xs) && Disjoint(xs) && Backed(xs, store, bs)
    requires WritesKept(store, xs, gone, bs) && j < |store| && store[j].id in gone && OwnedBy(xs, b, store[j].id)
    ensures KindIs(Copied(store, xs, gone, bs), bs, b, Owner(xs, b).value.isTrim)
  {
    var p, es, out := b * bs, store[j].entries, Copied(store, xs, gone, bs);
    MulDivMod(b, bs);
    assert KindIs(es, bs, b, Owner(xs, b).value.isTrim) && !LostWrite(store[j], xs, bs, b);
    hide Copied; hide Skipped; hide Backed; hide WritesKept; hide Owner; hide Effect;
    CopiedOwned(store, xs, gone, bs, p, j);
    CopiedAligned(store, xs, gone, bs);
    EffectLast(out, bs, p);
    EffectLast(es, bs, p);
  }

  lemma {:induction false} CopyBacked(store: seq<Segment>, m: MapState, retire: seq<nat>, bs: nat, newId: nat)
    requires MayRetire(store, m, retire, bs, newId) && Backed(m.extents, store, bs)
    requires WritesKept(store, m.extents, SetOf(retire), bs)
    ensures Backed(Reattributed(m.extents, retire, newId),
                   Collected(store, m.extents, SetOf(retire), bs, newId), bs)
  {
    var xs, gone := m.extents, SetOf(retire);
    var xs', kept, after := Reattributed(xs, retire, newId), Kept(store, gone), Collected(store, xs, gone, bs, newId);
    NewIsNew(store, m, retire, bs, newId);
    KeptBacked(xs, store, gone, bs);
    KeptShape(store, gone);
    hide KindIs; hide Owner; hide Kept; hide Copied; hide Reattributed; hide WritesKept;
    forall b: nat, j | 0 <= j < |after| && OwnedBy(xs', b, after[j].id)
      ensures KindIs(after[j].entries, bs, b, Owner(xs', b).value.isTrim)
    {
      ReattributedOwner(xs, retire, newId, b);
      if j < |kept| {
        assert after[j] == kept[j];
        assert kept[j] in store;
      } else {
        GoneOwner(store, m, retire, bs, newId, b);
        var i :| 0 <= i < |store| && store[i].id == Owner(xs, b).value.seg;
        CopiedKind(store, xs, gone, bs, b, i);
      }
    }
  }

  lemma {:induction false} GoneOwner(store: seq<Segment>, m: MapState, retire: seq<nat>, bs: nat, newId: nat, b: nat)
    requires MayRetire(store, m, retire, bs, newId)
    requires var o := RenamedTag(Owner(m.extents, b), SetOf(retire), newId); o.Some? && o.value.seg == newId
    ensures var o := Owner(m.extents, b);
      o.Some? && o.value.seg in SetOf(retire) && exists i | 0 <= i < |store| :: store[i].id == o.value.seg
  {
    NewIsNew(store, m, retire, bs, newId);
    var k := OwnerWitness(m.extents, b);
  }

  /** Retirement keeps the accounts exactly when no live write is hidden from the copy. Hidden
      trims do no harm to them. */
  lemma {:induction false} RetiredAccounted(store: seq<Segment>, m: MapState, retire: seq<nat>, bs: nat, newId: nat)
    requires MayRetire(store, m, retire, bs, newId) && Accounted(m, store, bs)
    ensures var o := Retired(store, m, retire, bs, newId);
      && (Bounded(o.map_.extents, o.map_.totals, bs) <==> WritesKept(store, m.extents, SetOf(retire), bs))
      && (WritesKept(store, m.extents, SetOf(retire), bs) ==> Accounted(o.map_, o.store, bs))
  {
    RetiredUsable(store, m, retire, bs, newId);
    hide Bounded; hide Backed; hide WritesKept; hide Collected; hide Reattributed; hide Copied; hide WriteBytes;
    hide MayRetire; hide Kept; hide OwnsAny; hide StoreOk; hide Usable;
    if retire == [] {
      NoneRetired(store, m.extents, bs);
    } else if !OwnsAny(m.extents, retire) {
      DeadAccounted(store, m, retire, bs);
    } else {
      CopyBounded(store, m, retire, bs, newId);
      if WritesKept(store, m.extents, SetOf(retire), bs) { CopyBacked(store, m, retire, bs, newId); }
    }
  }

  lemma {:induction false} NoneRetired(store: seq<Segment>, xs: seq<Extent<Tag>>, bs: nat)
    requires bs > 0
    ensures WritesKept(store, xs, SetOf([]), bs)
  {
  }

  // ---------------------------------------------------------------- retirement, in place

  /** Deletes the retired segments, which own nothing. */
  method RetireDead(store: LogStore, lm: LiveMap, retire: seq<nat>)
    requires !OwnsAny(lm.extents, retire)
    modifies store, lm
    ensures store.segments == Kept(old(store.segments), SetOf(retire))
    ensures lm.State() == old(lm.State()).(totals := old(lm.segments) - SetOf(retire))
  {
    DeleteAll(store, retire);
    RemoveAll(lm, retire);
  }

  /** Stores the new segment, then deletes the retired ones and hands their extents over. */
  method RetireLive(store: LogStore, lm: LiveMap, retire: seq<nat>, newId: nat) returns (out: seq<Entry>)
    requires MayRetire(store.segments, lm.State(), retire, lm.blockSize, newId) && retire != []
    requires OwnsAny(lm.extents, retire)
    modifies store, lm
    ensures out == Copied(old(store.segments), old(lm.extents), SetOf(retire), lm.blockSize)
    ensures Outcome(store.segments, lm.State()) ==
            Retired(old(store.segments), old(lm.State()), retire, lm.blockSize, newId)
  {
    ghost var before := store.segments;
    NewIsNew(store.segments, lm.State(), retire, lm.blockSize, newId);
    out := CopyOut(store, lm, retire);
    store.segments := store.segments + [Segment(newId, out)];
    DeleteAll(store, retire);
    KeptLast(before, Segment(newId, out), SetOf(retire));
    ReattributeAll(lm, retire, newId);
    lm.segments := lm.segments[newId := SegInfo(|out|, WriteBytes(out))];
  }

  // ---------------------------------------------------------------- the whole run

  datatype GcResult = NoLogs | Done(stats: seq<SegmentStats>, retire: seq<nat>, retired: nat, copiedEntries: nat,
                                    copiedBytes: nat, newSegment: Option<nat>)

  /** The counters a run reports. */
  ghost predicate Reports(r: GcResult, store: seq<Segment>, m: MapState, dryRun: bool, bs: nat, newId: nat)
    requires r.Done? && bs > 0 && StoreOk(store, bs) && Positive(m.extents)
  {
    if dryRun || r.retire == [] then r == Done(r.stats, r.retire, 0, 0, 0, None)
    else if !OwnsAny(m.extents, r.retire) then r == Done(r.stats, r.retire, |r.retire|, 0, 0, None)
    else
      var out := Copied(store, m.extents, SetOf(r.retire), bs);
      r == Done(r.stats, r.retire, |r.retire|, |out|, WriteBytes(out), Some(newId))
  }

  /** A run that deletes nothing hidden from it. */
  ghost predicate Harmless(r: GcResult, store: seq<Segment>, m: MapState, dryRun: bool, bs: nat)
    requires bs > 0
  {
    r.NoLogs? || dryRun || NothingHidden(store, m.extents, SetOf(r.retire), bs)
  }

  /** A run that copies every live write of what it deletes. */
  ghost predicate KeepsWrites(r: GcResult, store: seq<Segment>, m: MapState, dryRun: bool, bs: nat)
    requires bs > 0
  {
    r.NoLogs? || dryRun || WritesKept(store, m.extents, SetOf(r.retire), bs)
  }

  lemma {:induction false} HarmlessKeepsWrites(r: GcResult, store: seq<Segment>, m: MapState, dryRun: bool, bs: nat)
    requires bs > 0 && Usable(m) && Harmless(r, store, m, dryRun, bs)
    ensures KeepsWrites(r, store, m, dryRun, bs)
  {
    hide NothingHidden; hide WritesKept;
    if r.Done? && !dryRun { NothingHiddenKeepsWrites(store, m.extents, SetOf(r.retire), bs); }
  }

  lemma {:induction false} UpdatedIs(m: MapState, store: seq<Segment>, bs: nat, repaired: bool)
    requires bs > 0
    ensures Updated(m, store, bs, repaired) == Read(Cleaned(m, Ids(store)), After(store, m.lastLabel), bs, repaired)
    ensures Cleaned(m, Ids(store)).lastLabel == m.lastLabel
  {
  }

  lemma {:induction false} StatIdsSorted(stats: seq<SegmentStats>, m: MapState, bs: nat)
    requires StatsFor(stats, m, bs)
    ensures StrictlySorted(StatIds(stats))
  {
  }

  lemma {:induction false} ChosenMayRetire(store: seq<Segment>, m: MapState, stats: seq<SegmentStats>, retire: seq<nat>,
                                           threshold: nat, bs: nat, newId: nat)
    requires bs > 0 && StoreOk(store, bs) && Usable(m) && m.totals.Keys <= Ids(store)
    requires forall j | 0 <= j < |store| :: store[j].id < newId
    requires StatsFor(stats, m, bs) && Chosen(retire, stats, threshold)
    ensures MayRetire(store, m, retire, bs, newId)
  {
    hide StoreOk; hide Usable; hide RetiresAt;
    forall id | id in retire ensures id in m.totals {
      var i :| 0 <= i < |stats| && stats[i].id == id && RetiresAt(stats, i, threshold);
    }
  }

  /** What the statistics mean when the map tracks the store. */
  lemma {:induction false} RunMeans(store: seq<Segment>, m: MapState, seen: MapState, stats: seq<SegmentStats>, bs: nat,
                                    repaired: bool)
    requires Tracks(m, store, bs) && seen == Updated(m, store, bs, repaired) && StatsFor(stats, seen, bs)
    requires Usable(seen)
    ensures Agrees(seen.extents, store, bs)
    ensures forall n: nat | Untouched(store, bs, n) :: LiveBytes(stats) == WrittenBlocks(store, bs, n) * bs
  {
    UpdatedAgrees(m, store, bs, repaired);
    forall n: nat | Untouched(store, bs, n) ensures LiveBytes(stats) == WrittenBlocks(store, bs, n) * bs {
      StatsCountWrites(stats, seen, store, bs, n);
    }
  }

  lemma {:induction false} StatsBounded(stats: seq<SegmentStats>, m: MapState, bs: nat)
    requires StatsFor(stats, m, bs) && Bounded(m.extents, m.totals, bs)
    ensures InBounds(stats)
  {
    hide LiveBlocks;
    forall i | 0 <= i < |stats| ensures stats[i].liveWriteBytes <= stats[i].totalWriteBytes {
      assert LiveBlocks(m.extents, stats[i].id) * bs <= TotalOf(m.totals, stats[i].id);
    }
  }

  /** Every segment is reported with live bytes of at most its total. */
  ghost predicate InBounds(stats: seq<SegmentStats>) {
    forall i | 0 <= i < |stats| :: stats[i].liveWriteBytes <= stats[i].totalWriteBytes
  }

  lemma {:induction false} RetiredNothing(store: seq<Segment>, m: MapState, retire: seq<nat>, bs: nat, newId: nat)
    requires MayRetire(store, m, retire, bs, newId)
    ensures retire == [] ==> Retired(store, m, retire, bs, newId) == Outcome(store, m)
    ensures retire != [] && !OwnsAny(m.extents, retire) ==>
      Retired(store, m, retire, bs, newId) == Outcome(Kept(store, SetOf(retire)),
        m.(totals := m.totals - SetOf(retire)))
  {
  }

  /** The facts of a run, from the inputs to what is left. */
  ghost predicate Ran(store: seq<Segment>, m: MapState, threshold: nat, dryRun: bool, newId: nat, bs: nat,
                      repaired: bool, r: GcResult, seen: MapState, left: Outcome)
    requires bs > 0
  {
    if store == [] then r.NoLogs? && seen == m && left == Outcome(store, m)
    else
      && r.Done? && seen == Updated(m, store, bs, repaired) && MayRetire(store, seen, r.retire, bs, newId)
      && StatsFor(r.stats, seen, bs) && Chosen(r.retire, r.stats, threshold)
      && Reports(r, store, seen, dryRun, bs, newId) && left == Left(store, seen, r.retire, dryRun, bs, newId)
  }

  /** The first half of a run: clean up, read the new logs, choose. */
  method Survey(store: LogStore, lm: LiveMap, threshold: nat) returns (stats: seq<SegmentStats>, retire: seq<nat>)
    requires lm.blockSize > 0 && StoreOk(store.segments, lm.blockSize) && Usable(lm.State())
    modifies lm
    ensures lm.State() == Updated(old(lm.State()), store.segments, lm.blockSize, lm.repaired)
    ensures StatsFor(stats, lm.State(), lm.blockSize) && Chosen(retire, stats, threshold)
  {
    hide Updated; hide StatsFor; hide Chosen; hide Usable; hide StoreOk; hide StrictlySorted; hide Read; hide Cleaned;
    hide After;
    UpdatedIs(lm.State(), store.segments, lm.blockSize, lm.repaired);
    CleanUp(store, lm);
    ProcessNewLogs(store, lm);
    stats := ComputeStats(lm);
    StatIdsSorted(stats, lm.State(), lm.blockSize);
    retire := ChooseRetired(stats, threshold);
  }

  /** The second half: delete the chosen segments, copying what they still own. */
  method Finish(store: LogStore, lm: LiveMap, stats: seq<SegmentStats>, retire: seq<nat>, dryRun: bool, newId: nat)
    returns (r: GcResult)
    requires MayRetire(store.segments, lm.State(), retire, lm.blockSize, newId)
    modifies store, lm
    ensures r.Done? && r.stats == stats && r.retire == retire
    ensures Reports(r, old(store.segments), old(lm.State()), dryRun, lm.blockSize, newId)
    ensures Outcome(store.segments, lm.State()) ==
            Left(old(store.segments), old(lm.State()), retire, dryRun, lm.blockSize, newId)
  {
    hide Retired; hide Keyed; hide Disjoint; hide StoreOk; hide StrictlySorted; hide Copied; hide Kept; hide OwnsAny;
    RetiredNothing(store.segments, lm.State(), retire, lm.blockSize, newId);
    if |retire| == 0 || dryRun {
      return Done(stats, retire, 0, 0, 0, None);
    }
    var hasLive := HasLive(lm, retire);
    if !hasLive {
      RetireDead(store, lm, retire);
      return Done(stats, retire, |retire|, 0, 0, None);
    }
    var out := RetireLive(store, lm, retire, newId);
    r := Done(stats, retire, |retire|, |out|, WriteBytes(out), Some(newId));
  }

  method Collect(store: LogStore, lm: LiveMap, threshold: nat, dryRun: bool, newId: nat)
    returns (r: GcResult, ghost seen: MapState)
    requires lm.blockSize > 0 && StoreOk(store.segments, lm.blockSize) && Usable(lm.State())
    requires forall j | 0 <= j < |store.segments| :: store.segments[j].id < newId
    modifies store, lm
    ensures Ran(old(store.segments), old(lm.State()), threshold, dryRun, newId, lm.blockSize, lm.repaired,
                r, seen, Outcome(store.segments, lm.State()))
  {
    hide Updated; hide StatsFor; hide Chosen; hide Usable; hide StoreOk; hide Reports; hide Left; hide MayRetire;
    hide LiveMap.State;
    seen := lm.State();
    if |store.segments| == 0 {
      return NoLogs, seen;
    }
    UpdatedUsable(seen, store.segments, lm.blockSize, lm.repaired);
    var stats, retire := Survey(store, lm, threshold);
    seen := lm.State();
    ChosenMayRetire(store.segments, seen, stats, retire, threshold, lm.blockSize, newId);
    r := Finish(store, lm, stats, retire, dryRun, newId);
  }

  /** A run leaves a store in label order and a usable map, and never loses the order of a
      repaired map. */
  lemma {:induction false} RanUsable(store: seq<Segment>, m: MapState, threshold: nat, dryRun: bool, newId: nat,
                                     bs: nat, repaired: bool, r: GcResult, seen: MapState, left: Outcome)
    requires bs > 0 && StoreOk(store, bs) && Usable(m) && forall j | 0 <= j < |store| :: store[j].id < newId
    requires Ran(store, m, threshold, dryRun, newId, bs, repaired, r, seen, left)
    ensures StoreOk(left.store, bs) && Usable(left.map_)
    ensures left.map_.lastLabel ==
      if store == [] || store[|store| - 1].id <= m.lastLabel then m.lastLabel else store[|store| - 1].id
    ensures forall j | 0 <= j < |left.store| :: left.store[j].id <= newId
    ensures m.totals.Keys <= Ids(store) ==> left.map_.totals.Keys <= Ids(left.store)
    ensures repaired && Sorted(m.extents) ==> Sorted(left.map_.extents) && Harmless(r, store, seen, dryRun, bs)
  {
    hide StoreOk; hide Usable; hide Sorted; hide Updated; hide Retired; hide StatsFor; hide Chosen; hide NothingHidden;
    if store != [] {
      UpdatedUsable(m, store, bs, repaired);
      RetiredUsable(store, seen, r.retire, bs, newId);
      if repaired && Sorted(m.extents) { SortedHidesNothing(store, seen.extents, SetOf(r.retire), bs); }
    }
  }

  /** Over a map that tracks the store: the statistics are those of the device; unless something
      is hidden, no byte changes and the map tracks the new store. */
  lemma {:induction false} RanMeans(store: seq<Segment>, m: MapState, threshold: nat, dryRun: bool, newId: nat, bs: nat,
                                    repaired: bool, r: GcResult, seen: MapState, left: Outcome)
    requires Tracks(m, store, bs) && forall j | 0 <= j < |store| :: store[j].id < newId
    requires Ran(store, m, threshold, dryRun, newId, bs, repaired, r, seen, left)
    ensures r.Done? ==> Agrees(seen.extents, store, bs)
    ensures r.Done? ==>
      forall n: nat | Untouched(store, bs, n) :: LiveBytes(r.stats) == WrittenBlocks(store, bs, n) * bs
    ensures Harmless(r, store, seen, dryRun, bs) ==>
      Tracks(left.map_, left.store, bs) && SameEffect(left.store, store, bs)
    ensures r.Done? && r.newSegment.Some? ==>
      (Agrees(left.map_.extents, left.store, bs) <==> NothingHidden(store, seen.extents, SetOf(r.retire), bs))
  {
    hide StoreOk; hide Usable; hide Updated; hide StatsFor; hide Chosen; hide NothingHidden; hide Agrees; hide Bounded;
    hide Untouched; hide LiveBytes; hide WrittenBlocks; hide Seen;
    if store != [] {
      UpdatedUsable(m, store, bs, repaired);
      RunMeans(store, m, seen, r.stats, bs, repaired);
      AgreesTracks(seen, store, bs);
      if !dryRun {
        if NothingHidden(store, seen.extents, SetOf(r.retire), bs) { RetiredKeeps(store, seen, r.retire, bs, newId); }
        CopyKeeps(store, seen, r.retire, bs, newId);
      }
    }
  }

  /** What a run deletes. */
  function Deleted(r: GcResult, dryRun: bool): set<nat> { if r.NoLogs? || dryRun then {} else SetOf(r.retire) }

  /** Over a map that knew segments which others have deleted: the owners that are still there
      are right; unless something is hidden, no byte of an owned block changes, and it stays so. */
  lemma {:induction false} RanRemembers(store: seq<Segment>, m: MapState, threshold: nat, dryRun: bool, newId: nat,
                                        bs: nat, repaired: bool, r: GcResult, seen: MapState, left: Outcome)
    requires Usable(m) && Remembers(Cleaned(m, Ids(store)), store, bs)
    requires forall j | 0 <= j < |store| :: store[j].id < newId
    requires Ran(store, m, threshold, dryRun, newId, bs, repaired, r, seen, left)
    ensures r.Done? ==> OwnersRight(seen.extents, store, bs)
    ensures r.Done? && !dryRun ==>
      (OwnersRight(left.map_.extents, left.store, bs) <==> NothingHidden(store, seen.extents, SetOf(r.retire), bs))
    ensures Harmless(r, store, seen, dryRun, bs) ==>
      && OwnedSame(left.store, store, seen.extents, Deleted(r, dryRun), bs)
      && (left.store != [] ==> Remembers(left.map_, left.store, bs))
      && Remembers(Cleaned(left.map_, Ids(left.store)), left.store, bs)
  {
    KeptAll(store);
    hide StoreOk; hide Usable; hide Updated; hide StatsFor; hide Chosen; hide NothingHidden; hide OwnersRight;
    hide Remembers; hide Cleaned; hide Retired; hide Kept;
    if store != [] {
      UpdatedUsable(m, store, bs, repaired);
      UpdatedCleaned(m, store, bs, repaired);
      UpdatedRight(Cleaned(m, Ids(store)), store, bs, repaired);
      RightRemembers(seen, store, bs);
      if !dryRun { RetiredRight(store, seen, r.retire, bs, newId); }
      if Harmless(r, store, seen, dryRun, bs) { RemembersCleaned(left.map_, left.store, bs); }
    }
  }

  lemma {:induction false} RemembersCleaned(m: MapState, store: seq<Segment>, bs: nat)
    requires Remembers(m, store, bs)
    ensures Cleaned(m, Ids(store)) == m
  {
    CleanedUsable(m, Ids(store));
  }

  /** If only the oldest of them were deleted, the map fits the store once cleaned up, and the
      run means all that it means over a map that tracks the store. */
  lemma {:induction false} RanFits(store: seq<Segment>, m: MapState, threshold: nat, dryRun: bool, newId: nat,
                                   bs: nat, repaired: bool, r: GcResult, seen: MapState, left: Outcome)
    requires Usable(m) && Tracks(Cleaned(m, Ids(store)), store, bs)
    requires forall j | 0 <= j < |store| :: store[j].id < newId
    requires Ran(store, m, threshold, dryRun, newId, bs, repaired, r, seen, left)
    ensures r.Done? ==> Agrees(seen.extents, store, bs)
    ensures r.Done? ==>
      forall n: nat | Untouched(store, bs, n) :: LiveBytes(r.stats) == WrittenBlocks(store, bs, n) * bs
    ensures Harmless(r, store, seen, dryRun, bs) ==>
      && SameEffect(left.store, store, bs) && (r.Done? ==> Tracks(left.map_, left.store, bs))
  {
    assert bs > 0;
    hide *;
    RanCleaned(store, m, threshold, dryRun, newId, bs, repaired, r, seen, left);
    var c := Cleaned(m, Ids(store));
    if r.Done? {
      RanMeans(store, c, threshold, dryRun, newId, bs, repaired, r, seen, left);
    } else {
      SameEffectSelf(store, bs);
    }
  }

  lemma {:induction false} RanCleaned(store: seq<Segment>, m: MapState, threshold: nat, dryRun: bool, newId: nat,
                                      bs: nat, repaired: bool, r: GcResult, seen: MapState, left: Outcome)
    requires bs > 0 && Usable(m) && Ran(store, m, threshold, dryRun, newId, bs, repaired, r, seen, left)
    ensures r.Done? ==> Ran(store, Cleaned(m, Ids(store)), threshold, dryRun, newId, bs, repaired, r, seen, left)
    ensures !r.Done? ==> left.store == store
  {
    hide Updated; hide StatsFor; hide Chosen; hide MayRetire; hide Reports; hide Left; hide Cleaned; hide Usable;
    UpdatedCleaned(m, store, bs, repaired);
  }

  lemma {:induction false} SameEffectSelf(store: seq<Segment>, bs: nat)
    ensures SameEffect(store, store, bs)
  {
  }

  /** Over a map whose accounts are kept: reported live bytes are at most the totals; the map
      left behind keeps that bound exactly when no live write was lost. */
  lemma {:induction false} RanAccounted(store: seq<Segment>, m: MapState, threshold: nat, dryRun: bool, newId: nat,
                                        bs: nat, repaired: bool, r: GcResult, seen: MapState, left: Outcome)
    requires bs > 0 && StoreOk(store, bs) && Usable(m) && forall j | 0 <= j < |store| :: store[j].id < newId
    requires Accounted(m, store, bs) && Ran(store, m, threshold, dryRun, newId, bs, repaired, r, seen, left)
    ensures r.Done? ==> InBounds(r.stats)
    ensures Bounded(left.map_.extents, left.map_.totals, bs) <==> KeepsWrites(r, store, seen, dryRun, bs)
    ensures KeepsWrites(r, store, seen, dryRun, bs) ==> Accounted(left.map_, left.store, bs)
  {
    hide StoreOk; hide Usable; hide Updated; hide StatsFor; hide Chosen; hide Bounded; hide Backed; hide WritesKept;
    hide Retired; hide InBounds;
    if store != [] {
      UpdatedAccounted(m, store, bs, repaired);
      StatsBounded(r.stats, seen, bs);
      if !dryRun { RetiredAccounted(store, seen, r.retire, bs, newId); }
    }
  }

  /** The segments a run retires, read off the map: utilization below the threshold, some bytes
      written, and not the newest of several. */
  ghost function Picked(m: MapState, bs: nat, threshold: nat): set<nat> {
    set id | id in m.totals && !Newest(m, id) && m.totals[id].totalWriteBytes > 0
             && LiveBlocks(m.extents, id) * bs * 100 < threshold * m.totals[id].totalWriteBytes
  }

  ghost predicate Newest(m: MapState, id: nat) {
    (exists k :: k in m.totals && k < id) && forall k | k in m.totals :: k <= id
  }

  lemma {:induction false} ChosenIs(stats: seq<SegmentStats>, retire: seq<nat>, m: MapState, bs: nat, threshold: nat)
    requires StatsFor(stats, m, bs) && Chosen(retire, stats, threshold)
    ensures SetOf(retire) == Picked(m, bs, threshold)
  {
    hide LiveBlocks;
    var ids := StatIds(stats);
    forall i | 0 <= i < |stats| ensures stats[i].id in Picked(m, bs, threshold) <==> RetiresAt(stats, i, threshold) {
      LastIsNewest(stats, m, bs, i);
      assert stats[i] == StatsOf(m.extents, bs, stats[i].id, m.totals[stats[i].id]);
    }
    forall id ensures id in SetOf(retire) <==> id in Picked(m, bs, threshold) {
      if id in Picked(m, bs, threshold) {
        assert id in SetOf(ids);
        var i :| 0 <= i < |stats| && ids[i] == id;
        assert stats[i].id == id && RetiresAt(stats, i, threshold);
      }
      if id in retire {
        var i :| 0 <= i < |stats| && stats[i].id == id && RetiresAt(stats, i, threshold);
      }
    }
  }

  lemma {:induction false} LastIsNewest(stats: seq<SegmentStats>, m: MapState, bs: nat, i: nat)
    requires StatsFor(stats, m, bs) && i < |stats|
    ensures Newest(m, stats[i].id) <==> i == |stats| - 1 && |stats| > 1
  {
    hide StatsOf;
    var ids := StatIds(stats);
    assert forall k | 0 <= k < |ids| :: ids[k] in SetOf(ids);
    if Newest(m, ids[i]) {
      var k :| k in m.totals && k < ids[i];
      assert k in SetOf(ids);
      var last := ids[|ids| - 1];
      assert last in m.totals && last <= ids[i];
    }
    if i == |ids| - 1 && |ids| > 1 {
      assert ids[0] < ids[i];
      forall k | k in m.totals ensures k <= ids[i] {
        assert k in SetOf(ids);
        var j :| 0 <= j < |ids| && ids[j] == k;
      }
    }
  }

  lemma {:induction false} RanPicks(store: seq<Segment>, m: MapState, threshold: nat, dryRun: bool, newId: nat, bs: nat,
                                    repaired: bool, r: GcResult, seen: MapState, left: Outcome)
    requires bs > 0 && Ran(store, m, threshold, dryRun, newId, bs, repaired, r, seen, left)
    ensures r.Done? ==> seen == Updated(m, store, bs, repaired) && SetOf(r.retire) == Picked(seen, bs, threshold)
  {
    hide Updated; hide Picked; hide StatsFor; hide Chosen; hide MayRetire; hide Reports; hide Left;
    if store != [] { ChosenIs(r.stats, r.retire, seen, bs, threshold); }
  }

  /** One GC run. seen is the live map after reading the new logs. */
  method RunGC(store: LogStore, lm: LiveMap, threshold: nat, dryRun: bool, newId: nat)
    returns (r: GcResult, ghost seen: MapState)
    requires lm.blockSize > 0 && StoreOk(store.segments, lm.blockSize) && Usable(lm.State())
    requires forall j | 0 <= j < |store.segments| :: store.segments[j].id < newId
    modifies store, lm
    ensures Ran(old(store.segments), old(lm.State()), threshold, dryRun, newId, lm.blockSize, lm.repaired,
                r, seen, Outcome(store.segments, lm.State()))
    ensures r.Done? ==>
      && seen == Updated(old(lm.State()), old(store.segments), lm.blockSize, lm.repaired)
      && SetOf(r.retire) == Picked(seen, lm.blockSize, threshold)
    // for any map
    ensures StoreOk(store.segments, lm.blockSize) && Usable(lm.State())
    ensures lm.lastLabel <= old(lm.lastLabel) || lm.lastLabel < newId
    ensures forall j | 0 <= j < |store.segments| :: store.segments[j].id <= newId
    ensures lm.repaired && old(Sorted(lm.extents)) ==>
      Sorted(lm.extents) && Harmless(r, old(store.segments), seen, dryRun, lm.blockSize)
    // for a map that tracks the store
    ensures old(Tracks(lm.State(), store.segments, lm.blockSize)) && r.Done? ==>
      forall n: nat | Untouched(old(store.segments), lm.blockSize, n) ::
        LiveBytes(r.stats) == WrittenBlocks(old(store.segments), lm.blockSize, n) * lm.blockSize
    ensures (&& old(Tracks(lm.State(), store.segments, lm.blockSize))
             && Harmless(r, old(store.segments), seen, dryRun, lm.blockSize)) ==>
      && Tracks(lm.State(), store.segments, lm.blockSize)
      && SameEffect(store.segments, old(store.segments), lm.blockSize)
    ensures old(Tracks(lm.State(), store.segments, lm.blockSize)) && r.Done? && r.newSegment.Some? ==>
      (Agrees(lm.extents, store.segments, lm.blockSize) <==>
       NothingHidden(old(store.segments), seen.extents, SetOf(r.retire), lm.blockSize))
    // for a map that tracks the store but for its oldest segments, deleted by others
    ensures old(Tracks(Cleaned(lm.State(), Ids(store.segments)), store.segments, lm.blockSize)) ==>
      && (r.Done? ==> Agrees(seen.extents, old(store.segments), lm.blockSize))
      && (Harmless(r, old(store.segments), seen, dryRun, lm.blockSize) ==>
            && SameEffect(store.segments, old(store.segments), lm.blockSize)
            && (r.Done? ==> Tracks(lm.State(), store.segments, lm.blockSize)))
    // for a map that tracked the store before others deleted any of its segments
    ensures old(Remembers(Cleaned(lm.State(), Ids(store.segments)), store.segments, lm.blockSize)) ==>
      && (r.Done? ==> OwnersRight(seen.extents, old(store.segments), lm.blockSize))
      && (Harmless(r, old(store.segments), seen, dryRun, lm.blockSize) ==>
            && OwnedSame(store.segments, old(store.segments), seen.extents, Deleted(r, dryRun), lm.blockSize)
            && Remembers(Cleaned(lm.State(), Ids(store.segments)), store.segments, lm.blockSize))
    // for a map whose accounts are kept, as are those of a map in bounds that tracks the store
    ensures old(Tracks(lm.State(), store.segments, lm.blockSize) && Bounded(lm.extents, lm.segments, lm.blockSize)) ==>
      old(Accounted(lm.State(), store.segments, lm.blockSize))
    ensures old(Accounted(lm.State(), store.segments, lm.blockSize)) ==>
      && (r.Done? ==> InBounds(r.stats))
      && (Bounded(lm.extents, lm.segments, lm.blockSize) <==>
            KeepsWrites(r, old(store.segments), seen, dryRun, lm.blockSize))
      && (Bounded(lm.extents, lm.segments, lm.blockSize) ==> Accounted(lm.State(), store.segments, lm.blockSize))
  {
    hide *;
    ghost var before, m, bs := store.segments, lm.State(), lm.blockSize;
    assert m.extents == lm.extents && m.totals == lm.segments && m.lastLabel == lm.lastLabel by { StateParts(lm); }
    if Tracks(m, before, bs) && Bounded(m.extents, m.totals, bs) { TracksAccounted(m, before, bs); }
    r, seen := Collect(store, lm, threshold, dryRun, newId);
    StateParts(lm);
    ghost var left := Outcome(store.segments, lm.State());
    RanUsable(before, m, threshold, dryRun, newId, bs, lm.repaired, r, seen, left);
    RanPicks(before, m, threshold, dryRun, newId, bs, lm.repaired, r, seen, left);
    if Tracks(m, before, bs) { RanMeans(before, m, threshold, dryRun, newId, bs, lm.repaired, r, seen, left); }
    if Tracks(Cleaned(m, Ids(before)), before, bs) {
      RanFits(before, m, threshold, dryRun, newId, bs, lm.repaired, r, seen, left);
    }
    if Remembers(Cleaned(m, Ids(before)), before, bs) {
      RanRemembers(before, m, threshold, dryRun, newId, bs, lm.repaired, r, seen, left);
    }
    if Accounted(m, before, bs) { RanAccounted(before, m, threshold, dryRun, newId, bs, lm.repaired, r, seen, left); }
  }

  lemma {:induction false} TracksAccounted(m: MapState, store: seq<Segment>, bs: nat)
    requires Tracks(m, store, bs) && Bounded(m.extents, m.totals, bs)
    ensures Accounted(m, store, bs)
  {
    hide Bounded; hide Seen;
    TracksBacked(m, store, bs);
  }

  lemma {:induction false} StateParts(lm: LiveMap)
    ensures lm.State().extents == lm.extents && lm.State().totals == lm.segments && lm.State().lastLabel == lm.lastLabel
  {
  }
}
