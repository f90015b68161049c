/** Liveness accounting: live bytes per segment, totals, and copied bytes. */
module Accounting {
  import opened Bytes
  import opened Options
  import opened BlockSets
  import opened LogReplay
  import opened IntervalMap
  import opened Sweep
  import opened Store
  import opened Retire
  import opened LiveMaps

  // ---------------------------------------------------------------- sums over blocks

  /** f(0) + ... + f(n - 1). */
  function SumTo(f: nat -> nat, n: nat): nat {
    if n == 0 then 0 else SumTo(f, n - 1) + f(n - 1)
  }

  lemma {:induction false} SumSame(f: nat -> nat, g: nat -> nat, n: nat)
    requires forall b | 0 <= b < n :: f(b) == g(b)
    ensures SumTo(f, n) == SumTo(g, n)
  {
    if n > 0 { SumSame(f, g, n - 1); }
  }

  lemma {:induction false} SumAdd(f: nat -> nat, g: nat -> nat, h: nat -> nat, n: nat)
    requires forall b | 0 <= b < n :: h(b) == f(b) + g(b)
    ensures SumTo(h, n) == SumTo(f, n) + SumTo(g, n)
  {
    if n > 0 { SumAdd(f, g, h, n - 1); }
  }

  /** A run of blocks counts for its length. */
  lemma {:induction false} SumRun(f: nat -> nat, lo: nat, hi: nat, n: nat)
    requires lo <= hi && forall b | 0 <= b < n :: f(b) == if lo <= b < hi then 1 else 0
    ensures SumTo(f, n) == if n <= lo then 0 else if n < hi then n - lo else hi - lo
  {
    if n > 0 { SumRun(f, lo, hi, n - 1); }
  }

  // ---------------------------------------------------------------- live blocks

  /** Extents that are live writes of seg and hold b. */
  function WriteHolders(xs: seq<Extent<Tag>>, seg: nat, b: nat): nat {
    if xs == [] then 0
    else WriteHolders(xs[..|xs| - 1], seg, b) +
         if xs[|xs| - 1].tag == Tag(seg, false) && xs[|xs| - 1].Has(b) then 1 else 0
  }

  lemma {:induction false} LiveBlocksSum(xs: seq<Extent<Tag>>, seg: nat, n: nat)
    requires EndsBy(xs, n)
    ensures LiveBlocks(xs, seg) == SumTo(b => WriteHolders(xs, seg, b), n)
  {
    var f := (b: nat) => WriteHolders(xs, seg, b);
    if xs == [] {
      SumRun(f, 0, 0, n);
    } else {
      var m := |xs| - 1;
      var x := xs[m];
      LiveBlocksSum(xs[..m], seg, n);
      var g := (b: nat) => WriteHolders(xs[..m], seg, b);
      var h := (b: nat) => if x.tag == Tag(seg, false) && x.Has(b) then 1 else 0;
      SumAdd(g, h, f, n);
      if x.tag == Tag(seg, false) { SumRun(h, x.start, x.End(), n); } else { SumRun(h, 0, 0, n); }
    }
  }

  lemma {:induction false} WriteHoldersOwner(xs: seq<Extent<Tag>>, seg: nat, b: nat)
    requires Disjoint(xs)
    ensures WriteHolders(xs, seg, b) == if Owner(xs, b) == Some(Tag(seg, false)) then 1 else 0
  {
    if xs != [] {
      var m := |xs| - 1;
      var x := xs[m];
      assert xs == xs[..m] + [x];
      forall i, j | 0 <= i < j < m ensures Apart(xs[..m][i], xs[..m][j]) { assert Apart(xs[i], xs[j]); }
      WriteHoldersOwner(xs[..m], seg, b);
      OwnerAppend(xs[..m], [x], b);
      OwnerOne(x, b);
      if x.Has(b) && Owner(xs[..m], b).Some? {
        var k := OwnerWitness(xs[..m], b);
      }
    }
  }

  /** Lists with the same owners have the same live blocks. */
  lemma {:induction false} SameOwnersSameLive(xs: seq<Extent<Tag>>, ys: seq<Extent<Tag>>, seg: nat)
    requires Disjoint(xs) && Disjoint(ys) && forall b: nat :: Owner(xs, b) == Owner(ys, b)
    ensures LiveBlocks(xs, seg) == LiveBlocks(ys, seg)
  {
    var a := ExtentsBound(xs);
    var b := ExtentsBound(ys);
    var n := if a < b then b else a;
    EndsByMono(xs, a, n);
    EndsByMono(ys, b, n);
    LiveBlocksSum(xs, seg, n);
    LiveBlocksSum(ys, seg, n);
    forall b | 0 <= b < n ensures WriteHolders(xs, seg, b) == WriteHolders(ys, seg, b) {
      WriteHoldersOwner(xs, seg, b);
      WriteHoldersOwner(ys, seg, b);
    }
    SumSame(b => WriteHolders(xs, seg, b), b => WriteHolders(ys, seg, b), n);
  }

  // ---------------------------------------------------------------- written blocks

  function WriteTouches(es: seq<Entry>, bs: nat, b: nat): nat
    requires bs > 0
  {
    if es == [] then 0
    else WriteTouches(es[..|es| - 1], bs, b) + if es[|es| - 1].Write? && es[|es| - 1].Touches(bs, b) then 1 else 0
  }

  ghost predicate EntriesEndBy(es: seq<Entry>, bs: nat, n: nat)
    requires bs > 0
  {
    forall i | 0 <= i < |es| :: es[i].block + es[i].NumBlocks(bs) <= n
  }

  /** Blocks of the write entries. */
  function WriteBlocks(es: seq<Entry>, bs: nat): nat
    requires bs > 0
  {
    if es == [] then 0
    else WriteBlocks(es[..|es| - 1], bs) + if es[|es| - 1].Write? then es[|es| - 1].NumBlocks(bs) else 0
  }

  lemma {:induction false} WriteBytesBlocks(es: seq<Entry>, bs: nat)
    requires bs > 0 && AllAligned(es, bs)
    ensures WriteBytes(es) == WriteBlocks(es, bs) * bs
  {
    if es != [] {
      var m := |es| - 1;
      WriteBytesBlocks(es[..m], bs);
      AlignedBytes(es[m], bs, 0);
      Distribute(WriteBlocks(es[..m], bs), es[m].NumBlocks(bs), bs);
    }
  }

  lemma {:induction false} WriteBlocksSum(es: seq<Entry>, bs: nat, n: nat)
    requires bs > 0 && EntriesEndBy(es, bs, n)
    ensures WriteBlocks(es, bs) == SumTo(b => WriteTouches(es, bs, b), n)
  {
    var f := (b: nat) => WriteTouches(es, bs, b);
    if es == [] {
      SumRun(f, 0, 0, n);
    } else {
      var m := |es| - 1;
      var e := es[m];
      WriteBlocksSum(es[..m], bs, n);
      var g := (b: nat) => WriteTouches(es[..m], bs, b);
      var lo, hi := e.block, e.block + e.NumBlocks(bs);
      var w := e.Write?;
      var h := (b: nat) => if w && lo <= b < hi then 1 else 0;
      SumAdd(g, h, f, n);
      if w { SumRun(h, lo, hi, n); } else { SumRun(h, 0, 0, n); }
    }
  }

  lemma {:induction false} WriteTouchesAppend(xs: seq<Entry>, ys: seq<Entry>, bs: nat, b: nat)
    requires bs > 0
    ensures WriteTouches(xs + ys, bs, b) == WriteTouches(xs, bs, b) + WriteTouches(ys, bs, b)
  {
    if ys == [] {
      assert xs + ys == xs;
    } else {
      assert (xs + ys)[..|xs + ys| - 1] == xs + ys[..|ys| - 1];
      WriteTouchesAppend(xs, ys[..|ys| - 1], bs, b);
    }
  }

  /** How many of the ranges hold b. */
  function Holders(rs: seq<Interval>, b: nat): nat {
    if rs == [] then 0 else Holders(rs[..|rs| - 1], b) + if rs[|rs| - 1].Has(b) then 1 else 0
  }

  lemma {:induction false} HoldersAppend(xs: seq<Interval>, ys: seq<Interval>, b: nat)
    ensures Holders(xs + ys, b) == Holders(xs, b) + Holders(ys, b)
  {
    if ys == [] {
      assert xs + ys == xs;
    } else {
      assert (xs + ys)[..|xs + ys| - 1] == xs + ys[..|ys| - 1];
      HoldersAppend(xs, ys[..|ys| - 1], b);
    }
  }

  lemma {:induction false} HoldersCovered(rs: seq<Interval>, b: nat)
    ensures Holders(rs, b) > 0 <==> Covered(rs, b)
  {
    if rs != [] {
      HoldersCovered(rs[..|rs| - 1], b);
      CoveredSnoc(rs, b);
    }
  }

  lemma {:induction false} CutsTouches(e: Entry, rs: seq<Interval>, bs: nat, b: nat)
    requires bs > 0 && e.Aligned(bs) && Within(e, bs, rs)
    ensures WriteTouches(Cuts(e, rs, bs), bs, b) == if e.Write? then Holders(rs, b) else 0
  {
    if rs != [] {
      var n := |rs| - 1;
      CutsTouches(e, rs[..n], bs, b);
      CutShape(e, rs[n], bs, 0);
      var cs := Cuts(e, rs, bs);
      assert cs[..|cs| - 1] == Cuts(e, rs[..n], bs);
    }
  }

  lemma {:induction false} EmitTouches(es: seq<Entry>, ranges: seq<seq<Interval>>, bs: nat, n: nat, b: nat)
    requires bs > 0 && n <= |es| && AllWithin(es, bs, ranges) && OnlyLast(es, bs, ranges)
    ensures var k := LastToucher(es, bs, b);
      WriteTouches(Emit(es, ranges, bs, n), bs, b) == if 0 <= k < n && es[k].Write? then Holders(ranges[k], b) else 0
  {
    if n > 0 {
      EmitTouches(es, ranges, bs, n - 1, b);
      CutsTouches(es[n - 1], ranges[n - 1], bs, b);
      HoldersCovered(ranges[n - 1], b);
      WriteTouchesAppend(Emit(es, ranges, bs, n - 1), Cuts(es[n - 1], ranges[n - 1], bs), bs, b);
    }
  }

  lemma {:induction false} SpansHolders<T>(qs: seq<Extent<T>>, b: nat)
    ensures Holders(Spans(qs), b) == Count(qs, b)
  {
    if qs != [] {
      var n := |qs| - 1;
      SpansHolders(qs[..n], b);
      assert Spans(qs)[..n] == Spans(qs[..n]);
      assert qs == qs[..n] + [qs[n]];
      CountAppend(qs[..n], [qs[n]], b);
      CountOne(qs[n], b);
    }
  }

  lemma {:induction false} QueryCount<T>(xs: seq<Extent<T>>, lo: nat, hi: nat, b: nat)
    requires lo <= hi
    ensures Count(Query(xs, lo, hi), b) <= if lo <= b < hi then Count(xs, b) else 0
  {
    if xs != [] {
      QueryCount(xs[1..], lo, hi, b);
      var q := Query(xs, lo, hi);
      if q != [] && xs[0].End() > lo { assert q[1..] == Query(xs[1..], lo, hi); }
    }
  }

  /** No block is copied twice. */
  lemma {:induction false} ClipHolders(rs: seq<Interval>, xs: seq<Extent<Tag>>, b: nat)
    requires Canonical(rs) && Disjoint(xs)
    ensures Holders(Clip(rs, xs), b) <= if Covered(rs, b) then 1 else 0
  {
    if rs != [] {
      var n := |rs| - 1;
      var q := Query(xs, rs[n].lo, rs[n].hi);
      ClipHolders(rs[..n], xs, b);
      CoveredSnoc(rs, b);
      HoldersAppend(Clip(rs[..n], xs), Spans(q), b);
      SpansHolders(q, b);
      QueryCount(xs, rs[n].lo, rs[n].hi, b);
      CountsFromDisjoint(xs, b);
      if Covered(rs[..n], b) {
        var i :| 0 <= i < n && rs[..n][i].Has(b);
        assert rs[i].hi < rs[n].lo;
      }
    }
  }

  /** A block is copied once if the segment owns it and it is not skipped, else not at all. */
  lemma {:induction false} LiveHolders(s: Segment, xs: seq<Extent<Tag>>, bs: nat, b: nat)
    requires bs > 0 && Positive(xs) && Disjoint(xs) && LastToucher(s.entries, bs, b) >= 0
    ensures Holders(LiveRanges(s.entries, bs, SegExtents(xs, s.id))[LastToucher(s.entries, bs, b)], b) ==
            if OwnedBy(xs, b, s.id) && !Skipped(s.entries, bs, SegExtents(xs, s.id), b) then 1 else 0
  {
    var own := SegExtents(xs, s.id);
    var k := LastToucher(s.entries, bs, b);
    SegExtentsDisjoint(xs, s.id);
    SegExtentsOwner(xs, s.id, b);
    SkippedIff(s.entries, bs, own, b);
    hide Skipped;
    var rs := SweepRange(s.entries, bs, k);
    SweepRangeExact(s.entries, bs, k);
    assert LiveRanges(s.entries, bs, own)[k] == Clip(rs, own);
    ClipHolders(rs, own, b);
    HoldersCovered(Clip(rs, own), b);
    if Covered(Clip(rs, own), b) { CoveredOwned(s, xs, bs, b, k); }
  }

  // ---------------------------------------------------------------- what the kinds are

  /** The segment's last toucher of block b is of the given kind. A trim may be missing. */
  ghost predicate KindIs(es: seq<Entry>, bs: nat, b: nat, isTrim: bool)
    requires bs > 0
  {
    var i := LastToucher(es, bs, b);
    if isTrim then i < 0 || es[i].Trim? else i >= 0 && es[i].Write?
  }

  /** Whatever the map says a segment of the store owns is what the segment's last toucher does;
      only trims may be said of a segment that does not have them. */
  ghost predicate Backed(xs: seq<Extent<Tag>>, store: seq<Segment>, bs: nat)
    requires bs > 0
  {
    forall b: nat, j | 0 <= j < |store| && OwnedBy(xs, b, store[j].id) ::
      KindIs(store[j].entries, bs, b, Owner(xs, b).value.isTrim)
  }

  lemma {:induction false} AgreesBacked(xs: seq<Extent<Tag>>, store: seq<Segment>, bs: nat)
    requires bs > 0 && StoreOk(store, bs) && Agrees(xs, store, bs)
    ensures Backed(xs, store, bs)
  {
    hide LastToucher; hide Agrees; hide Owner;
    forall b: nat, j | 0 <= j < |store| && OwnedBy(xs, b, store[j].id)
      ensures KindIs(store[j].entries, bs, b, Owner(xs, b).value.isTrim)
    {
      OwnerKind(store[j], store, xs, bs, j, b);
    }
  }

  /** Block b is a live write of s that is not copied. */
  ghost predicate LostWrite(s: Segment, xs: seq<Extent<Tag>>, bs: nat, b: nat)
    requires bs > 0
  {
    Owner(xs, b) == Some(Tag(s.id, false)) && Skipped(s.entries, bs, SegExtents(xs, s.id), b)
  }

  /** No live write of a retired segment is hidden from the copy; trims may be. */
  ghost predicate WritesKept(store: seq<Segment>, xs: seq<Extent<Tag>>, gone: set<nat>, bs: nat)
    requires bs > 0
  {
    forall j, b: nat | 0 <= j < |store| && store[j].id in gone :: !LostWrite(store[j], xs, bs, b)
  }

  lemma {:induction false} NothingHiddenKeepsWrites(store: seq<Segment>, xs: seq<Extent<Tag>>, gone: set<nat>, bs: nat)
    requires bs > 0 && Positive(xs) && Disjoint(xs) && NothingHidden(store, xs, gone, bs)
    ensures WritesKept(store, xs, gone, bs)
  {
    hide Clear; hide Skipped; hide Owner;
    forall j, b: nat | 0 <= j < |store| && store[j].id in gone ensures !LostWrite(store[j], xs, bs, b) {
      SegExtentsDisjoint(xs, store[j].id);
      ClearSkipsNothing(store[j].entries, bs, SegExtents(xs, store[j].id), b);
    }
  }

  /** Per block: the copy of a segment writes it once if it is a live write of the segment that
      is not lost, and not at all otherwise. */
  lemma {:induction false} SegOutTouches(s: Segment, xs: seq<Extent<Tag>>, bs: nat, b: nat)
    requires bs > 0 && AllAligned(s.entries, bs) && Positive(xs) && Disjoint(xs)
    requires OwnedBy(xs, b, s.id) ==> KindIs(s.entries, bs, b, Owner(xs, b).value.isTrim)
    ensures WriteTouches(SegOut(s, xs, bs), bs, b) + (if LostWrite(s, xs, bs, b) then 1 else 0) ==
            WriteHolders(xs, s.id, b)
  {
    var own := SegExtents(xs, s.id);
    var live := LiveRanges(s.entries, bs, own);
    SegExtentsMember(xs, s.id);
    LiveRangesWithin(s.entries, bs, own);
    EmitTouches(s.entries, live, bs, |s.entries|, b);
    WriteHoldersOwner(xs, s.id, b);
    hide Skipped; hide WriteTouches; hide WriteHolders; hide Holders; hide LiveRanges; hide Emit;
    if LastToucher(s.entries, bs, b) >= 0 {
      LiveHolders(s, xs, bs, b);
    } else {
      assert !Skipped(s.entries, bs, own, b) by { NeverSkipped(s.entries, bs, own, b); }
    }
  }

  lemma {:induction false} NeverSkipped(es: seq<Entry>, bs: nat, xs: seq<Extent<Tag>>, b: nat)
    requires bs > 0 && LastToucher(es, bs, b) < 0
    ensures !Skipped(es, bs, xs, b)
  {
  }

  /** The kind recorded for a block a segment owns is the kind of the segment's last toucher. */
  lemma {:induction false} OwnerKind(s: Segment, store: seq<Segment>, xs: seq<Extent<Tag>>, bs: nat, j: nat, b: nat)
    requires bs > 0 && StoreOk(store, bs) && Agrees(xs, store, bs)
    requires j < |store| && s == store[j]
    ensures var o := Owner(xs, b);
      o.Some? && o.value.seg == s.id ==>
        LastToucher(s.entries, bs, b) >= 0 && s.entries[LastToucher(s.entries, bs, b)].Trim? == o.value.isTrim
  {
    var p := b * bs;
    MulDivMod(b, bs);
    assert Owner(xs, p / bs) == TagOf(StoreEffect(store, bs, p));
    if Owner(xs, b).Some? && Owner(xs, b).value.seg == s.id {
      var i := StoreEffectIndex(store, bs, p);
      assert i == j;
      EffectLast(s.entries, bs, p);
    }
  }

  lemma {:induction false} CoveredOwned(s: Segment, xs: seq<Extent<Tag>>, bs: nat, b: nat, k: nat)
    requires bs > 0 && Positive(xs) && Disjoint(xs) && k < |s.entries|
    requires Covered(LiveRanges(s.entries, bs, SegExtents(xs, s.id))[k], b)
    ensures Owner(SegExtents(xs, s.id), b).Some?
  {
    var own := SegExtents(xs, s.id);
    SegExtentsDisjoint(xs, s.id);
    var rs := SweepRange(s.entries, bs, k);
    SweepRangeExact(s.entries, bs, k);
    ClipCovered(rs, own, b);
    assert Covered(rs, b);
    var i :| 0 <= i < |rs| && rs[i].Has(b);
    var q := OwnerWitness(Query(own, rs[i].lo, rs[i].hi), b);
    var m := QuerySound(own, rs[i].lo, rs[i].hi, q);
    OwnerAt(own, m, b);
  }

  // ---------------------------------------------------------------- copied bytes

  lemma {:induction false} EntriesBound(es: seq<Entry>, bs: nat) returns (n: nat)
    requires bs > 0
    ensures EntriesEndBy(es, bs, n)
  {
    n := 0;
    if es != [] {
      var m := |es| - 1;
      n := EntriesBound(es[..m], bs);
      n := n + es[m].block + es[m].NumBlocks(bs);
      assert forall i | 0 <= i < m :: es[..m][i] == es[i];
    }
  }

  lemma {:induction false} ExtentsBound<T>(xs: seq<Extent<T>>) returns (n: nat)
    ensures EndsBy(xs, n)
  {
    n := 0;
    if xs != [] {
      var m := |xs| - 1;
      n := ExtentsBound(xs[..m]);
      n := n + xs[m].End();
      assert forall i | 0 <= i < m :: xs[..m][i] == xs[i];
    }
  }

  /** The live writes of s below block n that are not copied. */
  ghost function SegLost(s: Segment, xs: seq<Extent<Tag>>, bs: nat, n: nat): nat
    requires bs > 0
  {
    SumTo(b => if LostWrite(s, xs, bs, b) then 1 else 0, n)
  }

  /** Blocks beyond the last extent are not lost. */
  lemma {:induction false} SegLostMore(s: Segment, xs: seq<Extent<Tag>>, bs: nat, n: nat, m: nat)
    requires bs > 0 && EndsBy(xs, n) && n <= m
    ensures SegLost(s, xs, bs, m) == SegLost(s, xs, bs, n)
  {
    if n < m {
      SegLostMore(s, xs, bs, n, m - 1);
      if LostWrite(s, xs, bs, m - 1) {
        var k := OwnerWitness(xs, m - 1);
        assert false;
      }
    }
  }

  /** The copy of a segment and its lost writes together are its live bytes. */
  lemma {:induction false} SegOutBytes(s: Segment, xs: seq<Extent<Tag>>, bs: nat, n: nat)
    requires bs > 0 && AllAligned(s.entries, bs) && Positive(xs) && Disjoint(xs) && EndsBy(xs, n)
    requires forall b: nat | OwnedBy(xs, b, s.id) :: KindIs(s.entries, bs, b, Owner(xs, b).value.isTrim)
    ensures WriteBytes(SegOut(s, xs, bs)) + SegLost(s, xs, bs, n) * bs == LiveBlocks(xs, s.id) * bs
  {
    var out := SegOut(s, xs, bs);
    SegOutEffect(s, xs, bs, 0);
    var a := EntriesBound(out, bs);
    var m := a + n;
    SegLostMore(s, xs, bs, n, m);
    EndsByMono(xs, n, m);
    EntriesEndByMono(out, bs, a, m);
    WriteBytesBlocks(out, bs);
    hide LostWrite; hide KindIs; hide OwnedBy; hide EndsBy; hide SegOut; hide EntriesEndBy;
    WriteBlocksSum(out, bs, m);
    LiveBlocksSum(xs, s.id, m);
    var f := (b: nat) => WriteTouches(out, bs, b);
    var g := (b: nat) => if LostWrite(s, xs, bs, b) then 1 else 0;
    var h := (b: nat) => WriteHolders(xs, s.id, b);
    forall b | 0 <= b < m ensures h(b) == f(b) + g(b) {
      SegOutTouches(s, xs, bs, b);
    }
    SumAdd(f, g, h, m);
    Distribute(WriteBlocks(out, bs), SegLost(s, xs, bs, m), bs);
  }

  lemma {:induction false} EntriesEndByMono(es: seq<Entry>, bs: nat, n: nat, m: nat)
    requires bs > 0 && EntriesEndBy(es, bs, n) && n <= m
    ensures EntriesEndBy(es, bs, m)
  {
  }

  lemma {:induction false} WriteBytesAppend(xs: seq<Entry>, ys: seq<Entry>)
    ensures WriteBytes(xs + ys) == WriteBytes(xs) + WriteBytes(ys)
  {
    if ys == [] {
      assert xs + ys == xs;
    } else {
      assert (xs + ys)[..|xs + ys| - 1] == xs + ys[..|ys| - 1];
      WriteBytesAppend(xs, ys[..|ys| - 1]);
    }
  }

  /** Live blocks of all retired segments of the store. */
  function RetiredLive(store: seq<Segment>, xs: seq<Extent<Tag>>, gone: set<nat>): nat {
    if store == [] then 0
    else RetiredLive(store[..|store| - 1], xs, gone) +
         if store[|store| - 1].id in gone then LiveBlocks(xs, store[|store| - 1].id) else 0
  }

  /** Lost writes of all retired segments of the store. */
  ghost function RetiredLost(store: seq<Segment>, xs: seq<Extent<Tag>>, gone: set<nat>, bs: nat, n: nat): nat
    requires bs > 0
  {
    if store == [] then 0
    else RetiredLost(store[..|store| - 1], xs, gone, bs, n) +
         if store[|store| - 1].id in gone then SegLost(store[|store| - 1], xs, bs, n) else 0
  }

  lemma {:induction false} BackedPrefix(xs: seq<Extent<Tag>>, store: seq<Segment>, bs: nat, n: nat)
    requires bs > 0 && Backed(xs, store, bs) && n <= |store|
    ensures Backed(xs, store[..n], bs)
  {
    hide KindIs; hide Owner;
    forall b: nat, j | 0 <= j < |store[..n]| && OwnedBy(xs, b, store[..n][j].id)
      ensures KindIs(store[..n][j].entries, bs, b, Owner(xs, b).value.isTrim)
    {
      assert store[..n][j] == store[j];
    }
  }

  lemma {:induction false} CopiedStep(store: seq<Segment>, xs: seq<Extent<Tag>>, gone: set<nat>, bs: nat, n: nat)
    requires bs > 0 && StoreOk(store, bs) && Positive(xs) && store != []
    ensures var k := |store| - 1;
      && StoreOk(store[..k], bs) && AllAligned(store[k].entries, bs)
      && (store[k].id !in gone ==>
            && Copied(store, xs, gone, bs) == Copied(store[..k], xs, gone, bs)
            && RetiredLive(store, xs, gone) == RetiredLive(store[..k], xs, gone)
            && RetiredLost(store, xs, gone, bs, n) == RetiredLost(store[..k], xs, gone, bs, n))
      && (store[k].id in gone ==>
            && Copied(store, xs, gone, bs) == Copied(store[..k], xs, gone, bs) + SegOut(store[k], xs, bs)
            && RetiredLive(store, xs, gone) == RetiredLive(store[..k], xs, gone) + LiveBlocks(xs, store[k].id)
            && RetiredLost(store, xs, gone, bs, n) ==
               RetiredLost(store[..k], xs, gone, bs, n) + SegLost(store[k], xs, bs, n))
  {
    hide SegOut; hide SegLost; hide LiveBlocks;
  }

  /** Conservation: bytes copied and bytes lost are together the live bytes retired. */
  lemma {:induction false} CopiedBytes(store: seq<Segment>, xs: seq<Extent<Tag>>, gone: set<nat>, bs: nat, n: nat)
    requires bs > 0 && StoreOk(store, bs) && Positive(xs) && Disjoint(xs) && Backed(xs, store, bs) && EndsBy(xs, n)
    ensures WriteBytes(Copied(store, xs, gone, bs)) + RetiredLost(store, xs, gone, bs, n) * bs ==
            RetiredLive(store, xs, gone) * bs
  {
    hide *;
    if store == [] {
      CopiedNothing(xs, gone, bs, n);
    } else {
      CopiedStep(store, xs, gone, bs, n);
      var k := |store| - 1;
      var init, s := store[..k], store[k];
      BackedPrefix(xs, store, bs, k);
      CopiedBytes(init, xs, gone, bs, n);
      if s.id in gone {
        SegmentBacked(xs, store, bs, k);
        SegOutBytes(s, xs, bs, n);
        WriteBytesAppend(Copied(init, xs, gone, bs), SegOut(s, xs, bs));
        Balance(WriteBytes(Copied(init, xs, gone, bs)), RetiredLost(init, xs, gone, bs, n),
                RetiredLive(init, xs, gone), WriteBytes(SegOut(s, xs, bs)), SegLost(s, xs, bs, n),
                LiveBlocks(xs, s.id), bs);
      }
    }
  }

  lemma {:induction false} CopiedNothing(xs: seq<Extent<Tag>>, gone: set<nat>, bs: nat, n: nat)
    requires bs > 0 && Positive(xs)
    ensures StoreOk([], bs) && WriteBytes(Copied([], xs, gone, bs)) == 0 && RetiredLost([], xs, gone, bs, n) == 0
    ensures RetiredLive([], xs, gone) == 0
  {
  }

  lemma {:induction false} Balance(a: nat, lost: nat, live: nat, a': nat, lost': nat, live': nat, bs: nat)
    requires a + lost * bs == live * bs && a' + lost' * bs == live' * bs
    ensures a + a' + (lost + lost') * bs == (live + live') * bs
  {
  }

  lemma {:induction false} SegmentBacked(xs: seq<Extent<Tag>>, store: seq<Segment>, bs: nat, j: nat)
    requires bs > 0 && Backed(xs, store, bs) && j < |store|
    ensures forall b: nat | OwnedBy(xs, b, store[j].id) ::
              KindIs(store[j].entries, bs, b, Owner(xs, b).value.isTrim)
  {
    hide KindIs; hide Owner;
  }

  lemma {:induction false} SumZero(f: nat -> nat, n: nat)
    ensures SumTo(f, n) == 0 <==> forall b | 0 <= b < n :: f(b) == 0
  {
    if n > 0 { SumZero(f, n - 1); }
  }

  lemma {:induction false} SegLostNone(s: Segment, xs: seq<Extent<Tag>>, bs: nat, n: nat)
    requires bs > 0 && EndsBy(xs, n)
    ensures SegLost(s, xs, bs, n) == 0 <==> forall b: nat :: !LostWrite(s, xs, bs, b)
  {
    var f := (b: nat) => if LostWrite(s, xs, bs, b) then 1 else 0;
    SumZero(f, n);
    if SegLost(s, xs, bs, n) == 0 {
      forall b: nat ensures !LostWrite(s, xs, bs, b) {
        if b < n {
          assert f(b) == 0;
        } else if LostWrite(s, xs, bs, b) {
          var k := OwnerWitness(xs, b);
          assert false;
        }
      }
    }
  }

  /** Nothing is lost exactly when every live write is kept. */
  lemma {:induction false} NoneLostIff(store: seq<Segment>, xs: seq<Extent<Tag>>, gone: set<nat>, bs: nat, n: nat)
    requires bs > 0 && EndsBy(xs, n)
    ensures RetiredLost(store, xs, gone, bs, n) == 0 <==> WritesKept(store, xs, gone, bs)
  {
    hide LostWrite; hide SegLost; hide EndsBy;
    if store != [] {
      var k := |store| - 1;
      NoneLostIff(store[..k], xs, gone, bs, n);
      SegLostNone(store[k], xs, bs, n);
      forall j | 0 <= j < k ensures store[..k][j] == store[j] { }
      if WritesKept(store, xs, gone, bs) {
        forall j, b: nat | 0 <= j < k && store[..k][j].id in gone ensures !LostWrite(store[..k][j], xs, bs, b) {
          assert !LostWrite(store[j], xs, bs, b);
        }
      } else if WritesKept(store[..k], xs, gone, bs) {
        var j, b: nat :| 0 <= j < |store| && store[j].id in gone && LostWrite(store[j], xs, bs, b);
        assert j == k;
      }
    }
  }

  // ---------------------------------------------------------------- live bytes per segment

  lemma {:induction false} LiveBlocksAppend(xs: seq<Extent<Tag>>, ys: seq<Extent<Tag>>, seg: nat)
    ensures LiveBlocks(xs + ys, seg) == LiveBlocks(xs, seg) + LiveBlocks(ys, seg)
  {
    if ys == [] {
      assert xs + ys == xs;
    } else {
      assert (xs + ys)[..|xs + ys| - 1] == xs + ys[..|ys| - 1];
      LiveBlocksAppend(xs, ys[..|ys| - 1], seg);
    }
  }

  lemma {:induction false} LiveBlocksOne(x: Extent<Tag>, seg: nat)
    ensures LiveBlocks([x], seg) == if x.tag == Tag(seg, false) then x.blocks else 0
  {
    assert [x][..0] == [];
  }

  lemma {:induction false} PiecesLive(x: Extent<Tag>, lo: nat, hi: nat, seg: nat)
    requires x.start < hi && lo < x.End() && lo <= hi
    ensures LiveBlocks(Pieces(x, lo, hi), seg) <= LiveBlocks([x], seg)
  {
    var l := Extent(x.start, if x.start < lo then lo - x.start else 0, x.tag);
    var r := Extent(hi, if x.End() > hi then x.End() - hi else 0, x.tag);
    LiveBlocksOne(x, seg); LiveBlocksOne(l, seg); LiveBlocksOne(r, seg);
    LiveBlocksAppend([l], [r], seg);
    assert [] + [r] == [r] && [l] + [] == [l];
  }

  lemma {:induction false} InsertScanLive(xs: seq<Extent<Tag>>, e: Extent<Tag>, seg: nat)
    ensures LiveBlocks(InsertScan(xs, e).result, seg) <=
            LiveBlocks(xs, seg) + if InsertScan(xs, e).inserted then LiveBlocks([e], seg) else 0
  {
    if xs != [] {
      var n := |xs| - 1;
      var x := xs[n];
      var s := InsertScan(xs[..n], e);
      InsertScanLive(xs[..n], e, seg);
      LiveBlocksOne(x, seg);
      if Misses(x, e.start, e.End()) {
        LiveBlocksAppend(s.result, [x], seg);
        LiveBlocksAppend(s.result, [e, x], seg);
        LiveBlocksAppend([e], [x], seg);
        assert [e] + [x] == [e, x];
      } else {
        PiecesLive(x, e.start, e.End(), seg);
        LiveBlocksAppend(s.result, Pieces(x, e.start, e.End()), seg);
      }
    }
  }

  /** An insertion adds at most its own blocks to its own segment. */
  lemma {:induction false} InsertedLive(xs: seq<Extent<Tag>>, e: Extent<Tag>, seg: nat)
    ensures LiveBlocks(Inserted(xs, e), seg) <= LiveBlocks(xs, seg) + LiveBlocks([e], seg)
  {
    InsertScanLive(xs, e, seg);
    var r := InsertScan(xs, e).result;
    if !InsertScan(xs, e).inserted {
      var pos := SearchStart(r, e.start, 0, |r|);
      LiveBlocksAppend(r[..pos] + [e], r[pos..], seg);
      LiveBlocksAppend(r[..pos], [e], seg);
      LiveBlocksAppend(r[..pos], r[pos..], seg);
      assert r[..pos] + r[pos..] == r;
    }
  }

  lemma {:induction false} RemovedLive(xs: seq<Extent<Tag>>, lo: nat, hi: nat, seg: nat)
    requires lo <= hi
    ensures LiveBlocks(Removed(xs, lo, hi), seg) <= LiveBlocks(xs, seg)
  {
    if xs != [] {
      var n := |xs| - 1;
      var x := xs[n];
      RemovedLive(xs[..n], lo, hi, seg);
      LiveBlocksOne(x, seg);
      if Misses(x, lo, hi) {
        LiveBlocksAppend(Removed(xs[..n], lo, hi), [x], seg);
      } else {
        PiecesLive(x, lo, hi, seg);
        LiveBlocksAppend(Removed(xs[..n], lo, hi), Pieces(x, lo, hi), seg);
      }
    }
  }

  lemma {:induction false} PlacedLive(xs: seq<Extent<Tag>>, e: Extent<Tag>, repaired: bool, seg: nat)
    ensures LiveBlocks(Placed(xs, e, repaired), seg) <= LiveBlocks(xs, seg) + LiveBlocks([e], seg)
  {
    if repaired {
      RemovedLive(xs, e.start, e.End(), seg);
      var r := Removed(xs, e.start, e.End());
      var pos := SearchStart(r, e.start, 0, |r|);
      LiveBlocksAppend(r[..pos] + [e], r[pos..], seg);
      LiveBlocksAppend(r[..pos], [e], seg);
      LiveBlocksAppend(r[..pos], r[pos..], seg);
      assert r[..pos] + r[pos..] == r;
    } else {
      InsertedLive(xs, e, seg);
    }
  }

  /** Merging neighbours keeps every segment's live blocks. */
  lemma {:induction false} MergedLive(xs: seq<Extent<Tag>>, seg: nat)
    ensures LiveBlocks(Merged(xs), seg) == LiveBlocks(xs, seg)
  {
    hide LiveBlocks;
    if |xs| > 1 {
      var n := |xs| - 1;
      var m := Merged(xs[..n]);
      MergedLive(xs[..n], seg);
      assert xs == xs[..n] + [xs[n]];
      LiveBlocksAppend(xs[..n], [xs[n]], seg);
      LiveBlocksAppend(m, [xs[n]], seg);
      LiveBlocksOne(xs[n], seg);
      if Joins(m[|m| - 1], xs[n]) { JoinLive(m, xs[n], seg); }
    }
  }

  lemma {:induction false} JoinLive(m: seq<Extent<Tag>>, x: Extent<Tag>, seg: nat)
    requires m != [] && Joins(m[|m| - 1], x)
    ensures LiveBlocks(m[|m| - 1 := m[|m| - 1].(blocks := m[|m| - 1].blocks + x.blocks)], seg) ==
            LiveBlocks(m, seg) + LiveBlocks([x], seg)
  {
    var k := |m| - 1;
    var both := m[k].(blocks := m[k].blocks + x.blocks);
    assert m[k := both][..k] == m[..k];
    LiveBlocksOne(x, seg);
  }

  /** Renaming a segment moves its live blocks. */
  lemma {:induction false} RetaggedLive(xs: seq<Extent<Tag>>, from: nat, to: nat, seg: nat)
    requires from != to
    ensures LiveBlocks(Retagged(xs, from, to), seg) ==
            if seg == from then 0 else if seg == to then LiveBlocks(xs, to) + LiveBlocks(xs, from)
              else LiveBlocks(xs, seg)
  {
    if xs != [] {
      var n := |xs| - 1;
      assert Retagged(xs, from, to)[..n] == Retagged(xs[..n], from, to);
      RetaggedLive(xs[..n], from, to, seg);
    }
  }

  // ---------------------------------------------------------------- live bytes and totals

  function TotalOf(segments: map<nat, SegInfo>, seg: nat): nat {
    if seg in segments then segments[seg].totalWriteBytes else 0
  }

  /** Every segment's live bytes are at most its total. */
  ghost predicate Bounded(xs: seq<Extent<Tag>>, segments: map<nat, SegInfo>, bs: nat) {
    forall seg: nat :: LiveBlocks(xs, seg) * bs <= TotalOf(segments, seg)
  }

  /** Applying an entry and counting it keeps the bound. */
  lemma {:induction false} EntryBounded(xs: seq<Extent<Tag>>, segments: map<nat, SegInfo>, e: Entry, id: nat, bs: nat,
                                        repaired: bool)
    requires bs > 0 && e.Aligned(bs) && Bounded(xs, segments, bs)
    ensures Bounded(Placed(xs, Extent(e.block, e.NumBlocks(bs), Tag(id, e.Trim?)), repaired),
                    segments[id := Counted(segments, id, e.Write?, e.Length())], bs)
  {
    hide Placed;
    var x := Extent(e.block, e.NumBlocks(bs), Tag(id, e.Trim?));
    var after := segments[id := Counted(segments, id, e.Write?, e.Length())];
    AlignedBytes(e, bs, 0);
    forall seg: nat ensures LiveBlocks(Placed(xs, x, repaired), seg) * bs <= TotalOf(after, seg) {
      PlacedLive(xs, x, repaired, seg);
      LiveBlocksOne(x, seg);
      var a, b, c := LiveBlocks(Placed(xs, x, repaired), seg), LiveBlocks(xs, seg), LiveBlocks([x], seg);
      MulLe(a, b + c, bs);
      Distribute(b, c, bs);
      assert b * bs <= TotalOf(segments, seg);
    }
  }

  /** Live blocks of a list of segments. */
  function SumLive(xs: seq<Extent<Tag>>, ids: seq<nat>): nat {
    if ids == [] then 0 else SumLive(xs, ids[..|ids| - 1]) + LiveBlocks(xs, ids[|ids| - 1])
  }

  lemma {:induction false} RetiredIrrelevant(store: seq<Segment>, xs: seq<Extent<Tag>>, gone: set<nat>, id: nat)
    requires forall k | 0 <= k < |store| :: store[k].id != id
    ensures RetiredLive(store, xs, gone + {id}) == RetiredLive(store, xs, gone)
  {
    if store != [] { RetiredIrrelevant(store[..|store| - 1], xs, gone, id); }
  }

  lemma {:induction false} RetiredNext(store: seq<Segment>, xs: seq<Extent<Tag>>, gone: set<nat>, j: nat)
    requires forall i, k | 0 <= i < k < |store| :: store[i].id < store[k].id
    requires j < |store| && store[j].id !in gone
    ensures RetiredLive(store, xs, gone + {store[j].id}) == RetiredLive(store, xs, gone) + LiveBlocks(xs, store[j].id)
  {
    var n := |store| - 1;
    if j == n {
      forall k | 0 <= k < n ensures store[k].id != store[n].id { assert store[k].id < store[n].id; }
      RetiredIrrelevant(store[..n], xs, gone, store[n].id);
    } else {
      assert store[j].id < store[n].id;
      RetiredNext(store[..n], xs, gone, j);
    }
  }

  lemma {:induction false} RetiredNone(store: seq<Segment>, xs: seq<Extent<Tag>>)
    ensures RetiredLive(store, xs, {}) == 0
  {
    if store != [] { RetiredNone(store[..|store| - 1], xs); }
  }

  /** Segment by segment or store by store, the retired live blocks are the same. */
  lemma {:induction false} RetiredSum(store: seq<Segment>, xs: seq<Extent<Tag>>, ids: seq<nat>)
    requires forall i, k | 0 <= i < k < |store| :: store[i].id < store[k].id
    requires StrictlySorted(ids) && forall id | id in ids :: id in Ids(store)
    ensures RetiredLive(store, xs, SetOf(ids)) == SumLive(xs, ids)
  {
    if ids == [] {
      assert SetOf(ids) == {};
      RetiredNone(store, xs);
    } else {
      var n := |ids| - 1;
      RetiredSum(store, xs, ids[..n]);
      assert ids[n] in ids;
      var j :| 0 <= j < |store| && store[j].id == ids[n];
      var gone := SetOf(ids[..n]);
      assert ids[n] !in ids[..n];
      assert SetOf(ids) == gone + {ids[n]} by { assert ids == ids[..n] + [ids[n]]; }
      RetiredNext(store, xs, gone, j);
    }
  }

  lemma {:induction false} NoLiveBlocks(xs: seq<Extent<Tag>>, seg: nat)
    requires forall i | 0 <= i < |xs| :: xs[i].tag.seg != seg
    ensures LiveBlocks(xs, seg) == 0
  {
    if xs != [] { NoLiveBlocks(xs[..|xs| - 1], seg); }
  }

  // ---------------------------------------------------------------- the global count

  function LastIsWrite(store: seq<Segment>, bs: nat, b: nat): nat {
    match StoreEffect(store, bs, b * bs)
    case None => 0
    case Some(o) => if o.hit.isTrim then 0 else 1
  }

  /** Blocks of all live writes. */
  function AllLive(xs: seq<Extent<Tag>>): nat {
    if xs == [] then 0
    else AllLive(xs[..|xs| - 1]) + if xs[|xs| - 1].tag.isTrim then 0 else xs[|xs| - 1].blocks
  }

  function WriteCount(xs: seq<Extent<Tag>>, b: nat): nat {
    if xs == [] then 0
    else WriteCount(xs[..|xs| - 1], b) + if !xs[|xs| - 1].tag.isTrim && xs[|xs| - 1].Has(b) then 1 else 0
  }

  lemma {:induction false} AllLiveSum(xs: seq<Extent<Tag>>, n: nat)
    requires EndsBy(xs, n)
    ensures AllLive(xs) == SumTo(b => WriteCount(xs, b), n)
  {
    var f := (b: nat) => WriteCount(xs, b);
    if xs == [] {
      SumRun(f, 0, 0, n);
    } else {
      var m := |xs| - 1;
      var x := xs[m];
      AllLiveSum(xs[..m], n);
      var g := (b: nat) => WriteCount(xs[..m], b);
      var h := (b: nat) => if !x.tag.isTrim && x.Has(b) then 1 else 0;
      SumAdd(g, h, f, n);
      if !x.tag.isTrim { SumRun(h, x.start, x.End(), n); } else { SumRun(h, 0, 0, n); }
    }
  }

  lemma {:induction false} WriteCountOwner(xs: seq<Extent<Tag>>, b: nat)
    requires Disjoint(xs)
    ensures WriteCount(xs, b) == if Owner(xs, b).Some? && !Owner(xs, b).value.isTrim then 1 else 0
  {
    if xs != [] {
      var m := |xs| - 1;
      var x := xs[m];
      assert xs == xs[..m] + [x];
      forall i, j | 0 <= i < j < m ensures Apart(xs[..m][i], xs[..m][j]) { assert Apart(xs[i], xs[j]); }
      WriteCountOwner(xs[..m], b);
      OwnerAppend(xs[..m], [x], b);
      OwnerOne(x, b);
      if x.Has(b) && Owner(xs[..m], b).Some? {
        var k := OwnerWitness(xs[..m], b);
      }
    }
  }

  /** The number of blocks below n whose last toucher is a write. */
  function WrittenBlocks(store: seq<Segment>, bs: nat, n: nat): nat {
    SumTo(b => LastIsWrite(store, bs, b), n)
  }

  /** Live write blocks are exactly the blocks whose last toucher is a write. */
  lemma {:induction false} AllLiveCount(store: seq<Segment>, xs: seq<Extent<Tag>>, bs: nat, n: nat)
    requires bs > 0 && Disjoint(xs) && Agrees(xs, store, bs) && EndsBy(xs, n)
    ensures AllLive(xs) == WrittenBlocks(store, bs, n)
  {
    AllLiveSum(xs, n);
    forall b | 0 <= b < n ensures WriteCount(xs, b) == LastIsWrite(store, bs, b) {
      WriteCountOwner(xs, b);
      MulDivMod(b, bs);
      assert Owner(xs, b * bs / bs) == TagOf(StoreEffect(store, bs, b * bs));
    }
    SumSame(b => WriteCount(xs, b), b => LastIsWrite(store, bs, b), n);
  }

  /** Every extent belongs to one of the given segments. */
  ghost predicate Keyed(xs: seq<Extent<Tag>>, keys: set<nat>) {
    forall i | 0 <= i < |xs| :: xs[i].tag.seg in keys
  }

  lemma {:induction false} SumLiveSnoc(xs: seq<Extent<Tag>>, x: Extent<Tag>, ids: seq<nat>)
    requires StrictlySorted(ids)
    ensures SumLive(xs + [x], ids) == SumLive(xs, ids) + if !x.tag.isTrim && x.tag.seg in ids then x.blocks else 0
  {
    if ids != [] {
      var n := |ids| - 1;
      SumLiveSnoc(xs, x, ids[..n]);
      assert (xs + [x])[..|xs|] == xs;
      assert ids == ids[..n] + [ids[n]] && ids[n] !in ids[..n];
    }
  }

  lemma {:induction false} SumLiveNothing(ids: seq<nat>)
    ensures SumLive([], ids) == 0
  {
    if ids != [] { SumLiveNothing(ids[..|ids| - 1]); }
  }

  /** Summed segment by segment over a list that has every owner, no live block is lost or
      counted twice. */
  lemma {:induction false} SumLiveAll(xs: seq<Extent<Tag>>, ids: seq<nat>)
    requires StrictlySorted(ids) && Keyed(xs, SetOf(ids))
    ensures SumLive(xs, ids) == AllLive(xs)
  {
    if xs == [] {
      SumLiveNothing(ids);
    } else {
      var n := |xs| - 1;
      SumLiveAll(xs[..n], ids);
      SumLiveSnoc(xs[..n], xs[n], ids);
      assert xs == xs[..n] + [xs[n]] && xs[n].tag.seg in SetOf(ids);
    }
  }

  /** No block from n on has been touched. */
  ghost predicate Untouched(store: seq<Segment>, bs: nat, n: nat) {
    forall b: nat | b >= n :: StoreEffect(store, bs, b * bs).None?
  }

  lemma {:induction false} UntouchedEnds(store: seq<Segment>, xs: seq<Extent<Tag>>, bs: nat, n: nat)
    requires bs > 0 && Positive(xs) && Disjoint(xs) && Agrees(xs, store, bs) && Untouched(store, bs, n)
    ensures EndsBy(xs, n)
  {
    forall i | 0 <= i < |xs| ensures xs[i].End() <= n {
      var b := xs[i].End() - 1;
      OwnerAt(xs, i, b);
      MulDivMod(b, bs);
      assert Owner(xs, b * bs / bs) == TagOf(StoreEffect(store, bs, b * bs));
    }
  }

  /** The live write blocks of all segments together are exactly the blocks whose last toucher
      is a write. */
  lemma {:induction false} LiveWritesCount(store: seq<Segment>, xs: seq<Extent<Tag>>, ids: seq<nat>, bs: nat, n: nat)
    requires bs > 0 && Positive(xs) && Disjoint(xs) && Agrees(xs, store, bs) && Untouched(store, bs, n)
    requires StrictlySorted(ids) && Keyed(xs, SetOf(ids))
    ensures SumLive(xs, ids) == WrittenBlocks(store, bs, n)
  {
    UntouchedEnds(store, xs, bs, n);
    AllLiveCount(store, xs, bs, n);
    SumLiveAll(xs, ids);
  }
}
