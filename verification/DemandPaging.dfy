/** lbdd: the extent map built from the logs, and the clusters assembled from it on a miss. */
module DemandPaging {
  import opened Bytes
  import opened Options
  import opened LogReplay
  import opened IntervalMap

  /** A data source: entry index of log number log, with the entry's own range. */
  datatype ExtentRef = ExtentRef(log: nat, index: nat, block: nat, length: nat)

  /** The source's map has repaired == false; true stands for the same code with the insertion
      that keeps the order. */
  class ExtentMap {
    const repaired: bool
    var extents: seq<Extent<ExtentRef>>

    constructor (repaired: bool)
      ensures extents == [] && this.repaired == repaired
    {
      this.repaired := repaired;
      extents := [];
    }

    method AddWrite(block: nat, numBlocks: nat, ref: ExtentRef)
      modifies this
      ensures extents == Placed(old(extents), Extent(block, numBlocks, ref), repaired)
    {
      extents := PlaceLoop(extents, Extent(block, numBlocks, ref), repaired);
    }

    method RemoveTrim(block: nat, numBlocks: nat)
      modifies this
      ensures extents == Removed(old(extents), block, block + numBlocks)
    {
      extents := RemoveLoop(extents, block, block + numBlocks);
    }

    /** The clipped extents overlapping the range. They answer for every block of it exactly
        when no overlapping extent is hidden. */
    method Lookup(start: nat, numBlocks: nat) returns (result: seq<Extent<ExtentRef>>)
      requires Positive(extents) && Disjoint(extents)
      ensures result == Query(extents, start, start + numBlocks)
      ensures numBlocks > 0 ==> ((forall b | start <= b < start + numBlocks :: Owner(result, b) == Owner(extents, b))
              <==> !Hidden(extents, start, start + numBlocks))
    {
      result := QueryLoop(extents, start, start + numBlocks);
      if numBlocks > 0 { QueryExact(extents, start, start + numBlocks); }
    }
  }

  // ---------------------------------------------------------------- what an extent points at

  /** The extent lies inside the write entry its reference names. */
  ghost predicate Points(x: Extent<ExtentRef>, logs: seq<seq<Entry>>, bs: nat)
    requires bs > 0
  {
    && x.tag.log < |logs| && x.tag.index < |logs[x.tag.log]|
    && var e := logs[x.tag.log][x.tag.index];
       e.Write? && e.Aligned(bs) && e.block == x.tag.block &&
       e.block <= x.start && x.End() <= e.block + e.NumBlocks(bs)
  }

  ghost predicate AllPoint(xs: seq<Extent<ExtentRef>>, logs: seq<seq<Entry>>, bs: nat)
    requires bs > 0
  {
    forall i | 0 <= i < |xs| :: Points(xs[i], logs, bs)
  }

  lemma {:induction false} PiecesPoint(ys: seq<Extent<ExtentRef>>, xs: seq<Extent<ExtentRef>>, logs: seq<seq<Entry>>,
                                       bs: nat)
    requires bs > 0 && AllPieces(ys, xs) && AllPoint(xs, logs, bs)
    ensures AllPoint(ys, logs, bs)
  {
    forall i | 0 <= i < |ys| ensures Points(ys[i], logs, bs) {
      var k :| 0 <= k < |xs| && PieceOf(ys[i], xs[k]);
      assert Points(xs[k], logs, bs);
    }
  }

  /** What an owner says about byte p. */
  ghost predicate Answers(o: Option<ExtentRef>, logs: seq<seq<Entry>>, bs: nat, p: nat, hit: Option<Hit>) {
    if hit.None? || hit.value.isTrim then o.None?
    else
      && o.Some? && o.value.log < |logs| && o.value.index < |logs[o.value.log]|
      && var e := logs[o.value.log][o.value.index];
         e.HasByte(bs, p) && HitOf(e, bs, p) == hit.value
  }

  /** For every byte the map names the entry that wrote it last, or nothing if it was trimmed
      or never written. */
  ghost predicate Pages(xs: seq<Extent<ExtentRef>>, logs: seq<seq<Entry>>, es: seq<Entry>, bs: nat)
    requires bs > 0
  {
    forall p: nat :: Answers(Owner(xs, p / bs), logs, bs, p, Effect(es, bs, p))
  }

  /** The extent of a write entry. */
  function RefExtent(e: Entry, log: nat, index: nat, bs: nat): Extent<ExtentRef>
    requires bs > 0
  {
    Extent(e.block, e.NumBlocks(bs), ExtentRef(log, index, e.block, e.Length()))
  }

  lemma {:induction false} WritePages(xs: seq<Extent<ExtentRef>>, logs: seq<seq<Entry>>, es: seq<Entry>, bs: nat,
                                      log: nat, index: nat, repaired: bool)
    requires bs > 0 && Pages(xs, logs, es, bs) && log < |logs| && index < |logs[log]|
    requires logs[log][index].Write? && logs[log][index].Aligned(bs)
    ensures var e := logs[log][index]; Pages(Placed(xs, RefExtent(e, log, index, bs), repaired), logs, es + [e], bs)
  {
    hide Placed;
    var e := logs[log][index];
    var x := RefExtent(e, log, index, bs);
    forall p: nat ensures Answers(Owner(Placed(xs, x, repaired), p / bs), logs, bs, p, Effect(es + [e], bs, p)) {
      PlacedOwner(xs, x, repaired, p / bs);
      AlignedBytes(e, bs, p);
      assert (es + [e])[..|es|] == es;
      assert Answers(Owner(xs, p / bs), logs, bs, p, Effect(es, bs, p));
    }
  }

  lemma {:induction false} TrimPages(xs: seq<Extent<ExtentRef>>, logs: seq<seq<Entry>>, es: seq<Entry>, bs: nat,
                                     e: Entry)
    requires bs > 0 && Pages(xs, logs, es, bs) && e.Trim? && e.Aligned(bs)
    ensures Pages(Removed(xs, e.block, e.block + e.NumBlocks(bs)), logs, es + [e], bs)
  {
    forall p: nat
      ensures Answers(Owner(Removed(xs, e.block, e.block + e.NumBlocks(bs)), p / bs),
                      logs, bs, p, Effect(es + [e], bs, p))
    {
      RemovedOwner(xs, e.block, e.block + e.NumBlocks(bs), p / bs);
      AlignedBytes(e, bs, p);
      assert (es + [e])[..|es|] == es;
      assert Answers(Owner(xs, p / bs), logs, bs, p, Effect(es, bs, p));
    }
  }

  ghost predicate MapOk(xs: seq<Extent<ExtentRef>>, logs: seq<seq<Entry>>, es: seq<Entry>, bs: nat) {
    bs > 0 && Positive(xs) && Disjoint(xs) && AllPoint(xs, logs, bs) && Pages(xs, logs, es, bs)
  }

  lemma {:induction false} WriteStep(xs: seq<Extent<ExtentRef>>, logs: seq<seq<Entry>>, es: seq<Entry>, bs: nat,
                                     log: nat, index: nat, repaired: bool)
    requires MapOk(xs, logs, es, bs) && log < |logs| && index < |logs[log]|
    requires logs[log][index].Write? && logs[log][index].Aligned(bs)
    ensures var e := logs[log][index]; MapOk(Placed(xs, RefExtent(e, log, index, bs), repaired), logs, es + [e], bs)
  {
    hide Placed; hide Pages;
    var e := logs[log][index];
    var x := RefExtent(e, log, index, bs);
    WritePages(xs, logs, es, bs, log, index, repaired);
    PlacedShape(xs, x, repaired);
    assert AllPoint([x] + xs, logs, bs);
    PiecesPoint(Placed(xs, x, repaired), [x] + xs, logs, bs);
  }

  lemma {:induction false} TrimStep(xs: seq<Extent<ExtentRef>>, logs: seq<seq<Entry>>, es: seq<Entry>, bs: nat,
                                    e: Entry)
    requires MapOk(xs, logs, es, bs) && e.Trim? && e.Aligned(bs)
    ensures MapOk(Removed(xs, e.block, e.block + e.NumBlocks(bs)), logs, es + [e], bs)
  {
    TrimPages(xs, logs, es, bs, e);
    RemovedShape(xs, e.block, e.block + e.NumBlocks(bs));
    PiecesPoint(Removed(xs, e.block, e.block + e.NumBlocks(bs)), xs, logs, bs);
  }

  /** The extents after the first n entries of a log. */
  function Scanned(xs: seq<Extent<ExtentRef>>, es: seq<Entry>, log: nat, bs: nat, n: nat,
                   repaired: bool): seq<Extent<ExtentRef>>
    requires bs > 0 && n <= |es|
  {
    if n == 0 then xs
    else
      var before, e := Scanned(xs, es, log, bs, n - 1, repaired), es[n - 1];
      if e.Write? then Placed(before, RefExtent(e, log, n - 1, bs), repaired)
      else Removed(before, e.block, e.block + e.NumBlocks(bs))
  }

  /** The extents of all logs, read in order. */
  function MapOf(logs: seq<seq<Entry>>, bs: nat, repaired: bool): seq<Extent<ExtentRef>>
    requires bs > 0
  {
    if logs == [] then []
    else
      var n := |logs| - 1;
      Scanned(MapOf(logs[..n], bs, repaired), logs[n], n, bs, |logs[n]|, repaired)
  }

  lemma {:induction false} ScannedSorted(xs: seq<Extent<ExtentRef>>, es: seq<Entry>, log: nat, bs: nat, n: nat)
    requires bs > 0 && n <= |es| && Positive(xs) && Sorted(xs)
    ensures Positive(Scanned(xs, es, log, bs, n, true)) && Sorted(Scanned(xs, es, log, bs, n, true))
  {
    hide Placed; hide Removed; hide Positive; hide Sorted; hide Entry.NumBlocks;
    if n > 0 {
      ScannedSorted(xs, es, log, bs, n - 1);
      var before, e := Scanned(xs, es, log, bs, n - 1, true), es[n - 1];
      if e.Write? {
        PlacedShape(before, RefExtent(e, log, n - 1, bs), true);
      } else {
        RemovedShape(before, e.block, e.block + e.NumBlocks(bs));
      }
    }
  }

  /** With the repaired insertion the map of any logs is sorted. */
  lemma {:induction false} RepairedMapSorted(logs: seq<seq<Entry>>, bs: nat)
    requires bs > 0
    ensures Positive(MapOf(logs, bs, true)) && Sorted(MapOf(logs, bs, true))
  {
    if logs != [] {
      var n := |logs| - 1;
      RepairedMapSorted(logs[..n], bs);
      hide Scanned; hide Positive; hide Sorted;
      ScannedSorted(MapOf(logs[..n], bs, true), logs[n], n, bs, |logs[n]|);
    }
  }

  /** scanLogIntoExtentMap: one log, entry by entry. */
  method ScanLog(logs: seq<seq<Entry>>, log: nat, em: ExtentMap, bs: nat, ghost es: seq<Entry>)
    requires log < |logs| && bs > 0 && AllAligned(logs[log], bs) && MapOk(em.extents, logs, es, bs)
    modifies em
    ensures em.extents == Scanned(old(em.extents), logs[log], log, bs, |logs[log]|, em.repaired)
    ensures MapOk(em.extents, logs, es + logs[log], bs)
  {
    hide MapOk; hide Placed; hide Removed; hide Entry.NumBlocks;
    assert es + logs[log][..0] == es;
    for i := 0 to |logs[log]|
      invariant em.extents == Scanned(old(em.extents), logs[log], log, bs, i, em.repaired)
      invariant MapOk(em.extents, logs, es + logs[log][..i], bs)
    {
      var e := logs[log][i];
      ghost var xs := em.extents;
      ghost var done := es + logs[log][..i];
      assert done + [e] == es + logs[log][..i + 1];
      if e.Write? {
        em.AddWrite(e.block, e.NumBlocks(bs), ExtentRef(log, i, e.block, e.Length()));
        WriteStep(xs, logs, done, bs, log, i, em.repaired);
      } else {
        em.RemoveTrim(e.block, e.NumBlocks(bs));
        TrimStep(xs, logs, done, bs, e);
      }
    }
    assert logs[log][..|logs[log]|] == logs[log];
  }

  /** The map of all logs, read in order. */
  method BuildMap(logs: seq<seq<Entry>>, bs: nat, repaired: bool) returns (em: ExtentMap)
    requires bs > 0 && forall i | 0 <= i < |logs| :: AllAligned(logs[i], bs)
    ensures em.extents == MapOf(logs, bs, repaired) && MapOk(em.extents, logs, Flatten(logs), bs)
    ensures repaired ==> Sorted(em.extents)
  {
    em := new ExtentMap(repaired);
    assert MapOk([], logs, [], bs);
    hide MapOk; hide Scanned; hide Sorted;
    assert logs[..0] == [];
    for i := 0 to |logs|
      invariant fresh(em) && em.repaired == repaired && em.extents == MapOf(logs[..i], bs, repaired)
      invariant MapOk(em.extents, logs, Flatten(logs[..i]), bs)
    {
      ScanLog(logs, i, em, bs, Flatten(logs[..i]));
      assert logs[..i + 1][..i] == logs[..i];
    }
    assert logs[..|logs|] == logs;
    if repaired { RepairedMapSorted(logs, bs); }
  }

  // ---------------------------------------------------------------- misses

  datatype ReadResult = Data(bytes: seq<byte>) | OutOfRange

  /** bytes is what entry e writes from byte base on. */
  ghost predicate Matches(bytes: seq<byte>, e: Entry, bs: nat, base: nat) {
    forall p: nat | base <= p < base + |bytes| :: e.HasByte(bs, p) && bytes[p - base] == e.Value(bs, p)
  }

  /** The number of bytes of n blocks. */
  function BytesOf(n: nat, bs: nat): nat { n * bs }

  lemma {:induction false} BytesOfSum(a: nat, b: nat, bs: nat)
    ensures BytesOf(a + b, bs) == BytesOf(a, bs) + BytesOf(b, bs)
  {
    Distribute(a, b, bs);
  }

  lemma {:induction false} SliceMatches(e: Entry, start: nat, bs: nat, len: nat)
    requires e.Write? && e.block <= start && BytesOf(start - e.block, bs) + len <= |e.data|
    ensures Matches(e.data[BytesOf(start - e.block, bs)..BytesOf(start - e.block, bs) + len], e, bs, BytesOf(start, bs))
  {
    var off, base := BytesOf(start - e.block, bs), BytesOf(start, bs);
    BytesOfSum(e.block, start - e.block, bs);
    assert base == e.block * bs + off;
    var d := e.data[off..off + len];
    forall p: nat | base <= p < base + |d| ensures e.HasByte(bs, p) && d[p - base] == e.Value(bs, p) {
      assert d[p - base] == e.data[off + (p - base)];
    }
  }

  lemma {:induction false} PointsInRange(x: Extent<ExtentRef>, logs: seq<seq<Entry>>, bs: nat)
    requires bs > 0 && Points(x, logs, bs)
    ensures var e := logs[x.tag.log][x.tag.index]; BytesOf(x.start - e.block, bs) + BytesOf(x.blocks, bs) <= |e.data|
  {
    var e := logs[x.tag.log][x.tag.index];
    AlignedBytes(e, bs, 0);
    MulLe(x.End() - e.block, e.NumBlocks(bs), bs);
    BytesOfSum(x.start - e.block, x.blocks, bs);
  }

  /** readExtentData. The range check never fails for an extent that lies inside its entry. */
  method ReadExtentData(x: Extent<ExtentRef>, logs: seq<seq<Entry>>, bs: nat) returns (r: ReadResult)
    requires x.tag.log < |logs| && x.tag.index < |logs[x.tag.log]|
    requires var e := logs[x.tag.log][x.tag.index]; e.Write? && e.block == x.tag.block && e.block <= x.start
    ensures bs > 0 && Points(x, logs, bs) ==> r.Data?
    ensures r.Data? ==> |r.bytes| == BytesOf(x.blocks, bs) &&
                        Matches(r.bytes, logs[x.tag.log][x.tag.index], bs, BytesOf(x.start, bs))
  {
    hide Points;
    hide Matches;
    hide BytesOf;
    var e := logs[x.tag.log][x.tag.index];
    var entryOffset := BytesOf(x.start - x.tag.block, bs);
    var dataLen := BytesOf(x.blocks, bs);
    if entryOffset + dataLen > |e.data| {
      if bs > 0 && Points(x, logs, bs) { PointsInRange(x, logs, bs); }
      return OutOfRange;
    }
    SliceMatches(e, x.start, bs, dataLen);
    r := Data(e.data[entryOffset..entryOffset + dataLen]);
  }

  // ---------------------------------------------------------------- assembling a cluster

  /** Byte p of the replayed device. */
  function DeviceByte(es: seq<Entry>, bs: nat, p: nat): byte { Replay(es, bs, p, 0) }

  /** The state of the cluster buffer, which starts at byte origin of the device, once the
      first n extents have been copied in: blocks they hold are final, the rest is zero. */
  ghost predicate Filled(cluster: seq<byte>, qs: seq<Extent<ExtentRef>>, n: nat, es: seq<Entry>, bs: nat, origin: nat)
    requires bs > 0 && n <= |qs|
  {
    forall i | 0 <= i < |cluster| ::
      cluster[i] == if Owner(qs[..n], (origin + i) / bs).Some? then DeviceByte(es, bs, origin + i) else 0
  }

  /** Byte p lies in an extent exactly when it lies in its byte range. */
  lemma {:induction false} ExtentBytes<T>(x: Extent<T>, bs: nat, p: nat)
    requires bs > 0
    ensures x.Has(p / bs) <==> BytesOf(x.start, bs) <= p < BytesOf(x.start, bs) + BytesOf(x.blocks, bs)
  {
    BlockOfByte(bs, p, x.start, x.End());
    BytesOfSum(x.start, x.blocks, bs);
  }

  /** Copying one extent in keeps what is final and adds its blocks. */
  lemma {:induction false} FillStep(cluster: seq<byte>, qs: seq<Extent<ExtentRef>>, n: nat, es: seq<Entry>, bs: nat,
                                    origin: nat, off: nat, data: seq<byte>)
    requires bs > 0 && n < |qs| && Filled(cluster, qs, n, es, bs, origin)
    requires BytesOf(qs[n].start, bs) == origin + off && |data| == BytesOf(qs[n].blocks, bs)
    requires off + |data| <= |cluster|
    requires forall k | 0 <= k < |data| :: data[k] == DeviceByte(es, bs, origin + off + k)
    ensures Filled(WriteAt(cluster, off, data), qs, n + 1, es, bs, origin)
  {
    var q := qs[n];
    var after := WriteAt(cluster, off, data);
    assert qs[..n + 1] == qs[..n] + [q];
    hide DeviceByte;
    hide BytesOf;
    forall i | 0 <= i < |after|
      ensures after[i] == if Owner(qs[..n + 1], (origin + i) / bs).Some? then DeviceByte(es, bs, origin + i) else 0
    {
      OwnerAppend(qs[..n], [q], (origin + i) / bs);
      OwnerOne(q, (origin + i) / bs);
      ExtentBytes(q, bs, origin + i);
    }
  }

  /** What the map's owner of a byte wrote there is what replay says. */
  lemma {:induction false} OwnedByte(xs: seq<Extent<ExtentRef>>, i: nat, logs: seq<seq<Entry>>, es: seq<Entry>, bs: nat,
                                     p: nat)
    requires MapOk(xs, logs, es, bs) && i < |xs| && xs[i].Has(p / bs)
    ensures var t := xs[i].tag; t.log < |logs| && t.index < |logs[t.log]| && logs[t.log][t.index].HasByte(bs, p)
    ensures DeviceByte(es, bs, p) == logs[xs[i].tag.log][xs[i].tag.index].Value(bs, p)
  {
    OwnerAt(xs, i, p / bs);
    assert Answers(Owner(xs, p / bs), logs, bs, p, Effect(es, bs, p));
    ReplayByEffect(es, bs, p, 0);
  }

  lemma {:induction false} ExtentIsReplay(x: Extent<ExtentRef>, xs: seq<Extent<ExtentRef>>, i: nat,
                                          logs: seq<seq<Entry>>, es: seq<Entry>,
                                          bs: nat, data: seq<byte>)
    requires MapOk(xs, logs, es, bs) && i < |xs| && PieceOf(x, xs[i]) && Points(x, logs, bs)
    requires |data| == BytesOf(x.blocks, bs) && Matches(data, logs[x.tag.log][x.tag.index], bs, BytesOf(x.start, bs))
    ensures forall k | 0 <= k < |data| :: data[k] == DeviceByte(es, bs, BytesOf(x.start, bs) + k)
  {
    assert bs > 0;
    hide DeviceByte;
    hide BytesOf;
    hide MapOk;
    forall k | 0 <= k < |data| ensures data[k] == DeviceByte(es, bs, BytesOf(x.start, bs) + k) {
      ExtentBytes(x, bs, BytesOf(x.start, bs) + k);
      OwnedByte(xs, i, logs, es, bs, BytesOf(x.start, bs) + k);
    }
  }

  /** Clipped extents still point into their entries and stay inside the queried range. */
  lemma {:induction false} QueryPoints(xs: seq<Extent<ExtentRef>>, logs: seq<seq<Entry>>, bs: nat, lo: nat, hi: nat,
                                       k: nat) returns (i: nat)
    requires bs > 0 && Positive(xs) && AllPoint(xs, logs, bs) && lo < hi && k < |Query(xs, lo, hi)|
    ensures var q := Query(xs, lo, hi)[k];
      i < |xs| && PieceOf(q, xs[i]) && Points(q, logs, bs) && lo <= q.start && q.End() <= hi
  {
    i := QuerySound(xs, lo, hi, k);
    assert Points(xs[i], logs, bs);
  }

  lemma {:induction false} UnownedIsZero(xs: seq<Extent<ExtentRef>>, logs: seq<seq<Entry>>, es: seq<Entry>, bs: nat,
                                         p: nat)
    requires bs > 0 && Pages(xs, logs, es, bs)
    ensures Owner(xs, p / bs).None? ==> DeviceByte(es, bs, p) == 0
  {
    assert Answers(Owner(xs, p / bs), logs, bs, p, Effect(es, bs, p));
    ReplayByEffect(es, bs, p, 0);
    TrimIsZero(es, bs, p);
  }

  ghost predicate IsDevice(cluster: seq<byte>, es: seq<Entry>, bs: nat, origin: nat) {
    forall i | 0 <= i < |cluster| :: cluster[i] == DeviceByte(es, bs, origin + i)
  }

  /** Block b of the range has an extent that is hidden from the query. */
  ghost predicate Lost<T>(xs: seq<Extent<T>>, lo: nat, hi: nat, b: nat) {
    lo <= b < hi && HiddenAt(xs, lo, hi, b)
  }

  /** Blocks are lost exactly when an extent is hidden. */
  lemma {:induction false} LostIff<T>(xs: seq<Extent<T>>, lo: nat, hi: nat)
    requires Positive(xs) && lo < hi
    ensures (exists b: nat :: Lost(xs, lo, hi, b)) <==> Hidden(xs, lo, hi)
  {
    hide HiddenAt; hide Hidden;
    HiddenBlock(xs, lo, hi);
    if Hidden(xs, lo, hi) {
      var b :| lo <= b < hi && HiddenAt(xs, lo, hi, b);
      assert Lost(xs, lo, hi, b);
    }
  }

  /** Exactly when all lost bytes are zero, the cluster is the device's. */
  lemma {:induction false} FilledIsDevice(cluster: seq<byte>, xs: seq<Extent<ExtentRef>>, logs: seq<seq<Entry>>,
                                          es: seq<Entry>, bs: nat, first: nat, blocks: nat)
    requires MapOk(xs, logs, es, bs) && |cluster| == BytesOf(blocks, bs) && blocks > 0
    requires var qs := Query(xs, first, first + blocks); Filled(cluster, qs, |qs|, es, bs, BytesOf(first, bs))
    ensures IsDevice(cluster, es, bs, BytesOf(first, bs)) <==> LostAreZero(xs, es, bs, first, blocks)
  {
    assert bs > 0;
    hide DeviceByte; hide BytesOf; hide Query; hide Owner; hide Lost; hide MapOk;
    var qs := Query(xs, first, first + blocks);
    var origin := BytesOf(first, bs);
    assert qs[..|qs|] == qs;
    if LostAreZero(xs, es, bs, first, blocks) {
      forall i | 0 <= i < |cluster| ensures cluster[i] == DeviceByte(es, bs, origin + i) {
        FilledByte(xs, logs, es, bs, first, blocks, origin + i);
      }
    }
    if IsDevice(cluster, es, bs, origin) {
      forall p: nat | Lost(xs, first, first + blocks, p / bs) ensures DeviceByte(es, bs, p) == 0 {
        LostInRange(xs, bs, first, blocks, p);
        FilledByte(xs, logs, es, bs, first, blocks, p);
        var i := p - origin;
        assert cluster[i] == DeviceByte(es, bs, origin + i);
      }
    }
  }

  ghost predicate LostAreZero(xs: seq<Extent<ExtentRef>>, es: seq<Entry>, bs: nat, first: nat, blocks: nat)
    requires bs > 0
  {
    forall p: nat | Lost(xs, first, first + blocks, p / bs) :: DeviceByte(es, bs, p) == 0
  }

  lemma {:induction false} LostInRange<T>(xs: seq<Extent<T>>, bs: nat, first: nat, blocks: nat, p: nat)
    requires bs > 0 && Lost(xs, first, first + blocks, p / bs)
    ensures BytesOf(first, bs) <= p < BytesOf(first, bs) + BytesOf(blocks, bs)
  {
    ExtentBytes(Extent(first, blocks, 0), bs, p);
  }

  lemma {:induction false} FilledByte(xs: seq<Extent<ExtentRef>>, logs: seq<seq<Entry>>, es: seq<Entry>, bs: nat,
                                      first: nat, blocks: nat, p: nat)
    requires MapOk(xs, logs, es, bs) && blocks > 0 && BytesOf(first, bs) <= p < BytesOf(first, bs) + BytesOf(blocks, bs)
    ensures Owner(Query(xs, first, first + blocks), p / bs).None? ==>
      (Lost(xs, first, first + blocks, p / bs) <==> Owner(xs, p / bs).Some?)
      && (Owner(xs, p / bs).None? ==> DeviceByte(es, bs, p) == 0)
    ensures Owner(Query(xs, first, first + blocks), p / bs).Some? ==> !Lost(xs, first, first + blocks, p / bs)
  {
    ExtentBytes(Extent(first, blocks, 0), bs, p);
    QueryAt(xs, first, first + blocks, p / bs);
    UnownedIsZero(xs, logs, es, bs, p);
  }

  // ---------------------------------------------------------------- misses

  datatype MissReply = Continue | Retry(cluster: seq<byte>) | Failed

  /** handleMiss: the cluster is assembled from the extents of its blocks. No extent read
      fails, and the cluster (zeros when the kernel is told to continue) is the one of the
      replayed device exactly when all bytes hidden from the query are zero. */
  method HandleMiss(index: nat, em: ExtentMap, logs: seq<seq<Entry>>, bs: nat, blocksPerCluster: nat,
                    ghost es: seq<Entry>)
    returns (r: MissReply)
    requires MapOk(em.extents, logs, es, bs) && blocksPerCluster > 0
    ensures !r.Failed?
    ensures r.Retry? ==> |r.cluster| == BytesOf(blocksPerCluster, bs)
    ensures r.Continue? <==>
      Query(em.extents, index * blocksPerCluster, index * blocksPerCluster + blocksPerCluster) == []
    ensures var first := index * blocksPerCluster;
      IsDevice(Answer(r, blocksPerCluster, bs), es, bs, BytesOf(first, bs)) <==>
      LostAreZero(em.extents, es, bs, first, blocksPerCluster)
    ensures var first := index * blocksPerCluster;
      !Hidden(em.extents, first, first + blocksPerCluster) ==>
      IsDevice(Answer(r, blocksPerCluster, bs), es, bs, BytesOf(first, bs))
  {
    hide BytesOf; hide IsDevice; hide Filled; hide LostAreZero; hide Lost;
    var first := index * blocksPerCluster;
    var qs := em.Lookup(first, blocksPerCluster);
    var cluster, failed := Assemble(em, logs, bs, first, blocksPerCluster, qs, es);
    if failed {
      return Failed;
    }
    r := if |qs| == 0 then Continue else Retry(cluster);
    FilledIsDevice(cluster, em.extents, logs, es, bs, first, blocksPerCluster);
    if !Hidden(em.extents, first, first + blocksPerCluster) {
      NothingLost(em.extents, es, bs, first, blocksPerCluster);
    }
  }

  /** The cluster the guest then reads. */
  function Answer(r: MissReply, blocks: nat, bs: nat): seq<byte>
    requires !r.Failed?
  {
    if r.Retry? then r.cluster else Zeros(BytesOf(blocks, bs))
  }

  lemma {:induction false} NothingLost(xs: seq<Extent<ExtentRef>>, es: seq<Entry>, bs: nat, first: nat, blocks: nat)
    requires bs > 0 && blocks > 0 && Positive(xs) && Disjoint(xs) && !Hidden(xs, first, first + blocks)
    ensures LostAreZero(xs, es, bs, first, blocks)
  {
    hide Lost;
    LostIff(xs, first, first + blocks);
  }

  /** From the logs to the answer of a miss: with the repaired insertion it is always the
      replayed device's cluster; as the source inserts, exactly when all lost bytes are zero. */
  method Page(logs: seq<seq<Entry>>, bs: nat, repaired: bool, index: nat, blocksPerCluster: nat) returns (r: MissReply)
    requires bs > 0 && blocksPerCluster > 0 && forall i | 0 <= i < |logs| :: AllAligned(logs[i], bs)
    ensures !r.Failed?
    ensures var first := index * blocksPerCluster;
      IsDevice(Answer(r, blocksPerCluster, bs), Flatten(logs), bs, BytesOf(first, bs)) <==>
      LostAreZero(MapOf(logs, bs, repaired), Flatten(logs), bs, first, blocksPerCluster)
    ensures repaired ==>
      IsDevice(Answer(r, blocksPerCluster, bs), Flatten(logs), bs, BytesOf(index * blocksPerCluster, bs))
  {
    hide IsDevice; hide LostAreZero; hide MapOk; hide MapOf; hide Hidden; hide Answer;
    var em := BuildMap(logs, bs, repaired);
    r := HandleMiss(index, em, logs, bs, blocksPerCluster, Flatten(logs));
    if repaired { SortedNeverHides(em.extents, index * blocksPerCluster, index * blocksPerCluster + blocksPerCluster); }
  }

  /** Copies the data of every extent to its place in a zeroed cluster. */
  method Assemble(em: ExtentMap, logs: seq<seq<Entry>>, bs: nat, first: nat, blocks: nat, qs: seq<Extent<ExtentRef>>,
                  ghost es: seq<Entry>)
    returns (cluster: seq<byte>, failed: bool)
    requires MapOk(em.extents, logs, es, bs) && blocks > 0 && qs == Query(em.extents, first, first + blocks)
    ensures !failed && |cluster| == BytesOf(blocks, bs) && Filled(cluster, qs, |qs|, es, bs, BytesOf(first, bs))
    ensures qs == [] ==> cluster == Zeros(BytesOf(blocks, bs))
  {
    hide BytesOf;
    cluster := Zeros(BytesOf(blocks, bs));
    failed := false;
    assert Filled(cluster, qs, 0, es, bs, BytesOf(first, bs));
    for n := 0 to |qs|
      invariant |cluster| == BytesOf(blocks, bs) && Filled(cluster, qs, n, es, bs, BytesOf(first, bs))
      invariant n == 0 ==> cluster == Zeros(BytesOf(blocks, bs))
    {
      ghost var i := QueryPoints(em.extents, logs, bs, first, first + blocks, n);
      hide MapOk;
      hide Filled;
      var q := qs[n];
      var data := ReadExtentData(q, logs, bs);
      if data.OutOfRange? {
        return cluster, true;
      }
      var off := BytesOf(q.start - first, bs);
      BytesOfSum(first, q.start - first, bs);
      BytesOfSum(q.start - first, q.blocks, bs);
      BytesOfSum(q.End() - first, first + blocks - q.End(), bs);
      ExtentIsReplay(q, em.extents, i, logs, es, bs, data.bytes);
      FillStep(cluster, qs, n, es, bs, BytesOf(first, bs), off, data.bytes);
      cluster := WriteAt(cluster, off, data.bytes);
    }
  }
}
