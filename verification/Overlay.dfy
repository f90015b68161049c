/** The disk the kernel driver presents: an image over a read-only base layer. */
module Overlay {
  import opened Bytes
  import opened Options
  import opened BigEndian
  import opened ImageSpace
  import opened ImageTables
  import opened FlatDisk

  /** What lies below the image: nothing, a raw file, or the clusters of another image. */
  datatype Below = Nothing | Raw(file: seq<byte>) | Clusters(disk: map<Cell, seq<byte>>)

  ghost predicate BelowOk(cs: nat, b: Below) { b.Clusters? ==> DiskOk(cs, b.disk) }

  /** The base layer's cluster c, if it has one. A raw file has only whole clusters. */
  function Under(cs: nat, b: Below, c: nat): (r: Option<seq<byte>>)
    requires GoodSize(cs) && BelowOk(cs, b)
    ensures r.Some? ==> |r.value| == cs
  {
    hide CellOf;
    match b
    case Nothing => None
    case Raw(file) =>
      if (c + 1) * cs <= |file| then (assert c * cs + cs == (c + 1) * cs; Some(file[c * cs..(c + 1) * cs])) else None
    case Clusters(disk) => if CellOf(cs, c) in disk then Some(disk[CellOf(cs, c)]) else None
  }

  function OrZeros(cs: nat, d: Option<seq<byte>>): seq<byte> {
    if d.Some? then d.value else Zeros(cs)
  }

  /** Cluster c as the device shows it: its own, else the base layer's, else zeros. */
  function Over(cs: nat, disk: map<Cell, seq<byte>>, b: Below, c: nat): (r: seq<byte>)
    requires GoodSize(cs) && DiskOk(cs, disk) && BelowOk(cs, b)
    ensures |r| == cs
  {
    hide CellOf; hide Under;
    if CellOf(cs, c) in disk then disk[CellOf(cs, c)] else OrZeros(cs, Under(cs, b, c))
  }

  /** A write within one cluster: the whole cluster moves into the image. */
  function OverPut(cs: nat, disk: map<Cell, seq<byte>>, b: Below, off: nat, d: seq<byte>): (r: map<Cell, seq<byte>>)
    requires GoodSize(cs) && DiskOk(cs, disk) && BelowOk(cs, b) && Locate(cs, off).at + |d| <= cs
    ensures DiskOk(cs, r)
  {
    hide Locate; hide GoodSize; hide Over; hide Quo;
    var p := Locate(cs, off);
    disk[p.cell := WriteAt(Over(cs, disk, b, Quo(off, cs)), p.at, d)]
  }

  function OverWrite(cs: nat, disk: map<Cell, seq<byte>>, b: Below, off: nat,
                     data: seq<byte>): (r: map<Cell, seq<byte>>)
    requires GoodSize(cs) && DiskOk(cs, disk) && BelowOk(cs, b)
    ensures DiskOk(cs, r)
    decreases |data|
  {
    hide Locate; hide GoodSize; hide DiskOk; hide OverPut; hide Span; hide BelowOk;
    if data == [] then disk
    else
      var n := Span(cs, off, |data|);
      OverWrite(cs, OverPut(cs, disk, b, off, data[..n]), b, off + n, data[n..])
  }

  /** A discard within one cluster: a whole cluster leaves the image, part of one is cleared if
      the image has the cluster. */
  function OverCut(cs: nat, disk: map<Cell, seq<byte>>, off: nat, k: nat): (r: map<Cell, seq<byte>>)
    requires GoodSize(cs) && DiskOk(cs, disk) && Locate(cs, off).at + k <= cs
    ensures DiskOk(cs, r)
  {
    hide Locate; hide GoodSize;
    var p := Locate(cs, off);
    if p.at == 0 && k == cs then disk - {p.cell}
    else if p.cell in disk then disk[p.cell := WriteAt(disk[p.cell], p.at, Zeros(k))]
    else disk
  }

  function OverDiscard(cs: nat, disk: map<Cell, seq<byte>>, off: nat, n: nat): (r: map<Cell, seq<byte>>)
    requires GoodSize(cs) && DiskOk(cs, disk)
    ensures DiskOk(cs, r)
    decreases n
  {
    hide Locate; hide GoodSize; hide DiskOk; hide OverCut; hide Span;
    if n == 0 then disk
    else
      var k := Span(cs, off, n);
      OverDiscard(cs, OverCut(cs, disk, off, k), off + k, n - k)
  }

  function OverRead(cs: nat, disk: map<Cell, seq<byte>>, b: Below, off: nat, n: nat): (r: seq<byte>)
    requires GoodSize(cs) && DiskOk(cs, disk) && BelowOk(cs, b)
    ensures |r| == n
    decreases n
  {
    hide Locate; hide GoodSize; hide Span; hide Over; hide Quo; hide DiskOk; hide BelowOk;
    if n == 0 then []
    else
      var k := Span(cs, off, n);
      var at := Locate(cs, off).at;
      Over(cs, disk, b, Quo(off, cs))[at..at + k] + OverRead(cs, disk, b, off + k, n - k)
  }

  // ---------------------------------------------------------------- byte by byte

  /** Byte g as the device shows it. */
  function OverByte(cs: nat, disk: map<Cell, seq<byte>>, b: Below, g: nat): byte
    requires GoodSize(cs) && DiskOk(cs, disk) && BelowOk(cs, b)
  {
    hide Over; hide Quo; hide Locate;
    Over(cs, disk, b, Quo(g, cs))[Locate(cs, g).at]
  }

  /** Byte g of the base layer: of a raw file if its cluster is whole, of an image what it holds,
      zero where there is none. */
  function UnderByte(cs: nat, b: Below, g: nat): byte
    requires GoodSize(cs) && BelowOk(cs, b)
  {
    hide ByteAt;
    match b
    case Nothing => 0
    case Raw(file) => WholeCluster(cs, g); if (g / cs + 1) * cs <= |file| then file[g] else 0
    case Clusters(disk) => ByteAt(cs, disk, g)
  }

  lemma {:induction false} WholeCluster(cs: nat, g: nat)
    requires cs > 0
    ensures g / cs * cs <= g < (g / cs + 1) * cs
  {
    BlockOfByte(cs, g, g / cs, g / cs + 1);
  }

  /** The base layer's clusters are those bytes. */
  lemma {:induction false} UnderByteIs(cs: nat, b: Below, g: nat)
    requires GoodSize(cs) && BelowOk(cs, b)
    ensures OrZeros(cs, Under(cs, b, Quo(g, cs)))[Rem(g, cs)] == UnderByte(cs, b, g)
  {
    WholeCluster(cs, g);
    LocateIs(cs, g);
    var c := g / cs;
    assert Quo(g, cs) == c && Rem(g, cs) == g - c * cs by { assert g == c * cs + g % cs; }
    hide CellOf; hide Locate; hide Quo; hide Rem;
    match b
    case Nothing =>
    case Raw(file) =>
      if (c + 1) * cs <= |file| { assert file[c * cs..(c + 1) * cs][g - c * cs] == file[g]; }
    case Clusters(disk) =>
  }

  lemma {:induction false} LocateIs(cs: nat, g: nat)
    requires GoodSize(cs)
    ensures Locate(cs, g) == Place(CellOf(cs, Quo(g, cs)), Rem(g, cs))
  {
    hide CellOf; hide Quo; hide Rem;
  }

  /** Bytes that fit and share a cell share a cluster. */
  lemma {:induction false} SameIndex(cs: nat, a: nat, b: nat)
    requires GoodSize(cs) && Fits(cs, a) && Fits(cs, b) && Locate(cs, a).cell == Locate(cs, b).cell
    ensures Quo(a, cs) == Quo(b, cs) && a - b == Locate(cs, a).at - Locate(cs, b).at
  {
    LocateUnique(cs, a, b);
    hide Entries; hide Quo; hide Rem;
    Small32(Quo(Quo(a, cs), Entries(cs)));
    Small32(Quo(Quo(b, cs), Entries(cs)));
    QuoRem(Quo(a, cs), Quo(b, cs), Entries(cs));
  }

  lemma {:induction false} SameClusterIndex(cs: nat, off: nat, k: nat)
    requires GoodSize(cs) && Locate(cs, off).at + k < cs
    ensures Quo(off + k, cs) == Quo(off, cs)
  {
    hide CellOf; hide Quo; hide Rem;
    QuoAdd(off, k, cs);
  }

  lemma {:induction false} OverReadAt(cs: nat, disk: map<Cell, seq<byte>>, b: Below, off: nat, n: nat, k: nat)
    requires GoodSize(cs) && DiskOk(cs, disk) && BelowOk(cs, b) && k < n
    ensures OverRead(cs, disk, b, off, n)[k] == OverByte(cs, disk, b, off + k)
    decreases n
  {
    hide Locate; hide GoodSize; hide DiskOk; hide Span; hide Over; hide Quo; hide BelowOk;
    var q := Span(cs, off, n);
    var at := Locate(cs, off).at;
    var head := Over(cs, disk, b, Quo(off, cs))[at..at + q];
    var tail := OverRead(cs, disk, b, off + q, n - q);
    assert OverRead(cs, disk, b, off, n) == head + tail;
    hide OverRead;
    if k < q {
      SameCluster(cs, off, k);
      SameClusterIndex(cs, off, k);
    } else {
      OverReadAt(cs, disk, b, off + q, n - q, k - q);
    }
  }

  /** What changing one cell means for byte g. */
  lemma {:induction false} OtherCell(cs: nat, disk: map<Cell, seq<byte>>, r: map<Cell, seq<byte>>, b: Below, c: Cell,
                                     g: nat)
    requires GoodSize(cs) && DiskOk(cs, disk) && DiskOk(cs, r) && BelowOk(cs, b) && disk - {c} == r - {c}
    ensures Locate(cs, g).cell != c ==> OverByte(cs, r, b, g) == OverByte(cs, disk, b, g)
  {
    LocateIs(cs, g);
    hide Locate; hide GoodSize; hide Under; hide Quo; hide CellOf; hide DiskOk; hide BelowOk; hide Rem;
    var x := CellOf(cs, Quo(g, cs));
    if x != c {
      assert x in disk <==> x in disk - {c};
      assert x in r <==> x in r - {c};
      assert x in disk ==> disk[x] == (disk - {c})[x] == r[x];
    }
  }

  lemma {:induction false} OverPutByte(cs: nat, disk: map<Cell, seq<byte>>, b: Below, off: nat, d: seq<byte>, g: nat)
    requires GoodSize(cs) && DiskOk(cs, disk) && BelowOk(cs, b) && Locate(cs, off).at + |d| <= cs && Fits(cs, off)
    requires Fits(cs, g) && d != []
    ensures OverByte(cs, OverPut(cs, disk, b, off, d), b, g) ==
      if off <= g < off + |d| then d[g - off] else OverByte(cs, disk, b, g)
  {
    hide Locate; hide GoodSize; hide Fits; hide DiskOk; hide Under; hide Quo; hide CellOf; hide BelowOk;
    var p := Locate(cs, off);
    var r := OverPut(cs, disk, b, off, d);
    assert disk - {p.cell} == r - {p.cell};
    OtherCell(cs, disk, r, b, p.cell, g);
    LocateIs(cs, g);
    if off <= g < off + |d| {
      SameCluster(cs, off, g - off);
    }
    if Locate(cs, g).cell == p.cell {
      SameIndex(cs, g, off);
    }
  }

  /** A write changes exactly the bytes it names, also over a base layer. */
  lemma {:induction false} OverWriteAt(cs: nat, disk: map<Cell, seq<byte>>, b: Below, off: nat, data: seq<byte>, g: nat)
    requires GoodSize(cs) && DiskOk(cs, disk) && BelowOk(cs, b) && off + |data| <= Reach(cs) && g < Reach(cs)
    ensures OverByte(cs, OverWrite(cs, disk, b, off, data), b, g) ==
      if off <= g < off + |data| then data[g - off] else OverByte(cs, disk, b, g)
    decreases |data|
  {
    hide OverByte; hide OverPut; hide Locate; hide Reach; hide GoodSize; hide DiskOk; hide Fits; hide Span;
    hide BelowOk;
    if data != [] {
      var n := Span(cs, off, |data|);
      ReachFits(cs, off);
      ReachFits(cs, g);
      OverPutByte(cs, disk, b, off, data[..n], g);
      OverWriteAt(cs, OverPut(cs, disk, b, off, data[..n]), b, off + n, data[n..], g);
    }
  }

  // ---------------------------------------------------------------- discards

  /** The cluster of byte g lies wholly in [off, off + n). */
  predicate Whole(cs: nat, off: nat, n: nat, g: nat)
    requires GoodSize(cs)
  {
    hide Locate; hide GoodSize;
    off + Locate(cs, g).at <= g && g - Locate(cs, g).at + cs <= off + n
  }

  /** Byte g after a discard. The bytes of a wholly discarded cluster, and of a partly discarded
      one that the image does not have, are those of the base layer; the image's other bytes in
      the range are cleared. */
  function Discarded(cs: nat, disk: map<Cell, seq<byte>>, b: Below, off: nat, n: nat, g: nat): byte
    requires GoodSize(cs) && DiskOk(cs, disk) && BelowOk(cs, b)
  {
    hide Locate; hide GoodSize; hide OverByte; hide UnderByte; hide DiskOk; hide BelowOk; hide Whole;
    if !(off <= g < off + n) then OverByte(cs, disk, b, g)
    else if Whole(cs, off, n, g) then UnderByte(cs, b, g)
    else if Locate(cs, g).cell in disk then 0
    else OverByte(cs, disk, b, g)
  }

  lemma {:induction false} NotStored(cs: nat, disk: map<Cell, seq<byte>>, b: Below, g: nat)
    requires GoodSize(cs) && DiskOk(cs, disk) && BelowOk(cs, b) && Locate(cs, g).cell !in disk
    ensures OverByte(cs, disk, b, g) == UnderByte(cs, b, g)
  {
    LocateIs(cs, g);
    UnderByteIs(cs, b, g);
    hide UnderByte;
    hide Locate; hide GoodSize; hide Under; hide Quo; hide CellOf; hide Rem;
  }

  lemma {:induction false} IsStored(cs: nat, disk: map<Cell, seq<byte>>, b: Below, g: nat)
    requires GoodSize(cs) && DiskOk(cs, disk) && BelowOk(cs, b) && Locate(cs, g).cell in disk
    ensures OverByte(cs, disk, b, g) == ByteAt(cs, disk, g) == disk[Locate(cs, g).cell][Locate(cs, g).at]
  {
    LocateIs(cs, g);
    hide Locate; hide GoodSize; hide Under; hide Quo; hide CellOf; hide Rem;
  }

  /** The data are cluster c of the base layer, byte by byte; without data these are zeros. */
  ghost predicate UnderCluster(cs: nat, b: Below, c: nat, data: Option<seq<byte>>)
    requires GoodSize(cs) && BelowOk(cs, b)
  {
    && |OrZeros(cs, data)| == cs
    && forall k | 0 <= k < cs :: OrZeros(cs, data)[k] == UnderByte(cs, b, c * cs + k)
  }

  lemma {:induction false} UnderClusterIs(cs: nat, b: Below, c: nat)
    requires GoodSize(cs) && BelowOk(cs, b)
    ensures UnderCluster(cs, b, c, Under(cs, b, c))
  {
    hide Under; hide UnderByte; hide BelowOk;
    forall k | 0 <= k < cs ensures OrZeros(cs, Under(cs, b, c))[k] == UnderByte(cs, b, c * cs + k) {
      DivUnique(c * cs + k, cs, c, k);
      UnderByteIs(cs, b, c * cs + k);
    }
  }

  /** Byte g as the device shows it: the image's if it has the cluster, else the base layer's. */
  lemma {:induction false} OverByteIs(cs: nat, disk: map<Cell, seq<byte>>, b: Below, g: nat)
    requires GoodSize(cs) && DiskOk(cs, disk) && BelowOk(cs, b)
    ensures OverByte(cs, disk, b, g) ==
      if Locate(cs, g).cell in disk then ByteAt(cs, disk, g) else UnderByte(cs, b, g)
  {
    hide OverByte; hide UnderByte; hide ByteAt; hide Locate; hide GoodSize; hide DiskOk; hide BelowOk;
    if Locate(cs, g).cell in disk { IsStored(cs, disk, b, g); } else { NotStored(cs, disk, b, g); }
  }

  /** One cluster of a discard. */
  lemma {:induction false} OverCutByte(cs: nat, disk: map<Cell, seq<byte>>, b: Below, off: nat, k: nat, g: nat)
    requires GoodSize(cs) && DiskOk(cs, disk) && BelowOk(cs, b) && 0 < k && Locate(cs, off).at + k <= cs
    requires Fits(cs, off) && Fits(cs, g)
    ensures OverByte(cs, OverCut(cs, disk, off, k), b, g) ==
      if Locate(cs, g).cell != Locate(cs, off).cell then OverByte(cs, disk, b, g)
      else if k == cs then UnderByte(cs, b, g)
      else if off <= g < off + k && Locate(cs, off).cell in disk then 0
      else OverByte(cs, disk, b, g)
  {
    hide Locate; hide GoodSize; hide Fits; hide OverByte; hide UnderByte; hide BelowOk;
    var p := Locate(cs, off);
    var r := OverCut(cs, disk, off, k);
    assert disk - {p.cell} == r - {p.cell};
    OtherCell(cs, disk, r, b, p.cell, g);
    if Locate(cs, g).cell == p.cell {
      SameIndex(cs, g, off);
      if k == cs {
        NotStored(cs, r, b, g);
      } else if p.cell in disk {
        IsStored(cs, r, b, g);
        IsStored(cs, disk, b, g);
      }
    }
  }

  /** A byte at or after a cluster boundary is in a cluster that starts there or later. */
  lemma {:induction false} AfterBoundary(cs: nat, x: nat, g: nat)
    requires GoodSize(cs) && Locate(cs, x).at == 0 && x <= g
    ensures x + Locate(cs, g).at <= g
  {
    hide Locate; hide GoodSize;
    if g - x < cs { SameCluster(cs, x, g - x); }
  }

  lemma {:induction false} WholeFirst(cs: nat, off: nat, n: nat, g: nat)
    requires GoodSize(cs) && off <= g < off + Span(cs, off, n)
    ensures Whole(cs, off, n, g) <==> Span(cs, off, n) == cs
    ensures Locate(cs, g).cell == Locate(cs, off).cell
  {
    hide Locate; hide GoodSize;
    SameCluster(cs, off, g - off);
  }

  /** The bytes after the first cluster of a discard. */
  lemma {:induction false} WholeLater(cs: nat, off: nat, n: nat, g: nat)
    requires GoodSize(cs) && Span(cs, off, n) < n && off + Span(cs, off, n) <= g && Fits(cs, off) && Fits(cs, g)
    ensures var k := Span(cs, off, n); Whole(cs, off, n, g) <==> Whole(cs, off + k, n - k, g)
    ensures Locate(cs, g).cell != Locate(cs, off).cell
  {
    hide Locate; hide GoodSize; hide Fits;
    NextCluster(cs, off, n);
    AfterBoundary(cs, off + Span(cs, off, n), g);
    if Locate(cs, g).cell == Locate(cs, off).cell { SameIndex(cs, g, off); }
  }

  /** Exactly what a discard does to every byte. */
  lemma {:induction false} OverDiscardAt(cs: nat, disk: map<Cell, seq<byte>>, b: Below, off: nat, n: nat, g: nat)
    requires GoodSize(cs) && DiskOk(cs, disk) && BelowOk(cs, b) && off + n <= Reach(cs) && g < Reach(cs)
    ensures OverByte(cs, OverDiscard(cs, disk, off, n), b, g) == Discarded(cs, disk, b, off, n, g)
    decreases n
  {
    hide OverByte; hide UnderByte; hide OverCut; hide Locate; hide Reach; hide GoodSize; hide DiskOk; hide Fits;
    hide BelowOk; hide Whole; hide Span;
    if n > 0 {
      var k := Span(cs, off, n);
      var cut := OverCut(cs, disk, off, k);
      ReachFits(cs, off);
      ReachFits(cs, g);
      OverCutByte(cs, disk, b, off, k, g);
      OverDiscardAt(cs, cut, b, off + k, n - k, g);
      hide OverDiscard;
      if off <= g < off + k {
        WholeFirst(cs, off, n, g);
      } else {
        if k == cs { OutsideCluster(cs, off, g); }
        if k < n && g >= off + k {
          WholeLater(cs, off, n, g);
          CutOther(cs, disk, off, k, Locate(cs, g).cell);
        }
      }
    }
  }

  lemma {:induction false} CutOther(cs: nat, disk: map<Cell, seq<byte>>, off: nat, k: nat, c: Cell)
    requires GoodSize(cs) && DiskOk(cs, disk) && Locate(cs, off).at + k <= cs
    ensures c != Locate(cs, off).cell ==> (c in OverCut(cs, disk, off, k) <==> c in disk)
  {
    hide Locate; hide GoodSize;
  }

  lemma {:induction false} OutsideCluster(cs: nat, off: nat, g: nat)
    requires GoodSize(cs) && (g < off || off + cs <= g) && Fits(cs, off) && Fits(cs, g) && Locate(cs, off).at == 0
    ensures Locate(cs, g).cell != Locate(cs, off).cell
  {
    hide Locate; hide GoodSize; hide Fits;
    if Locate(cs, g).cell == Locate(cs, off).cell { SameIndex(cs, g, off); }
  }

  /** A discarded byte reads as zero exactly when the base layer's byte is zero or the byte is in a
      partly discarded cluster that the image has. */
  lemma {:induction false} DiscardZeroIff(cs: nat, disk: map<Cell, seq<byte>>, b: Below, off: nat, n: nat, g: nat)
    requires GoodSize(cs) && DiskOk(cs, disk) && BelowOk(cs, b) && off + n <= Reach(cs) && off <= g < off + n
    ensures OverByte(cs, OverDiscard(cs, disk, off, n), b, g) == 0 <==>
      UnderByte(cs, b, g) == 0 || (Locate(cs, g).cell in disk && !Whole(cs, off, n, g))
  {
    OverDiscardAt(cs, disk, b, off, n, g);
    hide OverByte; hide UnderByte; hide OverDiscard; hide Locate; hide Reach; hide GoodSize; hide DiskOk; hide BelowOk;
    hide Whole;
    if Locate(cs, g).cell !in disk { NotStored(cs, disk, b, g); }
  }

  /** Over a raw base that has the cluster, discarding it brings the base's data back. */
  lemma {:induction false} DiscardExposesBase(cs: nat, file: seq<byte>, data: seq<byte>)
    requires GoodSize(cs) && |file| == cs && |data| == cs && file[0] != 0
    ensures DiskOk(cs, map[Cell(0, 0) := data]) && cs <= Reach(cs)
    ensures OverByte(cs, OverDiscard(cs, map[Cell(0, 0) := data], 0, cs), Raw(file), 0) == file[0]
  {
    ReachFits(cs, 0);
    ReachLarge(cs);
    var disk := map[Cell(0, 0) := data];
    assert Locate(cs, 0) == Place(Cell(0, 0), 0);
    OverDiscardAt(cs, disk, Raw(file), 0, cs, 0);
    assert 0 / cs == 0;
  }

  lemma {:induction false} ReachLarge(cs: nat)
    requires GoodSize(cs)
    ensures cs <= Reach(cs)
  {
    MulLe(1, TWO32 * Entries(cs), cs);
  }

  // ---------------------------------------------------------------- rounds of the driver's loops

  lemma {:induction false} OverWriteStep(cs: nat, disk: map<Cell, seq<byte>>, b: Below, off: nat, data: seq<byte>)
    requires GoodSize(cs) && DiskOk(cs, disk) && BelowOk(cs, b) && data != []
    ensures var n := Span(cs, off, |data|);
      OverWrite(cs, disk, b, off, data) == OverWrite(cs, OverPut(cs, disk, b, off, data[..n]), b, off + n, data[n..])
  {
    hide Locate; hide GoodSize; hide DiskOk; hide OverPut; hide Span; hide BelowOk;
  }

  lemma {:induction false} OverWriteOne(cs: nat, disk: map<Cell, seq<byte>>, b: Below, off: nat, y: seq<byte>)
    requires GoodSize(cs) && DiskOk(cs, disk) && BelowOk(cs, b) && y != [] && Locate(cs, off).at + |y| <= cs
    ensures OverWrite(cs, disk, b, off, y) == OverPut(cs, disk, b, off, y)
  {
    hide Locate; hide GoodSize; hide DiskOk; hide OverPut; hide BelowOk;
    OverWriteStep(cs, disk, b, off, y);
    assert Span(cs, off, |y|) == |y| && y[..|y|] == y && y[|y|..] == [];
  }

  lemma {:induction false} OverWriteNext(cs: nat, disk: map<Cell, seq<byte>>, b: Below, off: nat, x: seq<byte>,
                                         y: seq<byte>)
    requires GoodSize(cs) && DiskOk(cs, disk) && BelowOk(cs, b) && y != [] && Locate(cs, off + |x|).at + |y| <= cs
    requires x == [] || Locate(cs, off + |x|).at == 0
    ensures OverWrite(cs, disk, b, off, x + y) == OverPut(cs, OverWrite(cs, disk, b, off, x), b, off + |x|, y)
    decreases |x|
  {
    hide Locate; hide GoodSize; hide DiskOk; hide OverPut; hide BelowOk; hide Span;
    if x == [] {
      assert x + y == y;
      OverWriteOne(cs, disk, b, off, y);
    } else {
      hide OverWrite;
      BoundarySpan(cs, off, |x|, |y|);
      var n := Span(cs, off, |x|);
      assert (x + y)[..n] == x[..n] && (x + y)[n..] == x[n..] + y;
      OverWriteStep(cs, disk, b, off, x);
      OverWriteStep(cs, disk, b, off, x + y);
      OverWriteNext(cs, OverPut(cs, disk, b, off, x[..n]), b, off + n, x[n..], y);
    }
  }

  lemma {:induction false} OverWriteRound(cs: nat, disk: map<Cell, seq<byte>>, b: Below, off: nat, data: seq<byte>,
                                          total: nat)
    requires GoodSize(cs) && DiskOk(cs, disk) && BelowOk(cs, b) && total < |data|
    requires (total > 0 ==> Rem(off + total, cs) == 0)
    ensures var c := Quo(off + total, cs); var at := Rem(off + total, cs); var k := Min(cs - at, |data| - total);
      var before := OverWrite(cs, disk, b, off, data[..total]);
      && OverWrite(cs, disk, b, off, data[..total + k]) ==
         before[CellOf(cs, c) := WriteAt(Over(cs, before, b, c), at, data[total..total + k])]
      && (total + k < |data| ==> Rem(off + total + k, cs) == 0 && k == cs - at)
  {
    hide Quo; hide Rem; hide CellOf; hide GoodSize; hide DiskOk; hide Over; hide OverWrite; hide BelowOk;
    var n := |data| - total;
    SpanIs(cs, off + total, n);
    var k := Span(cs, off + total, n);
    SpanIs(cs, off + total + k, n);
    if k < n { NextCluster(cs, off + total, n); }
    OverWriteNext(cs, disk, b, off, data[..total], data[total..total + k]);
    assert data[..total] + data[total..total + k] == data[..total + k];
  }

  lemma {:induction false} OverDiscardStep(cs: nat, disk: map<Cell, seq<byte>>, off: nat, n: nat)
    requires GoodSize(cs) && DiskOk(cs, disk) && n > 0
    ensures var k := Span(cs, off, n);
      OverDiscard(cs, disk, off, n) == OverDiscard(cs, OverCut(cs, disk, off, k), off + k, n - k)
  {
    hide Locate; hide GoodSize; hide DiskOk; hide OverCut; hide Span;
  }

  lemma {:induction false} OverDiscardNext(cs: nat, disk: map<Cell, seq<byte>>, off: nat, x: nat, y: nat)
    requires GoodSize(cs) && DiskOk(cs, disk) && y > 0 && Locate(cs, off + x).at + y <= cs
    requires x == 0 || Locate(cs, off + x).at == 0
    ensures OverDiscard(cs, disk, off, x + y) == OverCut(cs, OverDiscard(cs, disk, off, x), off + x, y)
    decreases x
  {
    hide Locate; hide GoodSize; hide DiskOk; hide OverCut;
    if x == 0 {
      OverDiscardStep(cs, disk, off, y);
      assert Span(cs, off, y) == y;
    } else {
      hide OverDiscard;
      BoundarySpan(cs, off, x, y);
      var n := Span(cs, off, x);
      hide Span;
      OverDiscardStep(cs, disk, off, x);
      OverDiscardStep(cs, disk, off, x + y);
      OverDiscardNext(cs, OverCut(cs, disk, off, n), off + n, x - n, y);
    }
  }

  lemma {:induction false} OverDiscardRound(cs: nat, disk: map<Cell, seq<byte>>, off: nat, n: nat, total: nat)
    requires GoodSize(cs) && DiskOk(cs, disk) && total < n && (total > 0 ==> Rem(off + total, cs) == 0)
    ensures var cell := CellOf(cs, Quo(off + total, cs));
      var at := Rem(off + total, cs); var k := Min(cs - at, n - total);
      var before := OverDiscard(cs, disk, off, total);
      && OverDiscard(cs, disk, off, total + k) ==
           (if at == 0 && k == cs then before - {cell}
            else if cell in before then before[cell := WriteAt(before[cell], at, Zeros(k))] else before)
      && (total + k < n ==> Rem(off + total + k, cs) == 0 && k == cs - at)
  {
    hide Quo; hide Rem; hide CellOf; hide GoodSize; hide DiskOk; hide OverDiscard;
    SpanIs(cs, off + total, n - total);
    var k := Span(cs, off + total, n - total);
    SpanIs(cs, off + total + k, n - total);
    if k < n - total { NextCluster(cs, off + total, n - total); }
    OverDiscardNext(cs, disk, off, total, k);
  }

  lemma {:induction false} OverReadRound(cs: nat, disk: map<Cell, seq<byte>>, b: Below, off: nat, n: nat,
                                         whole: seq<byte>, buf: seq<byte>)
    requires GoodSize(cs) && DiskOk(cs, disk) && BelowOk(cs, b) && n > 0 && whole == buf + OverRead(cs, disk, b, off, n)
    ensures var at := Rem(off, cs); var k := Min(cs - at, n);
      whole == buf + Over(cs, disk, b, Quo(off, cs))[at..at + k] + OverRead(cs, disk, b, off + k, n - k)
  {
    hide Quo; hide Rem; hide CellOf; hide GoodSize; hide DiskOk; hide Over; hide BelowOk; hide Span; hide Locate;
    SpanIs(cs, off, n);
    var at, k := Locate(cs, off).at, Span(cs, off, n);
    assert OverRead(cs, disk, b, off, n) ==
      Over(cs, disk, b, Quo(off, cs))[at..at + k] + OverRead(cs, disk, b, off + k, n - k);
    hide OverRead;
    Assoc(buf, Over(cs, disk, b, Quo(off, cs))[at..at + k], OverRead(cs, disk, b, off + k, n - k));
  }

  lemma {:induction false} OverWriteNothing(cs: nat, disk: map<Cell, seq<byte>>, b: Below, off: nat, d: seq<byte>)
    requires GoodSize(cs) && DiskOk(cs, disk) && BelowOk(cs, b) && d == []
    ensures OverWrite(cs, disk, b, off, d) == disk && OverDiscard(cs, disk, off, 0) == disk
  {}
}
