/** Runs of the kernel driver against an uncached reference. */
module KernelRuns {
  import opened Bytes
  import opened BigEndian
  import opened ImageSpace
  import opened ImageTables
  import opened FlatDisk
  import opened Images
  import opened Overlay
  import opened Kernel
  import ImageRuns
  import LruCaches
  import opened ImageState
  import opened FreeChain

  datatype Op = Write(off: nat, data: seq<byte>) | Discard(off: nat, n: nat) | Read(off: nat, n: nat)

  function Len(op: Op): nat { if op.Write? then |op.data| else op.n }

  /** The cluster of byte g has a byte in [off, off + n). */
  predicate Touched(cs: nat, off: nat, n: nat, g: nat)
    requires GoodSize(cs)
  {
    hide Locate; hide GoodSize;
    n > 0 && off + Locate(cs, g).at < g + cs && g < off + n + Locate(cs, g).at
  }

  /** Whether the image, which had the clusters own, has the cluster of byte g after a run. */
  predicate Has(cs: nat, own: map<Cell, seq<byte>>, ops: seq<Op>, g: nat)
    requires GoodSize(cs)
  {
    if ops == [] then Locate(cs, g).cell in own
    else
      var before := ops[..|ops| - 1];
      match ops[|ops| - 1]
      case Write(off, data) => Touched(cs, off, |data|, g) || Has(cs, own, before, g)
      case Discard(off, n) => !(off <= g < off + n && Whole(cs, off, n, g)) && Has(cs, own, before, g)
      case Read(_, _) => Has(cs, own, before, g)
  }

  /** The reference: byte g after a run on an image that had the clusters own, over a base layer,
      byte by byte and without caches. */
  function Shown(cs: nat, own: map<Cell, seq<byte>>, b: Below, ops: seq<Op>, g: nat): byte
    requires GoodSize(cs) && DiskOk(cs, own) && BelowOk(cs, b)
  {
    if ops == [] then if Locate(cs, g).cell in own then ByteAt(cs, own, g) else UnderByte(cs, b, g)
    else
      var before := ops[..|ops| - 1];
      match ops[|ops| - 1]
      case Write(off, data) => if off <= g < off + |data| then data[g - off] else Shown(cs, own, b, before, g)
      case Discard(off, n) =>
        if !(off <= g < off + n) then Shown(cs, own, b, before, g)
        else if Whole(cs, off, n, g) then UnderByte(cs, b, g)
        else if Has(cs, own, before, g) then 0
        else Shown(cs, own, b, before, g)
      case Read(_, _) => Shown(cs, own, b, before, g)
  }

  // ---------------------------------------------------------------- which clusters the image has

  lemma {:induction false} PutHas(cs: nat, disk: map<Cell, seq<byte>>, b: Below, off: nat, d: seq<byte>, g: nat)
    requires GoodSize(cs) && DiskOk(cs, disk) && BelowOk(cs, b) && d != [] && Locate(cs, off).at + |d| <= cs
    requires Fits(cs, off) && Fits(cs, g)
    ensures Locate(cs, g).cell in OverPut(cs, disk, b, off, d) <==>
      Locate(cs, g).cell in disk || Touched(cs, off, |d|, g)
  {
    hide Locate; hide GoodSize; hide Fits; hide DiskOk; hide BelowOk; hide Over; hide Quo;
    if Locate(cs, g).cell == Locate(cs, off).cell {
      SameIndex(cs, g, off);
    } else {
      Apart(cs, off, |d|, g);
    }
  }

  /** Clusters with different cells do not touch. */
  lemma {:induction false} Apart(cs: nat, off: nat, n: nat, g: nat)
    requires GoodSize(cs) && Locate(cs, off).at + n <= cs && Locate(cs, g).cell != Locate(cs, off).cell
    ensures !Touched(cs, off, n, g)
  {
    hide Locate; hide GoodSize;
    StartOf(cs, off);
    StartOf(cs, g);
    var s, t := off - Locate(cs, off).at, g - Locate(cs, g).at;
    if s <= t < s + cs { SameFromStart(cs, s, t - s); }
    if t <= s < t + cs { SameFromStart(cs, t, s - t); }
  }

  lemma {:induction false} StartOf(cs: nat, g: nat)
    requires GoodSize(cs)
    ensures Locate(cs, g).at <= g && Locate(cs, g - Locate(cs, g).at) == Place(Locate(cs, g).cell, 0)
  {
    hide CellOf;
    var q := g / cs;
    assert g == q * cs + g % cs;
    DivUnique(q * cs, cs, q, 0);
  }

  lemma {:induction false} SameFromStart(cs: nat, start: nat, k: nat)
    requires GoodSize(cs) && Locate(cs, start).at == 0 && k < cs
    ensures Locate(cs, start + k).cell == Locate(cs, start).cell
  {
    hide Locate;
    SameCluster(cs, start, k);
  }

  lemma {:induction false} TouchedSplit(cs: nat, off: nat, n: nat, k: nat, g: nat)
    requires GoodSize(cs) && 0 < k <= n
    ensures Touched(cs, off, n, g) <==> Touched(cs, off, k, g) || Touched(cs, off + k, n - k, g)
  {
    hide Locate; hide GoodSize;
    StartOf(cs, g);
  }

  lemma {:induction false} WriteHas(cs: nat, disk: map<Cell, seq<byte>>, b: Below, off: nat, data: seq<byte>, g: nat)
    requires GoodSize(cs) && DiskOk(cs, disk) && BelowOk(cs, b) && off + |data| <= Reach(cs) && g < Reach(cs)
    ensures Locate(cs, g).cell in OverWrite(cs, disk, b, off, data) <==>
      Locate(cs, g).cell in disk || Touched(cs, off, |data|, g)
    decreases |data|
  {
    hide OverPut; hide Locate; hide Reach; hide GoodSize; hide DiskOk; hide Fits; hide Span; hide BelowOk;
    if data != [] {
      var n := Span(cs, off, |data|);
      ReachFits(cs, off);
      ReachFits(cs, g);
      PutHas(cs, disk, b, off, data[..n], g);
      WriteHas(cs, OverPut(cs, disk, b, off, data[..n]), b, off + n, data[n..], g);
      TouchedSplit(cs, off, |data|, n, g);
      hide Touched;
    }
  }

  lemma {:induction false} DiscardHas(cs: nat, disk: map<Cell, seq<byte>>, off: nat, n: nat, g: nat)
    requires GoodSize(cs) && DiskOk(cs, disk) && off + n <= Reach(cs) && g < Reach(cs)
    ensures Locate(cs, g).cell in OverDiscard(cs, disk, off, n) <==>
      Locate(cs, g).cell in disk && !(off <= g < off + n && Whole(cs, off, n, g))
    decreases n
  {
    hide OverCut; hide Locate; hide Reach; hide GoodSize; hide DiskOk; hide Fits; hide Span; hide Whole;
    if n > 0 {
      var k := Span(cs, off, n);
      ReachFits(cs, off);
      ReachFits(cs, g);
      CutHas(cs, disk, off, k, g);
      DiscardHas(cs, OverCut(cs, disk, off, k), off + k, n - k, g);
      hide OverDiscard;
      if off <= g < off + k {
        WholeFirst(cs, off, n, g);
      } else {
        if k == cs { OutsideCluster(cs, off, g); }
        if k < n && g >= off + k { WholeLater(cs, off, n, g); }
      }
    }
  }

  lemma {:induction false} CutHas(cs: nat, disk: map<Cell, seq<byte>>, off: nat, k: nat, g: nat)
    requires GoodSize(cs) && DiskOk(cs, disk) && Locate(cs, off).at + k <= cs
    ensures Locate(cs, g).cell in OverCut(cs, disk, off, k) <==>
      Locate(cs, g).cell in disk && !(k == cs && Locate(cs, g).cell == Locate(cs, off).cell)
  {
    hide Locate; hide GoodSize;
  }

  // ---------------------------------------------------------------- runs

  /** The image's clusters and the device's bytes are those of the reference. */
  ghost predicate Agrees(cs: nat, disk: map<Cell, seq<byte>>, own: map<Cell, seq<byte>>, b: Below, ops: seq<Op>) {
    && GoodSize(cs) && DiskOk(cs, disk) && DiskOk(cs, own) && BelowOk(cs, b)
    && forall g | 0 <= g < Reach(cs) :: AgreesAt(cs, disk, own, b, ops, g)
  }

  ghost predicate AgreesAt(cs: nat, disk: map<Cell, seq<byte>>, own: map<Cell, seq<byte>>, b: Below, ops: seq<Op>,
                           g: nat)
    requires GoodSize(cs) && DiskOk(cs, disk) && DiskOk(cs, own) && BelowOk(cs, b)
  {
    hide *;
    OverByte(cs, disk, b, g) == Shown(cs, own, b, ops, g) && (Locate(cs, g).cell in disk <==> Has(cs, own, ops, g))
  }

  /** The reference one operation further. */
  lemma {:induction false} ShownNext(cs: nat, own: map<Cell, seq<byte>>, b: Below, ops: seq<Op>, i: nat, g: nat)
    requires GoodSize(cs) && DiskOk(cs, own) && BelowOk(cs, b) && i < |ops|
    ensures ops[i].Write? ==> (Shown(cs, own, b, ops[..i + 1], g) ==
      if ops[i].off <= g < ops[i].off + |ops[i].data| then ops[i].data[g - ops[i].off]
        else Shown(cs, own, b, ops[..i], g))
    ensures ops[i].Write? ==>
      (Has(cs, own, ops[..i + 1], g) <==> Touched(cs, ops[i].off, |ops[i].data|, g) || Has(cs, own, ops[..i], g))
    ensures ops[i].Discard? ==> (Shown(cs, own, b, ops[..i + 1], g) ==
      if !(ops[i].off <= g < ops[i].off + ops[i].n) then Shown(cs, own, b, ops[..i], g)
      else if Whole(cs, ops[i].off, ops[i].n, g) then UnderByte(cs, b, g)
      else if Has(cs, own, ops[..i], g) then 0 else Shown(cs, own, b, ops[..i], g))
    ensures ops[i].Discard? ==> (Has(cs, own, ops[..i + 1], g) <==>
      !(ops[i].off <= g < ops[i].off + ops[i].n && Whole(cs, ops[i].off, ops[i].n, g)) && Has(cs, own, ops[..i], g))
    ensures ops[i].Read? ==> Shown(cs, own, b, ops[..i + 1], g) == Shown(cs, own, b, ops[..i], g)
    ensures ops[i].Read? ==> (Has(cs, own, ops[..i + 1], g) <==> Has(cs, own, ops[..i], g))
  {
    hide GoodSize; hide BelowOk; hide Touched; hide Whole; hide UnderByte; hide OverByte; hide DiskOk; hide Locate;
    var next := ops[..i + 1];
    assert next[..|next| - 1] == ops[..i] && next[|next| - 1] == ops[i];
  }

  lemma {:induction false} AgreesWriteAt(cs: nat, disk: map<Cell, seq<byte>>, own: map<Cell, seq<byte>>, b: Below,
                                         ops: seq<Op>, i: nat, g: nat)
    requires GoodSize(cs) && DiskOk(cs, disk) && DiskOk(cs, own) && BelowOk(cs, b) && i < |ops| && ops[i].Write?
    requires AgreesAt(cs, disk, own, b, ops[..i], g) && ops[i].off + |ops[i].data| <= Reach(cs) && g < Reach(cs)
    ensures AgreesAt(cs, OverWrite(cs, disk, b, ops[i].off, ops[i].data), own, b, ops[..i + 1], g)
  {
    hide GoodSize; hide Reach; hide OverWrite; hide OverByte; hide DiskOk; hide BelowOk; hide Locate; hide Touched;
    hide Shown; hide Has;
    ShownNext(cs, own, b, ops, i, g);
    OverWriteAt(cs, disk, b, ops[i].off, ops[i].data, g);
    WriteHas(cs, disk, b, ops[i].off, ops[i].data, g);
  }

  lemma {:induction false} AgreesWrite(cs: nat, disk: map<Cell, seq<byte>>, own: map<Cell, seq<byte>>, b: Below,
                                       ops: seq<Op>, i: nat)
    requires i < |ops| && ops[i].Write? && Agrees(cs, disk, own, b, ops[..i]) && ops[i].off + |ops[i].data| <= Reach(cs)
    ensures Agrees(cs, OverWrite(cs, disk, b, ops[i].off, ops[i].data), own, b, ops[..i + 1])
  {
    hide GoodSize; hide Reach; hide OverWrite; hide DiskOk; hide BelowOk; hide AgreesAt;
    var r, next := OverWrite(cs, disk, b, ops[i].off, ops[i].data), ops[..i + 1];
    forall g | 0 <= g < Reach(cs) ensures AgreesAt(cs, r, own, b, next, g) {
      AgreesWriteAt(cs, disk, own, b, ops, i, g);
    }
  }

  lemma {:induction false} AgreesDiscardAt(cs: nat, disk: map<Cell, seq<byte>>, own: map<Cell, seq<byte>>, b: Below,
                                           ops: seq<Op>, i: nat, g: nat)
    requires GoodSize(cs) && DiskOk(cs, disk) && DiskOk(cs, own) && BelowOk(cs, b) && i < |ops| && ops[i].Discard?
    requires AgreesAt(cs, disk, own, b, ops[..i], g) && ops[i].off + ops[i].n <= Reach(cs) && g < Reach(cs)
    ensures AgreesAt(cs, OverDiscard(cs, disk, ops[i].off, ops[i].n), own, b, ops[..i + 1], g)
  {
    hide GoodSize; hide Reach; hide OverDiscard; hide OverByte; hide DiskOk; hide BelowOk; hide Locate; hide Whole;
    hide UnderByte;
    hide Shown; hide Has;
    ShownNext(cs, own, b, ops, i, g);
    OverDiscardAt(cs, disk, b, ops[i].off, ops[i].n, g);
    DiscardHas(cs, disk, ops[i].off, ops[i].n, g);
  }

  lemma {:induction false} AgreesDiscard(cs: nat, disk: map<Cell, seq<byte>>, own: map<Cell, seq<byte>>, b: Below,
                                         ops: seq<Op>, i: nat)
    requires i < |ops| && ops[i].Discard? && Agrees(cs, disk, own, b, ops[..i]) && ops[i].off + ops[i].n <= Reach(cs)
    ensures Agrees(cs, OverDiscard(cs, disk, ops[i].off, ops[i].n), own, b, ops[..i + 1])
  {
    hide GoodSize; hide Reach; hide OverDiscard; hide DiskOk; hide BelowOk; hide AgreesAt;
    var r, next := OverDiscard(cs, disk, ops[i].off, ops[i].n), ops[..i + 1];
    forall g | 0 <= g < Reach(cs) ensures AgreesAt(cs, r, own, b, next, g) {
      AgreesDiscardAt(cs, disk, own, b, ops, i, g);
    }
  }

  lemma {:induction false} AgreesRead(cs: nat, disk: map<Cell, seq<byte>>, own: map<Cell, seq<byte>>, b: Below,
                                      ops: seq<Op>, i: nat)
    requires i < |ops| && ops[i].Read? && Agrees(cs, disk, own, b, ops[..i])
    ensures Agrees(cs, disk, own, b, ops[..i + 1])
  {
    hide GoodSize; hide Reach; hide DiskOk; hide BelowOk; hide OverByte; hide Shown; hide Has; hide Locate;
    var next := ops[..i + 1];
    forall g | 0 <= g < Reach(cs) ensures AgreesAt(cs, disk, own, b, next, g) {
      ShownNext(cs, own, b, ops, i, g);
      assert AgreesAt(cs, disk, own, b, ops[..i], g);
    }
  }

  lemma {:induction false} AgreesNothing(cs: nat, own: map<Cell, seq<byte>>, b: Below)
    requires GoodSize(cs) && DiskOk(cs, own) && BelowOk(cs, b)
    ensures Agrees(cs, own, own, b, [])
  {
    hide Reach; hide OverByte; hide UnderByte; hide ByteAt; hide Locate; hide GoodSize; hide DiskOk; hide BelowOk;
    forall g | 0 <= g < Reach(cs) ensures AgreesAt(cs, own, own, b, [], g) { OverByteIs(cs, own, b, g); }
  }

  /** What a read returns is the reference. */
  ghost predicate IsShown(cs: nat, own: map<Cell, seq<byte>>, b: Below, ops: seq<Op>, off: nat, buf: seq<byte>) {
    && GoodSize(cs) && DiskOk(cs, own) && BelowOk(cs, b)
    && forall k | 0 <= k < |buf| :: buf[k] == Shown(cs, own, b, ops, off + k)
  }

  lemma {:induction false} ReadAgrees(cs: nat, disk: map<Cell, seq<byte>>, own: map<Cell, seq<byte>>, b: Below,
                                      ops: seq<Op>, off: nat, n: nat)
    requires Agrees(cs, disk, own, b, ops) && off + n <= Reach(cs)
    ensures GoodSize(cs) && DiskOk(cs, disk) && BelowOk(cs, b) && |OverRead(cs, disk, b, off, n)| == n
    ensures IsShown(cs, own, b, ops, off, OverRead(cs, disk, b, off, n))
  {
    hide Reach; hide OverByte; hide OverRead; hide Shown; hide Has; hide Locate; hide GoodSize; hide DiskOk;
    hide BelowOk;
    forall k | 0 <= k < n ensures OverRead(cs, disk, b, off, n)[k] == Shown(cs, own, b, ops, off + k) {
      OverReadAt(cs, disk, b, off, n, k);
      assert AgreesAt(cs, disk, own, b, ops, off + k);
    }
  }

  /** The operation lies within the device: changes where the L1 table covers it, and nothing
      where positions wrap around. */
  predicate InDevice(cs: nat, l1Size: nat, op: Op)
    requires GoodSize(cs)
  {
    op.off + Len(op) <= Reach(cs) && (op.Read? || op.off + Len(op) <= ImageRuns.Capacity(cs, l1Size))
  }

  /** One request; a read returns its bytes. Within the device none fails. */
  method Step(dev: Device, ops: seq<Op>, i: nat, ghost own: map<Cell, seq<byte>>) returns (ok: bool, buf: seq<byte>)
    requires dev.Valid() && i < |ops| && InDevice(dev.img.cs, |dev.img.l1|, ops[i])
    requires Agrees(dev.img.cs, dev.img.disk, own, dev.B(), ops[..i])
    requires dev.img.alloc + 2 * Len(ops[i]) + 4 * dev.img.cs <= TWO62
    modifies dev.Objects()
    ensures dev.Valid() && ok && |dev.img.l1| == old(|dev.img.l1|) && dev.B() == old(dev.B())
    ensures dev.img.alloc <= old(dev.img.alloc) + 2 * Len(ops[i]) + 4 * dev.img.cs
    ensures Agrees(dev.img.cs, dev.img.disk, own, dev.B(), ops[..i + 1])
    ensures ops[i].Read? ==> |buf| == ops[i].n && IsShown(dev.img.cs, own, dev.B(), ops[..i], ops[i].off, buf)
    ensures ops[i].Write? && ops[i].data != [] ==> Synced(dev.img)
  {
    hide Device.Valid; hide Agrees; hide OverWrite; hide OverDiscard; hide OverRead; hide GoodSize; hide DiskOk;
    hide BelowOk; hide Indexed;
    hide Reach; hide ImageRuns.Capacity; hide IsShown;
    DeviceShape(dev);
    var total;
    buf := [];
    match ops[i]
    case Write(off, data) =>
      AgreesWrite(dev.img.cs, dev.img.disk, own, dev.B(), ops, i);
      total, ok := dev.Write(data, off);
      if !ok { ImageRuns.IndexedBelow(dev.img.cs, |dev.img.l1|, off + total); }
      assert data[..total] == data;
    case Discard(off, n) =>
      AgreesDiscard(dev.img.cs, dev.img.disk, own, dev.B(), ops, i);
      total, ok := dev.Discard(off, n);
      if !ok { ImageRuns.IndexedBelow(dev.img.cs, |dev.img.l1|, off + total); }
    case Read(off, n) =>
      AgreesRead(dev.img.cs, dev.img.disk, own, dev.B(), ops, i);
      ReadAgrees(dev.img.cs, dev.img.disk, own, dev.B(), ops[..i], off, n);
      ok, buf := dev.Read(off, n);
  }

  lemma {:induction false} DeviceShape(dev: Device)
    requires dev.Valid()
    ensures GoodSize(dev.img.cs) && DiskOk(dev.img.cs, dev.img.disk) && BelowOk(dev.img.cs, dev.B())
  {
    hide Image.Valid; hide TableSlots;
  }

  /** Every read of a run returned the bytes of the reference at that moment. */
  ghost predicate AllShown(cs: nat, own: map<Cell, seq<byte>>, b: Below, ops: seq<Op>, bufs: seq<seq<byte>>) {
    && |bufs| == |ops|
    && forall i | 0 <= i < |ops| && ops[i].Read? ::
         |bufs[i]| == ops[i].n && IsShown(cs, own, b, ops[..i], ops[i].off, bufs[i])
  }

  lemma {:induction false} AllShownNext(cs: nat, own: map<Cell, seq<byte>>, b: Below, ops: seq<Op>, i: nat,
                                        bufs: seq<seq<byte>>, buf: seq<byte>)
    requires i < |ops| && AllShown(cs, own, b, ops[..i], bufs)
    requires ops[i].Read? ==> |buf| == ops[i].n && IsShown(cs, own, b, ops[..i], ops[i].off, buf)
    ensures AllShown(cs, own, b, ops[..i + 1], bufs + [buf])
  {
    hide IsShown;
    forall k | 0 <= k < i + 1 && ops[k].Read?
      ensures |(bufs + [buf])[k]| == ops[k].n && IsShown(cs, own, b, ops[..i + 1][..k], ops[k].off, (bufs + [buf])[k])
    {
      assert ops[..i + 1][..k] == ops[..k];
      if k < i { assert ops[..i][..k] == ops[..k] && ops[..i][k] == ops[k]; }
    }
  }

  /** The caches are transparent: on any device, whatever its image and base layer hold, every
      read in any sequence of requests returns the bytes of the reference, and the caches stay
      in order. */
  method Run(dev: Device, ops: seq<Op>) returns (bufs: seq<seq<byte>>)
    requires dev.Valid()
    requires forall i | 0 <= i < |ops| :: InDevice(dev.img.cs, |dev.img.l1|, ops[i])
    requires dev.img.alloc + Cost(dev.img.cs, ops, Len) <= TWO62
    modifies dev.Objects()
    ensures dev.Valid() && dev.B() == old(dev.B()) && |dev.img.l1| == old(|dev.img.l1|)
    ensures AllShown(dev.img.cs, old(dev.img.disk), old(dev.B()), ops, bufs)
    ensures Agrees(dev.img.cs, dev.img.disk, old(dev.img.disk), old(dev.B()), ops)
    ensures ops != [] && ops[|ops| - 1].Write? && ops[|ops| - 1].data != [] ==>
      Persisted(dev.img.file, dev.img.K(), dev.img.alloc, dev.img.freeHead, dev.img.m, dev.img.frees)
  {
    hide Synced; hide Persisted;
    hide Device.Valid; hide Agrees; hide GoodSize; hide DiskOk; hide BelowOk; hide Reach; hide InDevice; hide IsShown;
    hide AllShown;
    DeviceShape(dev);
    ghost var b, own, cs := dev.B(), dev.img.disk, dev.img.cs;
    AgreesNothing(cs, own, b);
    assert ops[..0] == [];
    bufs := [];
    NothingShown(cs, own, b);
    for i := 0 to |ops|
      invariant dev.Valid() && dev.B() == b && |dev.img.l1| == old(|dev.img.l1|)
      invariant dev.img.alloc <= old(dev.img.alloc) + Cost(cs, ops[..i], Len)
      invariant Agrees(cs, dev.img.disk, own, b, ops[..i]) && AllShown(cs, own, b, ops[..i], bufs)
      invariant i > 0 && ops[i - 1].Write? && ops[i - 1].data != [] ==> Synced(dev.img)
    {
      CostPrefix(cs, ops, Len, i);
      assert ops[..i + 1][..i] == ops[..i];
      var ok, buf := Step(dev, ops, i, own);
      AllShownNext(cs, own, b, ops, i, bufs, buf);
      bufs := bufs + [buf];
    }
    assert ops[..|ops|] == ops;
    if Synced(dev.img) { DeviceOnDisk(dev); }
  }

  lemma {:induction false} DeviceOnDisk(dev: Device)
    requires dev.Valid() && Synced(dev.img)
    ensures Persisted(dev.img.file, dev.img.K(), dev.img.alloc, dev.img.freeHead, dev.img.m, dev.img.frees)
  {
    SyncedPersisted(dev.img);
  }

  lemma {:induction false} NothingShown(cs: nat, own: map<Cell, seq<byte>>, b: Below)
    ensures AllShown(cs, own, b, [], [])
  {
  }

  // ---------------------------------------------------------------- from file to file

  datatype BaseFile = NoFile | RawFile(bytes: seq<byte>) | ImageFile(bytes: seq<byte>)

  /** The base layer a file stands for. */
  ghost function BelowOf(base: BaseFile, h: Held): Below {
    match base case NoFile => Nothing case RawFile(bytes) => Raw(bytes) case ImageFile(_) => Clusters(h.k.disk)
  }

  /** An image file, as any program of the repository leaves it behind, is opened over a base
      file; requests run; the driver lets go of it. Every read is that of the reference, and so
      is the file left behind. */
  method Mount(codec: Codec, file: seq<byte>, base: BaseFile, ops: seq<Op>, ghost h: Held, ghost hb: Held)
    returns (bufs: seq<seq<byte>>, after: seq<byte>, ghost h': Held)
    requires FileHolds(file, h) && h.k.codec == codec
    requires base.ImageFile? ==> FileHolds(base.bytes, hb) && hb.k.codec == codec && hb.k.cs == h.k.cs
    requires forall i | 0 <= i < |ops| :: InDevice(h.k.cs, |h.k.l1|, ops[i])
    requires h.alloc + Cost(h.k.cs, ops, Len) <= TWO62
    ensures AllShown(h.k.cs, h.k.disk, BelowOf(base, hb), ops, bufs)
    ensures FileHolds(after, h') && h'.k.codec == codec && h'.k.cs == h.k.cs && h'.k.virtualSize == h.k.virtualSize
    ensures Agrees(h.k.cs, h'.k.disk, h.k.disk, BelowOf(base, hb), ops)
  {
    hide Image.Valid; hide Persisted; hide GoodSize; hide InDevice; hide AllShown; hide Agrees; hide Device.Valid;
    hide UnBE; hide Openable; hide Cost;
    var found := Open(codec, file, h.k, h.alloc, h.head, h.m, h.frees);
    var img: Image := found;
    Ready(img);
    var under := NoBase;
    match base {
      case NoFile =>
      case RawFile(bytes) =>
        under := RawBase(bytes);
      case ImageFile(bytes) =>
        var lower := Open(codec, bytes, hb.k, hb.alloc, hb.head, hb.m, hb.frees);
        Ready(lower);
        var cache := new LruCaches.Lru([]);
        under := ImageBase(lower, cache);
    }
    var dev := new Device(img, under);
    bufs := Run(dev, ops);
    dev.Destroy();
    after := img.file;
    h' := Held(img.K(), img.alloc, img.freeHead, img.m, img.frees);
  }

  lemma {:induction false} Ready(img: Image)
    requires img.Valid() && img.cache == map[]
    requires Persisted(img.file, img.K(), img.alloc, img.freeHead, img.m, img.frees)
    ensures Current(img)
  {
    hide Space; hide Chain; hide Tables; hide Cells; hide Shape; hide Table64;
  }

  /** The same on a new image. */
  method MountNew(codec: Codec, bits: nat, virtualSize: nat, base: BaseFile, ops: seq<Op>, ghost hb: Held)
    returns (bufs: seq<seq<byte>>, after: seq<byte>, ghost h': Held)
    requires Sound(codec) && virtualSize < TWO64 && 12 <= bits <= 24 && GoodSize(ClusterSize(bits))
    requires L1Count(ClusterSize(bits), virtualSize) < 0x2000_0000
    requires base.ImageFile? ==> FileHolds(base.bytes, hb) && hb.k.codec == codec && hb.k.cs == ClusterSize(bits)
    requires forall i | 0 <= i < |ops| :: InDevice(ClusterSize(bits), L1Count(ClusterSize(bits), virtualSize), ops[i])
    requires 0x2_0000_0000 + Cost(ClusterSize(bits), ops, Len) <= TWO62
    ensures AllShown(ClusterSize(bits), map[], BelowOf(base, hb), ops, bufs)
    ensures FileHolds(after, h') && h'.k.cs == ClusterSize(bits) && h'.k.virtualSize == virtualSize
    ensures Agrees(ClusterSize(bits), h'.k.disk, map[], BelowOf(base, hb), ops)
  {
    hide Image.Valid; hide Persisted; hide GoodSize; hide InDevice; hide AllShown; hide Agrees; hide L1Count;
    hide Sound; hide Pow2; hide UnBE; hide Openable; hide Cost;
    var img := Create(codec, bits, virtualSize);
    ghost var h := Held(img.K(), img.alloc, img.freeHead, img.m, img.frees);
    bufs, after, h' := Mount(codec, img.file, base, ops, h, hb);
  }
}
