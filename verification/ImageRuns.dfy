/** Runs of an image against a flat disk. */
module ImageRuns {
  import opened Bytes
  import opened Options
  import opened BigEndian
  import Lz4Format
  import opened ImageSpace
  import opened ImageTables
  import opened FlatDisk
  import opened ImageState
  import opened Images

  datatype Op = Write(off: nat, data: seq<byte>) | Trim(off: nat, n: nat) | Read(off: nat, n: nat) | Flush | Reopen

  /** How many bytes the L1 table covers. */
  function Capacity(cs: nat, l1Size: nat): nat
    requires GoodSize(cs)
  {
    l1Size * Entries(cs) * cs
  }

  /** The reference: a disk of the given capacity and initial contents on which writes and trims take
      effect one after the other. Bytes beyond the capacity cannot be written. */
  function Flat(init: nat -> byte, capacity: nat, ops: seq<Op>, g: nat): byte {
    if ops == [] then init(g)
    else
      var before := ops[..|ops| - 1];
      match ops[|ops| - 1]
      case Write(off, data) =>
        if off <= g < off + |data| && g < capacity then data[g - off] else Flat(init, capacity, before, g)
      case Trim(off, n) => if off <= g < off + n then 0 else Flat(init, capacity, before, g)
      case _ => Flat(init, capacity, before, g)
  }

  function Length(op: Op): nat {
    match op case Write(_, data) => |data| case Trim(_, n) => n case _ => 0
  }

  /** The operation stays where every byte has a position of its own. */
  predicate InReach(cs: nat, op: Op)
    requires GoodSize(cs)
  {
    match op
    case Write(off, data) => off + |data| <= Reach(cs)
    case Trim(off, n) => off + n <= Reach(cs)
    case _ => true
  }

  /** Which bytes a table of n entries covers. */
  lemma {:induction false} IndexedBelow(cs: nat, n: nat, g: nat)
    requires GoodSize(cs) && g < Reach(cs)
    ensures Indexed(cs, n, g) <==> g < Capacity(cs, n)
  {
    hide Entries; hide Quo; hide Rem;
    ReachFits(cs, g);
    Small32(Quo(Quo(g, cs), Entries(cs)));
    QuoLess(g, n * Entries(cs), cs);
    QuoLess(Quo(g, cs), n, Entries(cs));
  }

  /** What a write that stopped after total bytes means for byte g. */
  lemma {:induction false} WriteMeans(cs: nat, n: nat, disk: map<Cell, seq<byte>>, off: nat, data: seq<byte>,
                                      total: nat, ok: bool, g: nat)
    requires GoodSize(cs) && DiskOk(cs, disk) && off + |data| <= Reach(cs) && g < Reach(cs) && total <= |data|
    requires forall p | off <= p < off + total :: Indexed(cs, n, p)
    requires if ok then total == |data| else total < |data| && !Indexed(cs, n, off + total)
    ensures ByteAt(cs, WriteBytes(cs, disk, off, data[..total]), g) ==
      if off <= g < off + |data| && g < Capacity(cs, n) then data[g - off] else ByteAt(cs, disk, g)
  {
    hide GoodSize; hide Reach; hide Indexed; hide Capacity; hide WriteBytes; hide ByteAt; hide DiskOk;
    WriteBytesAt(cs, disk, off, data[..total], g);
    IndexedBelow(cs, n, g);
    if !ok { IndexedBelow(cs, n, off + total); }
  }

  /** What a disk holds, byte by byte. */
  ghost function Contents(cs: nat, disk: map<Cell, seq<byte>>): nat -> byte {
    (g: nat) => if GoodSize(cs) && DiskOk(cs, disk) then ByteAt(cs, disk, g) else 0
  }

  /** The image shows the reference disk. */
  ghost predicate Shows(cs: nat, disk: map<Cell, seq<byte>>, init: nat -> byte, capacity: nat, ops: seq<Op>) {
    && GoodSize(cs) && DiskOk(cs, disk)
    && forall g | 0 <= g < Reach(cs) :: ByteAt(cs, disk, g) == Flat(init, capacity, ops, g)
  }

  lemma {:induction false} ShowsItself(cs: nat, disk: map<Cell, seq<byte>>, capacity: nat)
    requires GoodSize(cs) && DiskOk(cs, disk)
    ensures Shows(cs, disk, Contents(cs, disk), capacity, [])
  {
    hide Reach; hide ByteAt;
  }

  lemma {:induction false} FlatWrite(init: nat -> byte, capacity: nat, ops: seq<Op>, i: nat, g: nat)
    requires i < |ops| && ops[i].Write?
    ensures var off, data := ops[i].off, ops[i].data;
      Flat(init, capacity, ops[..i + 1], g) ==
        if off <= g < off + |data| && g < capacity then data[g - off] else Flat(init, capacity, ops[..i], g)
  {
    assert ops[..i + 1][..i] == ops[..i];
  }

  lemma {:induction false} ShowsWriteAt(cs: nat, n: nat, disk: map<Cell, seq<byte>>, init: nat -> byte, ops: seq<Op>,
                                        i: nat, total: nat, ok: bool, g: nat)
    requires GoodSize(cs) && DiskOk(cs, disk) && i < |ops| && ops[i].Write? && g < Reach(cs)
    requires ops[i].off + |ops[i].data| <= Reach(cs) && total <= |ops[i].data|
    requires ByteAt(cs, disk, g) == Flat(init, Capacity(cs, n), ops[..i], g)
    requires forall p | ops[i].off <= p < ops[i].off + total :: Indexed(cs, n, p)
    requires if ok then total == |ops[i].data| else total < |ops[i].data| && !Indexed(cs, n, ops[i].off + total)
    ensures ByteAt(cs, WriteBytes(cs, disk, ops[i].off, ops[i].data[..total]), g) ==
            Flat(init, Capacity(cs, n), ops[..i + 1], g)
  {
    hide *;
    FlatWrite(init, Capacity(cs, n), ops, i, g);
    WriteMeans(cs, n, disk, ops[i].off, ops[i].data, total, ok, g);
  }

  lemma {:induction false} ShowsWrite(cs: nat, n: nat, disk: map<Cell, seq<byte>>, init: nat -> byte, ops: seq<Op>,
                                      i: nat, total: nat, ok: bool)
    requires GoodSize(cs) && i < |ops| && ops[i].Write? && Shows(cs, disk, init, Capacity(cs, n), ops[..i])
    requires InReach(cs, ops[i]) && total <= |ops[i].data|
    requires forall p | ops[i].off <= p < ops[i].off + total :: Indexed(cs, n, p)
    requires if ok then total == |ops[i].data| else total < |ops[i].data| && !Indexed(cs, n, ops[i].off + total)
    ensures Shows(cs, WriteBytes(cs, disk, ops[i].off, ops[i].data[..total]), init, Capacity(cs, n), ops[..i + 1])
  {
    var off, data := ops[i].off, ops[i].data;
    hide GoodSize; hide Reach; hide Indexed; hide Capacity; hide WriteBytes; hide ByteAt; hide DiskOk; hide Flat;
    forall g | 0 <= g < Reach(cs)
      ensures ByteAt(cs, WriteBytes(cs, disk, off, data[..total]), g) == Flat(init, Capacity(cs, n), ops[..i + 1], g)
    {
      ShowsWriteAt(cs, n, disk, init, ops, i, total, ok, g);
    }
  }

  lemma {:induction false} ShowsTrim(cs: nat, n: nat, disk: map<Cell, seq<byte>>, init: nat -> byte, ops: seq<Op>,
                                     i: nat)
    requires GoodSize(cs) && i < |ops| && ops[i].Trim? && Shows(cs, disk, init, Capacity(cs, n), ops[..i])
    requires InReach(cs, ops[i])
    ensures Shows(cs, WriteBytes(cs, disk, ops[i].off, Zeros(ops[i].n)), init, Capacity(cs, n), ops[..i + 1])
  {
    var off, z := ops[i].off, Zeros(ops[i].n);
    assert ops[..i + 1][..i] == ops[..i];
    hide GoodSize; hide Reach; hide Capacity; hide WriteBytes; hide ByteAt; hide DiskOk;
    forall g | 0 <= g < Reach(cs)
      ensures ByteAt(cs, WriteBytes(cs, disk, off, z), g) == Flat(init, Capacity(cs, n), ops[..i + 1], g)
    {
      WriteBytesAt(cs, disk, off, z, g);
    }
  }

  lemma {:induction false} ShowsSame(cs: nat, n: nat, disk: map<Cell, seq<byte>>, init: nat -> byte, ops: seq<Op>,
                                     i: nat)
    requires GoodSize(cs) && i < |ops| && (ops[i].Read? || ops[i].Flush? || ops[i].Reopen?)
    requires Shows(cs, disk, init, Capacity(cs, n), ops[..i])
    ensures Shows(cs, disk, init, Capacity(cs, n), ops[..i + 1])
  {
    assert ops[..i + 1][..i] == ops[..i];
    hide GoodSize; hide Reach; hide Capacity; hide ByteAt; hide DiskOk;
  }

  /** The bytes are those of the reference, as far as every byte has a position of its own. */
  ghost predicate IsShown(cs: nat, init: nat -> byte, capacity: nat, ops: seq<Op>, off: nat, buf: seq<byte>)
    requires GoodSize(cs)
  {
    forall k | 0 <= k < |buf| && off + k < Reach(cs) :: buf[k] == Flat(init, capacity, ops, off + k)
  }

  /** Every read of a run returned the bytes of the reference at that moment. */
  ghost predicate AllShown(cs: nat, init: nat -> byte, capacity: nat, ops: seq<Op>, bufs: seq<seq<byte>>)
    requires GoodSize(cs)
  {
    |bufs| == |ops| && forall i | 0 <= i < |ops| && ops[i].Read? ::
      |bufs[i]| == ops[i].n && IsShown(cs, init, capacity, ops[..i], ops[i].off, bufs[i])
  }

  lemma {:induction false} AllShownNext(cs: nat, init: nat -> byte, capacity: nat, ops: seq<Op>, i: nat,
                                        bufs: seq<seq<byte>>, buf: seq<byte>)
    requires GoodSize(cs) && i < |ops| && AllShown(cs, init, capacity, ops[..i], bufs)
    requires ops[i].Read? ==> |buf| == ops[i].n && IsShown(cs, init, capacity, ops[..i], ops[i].off, buf)
    ensures AllShown(cs, init, capacity, ops[..i + 1], bufs + [buf])
  {
    hide IsShown; hide GoodSize;
    forall k | 0 <= k < i + 1 && ops[k].Read?
      ensures |(bufs + [buf])[k]| == ops[k].n
      ensures IsShown(cs, init, capacity, ops[..i + 1][..k], ops[k].off, (bufs + [buf])[k])
    {
      assert ops[..i + 1][..k] == ops[..k];
      if k < i { assert ops[..i][..k] == ops[..k] && ops[..i][k] == ops[k]; }
    }
  }

  /** One operation on an image. Reopening closes it, which flushes, and opens the file again. */
  method Step(img: Image, ops: seq<Op>, i: nat, ghost init: nat -> byte) returns (next: Image, buf: seq<byte>)
    requires img.Valid() && i < |ops| && GoodSize(img.cs) && InReach(img.cs, ops[i])
    requires Shows(img.cs, img.disk, init, Capacity(img.cs, |img.l1|), ops[..i])
    requires img.alloc + 2 * Length(ops[i]) + 4 * img.cs <= TWO62
    modifies img
    ensures next.Valid() && (next == img || fresh(next)) && next.cs == img.cs && next.codec == img.codec
    ensures |next.l1| == old(|img.l1|) && next.alloc <= old(img.alloc) + 2 * Length(ops[i]) + 4 * img.cs
    ensures Shows(next.cs, next.disk, init, Capacity(next.cs, |next.l1|), ops[..i + 1])
    ensures ops[i].Read? ==>
      |buf| == ops[i].n && IsShown(img.cs, init, Capacity(img.cs, |next.l1|), ops[..i], ops[i].off, buf)
    ensures ops[i].Flush? || ops[i].Reopen? ==>
      Persisted(next.file, next.K(), next.alloc, next.freeHead, next.m, next.frees)
    ensures ops[i].Reopen? ==> fresh(next) && next.cache == map[]
  {
    hide Image.Valid; hide Shows; hide Capacity; hide WriteBytes; hide Persisted; hide GoodSize; hide DiskOk;
    hide Indexed; hide IsShown; hide ReadBytes;
    next, buf := img, [];
    match ops[i]
    case Write(off, data) =>
      ghost var disk := img.disk;
      var total, ok := img.Write(data, off);
      ShowsWrite(img.cs, |img.l1|, disk, init, ops, i, total, ok);
    case Trim(off, n) =>
      ghost var disk := img.disk;
      img.Trim(off, n);
      ShowsTrim(img.cs, |img.l1|, disk, init, ops, i);
    case Read(off, n) =>
      var ok;
      ok, buf := img.Read(off, n);
      ReadShows(img.cs, img.disk, init, Capacity(img.cs, |img.l1|), ops[..i], off, n);
      ShowsSame(img.cs, |img.l1|, img.disk, init, ops, i);
    case Flush =>
      img.Flush();
      ShowsSame(img.cs, |img.l1|, img.disk, init, ops, i);
    case Reopen =>
      img.Flush();
      ShowsSame(img.cs, |img.l1|, img.disk, init, ops, i);
      var again := Open(img.codec, img.file, img.K(), img.alloc, img.freeHead, img.m, img.frees);
      next := again;
  }

  /** The image refines a flat disk: from any valid image on, whatever it holds, every read in any
      sequence of reads, writes, trims, flushes and reopenings returns the bytes of the reference
      disk at that moment, and the image stays valid: its regions apart, its free chain whole. */
  method Run(img: Image, ops: seq<Op>) returns (last: Image, bufs: seq<seq<byte>>)
    requires img.Valid()
    requires forall i | 0 <= i < |ops| :: InReach(img.cs, ops[i])
    requires img.alloc + Cost(img.cs, ops, Length) <= TWO62
    modifies img
    ensures last.Valid() && (last == img || fresh(last)) && last.cs == img.cs && last.codec == img.codec
    ensures |last.l1| == old(|img.l1|) && last.alloc <= old(img.alloc) + Cost(img.cs, ops, Length)
    ensures var init, capacity := Contents(img.cs, old(img.disk)), Capacity(img.cs, old(|img.l1|));
      AllShown(img.cs, init, capacity, ops, bufs) && Shows(img.cs, last.disk, init, capacity, ops)
    ensures ops != [] && (ops[|ops| - 1].Flush? || ops[|ops| - 1].Reopen?) ==>
      Persisted(last.file, last.K(), last.alloc, last.freeHead, last.m, last.frees)
  {
    hide Persisted;
    hide Image.Valid; hide Shows; hide Capacity; hide GoodSize; hide DiskOk; hide Contents; hide IsShown;
    img.Sized();
    ghost var cs, size, init := img.cs, |img.l1|, Contents(img.cs, img.disk);
    ghost var capacity := Capacity(cs, size);
    ShowsItself(cs, img.disk, capacity);
    assert ops[..0] == [];
    last, bufs := img, [];
    for i := 0 to |ops|
      invariant last.Valid() && (last == img || fresh(last)) && last.cs == cs && last.codec == img.codec
      invariant |last.l1| == size && last.alloc <= old(img.alloc) + Cost(cs, ops[..i], Length)
      invariant i > 0 && (ops[i - 1].Flush? || ops[i - 1].Reopen?) ==>
        Persisted(last.file, last.K(), last.alloc, last.freeHead, last.m, last.frees)
      invariant Shows(cs, last.disk, init, capacity, ops[..i]) && AllShown(cs, init, capacity, ops[..i], bufs)
    {
      CostPrefix(cs, ops, Length, i);
      assert ops[..i + 1][..i] == ops[..i];
      var buf;
      last, buf := Step(last, ops, i, init);
      AllShownNext(cs, init, capacity, ops, i, bufs, buf);
      bufs := bufs + [buf];
    }
    assert ops[..|ops|] == ops;
  }

  /** The same on a new image: the reference disk is zero-initialised. */
  method RunNew(codec: Codec, bits: nat, virtualSize: nat, ops: seq<Op>) returns (last: Image, bufs: seq<seq<byte>>)
    requires Sound(codec) && virtualSize < TWO64 && 12 <= bits <= 24 && GoodSize(ClusterSize(bits))
    requires L1Count(ClusterSize(bits), virtualSize) < 0x2000_0000
    requires forall i | 0 <= i < |ops| :: InReach(ClusterSize(bits), ops[i])
    requires 0x2_0000_0000 + Cost(ClusterSize(bits), ops, Length) <= TWO62
    ensures last.Valid() && fresh(last) && last.cs == ClusterSize(bits) && last.codec == codec
    ensures var cs := ClusterSize(bits); var capacity := Capacity(cs, L1Count(cs, virtualSize));
      AllShown(cs, _ => 0, capacity, ops, bufs) && Shows(cs, last.disk, _ => 0, capacity, ops)
  {
    hide Image.Valid; hide Shows; hide Capacity; hide GoodSize; hide Sound; hide L1Count; hide Pow2; hide AllShown;
    var created := Create(codec, bits, virtualSize);
    var img: Image := created;
    ghost var cs, capacity := img.cs, Capacity(img.cs, |img.l1|);
    last, bufs := Run(img, ops);
    FromZeros(cs, capacity, ops, bufs, last.disk);
  }

  lemma {:induction false} FlatSame(f: nat -> byte, g: nat -> byte, capacity: nat, ops: seq<Op>, at: nat)
    requires f(at) == g(at)
    ensures Flat(f, capacity, ops, at) == Flat(g, capacity, ops, at)
    decreases |ops|
  {
    if ops != [] { FlatSame(f, g, capacity, ops[..|ops| - 1], at); }
  }

  lemma {:induction false} FromZeros(cs: nat, capacity: nat, ops: seq<Op>, bufs: seq<seq<byte>>,
                                     disk: map<Cell, seq<byte>>)
    requires GoodSize(cs) && DiskOk(cs, map[])
    requires AllShown(cs, Contents(cs, map[]), capacity, ops, bufs)
    requires Shows(cs, disk, Contents(cs, map[]), capacity, ops)
    ensures AllShown(cs, _ => 0, capacity, ops, bufs) && Shows(cs, disk, _ => 0, capacity, ops)
  {
    var init, zero := Contents(cs, map[]), (_: nat) => 0;
    forall g: nat ensures init(g) == 0 { NothingIsZero(cs, g); }
    hide Contents; hide Reach; hide ByteAt; hide GoodSize; hide Flat;
    forall os: seq<Op>, g: nat ensures Flat(init, capacity, os, g) == Flat(zero, capacity, os, g) {
      FlatSame(init, zero, capacity, os, g);
    }
  }

  lemma {:induction false} NothingIsZero(cs: nat, g: nat)
    requires GoodSize(cs)
    ensures DiskOk(cs, map[]) && ByteAt(cs, map[], g) == 0
  {
    hide Locate;
  }

  lemma {:induction false} ReadShows(cs: nat, disk: map<Cell, seq<byte>>, init: nat -> byte, capacity: nat,
                                     ops: seq<Op>, off: nat, n: nat)
    requires Shows(cs, disk, init, capacity, ops)
    ensures GoodSize(cs) && DiskOk(cs, disk) && |ReadBytes(cs, disk, off, n)| == n
    ensures IsShown(cs, init, capacity, ops, off, ReadBytes(cs, disk, off, n))
  {
    hide Reach; hide ByteAt; hide ReadBytes; hide Flat;
    forall k | 0 <= k < n && off + k < Reach(cs)
      ensures ReadBytes(cs, disk, off, n)[k] == Flat(init, capacity, ops, off + k)
    {
      ReadBytesAt(cs, disk, off, n, k);
    }
  }

  /** A new image covers its virtual size exactly when the computation of its L1 size neither
      overflows 64 bits nor is cut to 32. */
  lemma {:induction false} CreateCovers(cs: nat, virtualSize: nat)
    requires GoodSize(cs) && virtualSize < TWO64
    ensures virtualSize <= Capacity(cs, L1Count(cs, virtualSize)) <==>
            virtualSize + Entries(cs) * cs <= TWO64 && virtualSize <= Reach(cs) - Entries(cs) * cs
  {
    var span := Entries(cs) * cs;
    assert Entries(cs) <= 0x20_0000;
    MulLe(Entries(cs), 0x20_0000, cs);
    hide Entries;
    var n := (virtualSize + span - 1) % TWO64 / span % TWO32;
    assert Capacity(cs, L1Count(cs, virtualSize)) == (if n == 0 then 1 else n) * span by {
      MulAssoc(if n == 0 then 1 else n, Entries(cs), cs);
    }
    assert Reach(cs) == TWO32 * span by { MulAssoc(TWO32, Entries(cs), cs); }
    RoundUpCovers(span, virtualSize);
  }

  lemma {:induction false} MulAssoc(a: nat, b: nat, c: nat)
    ensures a * b * c == a * (b * c)
  {
  }

  lemma {:induction false} RoundUpCovers(span: nat, v: nat)
    requires 0 < span <= 0x2000_0000_0000 && v < TWO64
    ensures var n := (v + span - 1) % TWO64 / span % TWO32;
      v <= (if n == 0 then 1 else n) * span <==> v + span <= TWO64 && v <= TWO32 * span - span
  {
    var sum := v + span - 1;
    var cut := sum % TWO64;
    CountCovers(span, v, cut, cut / span, cut % span);
  }

  lemma {:induction false} CountCovers(span: nat, v: nat, cut: nat, q: nat, r: nat)
    requires 0 < span <= 0x2000_0000_0000 && v < TWO64 && cut == (v + span - 1) % TWO64
    requires cut == q * span + r && r < span
    ensures var n := q % TWO32;
      v <= (if n == 0 then 1 else n) * span <==> v + span <= TWO64 && v <= TWO32 * span - span
  {
    if v + span <= TWO64 {
      CutCovers(span, v, q, q % TWO32);
    } else {
      assert cut == v + span - 1 - TWO64;
      SmallQuotient(q, r, span);
    }
  }

  lemma {:induction false} SmallQuotient(q: nat, r: nat, span: nat)
    requires q * span + r < span
    ensures q == 0
  {
    if q > 0 { MulLe(1, q, span); }
  }

  lemma {:induction false} CutCovers(span: nat, v: nat, q: nat, n: nat)
    requires span > 0 && q * span <= v + span - 1 < q * span + span && n == q % TWO32
    ensures v <= (if n == 0 then 1 else n) * span <==> v <= TWO32 * span - span
  {
    if q < TWO32 {
      MulLe(q, TWO32 - 1, span);
    } else {
      var m := if n == 0 then 1 else n;
      assert m <= q - 1;
      MulLe(m, q - 1, span);
      MulLe(TWO32 - 1, q - 1, span);
      assert (q - 1) * span == q * span - span;
    }
  }

  /** A block that encodes some parse of the data. */
  ghost predicate IsBlock(data: seq<byte>, z: seq<byte>) {
    exists ss, last :: Parsed(data, z, ss, last)
  }

  ghost predicate Parsed(data: seq<byte>, z: seq<byte>, ss: seq<Lz4Format.Sequence>, last: seq<byte>) {
    && Lz4Format.Parse(data, 0, ss, last) && (forall i | 0 <= i < |ss| :: ss[i].ml >= Lz4Format.MINMATCH)
    && z == Lz4Format.Encode(ss, last)
  }

  /** Compressing clusters with any LZ4 compressor and expanding them with the LZ4 decoder into
      a cluster-sized buffer is lossless. */
  lemma {:induction false} Lz4Sound(codec: Codec, cs: nat)
    requires cs > 0 && forall d | codec.compress(d).Some? :: |d| == cs && IsBlock(d, codec.compress(d).value)
    requires forall b :: codec.expand(b) == Lz4Format.Decode(b, cs)
    requires forall b :: codec.crc(b) < TWO32
    ensures Sound(codec)
  {
    forall d | codec.compress(d).Some?
      ensures codec.expand(codec.compress(d).value) == Some(d)
    {
      var z := codec.compress(d).value;
      var ss, last :| Parsed(d, z, ss, last);
      Lz4Format.RoundTrip(d, ss, last);
      hide Lz4Format.Parse; hide Lz4Format.Encode; hide Lz4Format.Decode;
    }
  }
}
