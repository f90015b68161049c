/** The disk an image presents: clusters by table position, and the flat bytes they form. */
module FlatDisk {
  import opened Bytes
  import opened BigEndian
  import opened ImageSpace
  import opened ImageTables

  function Quo(a: nat, b: nat): nat
    requires b > 0
  {
    a / b
  }

  function Rem(a: nat, b: nat): (r: nat)
    requires b > 0
    ensures r < b
  {
    a % b
  }

  lemma {:induction false} QuoRem(a: nat, b: nat, c: nat)
    requires c > 0 && Quo(a, c) == Quo(b, c)
    ensures a - b == Rem(a, c) - Rem(b, c)
  {
    assert a == c * (a / c) + a % c && b == c * (b / c) + b % c;
  }

  lemma {:induction false} QuoAdd(a: nat, k: nat, c: nat)
    requires c > 0 && Rem(a, c) + k < c
    ensures Quo(a + k, c) == Quo(a, c) && Rem(a + k, c) == Rem(a, c) + k
  {
    DivUnique(a + k, c, a / c, a % c + k);
  }

  lemma {:induction false} QuoMul(a: nat, k: nat, c: nat)
    requires c > 0
    ensures Quo(a + k * c, c) == Quo(a, c) + k && Rem(a + k * c, c) == Rem(a, c)
  {
    assert a == a / c * c + a % c;
    assert (a / c + k) * c == a / c * c + k * c;
    DivUnique(a + k * c, c, a / c + k, a % c);
  }

  lemma {:induction false} QuoLess(a: nat, k: nat, c: nat)
    requires c > 0
    ensures a < k * c <==> Quo(a, c) < k
  {
    BlockOfByte(c, a, 0, k);
  }

  lemma {:induction false} Small32(a: nat)
    ensures a < TWO32 ==> Rem(a, TWO32) == a
    ensures Rem(a + TWO32, TWO32) == Rem(a, TWO32)
  {}

  /** Where guest cluster c is described. The L1 index is kept in 32 bits. */
  function CellOf(cs: nat, c: nat): Cell
    requires GoodSize(cs)
  {
    Cell(Rem(Quo(c, Entries(cs)), TWO32), Rem(c, Entries(cs)))
  }

  /** A byte of the disk: its cluster's cell and its place in the cluster. */
  datatype Place = Place(cell: Cell, at: nat)

  function Locate(cs: nat, g: nat): (p: Place)
    requires GoodSize(cs)
    ensures p.at < cs
  {
    hide CellOf;
    Place(CellOf(cs, Quo(g, cs)), Rem(g, cs))
  }

  /** Where byte g is: its place in its cluster, and the cluster's indices into the L1 table, cut to
      32 bits, and into an L2 table of eight-byte entries and a trailer of eight bytes. */
  lemma {:induction false} Located(cs: nat, g: nat)
    requires GoodSize(cs)
    ensures var p, n := Locate(cs, g), (cs - 8) / 8;
      p.at == g % cs && p.cell == Cell(g / cs / n % 0x1_0000_0000, g / cs % n)
  {
  }

  ghost predicate DiskOk(cs: nat, disk: map<Cell, seq<byte>>) {
    forall c | c in disk :: |disk[c]| == cs
  }

  function Get(cs: nat, disk: map<Cell, seq<byte>>, c: Cell): (r: seq<byte>)
    requires DiskOk(cs, disk)
    ensures |r| == cs
  {
    if c in disk then disk[c] else Zeros(cs)
  }

  predicate AllZero(data: seq<byte>) { forall k | 0 <= k < |data| :: data[k] == 0 }

  /** An all-zero cluster is not stored. */
  function Put(disk: map<Cell, seq<byte>>, c: Cell, data: seq<byte>): map<Cell, seq<byte>> {
    if AllZero(data) then disk - {c} else disk[c := data]
  }

  /** How many of n bytes at off lie in the first one's cluster. */
  function Span(cs: nat, off: nat, n: nat): (r: nat)
    requires GoodSize(cs)
    ensures r <= n && Locate(cs, off).at + r <= cs && (n > 0 ==> r > 0)
  {
    hide Locate; hide GoodSize;
    Min(cs - Locate(cs, off).at, n)
  }

  /** A write within one cluster. */
  function PutBytes(cs: nat, disk: map<Cell, seq<byte>>, off: nat, d: seq<byte>): (r: map<Cell, seq<byte>>)
    requires GoodSize(cs) && DiskOk(cs, disk) && Locate(cs, off).at + |d| <= cs
    ensures DiskOk(cs, r)
  {
    hide Locate; hide GoodSize;
    var p := Locate(cs, off);
    Put(disk, p.cell, WriteAt(Get(cs, disk, p.cell), p.at, d))
  }

  /** A write, cluster by cluster. */
  function WriteBytes(cs: nat, disk: map<Cell, seq<byte>>, off: nat, data: seq<byte>): (r: map<Cell, seq<byte>>)
    requires GoodSize(cs) && DiskOk(cs, disk)
    ensures DiskOk(cs, r)
    decreases |data|
  {
    hide Locate; hide GoodSize; hide DiskOk; hide PutBytes; hide Span;
    if data == [] then disk
    else
      var n := Span(cs, off, |data|);
      WriteBytes(cs, PutBytes(cs, disk, off, data[..n]), off + n, data[n..])
  }

  /** A read, cluster by cluster. */
  function ReadBytes(cs: nat, disk: map<Cell, seq<byte>>, off: nat, n: nat): (r: seq<byte>)
    requires GoodSize(cs) && DiskOk(cs, disk)
    ensures |r| == n
    decreases n
  {
    hide Locate; hide GoodSize; hide Span;
    if n == 0 then []
    else
      var p := Locate(cs, off);
      var k := Span(cs, off, n);
      Get(cs, disk, p.cell)[p.at..p.at + k] + ReadBytes(cs, disk, off + k, n - k)
  }

  // ---------------------------------------------------------------- the flat view

  /** Byte g of the disk. */
  function ByteAt(cs: nat, disk: map<Cell, seq<byte>>, g: nat): byte
    requires GoodSize(cs) && DiskOk(cs, disk)
  {
    hide Locate;
    Get(cs, disk, Locate(cs, g).cell)[Locate(cs, g).at]
  }

  /** How many bytes have a position of their own. */
  function Reach(cs: nat): nat
    requires GoodSize(cs)
  {
    TWO32 * Entries(cs) * cs
  }

  /** At most how much a run of requests of these lengths may lengthen the file. */
  function Cost<T>(cs: nat, ops: seq<T>, len: T -> nat): nat {
    if ops == [] then 0 else Cost(cs, ops[..|ops| - 1], len) + 2 * len(ops[|ops| - 1]) + 4 * cs
  }

  lemma {:induction false} CostPrefix<T>(cs: nat, ops: seq<T>, len: T -> nat, i: nat)
    requires i < |ops|
    ensures Cost(cs, ops[..i], len) + 2 * len(ops[i]) + 4 * cs <= Cost(cs, ops, len)
    decreases |ops|
  {
    var p := ops[..|ops| - 1];
    if i < |p| {
      CostPrefix(cs, p, len, i);
      assert p[..i] == ops[..i];
    }
  }

  /** The bytes of a cluster are at consecutive places in it. */
  lemma {:induction false} SameCluster(cs: nat, off: nat, k: nat)
    requires GoodSize(cs) && Locate(cs, off).at + k < cs
    ensures Locate(cs, off + k) == Place(Locate(cs, off).cell, Locate(cs, off).at + k)
  {
    hide CellOf; hide Quo; hide Rem;
    QuoAdd(off, k, cs);
  }

  /** A read returns the bytes of the flat view. */
  lemma {:induction false} ReadBytesAt(cs: nat, disk: map<Cell, seq<byte>>, off: nat, n: nat, k: nat)
    requires GoodSize(cs) && DiskOk(cs, disk) && k < n
    ensures ReadBytes(cs, disk, off, n)[k] == ByteAt(cs, disk, off + k)
    decreases n
  {
    hide Locate; hide GoodSize; hide Get; hide DiskOk; hide Span;
    var p := Locate(cs, off);
    var q := Span(cs, off, n);
    var head := Get(cs, disk, p.cell)[p.at..p.at + q];
    var tail := ReadBytes(cs, disk, off + q, n - q);
    assert ReadBytes(cs, disk, off, n) == head + tail;
    hide ReadBytes;
    if k < q {
      SameCluster(cs, off, k);
    } else {
      ReadBytesAt(cs, disk, off + q, n - q, k - q);
    }
  }

  /** The L1 index of the byte's cluster fits in 32 bits. */
  predicate Fits(cs: nat, g: nat)
    requires GoodSize(cs)
  {
    Quo(Quo(g, cs), Entries(cs)) < TWO32
  }

  /** Below the reach, the L1 index does not wrap. */
  lemma {:induction false} ReachFits(cs: nat, g: nat)
    requires GoodSize(cs)
    ensures g < Reach(cs) <==> Fits(cs, g)
  {
    hide Entries; hide Quo;
    QuoLess(g, TWO32 * Entries(cs), cs);
    QuoLess(Quo(g, cs), TWO32, Entries(cs));
  }

  /** Bytes that fit have places of their own. */
  lemma {:induction false} LocateUnique(cs: nat, a: nat, b: nat)
    requires GoodSize(cs) && Fits(cs, a) && Fits(cs, b) && Locate(cs, a).cell == Locate(cs, b).cell
    ensures a - b == Locate(cs, a).at - Locate(cs, b).at
  {
    hide Entries; hide Quo; hide Rem;
    Small32(Quo(Quo(a, cs), Entries(cs)));
    Small32(Quo(Quo(b, cs), Entries(cs)));
    QuoRem(Quo(a, cs), Quo(b, cs), Entries(cs));
    QuoRem(a, b, cs);
  }

  /** One cluster of a write. */
  lemma {:induction false} PutByte(cs: nat, disk: map<Cell, seq<byte>>, off: nat, d: seq<byte>, g: nat)
    requires GoodSize(cs) && DiskOk(cs, disk) && Locate(cs, off).at + |d| <= cs && Fits(cs, off) && Fits(cs, g)
    requires d != []
    ensures ByteAt(cs, PutBytes(cs, disk, off, d), g) ==
      if off <= g < off + |d| then d[g - off] else ByteAt(cs, disk, g)
  {
    hide Locate; hide GoodSize; hide Put; hide Get; hide Fits; hide DiskOk;
    var p := Locate(cs, off);
    var before := Get(cs, disk, p.cell);
    GetPut(cs, disk, p.cell, WriteAt(before, p.at, d), Locate(cs, g).cell);
    if off <= g < off + |d| {
      SameCluster(cs, off, g - off);
    } else if Locate(cs, g).cell == p.cell {
      LocateUnique(cs, g, off);
    }
  }

  lemma {:induction false} GetPut(cs: nat, disk: map<Cell, seq<byte>>, c: Cell, data: seq<byte>, k: Cell)
    requires DiskOk(cs, disk) && |data| == cs
    ensures DiskOk(cs, Put(disk, c, data))
    ensures Get(cs, Put(disk, c, data), k) == if k == c then data else Get(cs, disk, k)
  {
    if k == c && AllZero(data) { assert data == Zeros(cs); }
  }

  /** A write changes exactly the bytes it names. */
  lemma {:induction false} WriteBytesAt(cs: nat, disk: map<Cell, seq<byte>>, off: nat, data: seq<byte>, g: nat)
    requires GoodSize(cs) && DiskOk(cs, disk) && off + |data| <= Reach(cs) && g < Reach(cs)
    ensures ByteAt(cs, WriteBytes(cs, disk, off, data), g) ==
      if off <= g < off + |data| then data[g - off] else ByteAt(cs, disk, g)
    decreases |data|
  {
    hide ByteAt; hide PutBytes; hide Locate; hide Reach; hide GoodSize; hide DiskOk; hide Fits; hide Span;
    if data != [] {
      var n := Span(cs, off, |data|);
      ReachFits(cs, off);
      ReachFits(cs, g);
      PutByte(cs, disk, off, data[..n], g);
      var next := PutBytes(cs, disk, off, data[..n]);
      WriteBytesAt(cs, next, off + n, data[n..], g);
    }
  }

  /** Offsets beyond the reach wrap around: the two name the same byte. */
  lemma {:induction false} Wraps(cs: nat, disk: map<Cell, seq<byte>>, g: nat)
    requires GoodSize(cs) && DiskOk(cs, disk)
    ensures ByteAt(cs, disk, g + Reach(cs)) == ByteAt(cs, disk, g)
  {
    hide Entries; hide Quo; hide Rem; hide Get;
    var e := Entries(cs);
    QuoMul(g, TWO32 * e, cs);
    QuoMul(Quo(g, cs), TWO32, e);
    Small32(Quo(Quo(g, cs), e));
  }

  // ---------------------------------------------------------------- one cluster more

  /** Bytes up to a cluster boundary fill the first cluster. */
  lemma {:induction false} BoundarySpan(cs: nat, off: nat, n: nat, k: nat)
    requires GoodSize(cs) && n > 0 && Locate(cs, off + n).at == 0
    ensures Span(cs, off, n + k) == Span(cs, off, n)
  {
    hide Locate; hide GoodSize;
    if Locate(cs, off).at + n < cs {
      SameCluster(cs, off, n);
    }
  }

  /** A range that leaves its first cluster continues at the start of the next. */
  lemma {:induction false} NextCluster(cs: nat, off: nat, n: nat)
    requires GoodSize(cs) && Span(cs, off, n) < n
    ensures Locate(cs, off + Span(cs, off, n)).at == 0 && Span(cs, off, n) == cs - Locate(cs, off).at
  {
    hide CellOf;
    QuoNext(off, cs);
    hide Rem; hide Quo;
  }

  lemma {:induction false} QuoNext(a: nat, c: nat)
    requires c > 0
    ensures Rem(a + (c - Rem(a, c)), c) == 0
  {
    var q := a / c;
    assert a + (c - a % c) == (q + 1) * c;
    DivUnique(a + (c - a % c), c, q + 1, 0);
  }

  lemma {:induction false} WriteBytesStep(cs: nat, disk: map<Cell, seq<byte>>, off: nat, data: seq<byte>)
    requires GoodSize(cs) && DiskOk(cs, disk) && data != []
    ensures var n := Span(cs, off, |data|);
      WriteBytes(cs, disk, off, data) == WriteBytes(cs, PutBytes(cs, disk, off, data[..n]), off + n, data[n..])
  {
    hide Locate; hide GoodSize; hide DiskOk; hide PutBytes; hide Span;
  }

  lemma {:induction false} WriteBytesOne(cs: nat, disk: map<Cell, seq<byte>>, off: nat, b: seq<byte>)
    requires GoodSize(cs) && DiskOk(cs, disk) && b != [] && Locate(cs, off).at + |b| <= cs
    ensures WriteBytes(cs, disk, off, b) == PutBytes(cs, disk, off, b)
  {
    hide Locate; hide GoodSize; hide DiskOk; hide PutBytes;
    WriteBytesStep(cs, disk, off, b);
    assert Span(cs, off, |b|) == |b| && b[..|b|] == b && b[|b|..] == [];
  }

  /** A write that ends at a cluster boundary can be continued by a write within one cluster. */
  lemma {:induction false} WriteBytesNext(cs: nat, disk: map<Cell, seq<byte>>, off: nat, a: seq<byte>, b: seq<byte>)
    requires GoodSize(cs) && DiskOk(cs, disk) && b != [] && Locate(cs, off + |a|).at + |b| <= cs
    requires a == [] || Locate(cs, off + |a|).at == 0
    ensures WriteBytes(cs, disk, off, a + b) == PutBytes(cs, WriteBytes(cs, disk, off, a), off + |a|, b)
    decreases |a|
  {
    hide Locate; hide GoodSize; hide DiskOk; hide PutBytes; hide Span;
    if a == [] {
      assert a + b == b;
      WriteBytesOne(cs, disk, off, b);
    } else {
      hide WriteBytes;
      BoundarySpan(cs, off, |a|, |b|);
      var n := Span(cs, off, |a|);
      assert (a + b)[..n] == a[..n] && (a + b)[n..] == a[n..] + b;
      WriteBytesStep(cs, disk, off, a);
      WriteBytesStep(cs, disk, off, a + b);
      WriteBytesNext(cs, PutBytes(cs, disk, off, a[..n]), off + n, a[n..], b);
    }
  }

  /** A read within one cluster, continued by a read from the next place on. */
  lemma {:induction false} ReadBytesStep(cs: nat, disk: map<Cell, seq<byte>>, off: nat, n: nat)
    requires GoodSize(cs) && DiskOk(cs, disk) && n > 0
    ensures var k := Span(cs, off, n); var p := Locate(cs, off);
      ReadBytes(cs, disk, off, n) == Get(cs, disk, p.cell)[p.at..p.at + k] + ReadBytes(cs, disk, off + k, n - k)
  {
    hide Locate; hide GoodSize; hide DiskOk; hide Span; hide Get;
  }

  /** Clearing bytes of a cluster that is not stored changes nothing; clearing all of a cluster
      removes it. */
  lemma {:induction false} PutZeros(cs: nat, disk: map<Cell, seq<byte>>, off: nat, n: nat)
    requires GoodSize(cs) && DiskOk(cs, disk) && Locate(cs, off).at + n <= cs
    ensures Locate(cs, off).cell !in disk ==> PutBytes(cs, disk, off, Zeros(n)) == disk
    ensures n == cs ==> PutBytes(cs, disk, off, Zeros(n)) == disk - {Locate(cs, off).cell}
  {
    hide Locate; hide GoodSize;
    var c := Locate(cs, off).cell;
    if c !in disk { assert disk - {c} == disk; }
  }

  lemma {:induction false} SpanIs(cs: nat, off: nat, n: nat)
    requires GoodSize(cs)
    ensures Span(cs, off, n) == Min(cs - Rem(off, cs), n)
    ensures Locate(cs, off) == Place(CellOf(cs, Quo(off, cs)), Rem(off, cs))
  {
    hide CellOf; hide Quo; hide Rem;
  }

  /** One round of a reading loop. */
  lemma {:induction false} ReadRound(cs: nat, disk: map<Cell, seq<byte>>, off: nat, n: nat, whole: seq<byte>,
                                     buf: seq<byte>)
    requires GoodSize(cs) && DiskOk(cs, disk) && n > 0 && whole == buf + ReadBytes(cs, disk, off, n)
    ensures var at := Rem(off, cs); var k := Min(cs - at, n); var data := Get(cs, disk, CellOf(cs, Quo(off, cs)));
      whole == buf + data[at..at + k] + ReadBytes(cs, disk, off + k, n - k)
  {
    hide *;
    SpanIs(cs, off, n);
    ReadBytesStep(cs, disk, off, n);
    Assoc(buf, Get(cs, disk, Locate(cs, off).cell)[Locate(cs, off).at..Locate(cs, off).at + Span(cs, off, n)],
          ReadBytes(cs, disk, off + Span(cs, off, n), n - Span(cs, off, n)));
  }

  /** One round of a writing loop. */
  lemma {:induction false} WriteRound(cs: nat, disk: map<Cell, seq<byte>>, off: nat, data: seq<byte>, total: nat)
    requires GoodSize(cs) && DiskOk(cs, disk) && total < |data| && (total > 0 ==> Rem(off + total, cs) == 0)
    ensures var at := Rem(off + total, cs); var k := Min(cs - at, |data| - total);
      var before := WriteBytes(cs, disk, off, data[..total]); var c := CellOf(cs, Quo(off + total, cs));
      && WriteBytes(cs, disk, off, data[..total + k]) ==
         Put(before, c, WriteAt(Get(cs, before, c), at, data[total..total + k]))
      && (total + k < |data| ==> Rem(off + total + k, cs) == 0 && k == cs - at)
  {
    hide Quo; hide Rem; hide CellOf; hide GoodSize; hide DiskOk; hide Put; hide Get; hide WriteBytes;
    var n := |data| - total;
    SpanIs(cs, off + total, n);
    var k := Span(cs, off + total, n);
    SpanIs(cs, off + total + k, n);
    if k < n { NextCluster(cs, off + total, n); }
    WriteBytesNext(cs, disk, off, data[..total], data[total..total + k]);
    assert data[..total] + data[total..total + k] == data[..total + k];
  }

  /** The byte's cluster has an L1 index below n. */
  predicate Indexed(cs: nat, n: nat, g: nat)
    requires GoodSize(cs)
  {
    hide CellOf;
    CellOf(cs, Quo(g, cs)).i < n
  }

  /** The bytes of a range that share a cluster are all indexed or all not. */
  lemma {:induction false} IndexedTogether(cs: nat, n: nat, off: nat, k: nat)
    requires GoodSize(cs) && Rem(off, cs) + k <= cs
    ensures forall g | off <= g < off + k :: Indexed(cs, n, g) <==> Indexed(cs, n, off)
  {
    hide CellOf; hide Quo; hide Rem; hide GoodSize;
    forall g | off <= g < off + k
      ensures Indexed(cs, n, g) <==> Indexed(cs, n, off)
    {
      QuoAdd(off, g - off, cs);
    }
  }

  lemma {:induction false} WriteNothing(cs: nat, disk: map<Cell, seq<byte>>, off: nat, d: seq<byte>)
    requires GoodSize(cs) && DiskOk(cs, disk) && d == []
    ensures WriteBytes(cs, disk, off, d) == disk
  {}

  /** One round of a trimming loop. */
  lemma {:induction false} TrimRound(cs: nat, disk: map<Cell, seq<byte>>, off: nat, n: nat, total: nat)
    requires GoodSize(cs) && DiskOk(cs, disk) && total < n && (total > 0 ==> Rem(off + total, cs) == 0)
    ensures var at := Rem(off + total, cs); var k := Min(cs - at, n - total);
      var before := WriteBytes(cs, disk, off, Zeros(total)); var c := CellOf(cs, Quo(off + total, cs));
      && WriteBytes(cs, disk, off, Zeros(total + k)) == Put(before, c, WriteAt(Get(cs, before, c), at, Zeros(k)))
      && (total + k < n ==> Rem(off + total + k, cs) == 0 && k == cs - at)
      && (c !in before ==> WriteBytes(cs, disk, off, Zeros(total + k)) == before)
      && (k == cs ==> WriteBytes(cs, disk, off, Zeros(total + k)) == before - {c})
  {
    hide Quo; hide Rem; hide CellOf; hide GoodSize; hide DiskOk; hide Put; hide Get; hide WriteBytes;
    WriteRound(cs, disk, off, Zeros(n), total);
    SpanIs(cs, off + total, n - total);
    var k := Span(cs, off + total, n - total);
    assert Zeros(n)[..total] == Zeros(total) && Zeros(n)[..total + k] == Zeros(total + k)
      && Zeros(n)[total..total + k] == Zeros(k);
    PutZeros(cs, WriteBytes(cs, disk, off, Zeros(total)), off + total, k);
  }
}
