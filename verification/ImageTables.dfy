/** What the L1 table, the L2 tables and their entries mean for the extents of an image. */
module ImageTables {
  import opened Bytes
  import opened Options
  import opened BigEndian
  import opened ImageSpace

  /** The compression library and the checksum, as the image uses them. */
  datatype Codec = Codec(compress: seq<byte> -> Option<seq<byte>>, expand: seq<byte> -> Option<seq<byte>>,
    crc: seq<byte> -> nat)

  /** Compression is lossless and checksums have 32 bits. */
  ghost predicate Sound(codec: Codec) {
    && (forall d | codec.compress(d).Some? :: codec.expand(codec.compress(d).value) == Some(d))
    && (forall b :: codec.crc(b) < TWO32)
  }

  /** Cluster sizes from 4 KiB to 16 MiB. */
  predicate GoodSize(cs: nat) { cs % PAGE == 0 && PAGE <= cs <= 0x100_0000 }

  function Entries(cs: nat): (r: nat)
    requires cs >= 16
    ensures r > 0
  {
    (cs - 8) / 8
  }

  function PageAlign(n: nat): (r: nat)
    ensures r % PAGE == 0 && n <= r < n + PAGE
  {
    (n + (PAGE - 1)) / PAGE * PAGE
  }

  /** A page-aligned size is the least multiple of the page size that is large enough. */
  lemma {:induction false} PageAlignLeast(n: nat, m: nat)
    requires n <= m && m % PAGE == 0
    ensures PageAlign(n) <= m
  {}

  // ---------------------------------------------------------------- L2 tables

  function L2Body(t: seq<nat>): (r: seq<byte>)
    ensures |r| == 8 * |t| + 4
  {
    Table64(t) + [0, 0, 0, 0]
  }

  /** An L2 table on disk: the entries, four reserved bytes and the checksum of all these. */
  function L2Bytes(codec: Codec, t: seq<nat>): (r: seq<byte>)
    ensures |r| == 8 * |t| + 8
  {
    L2Body(t) + BE(4, codec.crc(L2Body(t)))
  }

  lemma {:induction false} ReadL2(codec: Codec, t: seq<nat>, b: seq<byte>)
    requires b == L2Bytes(codec, t) && Sound(codec) && forall j | 0 <= j < |t| :: t[j] < TWO64
    ensures UnBE(b[|b| - 4..]) == codec.crc(b[..|b| - 4])
    ensures forall j | 0 <= j < |t| :: UnBE(b[8 * j..8 * j + 8]) == t[j]
  {
    assert b[..|b| - 4] == L2Body(t) && b[|b| - 4..] == BE(4, codec.crc(L2Body(t)));
    UnBE4(codec.crc(L2Body(t)));
    forall j | 0 <= j < |t|
      ensures UnBE(b[8 * j..8 * j + 8]) == t[j]
    {
      Table64At(t, j);
      assert b[8 * j..8 * j + 8] == Table64(t)[8 * j..8 * j + 8];
      UnBE8(t[j]);
    }
  }

  /** Table t is the one L1 entry i leads to. On disk it may be stale while it is cached. */
  ghost predicate TableAt(codec: Codec, cs: nat, l1: seq<nat>, cache: map<nat, seq<nat>>, m: map<Owner, Extent>, i: nat,
                          t: seq<nat>)
    requires cs >= 16
  {
    && i < |l1| && 0 < l1[i] < TWO62 && |t| == Entries(cs) && (forall j | 0 <= j < |t| :: t[j] < TWO64)
    && L2(i) in m && m[L2(i)].off == l1[i] && m[L2(i)].size == cs
    && if i in cache then cache[i] == t else m[L2(i)].bytes == L2Bytes(codec, t)
  }

  /** The L2 tables of an image: those L1 leads to, no others. */
  ghost predicate Tables(codec: Codec, cs: nat, l1: seq<nat>, cache: map<nat, seq<nat>>, m: map<Owner, Extent>,
                         tables: map<nat, seq<nat>>)
    requires cs >= 16
  {
    && (forall i | i in tables :: TableAt(codec, cs, l1, cache, m, i, tables[i]))
    && (forall i | 0 <= i < |l1| && l1[i] != 0 :: i in tables)
    && (forall i | i in cache :: i in tables)
    && (forall x | x in m && x.L2? :: x.i in tables)
  }

  /** The tables after one entry has been set. */
  function SetEntry(tables: map<nat, seq<nat>>, c: Cell, entry: nat): map<nat, seq<nat>>
    requires c.i in tables && c.j < |tables[c.i]|
  {
    var t: seq<nat> := tables[c.i][c.j := entry];
    tables[c.i := t]
  }

  /** Only the L2 extents matter to Tables. */
  lemma {:induction false} TablesFrame(codec: Codec, cs: nat, l1: seq<nat>, cache: map<nat, seq<nat>>,
                                       m: map<Owner, Extent>, n: map<Owner, Extent>, tables: map<nat, seq<nat>>)
    requires cs >= 16 && Tables(codec, cs, l1, cache, m, tables)
    requires forall x: Owner | x.L2? :: (x in m <==> x in n) && (x in m && x in n ==> m[x] == n[x])
    ensures Tables(codec, cs, l1, cache, n, tables)
  {
    forall i | i in tables
      ensures TableAt(codec, cs, l1, cache, n, i, tables[i])
    {
      assert TableAt(codec, cs, l1, cache, m, i, tables[i]);
    }
  }

  /** A table may be read into the cache. */
  lemma {:induction false} TablesLoad(codec: Codec, cs: nat, l1: seq<nat>, cache: map<nat, seq<nat>>,
                                      m: map<Owner, Extent>, tables: map<nat, seq<nat>>, i: nat)
    requires cs >= 16 && Tables(codec, cs, l1, cache, m, tables) && i in tables
    ensures Tables(codec, cs, l1, cache[i := tables[i]], m, tables)
  {
    forall k | k in tables
      ensures TableAt(codec, cs, l1, cache[i := tables[i]], m, k, tables[k])
    {
      assert TableAt(codec, cs, l1, cache, m, k, tables[k]);
    }
  }

  /** An entry of a cached table may change. */
  lemma {:induction false} TablesEntry(codec: Codec, cs: nat, l1: seq<nat>, cache: map<nat, seq<nat>>,
                                       m: map<Owner, Extent>, tables: map<nat, seq<nat>>, c: Cell, entry: nat)
    requires cs >= 16 && Tables(codec, cs, l1, cache, m, tables) && c.i in cache && c.i in tables && c.j < |tables[c.i]|
    requires entry < TWO64
    ensures cache[c.i] == tables[c.i]
    ensures Tables(codec, cs, l1, SetEntry(cache, c, entry), m, SetEntry(tables, c, entry))
  {
    hide L2Bytes;
    assert TableAt(codec, cs, l1, cache, m, c.i, tables[c.i]);
    forall k | k in tables
      ensures TableAt(codec, cs, l1, SetEntry(cache, c, entry), m, k, SetEntry(tables, c, entry)[k])
    {
      assert TableAt(codec, cs, l1, cache, m, k, tables[k]);
    }
  }

  /** A fresh, empty table. */
  lemma {:induction false} TablesNew(codec: Codec, cs: nat, l1: seq<nat>, cache: map<nat, seq<nat>>,
                                     m: map<Owner, Extent>, tables: map<nat, seq<nat>>, i: nat, e: Extent, t: seq<nat>)
    requires cs >= 16 && Tables(codec, cs, l1, cache, m, tables) && i < |l1| && i !in tables
    requires 0 < e.off < TWO62 && e.size == cs && |t| == Entries(cs) && forall j | 0 <= j < |t| :: t[j] == 0
    ensures Tables(codec, cs, l1[i := e.off], cache[i := t], m[L2(i) := e], tables[i := t])
  {
    hide L2Bytes;
    var ts := tables[i := t];
    forall k | k in ts
      ensures TableAt(codec, cs, l1[i := e.off], cache[i := t], m[L2(i) := e], k, ts[k])
    {
      if k != i { assert TableAt(codec, cs, l1, cache, m, k, tables[k]); }
    }
  }

  /** A cached table may be written back. */
  lemma {:induction false} TablesWrite(codec: Codec, cs: nat, l1: seq<nat>, cache: map<nat, seq<nat>>,
                                       m: map<Owner, Extent>, tables: map<nat, seq<nat>>, i: nat, e: Extent)
    requires cs >= 16 && Tables(codec, cs, l1, cache, m, tables) && i in tables
    requires L2(i) in m && e == Extent(m[L2(i)].off, m[L2(i)].size, L2Bytes(codec, tables[i]))
    ensures Tables(codec, cs, l1, cache, m[L2(i) := e], tables)
    ensures Tables(codec, cs, l1, cache - {i}, m[L2(i) := e], tables)
  {
    hide L2Bytes;
    forall k | k in tables
      ensures TableAt(codec, cs, l1, cache, m[L2(i) := e], k, tables[k])
      ensures TableAt(codec, cs, l1, cache - {i}, m[L2(i) := e], k, tables[k])
    {
      assert TableAt(codec, cs, l1, cache, m, k, tables[k]);
    }
  }

  // ---------------------------------------------------------------- clusters

  /** The extent of an L2 entry holds this cluster, compressed behind its length or plain. */
  ghost predicate Holds(codec: Codec, cs: nat, entry: nat, e: Extent, content: seq<byte>) {
    && |content| == cs && 0 < e.off < TWO62 && e.size <= cs
    && if entry >= TWO63 then
         && entry == TWO63 + e.off && 4 < |e.bytes| && |e.bytes| - 4 < TWO32 && e.bytes[..4] == BE(4, |e.bytes| - 4)
         && codec.expand(e.bytes[4..]) == Some(content) && e.size == PageAlign(|e.bytes|)
       else
         entry == e.off && e.bytes == content && e.size == cs
  }

  /** The entries of all tables and the data extents describe the same disk: a cluster that is
      not in it has a zero entry and no extent. */
  ghost predicate Cells(codec: Codec, cs: nat, m: map<Owner, Extent>, tables: map<nat, seq<nat>>,
                        disk: map<Cell, seq<byte>>) {
    && (forall c | c in disk :: c.i in tables && c.j < |tables[c.i]| && Data(c) in m
          && Holds(codec, cs, tables[c.i][c.j], m[Data(c)], disk[c]))
    && (forall x | x in m && x.Data? :: x.cell in disk)
    && (forall i, j | i in tables && 0 <= j < |tables[i]| && tables[i][j] != 0 :: Cell(i, j) in disk)
  }

  /** Only the data extents matter to Cells. */
  lemma {:induction false} CellsFrame(codec: Codec, cs: nat, m: map<Owner, Extent>, n: map<Owner, Extent>,
                                      tables: map<nat, seq<nat>>, disk: map<Cell, seq<byte>>)
    requires Cells(codec, cs, m, tables, disk)
    requires forall x: Owner | x.Data? :: (x in m <==> x in n) && (x in m && x in n ==> m[x] == n[x])
    ensures Cells(codec, cs, n, tables, disk)
  {
    hide Holds;
  }

  lemma {:induction false} CellsDrop(codec: Codec, cs: nat, m: map<Owner, Extent>, tables: map<nat, seq<nat>>,
                                     disk: map<Cell, seq<byte>>, c: Cell)
    requires Cells(codec, cs, m, tables, disk) && c.i in tables && c.j < |tables[c.i]|
    ensures Cells(codec, cs, m - {Data(c)}, SetEntry(tables, c, 0), disk - {c})
  {
    hide Holds;
  }

  lemma {:induction false} CellsAdd(codec: Codec, cs: nat, m: map<Owner, Extent>, tables: map<nat, seq<nat>>,
                                    disk: map<Cell, seq<byte>>, c: Cell, entry: nat, e: Extent, content: seq<byte>)
    requires Cells(codec, cs, m, tables, disk) && c.i in tables && c.j < |tables[c.i]|
    requires Holds(codec, cs, entry, e, content)
    ensures Cells(codec, cs, m[Data(c) := e], SetEntry(tables, c, entry), disk[c := content])
  {
    hide Holds;
  }

  lemma {:induction false} CellsNewTable(codec: Codec, cs: nat, m: map<Owner, Extent>, tables: map<nat, seq<nat>>,
                                         disk: map<Cell, seq<byte>>, i: nat, e: Extent, t: seq<nat>)
    requires Cells(codec, cs, m, tables, disk) && i !in tables && forall j | 0 <= j < |t| :: t[j] == 0
    ensures Cells(codec, cs, m[L2(i) := e], tables[i := t], disk)
  {
    hide Holds;
  }

  // ---------------------------------------------------------------- header and L1 table

  const MAGIC: nat := 0x4C42_4443_5157_3200

  /** The header fields that never change. */
  function HeaderFixed(bits: nat, virtualSize: nat, l1Size: nat): (r: seq<byte>)
    ensures |r| == 36
  {
    BE(8, MAGIC) + BE(4, 2) + BE(4, bits) + BE(8, virtualSize) + BE(8, PAGE) + BE(4, l1Size)
  }

  function HeaderBytes(bits: nat, virtualSize: nat, l1Size: nat, alloc: nat, head: nat): (r: seq<byte>)
    ensures |r| == PAGE
  {
    HeaderFixed(bits, virtualSize, l1Size) + BE(8, alloc) + BE(4, 1) + BE(8, head) + Zeros(PAGE - 56)
  }

  lemma {:induction false} ReadHeader(b: seq<byte>, bits: nat, virtualSize: nat, l1Size: nat, alloc: nat, head: nat)
    requires b == HeaderBytes(bits, virtualSize, l1Size, alloc, head)
    requires bits < TWO32 && virtualSize < TWO64 && l1Size < TWO32 && alloc < TWO64 && head < TWO64
    ensures UnBE(b[0..8]) == MAGIC && UnBE(b[8..12]) == 2 && UnBE(b[12..16]) == bits && UnBE(b[16..24]) == virtualSize
    ensures UnBE(b[24..32]) == PAGE && UnBE(b[32..36]) == l1Size && UnBE(b[36..44]) == alloc && UnBE(b[48..56]) == head
    ensures UnBE(b[44..48]) == 1
  {
    hide HeaderBytes; hide HeaderFixed; hide UnBE; hide BE;
    HeaderParts(b, bits, virtualSize, l1Size, alloc, head);
    UnBE8(alloc);
    UnBE4(1);
    UnBE8(head);
    var f := HeaderFixed(bits, virtualSize, l1Size);
    ReadFixed(f, bits, virtualSize, l1Size);
    Prefix(b, f, 0, 8);
    Prefix(b, f, 8, 12);
    Prefix(b, f, 12, 16);
    Prefix(b, f, 16, 24);
    Prefix(b, f, 24, 32);
    Prefix(b, f, 32, 36);
  }

  lemma {:induction false} Prefix(b: seq<byte>, f: seq<byte>, lo: nat, hi: nat)
    requires lo <= hi <= |f| && f <= b
    ensures b[lo..hi] == f[lo..hi]
  {}

  lemma {:induction false} HeaderParts(b: seq<byte>, bits: nat, virtualSize: nat, l1Size: nat, alloc: nat, head: nat)
    requires b == HeaderBytes(bits, virtualSize, l1Size, alloc, head)
    ensures |b| == PAGE && HeaderFixed(bits, virtualSize, l1Size) <= b && b[36..44] == BE(8, alloc)
    ensures b[44..48] == BE(4, 1) && b[48..56] == BE(8, head)
  {
    hide HeaderFixed; hide BE;
  }

  lemma {:induction false} ReadFixed(f: seq<byte>, bits: nat, virtualSize: nat, l1Size: nat)
    requires f == HeaderFixed(bits, virtualSize, l1Size)
    requires bits < TWO32 && virtualSize < TWO64 && l1Size < TWO32
    ensures UnBE(f[0..8]) == MAGIC && UnBE(f[8..12]) == 2 && UnBE(f[12..16]) == bits && UnBE(f[16..24]) == virtualSize
    ensures UnBE(f[24..32]) == PAGE && UnBE(f[32..36]) == l1Size
  {
    hide HeaderFixed; hide UnBE; hide BE;
    FixedParts(f, bits, virtualSize, l1Size);
    UnBE8(MAGIC);
    UnBE4(2);
    UnBE4(bits);
    UnBE8(virtualSize);
    UnBE8(PAGE);
    UnBE4(l1Size);
  }

  lemma {:induction false} FixedParts(f: seq<byte>, bits: nat, virtualSize: nat, l1Size: nat)
    requires f == HeaderFixed(bits, virtualSize, l1Size)
    ensures f[0..8] == BE(8, MAGIC) && f[8..12] == BE(4, 2) && f[12..16] == BE(4, bits)
    ensures f[16..24] == BE(8, virtualSize) && f[24..32] == BE(8, PAGE) && f[32..36] == BE(4, l1Size)
  {
    hide BE;
  }

  /** The allocation offset and the free list are updated in place. */
  lemma {:induction false} UpdateHeader(bits: nat, virtualSize: nat, l1Size: nat, alloc: nat, head: nat, alloc': nat,
                                        head': nat)
    ensures WriteAt(HeaderBytes(bits, virtualSize, l1Size, alloc, head), 36, BE(8, alloc')) ==
      HeaderBytes(bits, virtualSize, l1Size, alloc', head)
    ensures WriteAt(HeaderBytes(bits, virtualSize, l1Size, alloc, head), 48, BE(8, head')) ==
      HeaderBytes(bits, virtualSize, l1Size, alloc, head')
  {
    hide BE; hide HeaderFixed;
    var f := HeaderFixed(bits, virtualSize, l1Size);
    assert WriteAt(f + BE(8, alloc) + BE(4, 1) + BE(8, head) + Zeros(PAGE - 56), 36, BE(8, alloc'))
        == f + BE(8, alloc') + BE(4, 1) + BE(8, head) + Zeros(PAGE - 56);
    assert WriteAt(f + BE(8, alloc) + BE(4, 1) + BE(8, head) + Zeros(PAGE - 56), 48, BE(8, head'))
        == f + BE(8, alloc) + BE(4, 1) + BE(8, head') + Zeros(PAGE - 56);
  }

  /** The metadata at the start of the file. Its allocation offset and free list, and the L1
      table's bytes, may be stale. */
  ghost predicate Meta(m: map<Owner, Extent>, bits: nat, virtualSize: nat, l1Size: nat, alloc: nat, head: nat) {
    && Header in m && m[Header] == Extent(0, PAGE, HeaderBytes(bits, virtualSize, l1Size, alloc, head))
    && L1 in m && m[L1].off == PAGE && |m[L1].bytes| == 8 * l1Size
  }
}
