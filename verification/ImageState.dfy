/** An image at rest, and an image with one cluster being replaced. */
module ImageState {
  import opened Bytes
  import opened Options
  import opened BigEndian
  import opened ImageSpace
  import opened FreeChain
  import opened ImageTables
  import opened FlatDisk

  /** Everything about an image but its extents. */
  datatype Core = Core(codec: Codec, bits: nat, cs: nat, virtualSize: nat, l1: seq<nat>, cache: map<nat, seq<nat>>,
                       tables: map<nat, seq<nat>>, disk: map<Cell, seq<byte>>, hAlloc: nat, hHead: nat)

  ghost predicate Shape(k: Core) {
    && GoodSize(k.cs) && k.cs == ClusterSize(k.bits) && k.bits < TWO32 && k.virtualSize < TWO64 && Sound(k.codec)
    && 0 < |k.l1| < 0x2000_0000
  }

  function ClusterSize(bits: nat): nat {
    if bits >= 32 then 0 else Pow2(bits)
  }

  function Pow2(n: nat): nat {
    if n == 0 then 1 else 2 * Pow2(n - 1)
  }

  /** The extents are what the tables say. */
  ghost predicate Described(k: Core, m: map<Owner, Extent>) {
    && Shape(k) && Meta(m, k.bits, k.virtualSize, |k.l1|, k.hAlloc, k.hHead)
    && Tables(k.codec, k.cs, k.l1, k.cache, m, k.tables) && Cells(k.codec, k.cs, m, k.tables, k.disk)
  }

  /** The extents are what the tables say, except perhaps for one cluster, whose table is in the
      cache. */
  ghost predicate But(k: Core, m: map<Owner, Extent>, c: Cell) {
    && Shape(k) && Meta(m, k.bits, k.virtualSize, |k.l1|, k.hAlloc, k.hHead)
    && Tables(k.codec, k.cs, k.l1, k.cache, m, k.tables)
    && c.i in k.cache && c.i in k.tables && c.j < |k.tables[c.i]|
    && Cells(k.codec, k.cs, m - {Data(c)}, SetEntry(k.tables, c, 0), k.disk - {c})
  }

  lemma {:induction false} DescribedBut(k: Core, m: map<Owner, Extent>, c: Cell)
    requires Described(k, m) && c.i in k.cache && c.i in k.tables && c.j < |k.tables[c.i]|
    ensures But(k, m, c)
  {
    hide Tables; hide Cells; hide Meta; hide SetEntry;
    CellsDrop(k.codec, k.cs, m, k.tables, k.disk, c);
  }

  /** Free extents and the cluster's own one do not matter. */
  lemma {:induction false} ButFrame(k: Core, m: map<Owner, Extent>, n: map<Owner, Extent>, c: Cell)
    requires But(k, m, c)
    requires forall x: Owner | !x.Free? && x != Data(c) :: (x in m <==> x in n) && (x in m && x in n ==> m[x] == n[x])
    ensures But(k, n, c)
  {
    hide Tables; hide Cells; hide SetEntry;
    TablesFrame(k.codec, k.cs, k.l1, k.cache, m, n, k.tables);
    CellsFrame(k.codec, k.cs, m - {Data(c)}, n - {Data(c)}, SetEntry(k.tables, c, 0), k.disk - {c});
  }

  function Entered(k: Core, c: Cell, entry: nat, disk: map<Cell, seq<byte>>): Core
    requires c.i in k.cache && c.i in k.tables && c.j < |k.tables[c.i]| && c.j < |k.cache[c.i]|
  {
    k.(cache := SetEntry(k.cache, c, entry), tables := SetEntry(k.tables, c, entry), disk := disk)
  }

  /** The cluster's new extent is in place: its entry makes the image whole again. */
  lemma {:induction false} ButFinish(k: Core, m: map<Owner, Extent>, c: Cell, entry: nat, data: seq<byte>)
    requires But(k, m, c) && Data(c) in m && Holds(k.codec, k.cs, entry, m[Data(c)], data) && entry < TWO64
    ensures k.cache[c.i] == k.tables[c.i] && Described(Entered(k, c, entry, k.disk[c := data]), m)
  {
    hide Tables; hide Cells; hide Holds;
    TablesEntry(k.codec, k.cs, k.l1, k.cache, m, k.tables, c, entry);
    CellsAdd(k.codec, k.cs, m - {Data(c)}, SetEntry(k.tables, c, 0), k.disk - {c}, c, entry, m[Data(c)], data);
    assert (m - {Data(c)})[Data(c) := m[Data(c)]] == m;
    assert (k.disk - {c})[c := data] == k.disk[c := data];
    SetTwice(k.tables, c, 0, entry);
  }

  lemma {:induction false} SetTwice(tables: map<nat, seq<nat>>, c: Cell, a: nat, b: nat)
    requires c.i in tables && c.j < |tables[c.i]|
    ensures SetEntry(SetEntry(tables, c, a), c, b) == SetEntry(tables, c, b)
  {
    var t := tables[c.i];
    assert t[c.j := a][c.j := b] == t[c.j := b];
  }

  /** The cluster has no extent: a zero entry makes the image whole again. */
  lemma {:induction false} ButEmpty(k: Core, m: map<Owner, Extent>, c: Cell)
    requires But(k, m, c) && Data(c) !in m
    ensures k.cache[c.i] == k.tables[c.i] && Described(Entered(k, c, 0, k.disk - {c}), m)
  {
    hide Tables; hide Cells;
    TablesEntry(k.codec, k.cs, k.l1, k.cache, m, k.tables, c, 0);
    assert m - {Data(c)} == m;
  }

  lemma {:induction false} DescribedDisk(k: Core, m: map<Owner, Extent>)
    requires Described(k, m)
    ensures DiskOk(k.cs, k.disk)
  {
    hide Tables; hide Meta; hide Shape;
  }

  /** What the tables say about a cell whose table exists. */
  lemma {:induction false} DescribedCell(k: Core, m: map<Owner, Extent>, c: Cell)
    requires Described(k, m) && c.i in k.tables && c.j < Entries(k.cs)
    ensures |k.tables[c.i]| == Entries(k.cs) && (c in k.disk <==> k.tables[c.i][c.j] != 0)
    ensures (c in k.disk <==> Data(c) in m)
    ensures c in k.disk ==> Holds(k.codec, k.cs, k.tables[c.i][c.j], m[Data(c)], k.disk[c])
  {
    hide L2Bytes; hide Meta;
    assert TableAt(k.codec, k.cs, k.l1, k.cache, m, c.i, k.tables[c.i]);
  }

  lemma {:induction false} DescribedIndex(k: Core, m: map<Owner, Extent>, i: nat)
    requires Described(k, m)
    ensures i in k.tables <==> i < |k.l1| && k.l1[i] != 0
    ensures forall c: Cell | c.i == i && c in k.disk :: i in k.tables
  {
    hide L2Bytes; hide Meta; hide Holds;
    if i in k.tables { assert TableAt(k.codec, k.cs, k.l1, k.cache, m, i, k.tables[i]); }
  }

  lemma {:induction false} EntriesSize(cs: nat)
    requires GoodSize(cs)
    ensures 8 * Entries(cs) + 8 == cs
  {
    var q := cs / 4096;
    assert cs == 4096 * q;
    assert Entries(cs) == 512 * q - 1;
  }

  /** A table that is not cached can be read back from the file. */
  lemma {:induction false} LoadedTable(k: Core, file: seq<byte>, alloc: nat, m: map<Owner, Extent>, i: nat)
    requires Described(k, m) && Space(file, alloc, m) && i in k.tables
    ensures i in k.cache ==> k.cache[i] == k.tables[i]
    ensures i < |k.l1| && k.l1[i] > 0 && |k.tables[i]| == Entries(k.cs) && k.cs == 8 * Entries(k.cs) + 8
    ensures i !in k.cache ==> k.l1[i] + k.cs <= |file|
    ensures i !in k.cache ==> var buf := file[k.l1[i]..k.l1[i] + k.cs];
      UnBE(buf[k.cs - 4..]) == k.codec.crc(buf[..k.cs - 4])
      && forall j | 0 <= j < Entries(k.cs) :: UnBE(buf[8 * j..8 * j + 8]) == k.tables[i][j]
  {
    hide Space; hide Described; hide L2Bytes; hide UnBE; hide Sound; hide Entries;
    TableFacts(k, m, i);
    if i !in k.cache {
      InPlace(file, alloc, m, L2(i));
      ReadL2(k.codec, k.tables[i], m[L2(i)].bytes);
    }
  }

  lemma {:induction false} TableFacts(k: Core, m: map<Owner, Extent>, i: nat)
    requires Described(k, m) && i in k.tables
    ensures k.cs >= 16 && TableAt(k.codec, k.cs, k.l1, k.cache, m, i, k.tables[i]) && Sound(k.codec)
    ensures k.cs == 8 * Entries(k.cs) + 8
  {
    EntriesSize(k.cs);
    hide Cells; hide Meta; hide TableAt; hide Sound;
  }

  /** What the file holds for an entry's extent. */
  ghost predicate Reads(codec: Codec, cs: nat, file: seq<byte>, entry: nat, e: Extent, content: seq<byte>) {
    var phys := entry % TWO62;
    && 0 < phys == e.off && |content| == cs
    && if entry >= TWO63 then
         && 4 < |e.bytes| && phys + |e.bytes| <= |file| && UnBE(file[phys..phys + 4]) == |e.bytes| - 4
         && e.size == PageAlign(|e.bytes|) && codec.expand(file[phys + 4..phys + |e.bytes|]) == Some(content)
       else
         e.size == cs && phys + cs <= |file| && file[phys..phys + cs] == content
  }

  lemma {:induction false} HoldsReads(codec: Codec, cs: nat, file: seq<byte>, entry: nat, e: Extent, content: seq<byte>)
    requires Holds(codec, cs, entry, e, content) && Stored(file, e.off, e.bytes) && cs > 0
    ensures Reads(codec, cs, file, entry, e, content)
  {
    hide UnBE; hide BE; hide PageAlign;
    assert entry % TWO62 == e.off;
    if entry >= TWO63 {
      UnBE4(|e.bytes| - 4);
      assert file[e.off..e.off + 4] == e.bytes[..4];
      assert file[e.off + 4..e.off + |e.bytes|] == e.bytes[4..];
    }
  }

  lemma {:induction false} StoredCell(k: Core, file: seq<byte>, alloc: nat, m: map<Owner, Extent>, c: Cell)
    requires Described(k, m) && Space(file, alloc, m) && c in k.disk && c.i in k.tables && c.j < |k.tables[c.i]|
    requires Data(c) in m
    requires Holds(k.codec, k.cs, k.tables[c.i][c.j], m[Data(c)], k.disk[c])
    ensures Reads(k.codec, k.cs, file, k.tables[c.i][c.j], m[Data(c)], k.disk[c])
    ensures Placed(file, alloc, m[Data(c)]) && m[Data(c)].size <= k.cs
  {
    InPlace(file, alloc, m, Data(c));
    HoldsReads(k.codec, k.cs, file, k.tables[c.i][c.j], m[Data(c)], k.disk[c]);
    hide Described; hide Space; hide Reads;
  }

  /** Allocating an L2 table at the end of the file. */
  lemma {:induction false} NewTable(k: Core, file: seq<byte>, alloc: nat, m: map<Owner, Extent>, frees: seq<nat>,
                                    head: nat, i: nat, b: seq<byte>, t: seq<nat>)
    requires Described(k, m) && Space(file, alloc, m) && Chain(m, frees, head) && 0 < alloc < TWO62 && alloc % PAGE == 0
    requires i < |k.l1| && k.l1[i] == 0 && |b| == k.cs && |t| == Entries(k.cs) && forall j | 0 <= j < |t| :: t[j] == 0
    ensures Space(WriteAt(file, alloc, b), alloc + k.cs, m[L2(i) := Extent(alloc, k.cs, b)])
    ensures Chain(m[L2(i) := Extent(alloc, k.cs, b)], frees, head)
    ensures Described(k.(l1 := k.l1[i := alloc], cache := k.cache[i := t], tables := k.tables[i := t]),
      m[L2(i) := Extent(alloc, k.cs, b)])
  {
    var e := Extent(alloc, k.cs, b);
    DescribedIndex(k, m, i);
    NoTable(k, m, i);
    hide Tables; hide Cells;
    TablesNew(k.codec, k.cs, k.l1, k.cache, m, k.tables, i, e, t);
    CellsNewTable(k.codec, k.cs, m, k.tables, k.disk, i, e, t);
    SpaceGrow(file, alloc, m, k.cs);
    StoredHere(file, alloc, b);
    SpaceAdd(file, alloc + k.cs, m, L2(i), e);
    ChainSame(m, m[L2(i) := e], frees, head);
  }

  lemma {:induction false} NoTable(k: Core, m: map<Owner, Extent>, i: nat)
    requires Described(k, m) && i !in k.tables
    ensures L2(i) !in m
  {
    hide Cells; hide TableAt;
  }

  lemma {:induction false} AlignedSum(a: nat, b: nat)
    requires a % PAGE == 0 && b % PAGE == 0
    ensures (a + b) % PAGE == 0
  {}

  /** The entry of a cluster, and how much space its extent takes. */
  ghost predicate Occupies(k: Core, m: map<Owner, Extent>, c: Cell, entry: nat, size: nat) {
    && c.i in k.tables && c.j < |k.tables[c.i]| && entry == k.tables[c.i][c.j]
    && (c in k.disk <==> entry != 0) && (Data(c) in m <==> entry != 0) && (size > 0 <==> entry != 0)
    && (Data(c) in m ==>
          size == m[Data(c)].size && size <= k.cs
          && entry % TWO62 == m[Data(c)].off && 0 < m[Data(c)].off)
  }

  /** Rewriting a cluster where it is, in no more space than it had. */
  lemma {:induction false} InPlaceRewrite(k: Core, file: seq<byte>, alloc: nat, m: map<Owner, Extent>, frees: seq<nat>,
                                          head: nat, c: Cell, size: nat, buf: seq<byte>)
    requires Space(file, alloc, m) && Chain(m, frees, head) && But(k, m, c) && Data(c) in m
    requires 0 < size <= m[Data(c)].size && size % PAGE == 0 && |buf| <= size
    ensures var n := m[Data(c) := Extent(m[Data(c)].off, size, buf)];
      Space(WriteAt(file, m[Data(c)].off, buf), alloc, n) && Chain(n, frees, head) && But(k, n, c)
  {
    hide But; hide Chain;
    var e := Extent(m[Data(c)].off, size, buf);
    InPlace(file, alloc, m, Data(c));
    StoredHere(file, e.off, buf);
    SpacePut(file, alloc, m, Data(c), Data(c), e, e.off, buf);
    assert (m - {Data(c)})[Data(c) := e] == m[Data(c) := e];
    ChainSame(m, m[Data(c) := e], frees, head);
    ButFrame(k, m, m[Data(c) := e], c);
  }

  /** A compressed or plain cluster that fits its extent is what its entry describes. */
  ghost predicate Storable(k: Core, flag: nat, buf: seq<byte>, size: nat, data: seq<byte>) {
    && (flag == 0 || flag == TWO63) && 0 < size <= k.cs && size % PAGE == 0 && |buf| <= size
    && forall phys: nat | 0 < phys < TWO62 :: Holds(k.codec, k.cs, flag + phys, Extent(phys, size, buf), data)
  }

  lemma {:induction false} StorableFits(k: Core, m: map<Owner, Extent>, flag: nat, buf: seq<byte>, size: nat,
                                        data: seq<byte>)
    requires Described(k, m) && Storable(k, flag, buf, size, data)
    ensures k.cs < TWO32 && 0 < size <= k.cs && size % PAGE == 0
  {
    hide Tables; hide Cells; hide Meta; hide Sound; hide Holds;
  }

  lemma {:induction false} StorableCompressed(k: Core, z: seq<byte>, data: seq<byte>)
    requires Shape(k) && |data| == k.cs && k.codec.compress(data) == Some(z) && 0 < |z| < k.cs - 4
    ensures Storable(k, TWO63, BE(4, |z|) + z, PageAlign(4 + |z|), data)
  {
    var buf := BE(4, |z|) + z;
    assert buf[..4] == BE(4, |z|) && buf[4..] == z;
    PageAlignLeast(4 + |z|, k.cs);
    hide BE; hide PageAlign;
  }

  lemma {:induction false} StorablePlain(k: Core, data: seq<byte>)
    requires Shape(k) && |data| == k.cs
    ensures Storable(k, 0, data, k.cs, data)
  {}

  // ---------------------------------------------------------------- on disk

  /** The file alone tells everything: nothing depends on the cache, and the header and the L1
      table are up to date. */
  ghost predicate Persisted(file: seq<byte>, k: Core, alloc: nat, head: nat, m: map<Owner, Extent>, frees: seq<nat>) {
    && Space(file, alloc, m) && Chain(m, frees, head) && alloc % PAGE == 0 && PAGE <= alloc <= TWO62
    && Described(k.(cache := map[]), m) && k.hAlloc == alloc && k.hHead == head
    && m[L1].bytes == Table64(k.l1)
  }

  /** What a finished file holds; ghost values that say where. */
  datatype Held = Held(k: Core, alloc: nat, head: nat, m: map<Owner, Extent>, frees: seq<nat>)

  ghost predicate FileHolds(file: seq<byte>, h: Held) {
    Persisted(file, h.k, h.alloc, h.head, h.m, h.frees) && GoodSize(h.k.cs)
  }

  /** The extents after table i has been written back. */
  function Backed(k: Core, m: map<Owner, Extent>, i: nat): map<Owner, Extent>
    requires i in k.tables && i < |k.l1|
  {
    m[L2(i) := Extent(k.l1[i], k.cs, L2Bytes(k.codec, k.tables[i]))]
  }

  lemma {:induction false} BackedSpace(k: Core, file: seq<byte>, alloc: nat, m: map<Owner, Extent>, frees: seq<nat>,
                                       head: nat, i: nat)
    requires Space(file, alloc, m) && Chain(m, frees, head) && i in k.tables && i < |k.l1|
    requires L2(i) in m && m[L2(i)].off == k.l1[i] && m[L2(i)].size == k.cs == |L2Bytes(k.codec, k.tables[i])|
    ensures Space(WriteAt(file, k.l1[i], L2Bytes(k.codec, k.tables[i])), alloc, Backed(k, m, i))
    ensures Chain(Backed(k, m, i), frees, head)
  {
    hide L2Bytes; hide Chain; hide Space; hide Stored;
    StoredHere(file, k.l1[i], L2Bytes(k.codec, k.tables[i]));
    Rewrite(file, alloc, m, L2(i), L2Bytes(k.codec, k.tables[i]), k.l1[i], L2Bytes(k.codec, k.tables[i]));
    ChainSame(m, Backed(k, m, i), frees, head);
  }

  /** After writing back a table, the image does not depend on its being cached. */
  lemma {:induction false} BackedDescribed(k: Core, m: map<Owner, Extent>, i: nat)
    requires Described(k, m) && i in k.tables && i < |k.l1|
    requires L2(i) in m && m[L2(i)].off == k.l1[i] && m[L2(i)].size == k.cs
    ensures Described(k, Backed(k, m, i)) && Described(k.(cache := k.cache - {i}), Backed(k, m, i))
  {
    hide L2Bytes; hide Tables; hide Cells; hide Sound;
    var n := Backed(k, m, i);
    TablesWrite(k.codec, k.cs, k.l1, k.cache, m, k.tables, i, n[L2(i)]);
    CellsFrame(k.codec, k.cs, m, n, k.tables, k.disk);
  }

  lemma {:induction false} TableExtent(k: Core, m: map<Owner, Extent>, i: nat)
    requires Described(k, m) && i in k.tables
    ensures i < |k.l1| && k.l1[i] != 0 && L2(i) in m && m[L2(i)].off == k.l1[i]
    ensures m[L2(i)].size == k.cs == |L2Bytes(k.codec, k.tables[i])|
    ensures i in k.cache ==> k.cache[i] == k.tables[i]
  {
    EntriesSize(k.cs);
    hide L2Bytes; hide Cells; hide Meta; hide Sound;
    assert TableAt(k.codec, k.cs, k.l1, k.cache, m, i, k.tables[i]);
  }

  /** Writing the L1 table. */
  lemma {:induction false} WriteL1(k: Core, file: seq<byte>, alloc: nat, m: map<Owner, Extent>, frees: seq<nat>,
                                   head: nat)
    requires Space(file, alloc, m) && Chain(m, frees, head) && Described(k, m)
    ensures L1 in m
    ensures var n := m[L1 := Extent(PAGE, m[L1].size, Table64(k.l1))];
      Space(WriteAt(file, PAGE, Table64(k.l1)), alloc, n) && Chain(n, frees, head) && Described(k, n)
  {
    var b := Table64(k.l1);
    hide Table64; hide Tables; hide Cells; hide Chain;
    var n := m[L1 := Extent(PAGE, m[L1].size, b)];
    InPlace(file, alloc, m, L1);
    TablesFrame(k.codec, k.cs, k.l1, k.cache, m, n, k.tables);
    CellsFrame(k.codec, k.cs, m, n, k.tables, k.disk);
    hide Space;
    StoredHere(file, PAGE, b);
    Rewrite(file, alloc, m, L1, b, PAGE, b);
    ChainSame(m, n, frees, head);
  }

  /** Writing eight header bytes, at the place of the allocation offset or of the free list. */
  lemma {:induction false} WriteField(k: Core, file: seq<byte>, alloc: nat, m: map<Owner, Extent>, frees: seq<nat>,
                                      head: nat, p: nat, d: seq<byte>, k': Core)
    requires Space(file, alloc, m) && Chain(m, frees, head) && Described(k, m)
    requires |d| == 8 && p + 8 <= PAGE && k' == k.(hAlloc := k'.hAlloc, hHead := k'.hHead)
    requires WriteAt(HeaderBytes(k.bits, k.virtualSize, |k.l1|, k.hAlloc, k.hHead), p, d) ==
      HeaderBytes(k.bits, k.virtualSize, |k.l1|, k'.hAlloc, k'.hHead)
    ensures Header in m
    ensures var n := m[Header := Extent(0, PAGE, HeaderBytes(k.bits, k.virtualSize, |k.l1|, k'.hAlloc, k'.hHead))];
      Space(WriteAt(file, p, d), alloc, n) && Chain(n, frees, head) && Described(k', n)
  {
    hide HeaderBytes; hide Tables; hide Cells; hide Chain;
    var b := HeaderBytes(k.bits, k.virtualSize, |k.l1|, k'.hAlloc, k'.hHead);
    var n := m[Header := Extent(0, PAGE, b)];
    TablesFrame(k.codec, k.cs, k.l1, k.cache, m, n, k.tables);
    CellsFrame(k.codec, k.cs, m, n, k.tables, k.disk);
    ChainSame(m, n, frees, head);
    InPlace(file, alloc, m, Header);
    hide Space;
    StoredPart(file, 0, m[Header].bytes, p, d);
    Rewrite(file, alloc, m, Header, b, p, d);
  }

  lemma {:induction false} StoredPart(file: seq<byte>, off: nat, bytes: seq<byte>, p: nat, d: seq<byte>)
    requires Stored(file, off, bytes) && p + |d| <= |bytes|
    ensures Stored(WriteAt(file, off + p, d), off, WriteAt(bytes, p, d))
  {
    if bytes != [] {
      assert WriteAt(file, off + p, d)[off..off + |bytes|] == WriteAt(bytes, p, d);
    }
  }

  lemma {:induction false} L2Parts(codec: Codec, t: seq<nat>, entries: seq<byte>)
    requires entries == Table64(t)
    ensures entries + [0, 0, 0, 0] + BE(4, codec.crc(entries + [0, 0, 0, 0])) == L2Bytes(codec, t)
  {
    hide BE; hide Table64;
  }

  lemma {:induction false} CachedTables(k: Core, m: map<Owner, Extent>, i: nat)
    requires Described(k, m) && i in k.cache
    ensures i in k.tables
  {
    hide TableAt; hide Cells; hide Meta; hide Sound;
  }

  // ---------------------------------------------------------------- creating and opening

  lemma {:induction false} GoodBits(bits: nat)
    requires 12 <= bits <= 24
    ensures GoodSize(ClusterSize(bits)) && ClusterSize(bits) == Pow2(bits)
    decreases bits
  {
    if bits == 12 {
      assert Pow2(6) == 64 && Pow2(12) == 4096;
    } else {
      GoodBits(bits - 1);
      PowerLess(bits, 24);
      assert Pow2(12) == 4096 && Pow2(24) == 0x100_0000;
    }
  }

  lemma {:induction false} PowerLess(a: nat, b: nat)
    requires a <= b
    ensures 0 < Pow2(a) <= Pow2(b)
    decreases b
  {
    if a < b { PowerLess(a, b - 1); } else if a > 0 { PowerLess(a - 1, b - 1); }
  }

  function AlignUp(x: nat, cs: nat): nat
    requires cs > 0
  {
    (x + (cs - 1)) / cs * cs
  }

  lemma {:induction false} AlignUpIs(x: nat, cs: nat)
    requires GoodSize(cs)
    ensures x <= AlignUp(x, cs) < x + cs && AlignUp(x, cs) % PAGE == 0
  {
    var q := (x + (cs - 1)) / cs;
    assert x + (cs - 1) == q * cs + (x + (cs - 1)) % cs;
    var p := cs / PAGE;
    assert cs == PAGE * p;
    assert q * cs == PAGE * (q * p);
    MulDivMod(q * p, PAGE);
  }

  /** How many L1 entries a new image gets, in 64-bit arithmetic and cut to 32 bits. */
  function L1Count(cs: nat, virtualSize: nat): (n: nat)
    requires GoodSize(cs)
    ensures 0 < n
  {
    var span := Entries(cs) * cs;
    assert span > 0;
    var n := (virtualSize + span - 1) % TWO64 / span % TWO32;
    if n == 0 then 1 else n
  }

  /** The extents of an empty image. */
  function EmptyExtents(bits: nat, virtualSize: nat, n: nat, alloc: nat): map<Owner, Extent>
    requires alloc >= PAGE
  {
    map[Header := Extent(0, PAGE, HeaderBytes(bits, virtualSize, n, alloc, 0)),
        L1 := Extent(PAGE, alloc - PAGE, Zeros(8 * n))]
  }

  lemma {:induction false} EmptySpace(file: seq<byte>, bits: nat, virtualSize: nat, n: nat, alloc: nat)
    requires alloc % PAGE == 0 && PAGE + 8 * n <= alloc && 0 < n
    requires Stored(file, 0, HeaderBytes(bits, virtualSize, n, alloc, 0)) && Stored(file, PAGE, Zeros(8 * n))
    ensures Space(file, alloc, EmptyExtents(bits, virtualSize, n, alloc))
    ensures Chain(EmptyExtents(bits, virtualSize, n, alloc), [], 0)
  {
    hide HeaderBytes; hide Stored;
  }

  /** An image without clusters, whose L1 table is all zero. */
  lemma {:induction false} EmptyDescribed(k: Core, alloc: nat)
    requires Shape(k) && k.cache == map[] && k.tables == map[] && k.disk == map[] && k.hAlloc == alloc && k.hHead == 0
    requires alloc >= PAGE
    requires forall i | 0 <= i < |k.l1| :: k.l1[i] == 0
    ensures Described(k, EmptyExtents(k.bits, k.virtualSize, |k.l1|, alloc))
  {
    hide HeaderBytes;
  }

  /** The header and the L1 table of a persisted image can be read back. */
  lemma {:induction false} OpenReads(file: seq<byte>, k: Core, alloc: nat, head: nat, m: map<Owner, Extent>,
                                     frees: seq<nat>)
    requires Persisted(file, k, alloc, head, m, frees)
    ensures PAGE + 8 * |k.l1| <= |file| && 0 < |k.l1| < 0x2000_0000 && k.cs == ClusterSize(k.bits)
    ensures var b := file[..PAGE];
      && UnBE(b[0..8]) == MAGIC && UnBE(b[8..12]) == 2 && UnBE(b[12..16]) == k.bits && UnBE(b[16..24]) == k.virtualSize
      && UnBE(b[24..32]) == PAGE && UnBE(b[32..36]) == |k.l1| && UnBE(b[36..44]) == alloc && UnBE(b[48..56]) == head
    ensures forall i | 0 <= i < |k.l1| :: UnBE(file[PAGE..PAGE + 8 * |k.l1|][8 * i..8 * i + 8]) == k.l1[i]
  {
    OpenParts(file, k, alloc, head, m, frees);
    hide Persisted; hide UnBE; hide HeaderBytes; hide Table64;
    ReadHeader(file[..PAGE], k.bits, k.virtualSize, |k.l1|, alloc, head);
    forall i | 0 <= i < |k.l1|
      ensures UnBE(file[PAGE..PAGE + 8 * |k.l1|][8 * i..8 * i + 8]) == k.l1[i]
    {
      Table64At(k.l1, i);
      UnBE8(k.l1[i]);
    }
  }

  lemma {:induction false} OpenParts(file: seq<byte>, k: Core, alloc: nat, head: nat, m: map<Owner, Extent>,
                                     frees: seq<nat>)
    requires Persisted(file, k, alloc, head, m, frees)
    ensures PAGE + 8 * |k.l1| <= |file| && Shape(k) && alloc < TWO64 && head < TWO64
    ensures file[..PAGE] == HeaderBytes(k.bits, k.virtualSize, |k.l1|, alloc, head)
    ensures file[PAGE..PAGE + 8 * |k.l1|] == Table64(k.l1)
    ensures forall i | 0 <= i < |k.l1| :: k.l1[i] < TWO64
  {
    hide HeaderBytes; hide Table64; hide Cells; hide Sound; hide Tomb; hide L2Bytes;
    InPlace(file, alloc, m, Header);
    InPlace(file, alloc, m, L1);
    ChainHead(m, frees, head);
    if head != 0 { ChainNode(m, frees, head, 0); }
    hide Space; hide Chain;
    forall i | 0 <= i < |k.l1|
      ensures k.l1[i] < TWO64
    {
      if k.l1[i] != 0 { assert TableAt(k.codec, k.cs, k.l1, map[], m, i, k.tables[i]); }
    }
  }

  // ---------------------------------------------------------------- lost space

  /** No byte is lost, except the tail of the cluster's extent if that is rewritten in place in
      less space. */
  ghost predicate LosesTail(m: map<Owner, Extent>, n: map<Owner, Extent>, c: Cell) {
    || Keeps(m, n, 0, 0)
    || (&& Data(c) in m && Data(c) in n && n[Data(c)].off == m[Data(c)].off && n[Data(c)].size < m[Data(c)].size
        && Keeps(m, n, n[Data(c)].off + n[Data(c)].size, m[Data(c)].off + m[Data(c)].size))
  }

  lemma {:induction false} TailLost(m: map<Owner, Extent>, p: map<Owner, Extent>, n: map<Owner, Extent>, c: Cell)
    requires Keeps(m, p, 0, 0) && Data(c) in p && Data(c) in n && n[Data(c)].off == p[Data(c)].off
    requires n[Data(c)].size <= p[Data(c)].size
    requires Keeps(p, n, n[Data(c)].off + n[Data(c)].size, n[Data(c)].off + p[Data(c)].size)
    requires n[Data(c)].size < p[Data(c)].size ==> Data(c) in m && p[Data(c)] == m[Data(c)]
    ensures LosesTail(m, n, c)
  {
    KeepsThen(m, p, n, n[Data(c)].off + n[Data(c)].size, n[Data(c)].off + p[Data(c)].size);
    hide Covered;
  }

  lemma {:induction false} LosesNothing(m: map<Owner, Extent>, p: map<Owner, Extent>, n: map<Owner, Extent>, c: Cell)
    requires Keeps(m, p, 0, 0) && (p == n || Keeps(p, n, 0, 0))
    ensures LosesTail(m, n, c)
  {
    if p != n { KeepsThen(m, p, n, 0, 0); }
  }

  lemma {:induction false} LosesAfter(m: map<Owner, Extent>, p: map<Owner, Extent>, n: map<Owner, Extent>, c: Cell)
    requires Keeps(m, p, 0, 0) && LosesTail(p, n, c) && (Data(c) in m <==> Data(c) in p)
    requires (Data(c) in m ==> p[Data(c)] == m[Data(c)])
    ensures LosesTail(m, n, c)
  {
    if Keeps(p, n, 0, 0) {
      KeepsThen(m, p, n, 0, 0);
    } else {
      KeepsThen(m, p, n, n[Data(c)].off + n[Data(c)].size, p[Data(c)].off + p[Data(c)].size);
    }
    hide Keeps;
  }

  lemma {:induction false} NoTableYet(k: Core, m: map<Owner, Extent>, i: nat)
    requires Described(k, m) && i < |k.l1| && k.l1[i] == 0
    ensures L2(i) !in m
  {
    DescribedIndex(k, m, i);
    NoTable(k, m, i);
  }

  predicate AllZeroTable(t: seq<nat>) { forall j | 0 <= j < |t| :: t[j] == 0 }

  /** The zeroed table that is written for a new L1 entry. */
  lemma {:induction false} ZeroTable(codec: Codec, cs: nat, t: seq<nat>)
    requires GoodSize(cs) && |t| == Entries(cs) && AllZeroTable(t)
    ensures L2Bytes(codec, t) == Zeros(cs - 4) + BE(4, codec.crc(Zeros(cs - 4)))
  {
    EntriesSize(cs);
    assert t == seq(|t|, _ => 0);
    Table64Zero(|t|);
    hide BE; hide Table64; hide Entries;
    assert L2Body(t) == Zeros(cs - 4);
  }

  /** The extent of the L1 table is unchanged. */
  ghost predicate L1Kept(m: map<Owner, Extent>, n: map<Owner, Extent>) {
    (L1 in m <==> L1 in n) && (L1 in m ==> m[L1] == n[L1])
  }

  lemma {:induction false} L1KeptBeside(m: map<Owner, Extent>, n: map<Owner, Extent>, c: Cell, e: Extent)
    requires L1Kept(m, n)
    ensures L1Kept(m, n[Data(c) := e])
  {
  }

  /** Setting an entry of a table that has been written out. */
  lemma {:induction false} TableSet(t: seq<nat>, i: nat, x: nat)
    requires i < |t|
    ensures Table64(t[i := x]) == WriteAt(Table64(t), 8 * i, BE(8, x))
    decreases |t|
  {
    var u := t[..|t| - 1];
    var last := t[|t| - 1];
    assert Table64(t) == Table64(u) + BE(8, last);
    if i < |u| {
      TableSet(u, i, x);
      assert t[i := x][..|t| - 1] == u[i := x];
      assert t[i := x][|t| - 1] == last;
      hide BE; hide Table64;
      InFirst(Table64(u), BE(8, last), 8 * i, BE(8, x));
    } else {
      assert t[i := x][..|t| - 1] == u;
      hide BE;
      assert WriteAt(Table64(u) + BE(8, last), 8 * i, BE(8, x)) == Table64(u) + BE(8, x);
    }
  }

  lemma {:induction false} InFirst(a: seq<byte>, b: seq<byte>, p: nat, d: seq<byte>)
    requires p + |d| <= |a|
    ensures WriteAt(a + b, p, d) == WriteAt(a, p, d) + b
  {}

  /** Writing one L1 entry. */
  lemma {:induction false} WriteL1At(k: Core, file: seq<byte>, alloc: nat, m: map<Owner, Extent>, frees: seq<nat>,
                                     head: nat, p: nat, d: seq<byte>)
    requires Space(file, alloc, m) && Chain(m, frees, head) && Described(k, m) && p + |d| <= 8 * |k.l1|
    ensures L1 in m
    ensures var n := m[L1 := Extent(PAGE, m[L1].size, WriteAt(m[L1].bytes, p, d))];
      Space(WriteAt(file, PAGE + p, d), alloc, n) && Chain(n, frees, head) && Described(k, n)
  {
    hide Tables; hide Cells; hide Chain;
    var n := m[L1 := Extent(PAGE, m[L1].size, WriteAt(m[L1].bytes, p, d))];
    InPlace(file, alloc, m, L1);
    TablesFrame(k.codec, k.cs, k.l1, k.cache, m, n, k.tables);
    CellsFrame(k.codec, k.cs, m, n, k.tables, k.disk);
    hide Space;
    StoredPart(file, PAGE, m[L1].bytes, p, d);
    Rewrite(file, alloc, m, L1, WriteAt(m[L1].bytes, p, d), PAGE + p, d);
    ChainSame(m, n, frees, head);
  }
}
