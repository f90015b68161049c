/** The compressed image: reading, writing, trimming, flushing and reopening. */
module Images {
  import opened Bytes
  import opened Options
  import opened BigEndian
  import opened ImageSpace
  import opened FreeChain
  import opened ImageTables
  import opened FlatDisk
  import opened ImageState

  class Image {
    const codec: Codec
    const bits: nat
    const cs: nat
    const virtualSize: nat
    var file: seq<byte>
    var l1: seq<nat>
    var alloc: nat
    var freeHead: nat
    var cache: map<nat, seq<nat>>
    ghost var m: map<Owner, Extent>
    ghost var frees: seq<nat>
    ghost var tables: map<nat, seq<nat>>
    ghost var disk: map<Cell, seq<byte>>
    ghost var hAlloc: nat
    ghost var hHead: nat

    constructor (codec: Codec, bits: nat, virtualSize: nat, file: seq<byte>, l1: seq<nat>, alloc: nat, head: nat,
                 ghost m: map<Owner, Extent>, ghost frees: seq<nat>, ghost tables: map<nat, seq<nat>>,
                 ghost disk: map<Cell, seq<byte>>)
      ensures this.m == m && this.frees == frees && this.file == file && this.alloc == alloc && this.freeHead == head
      ensures K() == Core(codec, bits, ClusterSize(bits), virtualSize, l1, map[], tables, disk, alloc, head)
    {
      this.codec, this.bits, this.cs, this.virtualSize := codec, bits, ClusterSize(bits), virtualSize;
      this.file, this.l1, this.alloc, this.freeHead, this.cache := file, l1, alloc, head, map[];
      this.m, this.frees, this.tables, this.disk, this.hAlloc, this.hHead := m, frees, tables, disk, alloc, head;
    }

    ghost function K(): Core
      reads this
    {
      Core(codec, bits, cs, virtualSize, l1, cache, tables, disk, hAlloc, hHead)
    }

    ghost predicate Valid()
      reads this
    {
      Allocator() && Described(K(), m)
    }

    /** What the allocator keeps: extents apart, and every free one on the chain. */
    ghost predicate Allocator()
      reads this
    {
      Space(file, alloc, m) && Chain(m, frees, freeHead) && alloc % PAGE == 0 && PAGE <= alloc <= TWO62
    }

    /** freeExtent: a tombstone at the start of the extent, which becomes the list head. */
    method FreeExtent(off: nat, size: nat)
      requires Allocator() && Vacant(m, alloc, off, size)
      requires off % PAGE == 0 && size % PAGE == 0 && 0 < size < TWO32 && 0 < off
      modifies `file, `freeHead, `m, `frees
      ensures Allocator()
      ensures Free(off) !in old(m) && m == old(m)[Free(off) := Extent(off, size, Tomb(size, old(freeHead)))]
    {
      FreeStep(file, alloc, m, frees, freeHead, off, size);
      file := WriteAt(file, off, Tomb(size, freeHead));
      m := m[Free(off) := Extent(off, size, Tomb(size, freeHead))];
      frees := [off] + frees;
      freeHead := off;
    }

    /** Unlinks extent k of the chain, keeps the first needed bytes and frees the rest. The
        rest is nothing or at least a page, so none of it is dropped. */
    method Take(cur: nat, prev: nat, first: bool, size: nat, next: nat, needed: nat, ghost k: nat, ghost y: Owner)
      requires Allocator() && y !in m && !y.Free? && needed % PAGE == 0 && 0 < needed <= size
      requires k < |frees| && cur == frees[k] && next == Link(frees, k + 1) && first == (k == 0)
      requires (!first ==> prev == frees[k - 1])
      requires Free(cur) in m && m[Free(cur)].off == cur && m[Free(cur)].size == size && size < TWO32 && 0 < cur
      modifies `file, `freeHead, `m, `frees
      ensures Allocator()
      ensures y in m && m[y] == Extent(cur, needed, []) && SameLive(old(m)[y := Extent(cur, needed, [])], m)
      ensures Keeps(old(m), m, 0, 0)
    {
      hide Chain; hide Space; hide Vacant; hide Unlinked; hide Tomb; hide BE; hide Keeps;
      ghost var m0, frees0 := m, frees;
      if k > 0 { ChainNode(m, frees, freeHead, k - 1); }
      TakeStep(file, alloc, m, frees, freeHead, k, y, needed);
      ChainTake(m, frees, freeHead, k, y, Extent(cur, needed, []));
      InPlace(file, alloc, m, Free(cur));
      UnlinkedLive(m, frees, k, y, Extent(cur, needed, []));
      if first {
        freeHead := next;
      } else {
        file := WriteAt(file, prev + 8, BE(8, next));
      }
      m := Unlinked(m, frees, k, y, Extent(cur, needed, []));
      frees := frees[..k] + frees[k + 1..];
      var remainder := size - needed;
      ghost var rest: seq<byte> := [];
      if remainder >= 16 {
        FreeExtent(cur + needed, remainder);
        rest := m[Free(cur + needed)].bytes;
      }
      KeepsSplit(m0, frees0, k, y, needed, m, rest);
    }

    /** allocSpace: first fit in the free list, splitting the extent found, or append. */
    method AllocSpace(needed: nat, ghost y: Owner) returns (phys: nat)
      requires Allocator() && y !in m && !y.Free?
      requires needed % PAGE == 0 && 0 < needed < TWO32 && alloc + needed <= TWO62
      modifies `file, `alloc, `freeHead, `m, `frees
      ensures Allocator() && 0 < phys < TWO62
      ensures phys == Chosen(old(m), old(frees), 0, needed, old(alloc))
      ensures y in m && m[y] == Extent(phys, needed, []) && SameLive(old(m)[y := Extent(phys, needed, [])], m)
      ensures old(alloc) <= alloc <= old(alloc) + needed && Keeps(old(m), m, 0, 0)
    {
      hide Chain; hide Space; hide UnBE; hide SameLive; hide Keeps;
      ChainHead(m, frees, freeHead);
      var prev, cur, first, scanned := 0, freeHead, true, 0;
      while cur != 0 && scanned < SCANLIMIT
        invariant file == old(file) && m == old(m) && frees == old(frees) && alloc == old(alloc)
        invariant freeHead == old(freeHead)
        invariant scanned <= |frees| && cur == Link(frees, scanned)
        invariant if scanned == 0 then first else !first && prev == frees[scanned - 1]
        invariant Chosen(m, frees, 0, needed, alloc) == Chosen(m, frees, scanned, needed, alloc)
        decreases SCANLIMIT - scanned
      {
        ReadNode(file, alloc, m, frees, freeHead, scanned);
        var buf := file[cur..cur + 16];
        if UnBE(buf[0..4]) != TOMBSTONE {
          break;
        }
        var size, next := UnBE(buf[4..8]), UnBE(buf[8..16]);
        if size >= needed {
          Take(cur, prev, first, size, next, needed, scanned, y);
          return cur;
        }
        prev, cur, first, scanned := cur, next, false, scanned + 1;
      }
      ChosenNone(m, frees, scanned, needed, alloc);
      Append(file, alloc, m, frees, freeHead, y, needed);
      KeepsAdd(m, y, Extent(alloc, needed, []));
      phys := alloc;
      alloc := alloc + needed;
      m := m[y := Extent(phys, needed, [])];
      SameLiveItself(m);
    }

    // -------------------------------------------------------------- L2 tables

    /** Reads a table from disk and verifies its checksum. */
    method ReadTable(i: nat) returns (ok: bool, l2: seq<nat>)
      requires Valid() && i in tables && i !in cache
      ensures ok && l2 == tables[i]
    {
      hide Space; hide Chain; hide Described; hide UnBE; hide Entries;
      LoadedTable(K(), file, alloc, m, i);
      var buf := file[l1[i]..l1[i] + cs];
      ok := UnBE(buf[cs - 4..]) == codec.crc(buf[..cs - 4]);
      l2 := [];
      for j := 0 to Entries(cs)
        invariant |l2| == j && forall q | 0 <= q < j :: l2[q] == tables[i][q]
      {
        l2 := l2 + [UnBE(buf[8 * j..8 * j + 8])];
      }
      assert l2 == tables[i];
    }

    /** getL2: from the cache, or else from disk. */
    method GetL2(i: nat) returns (ok: bool, l2: seq<nat>)
      requires Valid() && i in tables
      modifies `cache
      ensures Valid() && ok && l2 == tables[i] && cache == old(cache)[i := l2]
    {
      hide Space; hide Chain; hide Cells; hide Meta; hide Sound;
      TableFacts(K(), m, i);
      if i in cache {
        return true, cache[i];
      }
      ok, l2 := ReadTable(i);
      TablesLoad(codec, cs, l1, cache, m, tables, i);
      cache := cache[i := l2];
    }

    /** A fresh L2 table at the end of the file. */
    method AppendL2(i: nat) returns (l2: seq<nat>)
      requires Valid() && GoodSize(cs) && alloc + cs <= TWO62 && i < |l1| && l1[i] == 0
      modifies `file, `l1, `alloc, `cache, `m, `tables
      ensures Valid() && |l1| == old(|l1|) && alloc == old(alloc) + cs
      ensures i in tables && i in cache && l2 == tables[i] && |l2| == Entries(cs)
      ensures l1[i] != 0 && l1 == old(l1)[i := l1[i]] && tables == old(tables)[i := l2] && cache == old(cache)[i := l2]
      ensures AllZeroTable(l2)
      ensures L2(i) in m && m[L2(i)].bytes == L2Bytes(codec, l2)
      ensures forall x: Owner | x != L2(i) :: (x in m <==> x in old(m)) && (x in m ==> m[x] == old(m)[x])
      ensures Keeps(old(m), m, 0, 0) && (forall c: Cell :: Data(c) in m <==> Data(c) in old(m))
      ensures forall c: Cell | Data(c) in m :: m[Data(c)] == old(m)[Data(c)]
    {
      hide Space; hide Chain; hide Described; hide L2Bytes; hide BE; hide Entries; hide Keeps;
      NoTableYet(K(), m, i);
      KeepsAdd(m, L2(i), Extent(alloc, cs, Zeros(cs - 4) + BE(4, codec.crc(Zeros(cs - 4)))));
      var at := alloc;
      var body := Zeros(cs - 4);
      var table := body + BE(4, codec.crc(body));
      l2 := seq(Entries(cs), _ => 0);
      ZeroTable(codec, cs, l2);
      NewTable(K(), file, alloc, m, frees, freeHead, i, table, l2);
      AlignedSum(alloc, cs);
      l1 := l1[i := at];
      alloc := alloc + cs;
      file := WriteAt(file, at, table);
      cache := cache[i := l2];
      m := m[L2(i) := Extent(at, cs, table)];
      tables := tables[i := l2];
    }

    /** allocateL2: the table of an L1 index, a fresh one if there is none. */
    method AllocateL2(i: nat) returns (ok: bool, l2: seq<nat>)
      requires Valid() && GoodSize(cs) && alloc + cs <= TWO62
      modifies `file, `l1, `alloc, `cache, `m, `tables
      ensures Valid() && |l1| == old(|l1|) && old(alloc) <= alloc <= old(alloc) + cs
      ensures ok <==> i < |l1|
      ensures ok ==> i in tables && i in cache && l2 == tables[i] && |l2| == Entries(cs)
      ensures Keeps(old(m), m, 0, 0) && (forall c: Cell :: Data(c) in m <==> Data(c) in old(m))
      ensures forall c: Cell | Data(c) in m :: m[Data(c)] == old(m)[Data(c)]
    {
      hide Space; hide Chain; hide Described; hide L2Bytes; hide UnBE; hide Entries;
      if i >= |l1| {
        return false, [];
      }
      DescribedIndex(K(), m, i);
      if l1[i] != 0 {
        TableFacts(K(), m, i);
        ok, l2 := GetL2(i);
        return;
      }
      l2 := AppendL2(i);
      return true, l2;
    }

    // -------------------------------------------------------------- reading

    /** ReadCluster: zeros for a cluster without an entry, else what its extent holds. On a valid
        image no read fails. */
    method ReadCluster(c: nat) returns (ok: bool, data: seq<byte>)
      requires Valid()
      modifies `cache
      ensures Valid() && DiskOk(cs, disk) && ok && data == Get(cs, disk, CellOf(cs, c))
    {
      hide Space; hide Chain; hide Tables; hide Cells; hide Meta; hide Sound; hide UnBE; hide Quo; hide Rem;
      hide Entries;
      var i, j := Rem(Quo(c, Entries(cs)), TWO32), Rem(c, Entries(cs));
      DescribedDisk(K(), m);
      DescribedIndex(K(), m, i);
      if i >= |l1| || l1[i] == 0 {
        return true, Zeros(cs);
      }
      var okL2, l2 := GetL2(i);
      DescribedCell(K(), m, Cell(i, j));
      var entry := l2[j];
      if entry == 0 {
        return okL2, Zeros(cs);
      }
      var okEntry;
      okEntry, data := ReadEntry(entry, Cell(i, j));
      return okL2 && okEntry, data;
    }

    /** Reads the cluster an entry describes. */
    method ReadEntry(entry: nat, ghost c: Cell) returns (ok: bool, data: seq<byte>)
      requires Valid() && c in disk && c.i in tables && c.j < |tables[c.i]| && entry == tables[c.i][c.j]
      ensures ok && data == disk[c] && |data| == cs
    {
      hide Space; hide Chain; hide Tables; hide Cells; hide Meta; hide Sound; hide UnBE;
      TableFacts(K(), m, c.i);
      DescribedCell(K(), m, c);
      StoredCell(K(), file, alloc, m, c);
      var phys := entry % TWO62;
      if entry >= TWO63 {
        var size := UnBE(file[phys..phys + 4]);
        var plain := codec.expand(file[phys + 4..phys + 4 + size]);
        return plain.Some? && |plain.value| == cs, if plain.Some? then plain.value else [];
      }
      return true, file[phys..phys + cs];
    }

    /** ReadAt: the bytes of the flat disk, cluster by cluster. */
    method Read(off0: nat, n: nat) returns (ok: bool, buf: seq<byte>)
      requires Valid()
      modifies `cache
      ensures Valid() && DiskOk(cs, disk) && ok && buf == ReadBytes(cs, disk, off0, n)
    {
      hide Valid; hide Quo; hide Rem; hide CellOf; hide Get; hide DiskOk; hide ReadBytes; hide GoodSize;
      Sized();
      ok, buf := true, [];
      var off, remaining := off0, n;
      ghost var all := ReadBytes(cs, disk, off0, n);
      assert [] + all == all;
      while remaining > 0
        invariant Valid() && DiskOk(cs, disk) && ok && 0 <= remaining
        invariant all == buf + ReadBytes(cs, disk, off, remaining)
      {
        var at := Rem(off, cs);
        var k := Min(cs - at, remaining);
        ReadRound(cs, disk, off, remaining, all, buf);
        var okCluster, data := ReadCluster(Quo(off, cs));
        ok := okCluster;
        buf := buf + data[at..at + k];
        off, remaining := off + k, remaining - k;
      }
      assert ReadBytes(cs, disk, off, 0) == [];
    }

    lemma {:induction false} Sized()
      requires Valid()
      ensures GoodSize(cs) && 0 < cs < TWO32 && DiskOk(cs, disk)
    {
      DescribedDisk(K(), m);
      hide Allocator;
    }

    // -------------------------------------------------------------- writing

    /** readOldAllocSize: how much space the entry's extent takes. */
    method ReadOldAllocSize(entry: nat, ghost c: Cell) returns (size: nat)
      requires Valid() && c.i in tables && c.j < |tables[c.i]| && entry == tables[c.i][c.j]
      ensures Occupies(K(), m, c, entry, size)
    {
      hide Space; hide Chain; hide Tables; hide Cells; hide Meta; hide Sound; hide UnBE; hide PageAlign;
      LoadedTable(K(), file, alloc, m, c.i);
      DescribedCell(K(), m, c);
      if entry == 0 {
        return 0;
      }
      StoredCell(K(), file, alloc, m, c);
      if entry >= TWO63 {
        var phys := entry % TWO62;
        return PageAlign(4 + UnBE(file[phys..phys + 4]));
      }
      return cs;
    }

    /** Frees the extent of a cluster, leaving the image without that cluster's extent. */
    method FreeOld(c: Cell, phys: nat, size: nat)
      requires Allocator() && But(K(), m, c) && Data(c) in m && phys == m[Data(c)].off && size == m[Data(c)].size
      requires 0 < size < TWO32 && 0 < phys
      modifies `file, `freeHead, `m, `frees
      ensures Allocator() && But(K(), m, c) && Data(c) !in m && Keeps(old(m), m, 0, 0) && L1Kept(old(m), m)
    {
      hide Space; hide Chain; hide But; hide Vacant; hide Tomb; hide Keeps;
      SpaceRemove(file, alloc, m, Data(c));
      InPlace(file, alloc, m, Data(c));
      ChainSame(m, m - {Data(c)}, frees, freeHead);
      ghost var before := m;
      m := m - {Data(c)};
      FreeExtent(phys, size);
      ButFrame(K(), before, m, c);
      KeepsRenamed(before, Data(c), Free(phys), m[Free(phys)]);
    }

    /** Clears a cluster: its extent, if any, is freed and its entry becomes zero. */
    method DropCell(c: Cell, entry: nat, oldAlloc: nat)
      requires Valid() && c.i in cache && Occupies(K(), m, c, entry, oldAlloc)
      modifies `file, `freeHead, `cache, `m, `frees, `tables, `disk
      ensures Valid() && disk == old(disk) - {c} && Keeps(old(m), m, 0, 0) && L1Kept(old(m), m)
      ensures tables == SetEntry(old(tables), c, 0) && cache.Keys == old(cache.Keys)
    {
      hide Space; hide Chain; hide But; hide Tables; hide Cells; hide Meta; hide Sound; hide Covered;
      DescribedBut(K(), m, c);
      if entry != 0 && oldAlloc > 0 {
        FreeOld(c, entry % TWO62, oldAlloc);
      }
      ButEmpty(K(), m, c);
      cache := SetEntry(cache, c, 0);
      tables := SetEntry(tables, c, 0);
      disk := disk - {c};
    }

    /** Finds room for a cluster: its old extent if that is large enough, otherwise the old one
        is freed and space is allocated. */
    method PlaceCell(c: Cell, entry: nat, oldAlloc: nat, newAlloc: nat) returns (phys: nat)
      requires Allocator() && But(K(), m, c) && cs < TWO32 && Occupies(K(), m, c, entry, oldAlloc)
      requires 0 < newAlloc <= cs && newAlloc % PAGE == 0 && alloc + newAlloc <= TWO62
      modifies `file, `alloc, `freeHead, `m, `frees
      ensures Allocator() && But(K(), m, c) && 0 < phys < TWO62
      ensures Data(c) in m && m[Data(c)].off == phys && newAlloc <= m[Data(c)].size
      ensures old(alloc) <= alloc <= old(alloc) + newAlloc && Keeps(old(m), m, 0, 0) && L1Kept(old(m), m)
      ensures newAlloc < m[Data(c)].size ==> Data(c) in old(m) && m[Data(c)] == old(m)[Data(c)]
      ensures 0 < newAlloc <= oldAlloc ==> phys == entry % TWO62 && alloc == old(alloc)
    {
      hide Space; hide Chain; hide But; hide Covered;
      if oldAlloc > 0 && newAlloc <= oldAlloc {
        InPlace(file, alloc, m, Data(c));
        return entry % TWO62;
      }
      if oldAlloc > 0 {
        FreeOld(c, entry % TWO62, oldAlloc);
      }
      ghost var before := m;
      phys := AllocSpace(newAlloc, Data(c));
      ButFrame(K(), before, m, c);
      KeepsThen(old(m), before, m, 0, 0);
    }

    /** Writes a cluster's bytes into its extent and enters it in its table. */
    method FillCell(c: Cell, phys: nat, flag: nat, buf: seq<byte>, newAlloc: nat, ghost data: seq<byte>)
      requires Allocator() && But(K(), m, c) && 0 < phys < TWO62 && Storable(K(), flag, buf, newAlloc, data)
      requires Data(c) in m && m[Data(c)].off == phys && newAlloc <= m[Data(c)].size
      modifies `file, `cache, `m, `tables, `disk
      ensures Valid() && disk == old(disk)[c := data] && m == old(m)[Data(c) := Extent(phys, newAlloc, buf)]
      ensures tables == SetEntry(old(tables), c, flag + phys) && cache.Keys == old(cache.Keys)
    {
      hide Space; hide Chain; hide But; hide Holds;
      InPlaceRewrite(K(), file, alloc, m, frees, freeHead, c, newAlloc, buf);
      file := WriteAt(file, phys, buf);
      m := m[Data(c) := Extent(phys, newAlloc, buf)];
      EnterCell(c, flag + phys, data);
    }

    method EnterCell(c: Cell, entry: nat, ghost data: seq<byte>)
      requires Allocator() && But(K(), m, c) && Data(c) in m && Holds(codec, cs, entry, m[Data(c)], data)
      requires entry < TWO64
      modifies `cache, `tables, `disk
      ensures Valid() && disk == old(disk)[c := data]
      ensures tables == SetEntry(old(tables), c, entry) && cache.Keys == old(cache.Keys)
    {
      hide Space; hide Chain; hide Holds; hide Tables; hide Cells; hide Meta; hide Sound;
      ButFinish(K(), m, c, entry, data);
      cache := SetEntry(cache, c, entry);
      tables := SetEntry(tables, c, entry);
      disk := disk[c := data];
    }

    static method IsZero(data: seq<byte>) returns (zero: bool)
      ensures zero <==> AllZero(data)
    {
      for k := 0 to |data|
        invariant forall q | 0 <= q < k :: data[q] == 0
      {
        if data[k] != 0 {
          return false;
        }
      }
      return true;
    }

    /** The entry of a stored cluster and its extent: compressed, with the length before it, if the
        codec gives something and that saves space, otherwise as it is. */
    ghost predicate StoredAs(c: Cell, data: seq<byte>, entry: nat)
      reads this
    {
      && c.i in tables && c.j < |tables[c.i]| && tables[c.i][c.j] == entry && Data(c) in m
      && var z, x := codec.compress(data), m[Data(c)];
         if z.Some? && 0 < |z.value| < cs - 4
         then entry == TWO63 + x.off && x.size == PageAlign(4 + |z.value|) && x.bytes == BE(4, |z.value|) + z.value
         else entry == x.off && x.size == cs && x.bytes == data
    }

    /** Stores a cluster, compressed if that saves space. */
    method StoreData(c: Cell, entry: nat, oldAlloc: nat, data: seq<byte>) returns (now: nat)
      requires Valid() && |data| == cs && c.i in cache && Occupies(K(), m, c, entry, oldAlloc) && alloc + cs <= TWO62
      modifies `file, `alloc, `freeHead, `cache, `m, `frees, `tables, `disk
      ensures Valid() && disk == old(disk)[c := data] && old(alloc) <= alloc <= old(alloc) + cs
      ensures LosesTail(old(m), m, c) && L1Kept(old(m), m)
      ensures c.i in old(tables) && c.j < |old(tables)[c.i]| && tables == SetEntry(old(tables), c, now)
      ensures cache.Keys == old(cache.Keys) && StoredAs(c, data, now)
    {
      hide LosesTail; hide Space; hide Chain; hide Tables; hide Cells; hide Meta; hide Sound; hide Storable; hide BE;
      hide PageAlign; hide Entries;
      var z := codec.compress(data);
      if z.Some? && 0 < |z.value| < cs - 4 {
        StorableCompressed(K(), z.value, data);
        now := StoreCell(c, entry, oldAlloc, TWO63, BE(4, |z.value|) + z.value, PageAlign(4 + |z.value|), data);
      } else {
        StorablePlain(K(), data);
        now := StoreCell(c, entry, oldAlloc, 0, data, cs, data);
      }
    }

    /** writeCluster: an all-zero cluster is dropped, any other one is stored compressed if that
        saves space. */
    method WriteCluster(c: nat, data: seq<byte>) returns (ok: bool)
      requires Valid() && |data| == cs && alloc + 2 * cs <= TWO62
      modifies this
      ensures Valid() && |l1| == old(|l1|) && old(alloc) <= alloc <= old(alloc) + 2 * cs
      ensures ok <==> CellOf(cs, c).i < |l1|
      ensures disk == if ok then Put(old(disk), CellOf(cs, c), data) else old(disk)
      ensures LosesTail(old(m), m, CellOf(cs, c))
      ensures ok && !AllZero(data) ==> exists entry: nat :: StoredAs(CellOf(cs, c), data, entry)
    {
      hide StoredAs;
      hide LosesTail; hide Keeps; hide Space; hide Chain; hide But; hide Tables; hide Cells; hide Meta; hide Sound;
      hide Holds; hide Quo; hide Rem; hide Entries;
      hide Occupies; hide Storable; hide BE; hide PageAlign;
      var cell := CellOf(cs, c);
      var l2;
      ok, l2 := AllocateL2(cell.i);
      ghost var n := m;
      LosesNothing(old(m), n, n, cell);
      if !ok {
        return;
      }
      var entry := l2[cell.j];
      var oldAlloc := ReadOldAllocSize(entry, cell);
      var zero := IsZero(data);
      if zero {
        DropCell(cell, entry, oldAlloc);
        LosesNothing(old(m), n, m, cell);
        return true;
      }
      var now := StoreData(cell, entry, oldAlloc, data);
      LosesAfter(old(m), n, m, cell);
      return true;
    }

    method StoreCell(c: Cell, entry: nat, oldAlloc: nat, flag: nat, buf: seq<byte>, newAlloc: nat,
                     ghost data: seq<byte>) returns (now: nat)
      requires Valid() && c.i in cache && Occupies(K(), m, c, entry, oldAlloc)
      requires Storable(K(), flag, buf, newAlloc, data)
      requires alloc + cs <= TWO62
      modifies `file, `alloc, `freeHead, `cache, `m, `frees, `tables, `disk
      ensures Valid() && disk == old(disk)[c := data] && old(alloc) <= alloc <= old(alloc) + cs
      ensures LosesTail(old(m), m, c) && L1Kept(old(m), m)
      ensures tables == SetEntry(old(tables), c, now) && cache.Keys == old(cache.Keys)
      ensures Data(c) in m && now == flag + m[Data(c)].off && m[Data(c)].size == newAlloc && m[Data(c)].bytes == buf
    {
      hide Keeps; hide Space; hide Chain; hide But; hide Storable; hide Described; hide LosesTail; hide L1Kept;
      StorableFits(K(), m, flag, buf, newAlloc, data);
      DescribedBut(K(), m, c);
      var phys := PlaceCell(c, entry, oldAlloc, newAlloc);
      ghost var placed := m;
      FillCell(c, phys, flag, buf, newAlloc, data);
      KeepsShrunk(placed, Data(c), Extent(phys, newAlloc, buf));
      TailLost(old(m), placed, m, c);
      L1KeptBeside(old(m), placed, c, Extent(phys, newAlloc, buf));
      now := flag + phys;
    }

    /** WriteAt: a read-modify-write of each cluster. It stops at the first cluster beyond the L1
        table, after having written everything before it. */
    method Write(data: seq<byte>, off0: nat) returns (total: nat, ok: bool)
      requires Valid() && alloc + 2 * |data| + 4 * cs <= TWO62
      modifies this
      ensures Valid() && |l1| == old(|l1|) && alloc <= old(alloc) + 2 * |data| + 4 * cs && GoodSize(cs)
      ensures DiskOk(cs, old(disk))
      ensures total <= |data| && disk == WriteBytes(cs, old(disk), off0, data[..total])
      ensures forall g | off0 <= g < off0 + total :: Indexed(cs, |l1|, g)
      ensures if ok then total == |data| else total < |data| && !Indexed(cs, |l1|, off0 + total)
    {
      hide Valid; hide Quo; hide Rem; hide CellOf; hide Get; hide DiskOk; hide WriteBytes; hide GoodSize; hide Put;
      Sized();
      total, ok := 0, true;
      WriteNothing(cs, disk, off0, data[..0]);
      while total < |data|
        invariant Valid() && |l1| == old(|l1|) && total <= |data| && ok
        invariant disk == WriteBytes(cs, old(disk), off0, data[..total])
        invariant forall g | off0 <= g < off0 + total :: Indexed(cs, |l1|, g)
        invariant 0 < total < |data| ==> Rem(off0 + total, cs) == 0
        invariant alloc <= old(alloc) + 2 * total + (if total == 0 then 0 else if total < |data| then 2 * cs
          else 4 * cs)
      {
        var c, at := Quo(off0 + total, cs), Rem(off0 + total, cs);
        var k := Min(cs - at, |data| - total);
        WriteRound(cs, old(disk), off0, data, total);
        IndexedTogether(cs, |l1|, off0 + total, k);
        var okRead, cluster := ReadCluster(c);
        cluster := WriteAt(cluster, at, data[total..total + k]);
        ok := WriteCluster(c, cluster);
        if !ok {
          return;
        }
        total := total + k;
      }
      assert data[..total] == data;
    }

    /** A full-cluster trim: the extent is freed and the entry becomes zero. */
    method TrimCluster(c: nat)
      requires Valid()
      modifies `file, `freeHead, `cache, `m, `frees, `tables, `disk
      ensures Valid() && GoodSize(cs) && disk == old(disk) - {CellOf(cs, c)} && Keeps(old(m), m, 0, 0)
    {
      hide Covered; hide Space; hide Chain; hide Tables; hide Cells; hide Meta; hide Sound; hide Holds; hide Quo;
      hide Rem; hide Entries; hide Occupies;
      var cell := CellOf(cs, c);
      DescribedIndex(K(), m, cell.i);
      assert cell !in disk ==> disk - {cell} == disk;
      if cell.i < |l1| && l1[cell.i] != 0 {
        LoadedTable(K(), file, alloc, m, cell.i);
        var ok, l2 := GetL2(cell.i);
        DescribedCell(K(), m, cell);
        if l2[cell.j] != 0 {
          var oldAlloc := ReadOldAllocSize(l2[cell.j], cell);
          DropCell(cell, l2[cell.j], oldAlloc);
        }
      }
    }

    /** Whether a cluster is stored. */
    method IsStored(c: nat) returns (stored: bool)
      requires Valid()
      modifies `cache
      ensures Valid() && GoodSize(cs) && (stored <==> CellOf(cs, c) in disk) && (stored ==> CellOf(cs, c).i < |l1|)
    {
      hide Space; hide Chain; hide Tables; hide Cells; hide Meta; hide Sound; hide Holds; hide Quo; hide Rem;
      hide Entries;
      var cell := CellOf(cs, c);
      DescribedIndex(K(), m, cell.i);
      if cell.i < |l1| && l1[cell.i] != 0 {
        LoadedTable(K(), file, alloc, m, cell.i);
        var ok, l2 := GetL2(cell.i);
        DescribedCell(K(), m, cell);
        return l2[cell.j] != 0;
      }
      return false;
    }

    /** Trim: the bytes become zero, whether or not they lie in the L1 table's range. */
    method Trim(off0: nat, length: nat)
      requires Valid() && alloc + 2 * length + 4 * cs <= TWO62
      modifies this
      ensures Valid() && |l1| == old(|l1|) && alloc <= old(alloc) + 2 * length + 4 * cs && GoodSize(cs)
      ensures DiskOk(cs, old(disk))
      ensures disk == WriteBytes(cs, old(disk), off0, Zeros(length))
    {
      hide Valid; hide Quo; hide Rem; hide CellOf; hide Get; hide DiskOk; hide WriteBytes; hide GoodSize; hide Put;
      hide Zeros;
      Sized();
      var total := 0;
      WriteNothing(cs, disk, off0, Zeros(0));
      while total < length
        invariant Valid() && |l1| == old(|l1|) && 0 <= total <= length
        invariant disk == WriteBytes(cs, old(disk), off0, Zeros(total))
        invariant 0 < total < length ==> Rem(off0 + total, cs) == 0
        invariant alloc <= old(alloc) + 2 * total + (if total == 0 then 0 else if total < length then 2 * cs
          else 4 * cs)
      {
        var c, at := Quo(off0 + total, cs), Rem(off0 + total, cs);
        var k := Min(cs - at, length - total);
        TrimRound(cs, old(disk), off0, length, total);
        if at == 0 && k == cs {
          TrimCluster(c);
        } else {
          var ok, cluster := ReadCluster(c);
          var stored := IsStored(c);
          if stored {
            ok := WriteCluster(c, WriteAt(cluster, at, Zeros(k)));
          }
        }
        total := total + k;
      }
    }

    // -------------------------------------------------------------- flushing

    method EncodeTable(t: seq<nat>) returns (buf: seq<byte>)
      ensures buf == Table64(t)
    {
      hide BE;
      buf := [];
      for j := 0 to |t|
        invariant buf == Table64(t[..j])
      {
        assert t[..j + 1][..j] == t[..j];
        buf := buf + BE(8, t[j]);
      }
      assert t[..|t|] == t;
    }

    /** writeL2Table; rest is the part of the cache that would be missed if it were lost. */
    method WriteL2(i: nat, ghost rest: map<nat, seq<nat>>)
      requires Valid() && i in cache && i in tables && Described(K().(cache := rest), m)
      modifies `file, `m
      ensures Valid() && Described(K().(cache := rest - {i}), m) && L1Kept(old(m), m)
    {
      hide Space; hide Chain; hide Described; hide L2Bytes;
      TableExtent(K(), m, i);
      TableExtent(K().(cache := rest), m, i);
      BackedSpace(K(), file, alloc, m, frees, freeHead, i);
      BackedDescribed(K(), m, i);
      BackedDescribed(K().(cache := rest), m, i);
      var entries := EncodeTable(cache[i]);
      var body := entries + [0, 0, 0, 0];
      var buf := body + BE(4, codec.crc(body));
      assert buf == L2Bytes(codec, tables[i]) by { L2Parts(codec, tables[i], entries); }
      file := WriteAt(file, l1[i], buf);
      m := Backed(K(), m, i);
    }

    /** writeL1Table. */
    method WriteL1Table()
      requires Valid() && Described(K().(cache := map[]), m)
      modifies `file, `m
      ensures Valid() && Described(K().(cache := map[]), m) && L1 in m && m[L1].bytes == Table64(l1)
    {
      hide Space; hide Chain; hide Described; hide Table64;
      WriteL1(K(), file, alloc, m, frees, freeHead);
      WriteL1(K().(cache := map[]), file, alloc, m, frees, freeHead);
      var buf := EncodeTable(l1);
      file := WriteAt(file, PAGE, buf);
      m := m[L1 := Extent(PAGE, m[L1].size, buf)];
    }

    /** One header field of writeAllocOffset. */
    method WriteHeaderField(p: nat, x: nat, ghost a: nat, ghost h: nat)
      requires Valid() && Described(K().(cache := map[]), m) && p + 8 <= PAGE
      requires WriteAt(HeaderBytes(bits, virtualSize, |l1|, hAlloc, hHead), p, BE(8, x)) ==
        HeaderBytes(bits, virtualSize, |l1|, a, h)
      modifies `file, `m, `hAlloc, `hHead
      ensures Valid() && Described(K().(cache := map[]), m) && hAlloc == a && hHead == h
      ensures forall y: Owner | y != Header :: (y in m <==> y in old(m)) && (y in m ==> m[y] == old(m)[y])
    {
      hide Space; hide Chain; hide Described; hide BE; hide HeaderBytes;
      ghost var k := K().(hAlloc := a, hHead := h);
      WriteField(K(), file, alloc, m, frees, freeHead, p, BE(8, x), k);
      WriteField(K().(cache := map[]), file, alloc, m, frees, freeHead, p, BE(8, x), k.(cache := map[]));
      file := WriteAt(file, p, BE(8, x));
      m := m[Header := Extent(0, PAGE, HeaderBytes(bits, virtualSize, |l1|, a, h))];
      hAlloc, hHead := a, h;
    }

    /** writeAllocOffset: both header fields. */
    method WriteAllocOffset()
      requires Valid() && Described(K().(cache := map[]), m)
      modifies `file, `m, `hAlloc, `hHead
      ensures Valid() && Described(K().(cache := map[]), m) && hAlloc == alloc && hHead == freeHead && L1Kept(old(m), m)
    {
      hide Space; hide Chain; hide Described; hide BE; hide HeaderBytes;
      UpdateHeader(bits, virtualSize, |l1|, hAlloc, hHead, alloc, freeHead);
      WriteHeaderField(36, alloc, alloc, hHead);
      UpdateHeader(bits, virtualSize, |l1|, hAlloc, hHead, alloc, freeHead);
      WriteHeaderField(48, freeHead, alloc, freeHead);
    }

    /** Writes one entry of the L1 table to disk. */
    method WriteL1Entry(i: nat)
      requires Valid() && i < |l1|
      modifies `file, `m
      ensures Valid() && L1 in m && L1 in old(m) && m[L1].bytes == WriteAt(old(m)[L1].bytes, 8 * i, BE(8, l1[i]))
      ensures forall x: Owner | x != L1 :: (x in m <==> x in old(m)) && (x in m ==> m[x] == old(m)[x])
    {
      hide Space; hide Chain; hide Described; hide BE;
      WriteL1At(K(), file, alloc, m, frees, freeHead, 8 * i, BE(8, l1[i]));
      file := WriteAt(file, PAGE + 8 * i, BE(8, l1[i]));
      m := m[L1 := Extent(PAGE, m[L1].size, WriteAt(m[L1].bytes, 8 * i, BE(8, l1[i])))];
    }

    /** Flush: the cached tables in any order, the L1 table, then the header fields. Afterwards
        the file alone determines the disk. */
    method Flush()
      requires Valid()
      modifies `file, `m, `hAlloc, `hHead
      ensures Valid() && Persisted(file, K(), alloc, freeHead, m, frees)
    {
      hide Space; hide Chain; hide Described; hide L2Bytes; hide Table64; hide BE; hide HeaderBytes;
      ghost var rest := cache;
      var todo := cache.Keys;
      assert K().(cache := rest) == K();
      while todo != {}
        invariant Valid() && rest.Keys == todo <= cache.Keys && Described(K().(cache := rest), m)
        decreases |todo|
      {
        var i :| i in todo;
        CachedTables(K(), m, i);
        WriteL2(i, rest);
        todo := todo - {i};
        rest := rest - {i};
      }
      assert rest == map[];
      WriteL1Table();
      WriteAllocOffset();
    }
  }

  /** The file has a header of this format and holds the L1 table the header announces. */
  predicate Openable(file: seq<byte>) {
    && PAGE <= |file| && UnBE(file[..PAGE][0..8]) == MAGIC && UnBE(file[..PAGE][8..12]) == 2
    && UnBE(file[..PAGE][32..36]) < 0x2000_0000 && UnBE(file[..PAGE][24..32]) + 8 * UnBE(file[..PAGE][32..36]) <= |file|
  }

  lemma {:induction false} CreatedOpens(file: seq<byte>, bits: nat, virtualSize: nat, n: nat, alloc: nat)
    requires Stored(file, 0, HeaderBytes(bits, virtualSize, n, alloc, 0)) && PAGE + 8 * n <= |file|
    requires bits < TWO32 && virtualSize < TWO64 && n < TWO32 && alloc < TWO64
    ensures Openable(file) <==> n < 0x2000_0000
    ensures UnBE(file[12..16]) == bits && UnBE(file[16..24]) == virtualSize
  {
    hide HeaderBytes; hide UnBE;
    assert file[..PAGE] == HeaderBytes(bits, virtualSize, n, alloc, 0);
    ReadHeader(file[..PAGE], bits, virtualSize, n, alloc, 0);
    assert file[..PAGE][12..16] == file[12..16] && file[..PAGE][16..24] == file[16..24];
  }

  /** CreateQCow2: an image without clusters, or an error for a cluster size out of range. The
      byte size of the L1 table is cut to 32 bits; the file is filled up with zeros all the same, but
      it can be opened again only if nothing was cut off. */
  method Create(codec: Codec, bits: nat, virtualSize: nat) returns (img: Image?)
    requires Sound(codec) && virtualSize < TWO64
    ensures img == null <==> bits < 12 || bits > 24
    ensures img != null ==>
      && fresh(img) && img.codec == codec && img.bits == bits && img.cs == ClusterSize(bits) && GoodSize(img.cs)
      && img.l1 == seq(L1Count(img.cs, virtualSize), _ => 0) && img.cache == map[] && img.disk == map[]
      && img.Allocator() && |img.file| == img.alloc
    ensures img != null ==>
      && img.virtualSize == virtualSize
      && |img.file| >= PAGE && UnBE(img.file[12..16]) == bits && UnBE(img.file[16..24]) == virtualSize
    ensures img != null ==> (Openable(img.file) <==> |img.l1| < 0x2000_0000)
    ensures img != null && |img.l1| < 0x2000_0000 ==>
      && img.Valid() && img.alloc <= 0x2_0000_0000
      && Persisted(img.file, img.K(), img.alloc, img.freeHead, img.m, img.frees)
  {
    hide HeaderBytes; hide AlignUp; hide Described; hide Space; hide Chain; hide Pow2; hide Sound; hide UnBE;
    hide Entries;
    if bits < 12 || bits > 24 {
      return null;
    }
    GoodBits(bits);
    var cs := ClusterSize(bits);
    var n := L1Count(cs, virtualSize);
    assert 0 < n < TWO32 by { hide GoodSize; hide ClusterSize; }
    hide L1Count; hide ClusterSize;
    var alloc := AlignUp(PAGE + 8 * n, cs);
    AlignUpIs(PAGE + 8 * n, cs);
    var header := HeaderBytes(bits, virtualSize, n, alloc, 0);
    var file := WriteAt([], 0, header);
    file := WriteAt(file, PAGE, Zeros(8 * n % TWO32));
    file := file + Zeros(alloc - |file|);
    assert Stored(file, 0, header) && Stored(file, PAGE, Zeros(8 * n));
    EmptySpace(file, bits, virtualSize, n, alloc);
    CreatedOpens(file, bits, virtualSize, n, alloc);
    var l1 := seq(n, _ => 0);
    img := new Image(codec, bits, virtualSize, file, l1, alloc, 0, EmptyExtents(bits, virtualSize, n, alloc), [], map[],
                     map[]);
    if n < 0x2000_0000 {
      ghost var k := Core(codec, bits, cs, virtualSize, l1, map[], map[], map[], alloc, 0);
      EmptyDescribed(k, alloc);
      Table64Zero(n);
      assert img.K() == img.K().(cache := map[]);
    }
  }

  lemma {:induction false} SameFields(file: seq<byte>)
    requires PAGE <= |file|
    ensures var b := file[..PAGE];
      && b[12..16] == file[12..16] && b[16..24] == file[16..24] && b[24..32] == file[24..32]
      && b[32..36] == file[32..36] && b[36..44] == file[36..44] && b[48..56] == file[48..56]
  {
  }

  /** OpenQCow2File. Reopening a persisted file gives a valid image of the same disk. */
  method Open(codec: Codec, file: seq<byte>, ghost k: Core, ghost alloc0: nat, ghost head0: nat,
              ghost m: map<Owner, Extent>, ghost frees: seq<nat>)
    returns (img: Image?)
    ensures img == null <==> !Openable(file)
    ensures img != null ==> fresh(img) && img.file == file && img.codec == codec && img.cache == map[]
    ensures img != null ==>
      && img.bits == UnBE(file[12..16]) && img.virtualSize == UnBE(file[16..24]) && |img.l1| == UnBE(file[32..36])
      && img.alloc == UnBE(file[36..44]) && img.freeHead == UnBE(file[48..56])
      && var at := UnBE(file[24..32]);
         at + 8 * |img.l1| <= |file| &&
         forall i | 0 <= i < |img.l1| :: img.l1[i] == UnBE(file[at..at + 8 * |img.l1|][8 * i..8 * i + 8])
    ensures k.codec == codec && Persisted(file, k, alloc0, head0, m, frees) ==>
      && img != null && img.Valid() && img.disk == k.disk
      && img.l1 == k.l1 && img.bits == k.bits && img.cs == k.cs && img.virtualSize == k.virtualSize
      && img.alloc == alloc0
      && img.cache == map[] && Persisted(img.file, img.K(), img.alloc, img.freeHead, img.m, img.frees)
  {
    hide Described; hide Space; hide Chain; hide UnBE; hide Pow2; hide Table64;
    ghost var good := k.codec == codec && Persisted(file, k, alloc0, head0, m, frees);
    if good {
      OpenReads(file, k, alloc0, head0, m, frees);
    }
    if |file| < PAGE || UnBE(file[..PAGE][0..8]) != MAGIC || UnBE(file[..PAGE][8..12]) != 2 {
      return null;
    }
    var b := file[..PAGE];
    SameFields(file);
    var bits, virtualSize, l1Offset, l1Size := UnBE(b[12..16]), UnBE(b[16..24]), UnBE(b[24..32]), UnBE(b[32..36]);
    var alloc, head := UnBE(b[36..44]), UnBE(b[48..56]);
    if l1Size >= 0x2000_0000 || l1Offset + 8 * l1Size > |file| {
      return null;
    }
    var l1Buf := file[l1Offset..l1Offset + 8 * l1Size];
    var l1: seq<nat> := [];
    for i := 0 to l1Size
      invariant |l1| == i && forall q | 0 <= q < i :: l1[q] == UnBE(l1Buf[8 * q..8 * q + 8])
    {
      l1 := l1 + [UnBE(l1Buf[8 * i..8 * i + 8])];
    }
    img := new Image(codec, bits, virtualSize, file, l1, alloc, head, m, frees, k.tables, k.disk);
    if good {
      assert l1 == k.l1;
      assert img.K() == k.(cache := map[]);
    }
  }
}
