/** The kernel driver: write-through caches of tables and clusters over an image and its base. */
module Kernel {
  import opened Bytes
  import opened Options
  import opened BigEndian
  import opened ImageSpace
  import opened FreeChain
  import opened ImageTables
  import opened FlatDisk
  import opened ImageState
  import opened Images
  import opened Overlay
  import opened LruCaches

  /** The image's tables are on disk as they should be. Its own table cache holds the one table
      that is being changed, and is empty between operations. */
  ghost predicate Current(img: Image)
    reads img
  {
    img.Valid() && img.cache == map[] && L1 in img.m && img.m[L1].bytes == Table64(img.l1)
  }

  /** The header on disk is current: where to allocate, and the free list. */
  ghost predicate Synced(img: Image)
    reads img
  {
    img.hAlloc == img.alloc && img.hHead == img.freeHead
  }

  /** Then the file alone determines the disk. */
  lemma {:induction false} SyncedPersisted(img: Image)
    requires Current(img) && Synced(img)
    ensures Persisted(img.file, img.K(), img.alloc, img.freeHead, img.m, img.frees)
  {
    hide Space; hide Chain; hide Described; hide Table64;
    assert img.K().(cache := map[]) == img.K();
  }

  /** Table i, all zeros if there is none. */
  function TableOf(tables: map<nat, seq<nat>>, e: nat, i: nat): seq<nat> {
    if i in tables then tables[i] else seq(e, _ => 0)
  }

  /** Every cached table is the one on disk. */
  ghost predicate TableSlots(slots: seq<Slot<seq<nat>>>, tables: map<nat, seq<nat>>, e: nat) {
    forall a | 0 <= a < |slots| && slots[a].valid :: slots[a].value == TableOf(tables, e, slots[a].key)
  }

  ghost predicate TablesFresh(img: Image, cache: Lru<seq<nat>>)
    requires img.cs >= 16
    reads img, cache
  {
    cache.Ok() && TableSlots(cache.slots, img.tables, Entries(img.cs))
  }

  /** Every cached cluster is what the image over its base shows. */
  ghost predicate ClusterSlots(cs: nat, slots: seq<Slot<seq<byte>>>, disk: map<Cell, seq<byte>>, b: Below) {
    && GoodSize(cs) && DiskOk(cs, disk) && BelowOk(cs, b)
    && forall a | 0 <= a < |slots| && slots[a].valid ::
         IndexFits(cs, slots[a].key) && slots[a].value == Over(cs, disk, b, slots[a].key)
  }

  /** A fresh table at an index without one. */
  lemma {:induction false} TableSlotsNew(slots: seq<Slot<seq<nat>>>, tables: map<nat, seq<nat>>, e: nat, i: nat)
    requires TableSlots(slots, tables, e) && i !in tables
    ensures TableSlots(slots, tables[i := seq(e, _ => 0)], e)
  {}

  /** A table changes on disk and in its slot. */
  lemma {:induction false} TableSlotsUpdate(slots: seq<Slot<seq<nat>>>, tables: map<nat, seq<nat>>, e: nat, s: nat,
                                            now: seq<nat>)
    requires TableSlots(slots, tables, e) && s < |slots| && slots[s].valid
    requires forall a, b | 0 <= a < b < |slots| && slots[a].valid && slots[b].valid :: slots[a].key != slots[b].key
    ensures TableSlots(slots[s := slots[s].(value := now)], tables[slots[s].key := now], e)
  {}

  /** Clusters whose indexes fit have cells of their own. */
  lemma {:induction false} CellsDiffer(cs: nat, a: nat, b: nat)
    requires GoodSize(cs) && IndexFits(cs, a) && IndexFits(cs, b) && CellOf(cs, a) == CellOf(cs, b)
    ensures a == b
  {
    hide Entries; hide Quo; hide Rem;
    Small32(Quo(a, Entries(cs)));
    Small32(Quo(b, Entries(cs)));
    QuoRem(a, b, Entries(cs));
  }

  /** A cluster changes on disk and in its slot; the others are not affected. */
  lemma {:induction false} ClusterSlotsUpdate(cs: nat, slots: seq<Slot<seq<byte>>>, disk: map<Cell, seq<byte>>,
                                              b: Below, s: nat, data: seq<byte>)
    requires ClusterSlots(cs, slots, disk, b) && s < |slots| && slots[s].valid && |data| == cs
    requires forall a, b | 0 <= a < b < |slots| && slots[a].valid && slots[b].valid :: slots[a].key != slots[b].key
    ensures ClusterSlots(cs, slots[s := slots[s].(value := data)], disk[CellOf(cs, slots[s].key) := data], b)
  {
    hide CellOf; hide Under; hide GoodSize; hide IndexFits;
    var r := disk[CellOf(cs, slots[s].key) := data];
    forall a | 0 <= a < |slots| && slots[a].valid && a != s
      ensures slots[a].value == Over(cs, r, b, slots[a].key)
    {
      if CellOf(cs, slots[a].key) == CellOf(cs, slots[s].key) { CellsDiffer(cs, slots[a].key, slots[s].key); }
    }
  }

  /** A cluster leaves the image and its slot, if it had one. */
  lemma {:induction false} ClusterSlotsClear(cs: nat, slots: seq<Slot<seq<byte>>>, now: seq<Slot<seq<byte>>>,
                                             disk: map<Cell, seq<byte>>, b: Below, c: nat)
    requires ClusterSlots(cs, slots, disk, b) && IndexFits(cs, c) && |now| == |slots|
    requires forall a | 0 <= a < |slots| ::
               now[a] == if slots[a].valid && slots[a].key == c then slots[a].(valid := false) else slots[a]
    ensures ClusterSlots(cs, now, disk - {CellOf(cs, c)}, b)
  {
    hide CellOf; hide Under; hide GoodSize; hide IndexFits;
    var r := disk - {CellOf(cs, c)};
    forall a | 0 <= a < |now| && now[a].valid
      ensures IndexFits(cs, now[a].key) && now[a].value == Over(cs, r, b, now[a].key)
    {
      assert now[a] == slots[a] && now[a].key != c;
      if CellOf(cs, slots[a].key) == CellOf(cs, c) { CellsDiffer(cs, slots[a].key, c); }
    }
  }

  /** lbd_qcow2_l2_get and its twin for the base layer. */
  method TableGet(img: Image, cache: Lru<seq<nat>>, i: nat) returns (table: seq<nat>, s: nat)
    requires Current(img) && GoodSize(img.cs) && TablesFresh(img, cache)
    modifies cache
    ensures TablesFresh(img, cache) && s < SLOTS && cache.slots[s].valid && cache.slots[s].key == i
    ensures table == cache.slots[s].value == TableOf(img.tables, Entries(img.cs), i)
  {
    hide Space; hide Chain; hide Described; hide Entries;
    var found;
    found, s := cache.Find(i);
    if found {
      return cache.slots[s].value, s;
    }
    s := cache.Victim();
    DescribedIndex(img.K(), img.m, i);
    if i < |img.l1| && img.l1[i] != 0 {
      var ok;
      ok, table := img.ReadTable(i);
    } else {
      table := seq(Entries(img.cs), _ => 0);
    }
    cache.Install(s, i, table);
  }

  /** lbd_qcow2_l2_alloc for an index without a table: a zeroed table and the L1 entry, on disk. */
  method AppendTable(img: Image, i: nat)
    requires Current(img) && GoodSize(img.cs) && i < |img.l1| && img.l1[i] == 0 && img.alloc + img.cs <= TWO62
    modifies img
    ensures Current(img) && i !in old(img.tables) && img.tables == old(img.tables)[i := seq(Entries(img.cs), _ => 0)]
    ensures img.disk == old(img.disk) && |img.l1| == old(|img.l1|) && img.alloc == old(img.alloc) + img.cs
    ensures old(Synced(img)) ==> !Synced(img)
  {
    hide Space; hide Chain; hide Described; hide L2Bytes; hide Entries; hide Table64; hide BE; hide Keeps;
    DescribedIndex(img.K(), img.m, i);
    ghost var before := img.l1;
    var l2 := img.AppendL2(i);
    assert l2 == seq(Entries(img.cs), _ => 0) && img.cache - {i} == map[];
    TableExtent(img.K(), img.m, i);
    BackedDescribed(img.K(), img.m, i);
    assert Backed(img.K(), img.m, i) == img.m;
    img.cache := map[];
    assert img.K() == img.K().(cache := map[]);
    TableSet(before, i, img.l1[i]);
    img.WriteL1Entry(i);
  }

  /** Replaces a cluster of the image and writes its table and the header through. */
  method UpdateCell(img: Image, c: Cell, table: seq<nat>, data: seq<byte>) returns (now: seq<nat>)
    requires Current(img) && GoodSize(img.cs) && c.i in img.tables && table == img.tables[c.i] && c.j < |table|
    requires |data| == img.cs && img.alloc + img.cs <= TWO62
    modifies img
    ensures Current(img) && img.tables == old(img.tables)[c.i := now] && img.disk == old(img.disk)[c := data]
    ensures |img.l1| == old(|img.l1|) && img.alloc <= old(img.alloc) + img.cs && Synced(img)
  {
    hide Image.StoredAs;
    hide Space; hide Chain; hide Described; hide L2Bytes; hide Entries; hide Table64; hide LosesTail; hide Occupies;
    Cached(img.K(), img.m, c.i);
    img.cache := map[c.i := table];
    var size := img.ReadOldAllocSize(table[c.j], c);
    var entry := img.StoreData(c, table[c.j], size, data);
    now := table[c.j := entry];
    WriteThrough(img, c.i, now);
    img.WriteAllocOffset();
  }

  /** Removes a cluster from the image and writes its table and the free list through. */
  method ClearCell(img: Image, c: Cell, table: seq<nat>) returns (now: seq<nat>)
    requires Current(img) && GoodSize(img.cs) && c.i in img.tables && table == img.tables[c.i] && c.j < |table|
    modifies img
    ensures Current(img) && img.tables == old(img.tables)[c.i := now] && img.disk == old(img.disk) - {c}
    ensures |img.l1| == old(|img.l1|) && img.alloc == old(img.alloc) && (old(Synced(img)) ==> Synced(img))
  {
    hide Space; hide Chain; hide Described; hide L2Bytes; hide Entries; hide Table64; hide Occupies; hide Keeps;
    hide BE; hide HeaderBytes;
    Cached(img.K(), img.m, c.i);
    img.cache := map[c.i := table];
    var size := img.ReadOldAllocSize(table[c.j], c);
    img.DropCell(c, table[c.j], size);
    now := table[c.j := 0];
    WriteThrough(img, c.i, now);
    UpdateHeader(img.bits, img.virtualSize, |img.l1|, img.hAlloc, img.hHead, img.hAlloc, img.freeHead);
    img.WriteHeaderField(48, img.freeHead, img.hAlloc, img.freeHead);
  }

  lemma {:induction false} Cached(k: Core, m: map<Owner, Extent>, i: nat)
    requires Described(k, m) && i in k.tables && k.cache == map[]
    ensures Described(k.(cache := map[i := k.tables[i]]), m)
  {
    hide Tables; hide Cells; hide Meta; hide Sound;
    TablesLoad(k.codec, k.cs, k.l1, k.cache, m, k.tables, i);
  }

  /** lbd_qcow2_l2_flush of the table that has been changed. */
  method WriteThrough(img: Image, i: nat, ghost now: seq<nat>)
    requires img.Valid() && img.cache.Keys == {i} && i in img.tables && img.tables[i] == now && L1 in img.m
    requires img.m[L1].bytes == Table64(img.l1)
    modifies img`file, img`m, img`cache
    ensures Current(img) && Described(img.K().(cache := map[]), img.m)
  {
    hide Space; hide Chain; hide Described; hide Table64;
    assert img.K().(cache := img.cache) == img.K();
    img.WriteL2(i, img.cache);
    assert img.cache - {i} == map[];
    img.cache := map[];
  }

  lemma {:induction false} TableWidth(img: Image, i: nat)
    requires Current(img) && GoodSize(img.cs) && i in img.tables
    ensures |img.tables[i]| == Entries(img.cs)
  {
    TableFacts(img.K(), img.m, i);
    hide Space; hide Chain; hide Described; hide Entries;
  }

  /** The cluster's L1 index has 32 bits, as on any device within the image's reach. */
  predicate IndexFits(cs: nat, c: nat)
    requires GoodSize(cs)
  {
    Quo(c, Entries(cs)) < TWO32
  }

  /** Cluster c of an image, if it is there. */
  method ReadCell(img: Image, cache: Lru<seq<nat>>, c: nat) returns (ok: bool, data: Option<seq<byte>>)
    requires Current(img) && GoodSize(img.cs) && TablesFresh(img, cache)
    modifies cache
    ensures TablesFresh(img, cache) && DiskOk(img.cs, img.disk) && ok && data == Under(img.cs, Clusters(img.disk), c)
  {
    hide Space; hide Chain; hide Described; hide Entries; hide Quo; hide Rem;
    var i, j := Rem(Quo(c, Entries(img.cs)), TWO32), Rem(c, Entries(img.cs));
    DescribedDisk(img.K(), img.m);
    DescribedIndex(img.K(), img.m, i);
    var table, s := TableGet(img, cache, i);
    if i in img.tables {
      DescribedCell(img.K(), img.m, Cell(i, j));
    }
    if table[j] == 0 {
      return true, None;
    }
    var cluster;
    ok, cluster := img.ReadEntry(table[j], Cell(i, j));
    return ok, Some(cluster);
  }

  datatype Base = NoBase | RawBase(file: seq<byte>) | ImageBase(img: Image, tables: Lru<seq<nat>>)

  class Device {
    const img: Image
    const tables: Lru<seq<nat>>
    const clusters: Lru<seq<byte>>
    const base: Base

    /** lbd_qcow2_init: the caches start empty. */
    constructor (img: Image, base: Base)
      requires Current(img) && GoodSize(img.cs)
      requires base.ImageBase? ==>
        Current(base.img) && base.img != img && base.img.cs == img.cs && TablesFresh(base.img, base.tables)
      ensures Valid() && this.img == img && this.base == base && fresh(tables) && fresh(clusters)
    {
      this.img, this.base := img, base;
      tables := new Lru([]);
      clusters := new Lru([]);
    }

    ghost predicate Valid()
      reads this, img, tables, clusters, BaseObjects()
    {
      && Current(img) && GoodSize(img.cs) && TablesFresh(img, tables) && BaseValid() && ClustersFresh()
      && (base.ImageBase? ==> base.img != img && base.tables != tables) && (tables as object) != clusters
      && (base.ImageBase? ==> (base.tables as object) != clusters)
    }

    ghost predicate ClustersFresh()
      reads this, img, clusters, BaseObjects()
    {
      clusters.Ok() && ClusterSlots(img.cs, clusters.slots, img.disk, B())
    }

    ghost function BaseObjects(): set<object> {
      if base.ImageBase? then {base.img, base.tables} else {}
    }

    ghost predicate BaseValid()
      reads BaseObjects()
    {
      base.ImageBase? ==>
        Current(base.img) && GoodSize(base.img.cs) && base.img.cs == img.cs && TablesFresh(base.img, base.tables)
    }

    ghost function B(): Below
      reads BaseObjects()
    {
      match base case NoBase => Nothing case RawBase(file) => Raw(file) case ImageBase(i, _) => Clusters(i.disk)
    }

    /** lbd_qcow2_base_read_cluster: nothing when the base layer has no such cluster. */
    method BaseRead(c: nat) returns (ok: bool, data: Option<seq<byte>>)
      requires GoodSize(img.cs) && BaseValid()
      modifies if base.ImageBase? then {base.tables} else {}
      ensures BaseValid() && BelowOk(img.cs, B()) && ok && data == Under(img.cs, B(), c)
      ensures UnderCluster(img.cs, B(), c, data)
    {
      hide UnderCluster; hide Space; hide Chain; hide Described; hide Entries; hide Quo; hide Rem; hide CellOf;
      var cs := img.cs;
      match base {
        case NoBase => ok, data := true, None;
        case RawBase(file) =>
          ok, data := true, if c * cs + cs > |file| then None else Some(file[c * cs..(c + 1) * cs]);
        case ImageBase(bi, cache) => ok, data := ReadCell(bi, cache, c);
      }
      UnderClusterIs(cs, B(), c);
    }

    ghost function Caches(): set<object> {
      {tables as object, clusters as object} + if base.ImageBase? then {base.tables as object} else {}
    }

    /** Reads a cluster past the cluster cache: from the image, else from the base, else zeros. */
    method ReadThrough(c: nat) returns (ok: bool, data: seq<byte>)
      requires Valid() && IndexFits(img.cs, c)
      modifies tables, if base.ImageBase? then {base.tables} else {}
      ensures Valid() && ok && data == Over(img.cs, img.disk, B(), c)
    {
      hide UnderCluster; hide Space; hide Chain; hide Described; hide Entries; hide Quo; hide Rem; hide CellOf;
      var own;
      ok, own := ReadCell(img, tables, c);
      if own.None? {
        ok, own := BaseRead(c);
      }
      data := if own.Some? then own.value else Zeros(img.cs);
    }

    /** lbd_qcow2_cl_load: the cluster's slot, after loading it if need be. */
    method ClusterLoad(c: nat) returns (ok: bool, s: nat)
      requires Valid() && IndexFits(img.cs, c)
      modifies Caches()
      ensures Valid() && ok && s < SLOTS && clusters.slots[s].valid && clusters.slots[s].key == c
      ensures clusters.slots[s].value == Over(img.cs, img.disk, B(), c)
    {
      hide Image.Valid; hide Entries; hide Quo; hide Rem; hide Under; hide GoodSize; hide Over; hide IndexFits;
      hide DiskOk; hide TablesFresh;
      var found;
      found, s := clusters.Find(c);
      if found {
        return true, s;
      }
      var data;
      ok, data := ReadThrough(c);
      s := clusters.Victim();
      clusters.Install(s, c, data);
    }

    ghost function Objects(): set<object> { Caches() + {img as object} }

    /** lbd_qcow2_l2_alloc: fails only beyond the L1 table. */
    method TableAlloc(i: nat) returns (ok: bool)
      requires Valid() && img.alloc + img.cs <= TWO62
      modifies img
      ensures Valid() && img.disk == old(img.disk) && |img.l1| == old(|img.l1|) && img.alloc <= old(img.alloc) + img.cs
      ensures (ok <==> i < |img.l1|) && (ok ==> i in img.tables)
      ensures old(Synced(img)) ==> (Synced(img) <==> !ok || i in old(img.tables))
    {
      hide Space; hide Chain; hide Described; hide Entries; hide ClusterSlots; hide TableSlots; hide Table64;
      if i >= |img.l1| {
        return false;
      }
      DescribedIndex(img.K(), img.m, i);
      if img.l1[i] == 0 {
        TableSlotsNew(tables.slots, img.tables, Entries(img.cs), i);
        AppendTable(img, i);
      }
      return true;
    }

    /** Stores a cluster that is in a slot, with new contents, and writes everything through. */
    method StoreSlot(c: nat, s: nat, data: seq<byte>, table: seq<nat>, ts: nat)
      requires Valid() && |data| == img.cs && img.alloc + img.cs <= TWO62
      requires s < SLOTS && clusters.slots[s].valid && clusters.slots[s].key == c && IndexFits(img.cs, c)
      requires ts < SLOTS && tables.slots[ts].valid && tables.slots[ts].key == CellOf(img.cs, c).i
      requires table == tables.slots[ts].value
      requires CellOf(img.cs, c).i in img.tables
      modifies img, tables, clusters
      ensures Valid() && img.disk == old(img.disk)[CellOf(img.cs, c) := data]
      ensures |img.l1| == old(|img.l1|) && img.alloc <= old(img.alloc) + img.cs && Synced(img)
    {
      hide Image.Valid; hide Entries; hide ClusterSlots; hide Table64; hide IndexFits; hide Quo; hide Rem;
      var cell := CellOf(img.cs, c);
      TableWidth(img, cell.i);
      ClusterSlotsUpdate(img.cs, clusters.slots, img.disk, B(), s, data);
      clusters.Update(s, data);
      ghost var before := img.tables;
      var now := UpdateCell(img, cell, table, data);
      TableSlotsUpdate(tables.slots, before, Entries(img.cs), ts, now);
      tables.Update(ts, now);
    }

    /** One cluster of a write: load it, change it in its slot, store it. */
    method WriteCluster(c: nat, at: nat, d: seq<byte>) returns (ok: bool)
      requires Valid() && IndexFits(img.cs, c) && at + |d| <= img.cs && img.alloc + 2 * img.cs <= TWO62
      modifies Objects()
      ensures Valid() && |img.l1| == old(|img.l1|) && img.alloc <= old(img.alloc) + 2 * img.cs && B() == old(B())
      ensures ok <==> CellOf(img.cs, c).i < |img.l1|
      ensures DiskOk(img.cs, old(img.disk)) && BelowOk(img.cs, B())
      ensures img.disk ==
        if ok then old(img.disk)[CellOf(img.cs, c) := WriteAt(Over(img.cs, old(img.disk), B(), c), at, d)]
          else old(img.disk)
      ensures ok || old(Synced(img)) ==> Synced(img)
    {
      hide Image.Valid; hide Entries; hide Table64; hide IndexFits; hide Quo; hide Rem; hide Over; hide GoodSize;
      hide DiskOk; hide BelowOk; hide TableSlots; hide Current; hide CellOf;
      var i := CellOf(img.cs, c).i;
      ok := TableAlloc(i);
      if !ok {
        return;
      }
      var okLoad, s := ClusterLoad(c);
      var table, ts := TableGet(img, tables, i);
      StoreSlot(c, s, WriteAt(clusters.slots[s].value, at, d), table, ts);
      return true;
    }

    /** One cluster of a discard that covers it: its extent is freed and its slot dropped. */
    method DiscardCluster(c: nat)
      requires Valid() && IndexFits(img.cs, c)
      modifies Objects()
      ensures Valid() && |img.l1| == old(|img.l1|) && img.alloc == old(img.alloc) && B() == old(B())
      ensures img.disk == old(img.disk) - {CellOf(img.cs, c)} && (old(Synced(img)) ==> Synced(img))
    {
      hide Space; hide Chain; hide Described; hide Entries; hide Table64; hide IndexFits; hide Quo; hide Rem; hide Over;
      hide DiskOk; hide BelowOk;
      var cell := CellOf(img.cs, c);
      ghost var disk0 := img.disk;
      DescribedIndex(img.K(), img.m, cell.i);
      if cell.i < |img.l1| && img.l1[cell.i] != 0 {
        var table, ts := TableGet(img, tables, cell.i);
        DescribedCell(img.K(), img.m, cell);
        if table[cell.j] != 0 {
          ghost var before := img.tables;
          var now := ClearCell(img, cell, table);
          TableSlotsUpdate(tables.slots, before, Entries(img.cs), ts, now);
          tables.Update(ts, now);
        }
      }
      assert cell !in disk0 ==> disk0 - {cell} == disk0;
      ghost var slots0 := clusters.slots;
      clusters.Invalidate(c);
      ClusterSlotsClear(img.cs, slots0, clusters.slots, disk0, B(), c);
    }

    /** One cluster of a discard that covers part of it: the part is cleared if the image has the
        cluster, and nothing happens otherwise. */
    method DiscardPart(c: nat, at: nat, k: nat) returns (ok: bool)
      requires Valid() && IndexFits(img.cs, c) && at + k <= img.cs && img.alloc + 2 * img.cs <= TWO62
      modifies Objects()
      ensures Valid() && |img.l1| == old(|img.l1|) && img.alloc <= old(img.alloc) + 2 * img.cs && B() == old(B())
      ensures ok <==> CellOf(img.cs, c).i < |img.l1|
      ensures img.disk == Cut(old(img.disk), CellOf(img.cs, c), if ok then k else 0, at)
      ensures ok && CellOf(img.cs, c) in old(img.disk) ==> Synced(img)
      ensures old(Synced(img)) && CellOf(img.cs, c) !in old(img.disk) ==>
        (Synced(img) <==> !ok || CellOf(img.cs, c).i in old(img.tables))
    {
      hide Space; hide Chain; hide Described; hide Entries; hide Table64; hide IndexFits; hide Quo; hide Rem;
      hide DiskOk; hide BelowOk; hide Under; hide TableSlots; hide GoodSize; hide Synced; hide ClusterSlots;
      var cell := CellOf(img.cs, c);
      ok := TableAlloc(cell.i);
      if !ok {
        CutNothing(img.disk, cell, at);
        return;
      }
      var okLoad, s := ClusterLoad(c);
      var table, ts := TableGet(img, tables, cell.i);
      DescribedCell(img.K(), img.m, cell);
      if table[cell.j] != 0 {
        StoreSlot(c, s, WriteAt(clusters.slots[s].value, at, Zeros(k)), table, ts);
      }
      return true;
    }

    /** lbd_qcow2_write: stops at the first cluster beyond the L1 table. */
    method Write(data: seq<byte>, off0: nat) returns (total: nat, ok: bool)
      requires Valid() && off0 + |data| <= Reach(img.cs) && img.alloc + 2 * |data| + 4 * img.cs <= TWO62
      modifies Objects()
      ensures Valid() && |img.l1| == old(|img.l1|) && B() == old(B())
      ensures img.alloc <= old(img.alloc) + 2 * |data| + 4 * img.cs
      ensures DiskOk(img.cs, old(img.disk)) && BelowOk(img.cs, B())
      ensures total <= |data| && img.disk == OverWrite(img.cs, old(img.disk), B(), off0, data[..total])
      ensures forall g | off0 <= g < off0 + total :: Indexed(img.cs, |img.l1|, g)
      ensures if ok then total == |data| else total < |data| && !Indexed(img.cs, |img.l1|, off0 + total)
      ensures total > 0 || old(Synced(img)) ==> Synced(img)
    {
      hide Image.Valid; hide Table64; hide IndexFits; hide Quo; hide Rem; hide Over; hide GoodSize; hide DiskOk;
      hide BelowOk; hide TableSlots; hide Current; hide CellOf; hide Reach; hide OverWrite; hide Synced;
      var cs := img.cs;
      total, ok := 0, true;
      OverWriteNothing(cs, img.disk, B(), off0, data[..0]);
      while total < |data|
        invariant Valid() && |img.l1| == old(|img.l1|) && total <= |data| && ok && B() == old(B())
        invariant img.disk == OverWrite(cs, old(img.disk), B(), off0, data[..total])
        invariant forall g | off0 <= g < off0 + total :: Indexed(cs, |img.l1|, g)
        invariant 0 < total < |data| ==> Rem(off0 + total, cs) == 0
        invariant total > 0 || old(Synced(img)) ==> Synced(img)
        invariant img.alloc <= old(img.alloc) + 2 * total + (if total == 0 then 0 else if total < |data| then 2 * cs
          else 4 * cs)
      {
        var c, at := Quo(off0 + total, cs), Rem(off0 + total, cs);
        var k := Min(cs - at, |data| - total);
        OverWriteRound(cs, old(img.disk), B(), off0, data, total);
        IndexedTogether(cs, |img.l1|, off0 + total, k);
        IndexInReach(cs, off0 + total);
        ok := WriteCluster(c, at, data[total..total + k]);
        if !ok {
          return;
        }
        total := total + k;
      }
      assert data[..total] == data;
    }

    /** lbd_qcow2_discard: fails at a partly covered cluster beyond the L1 table. */
    method Discard(off0: nat, n: nat) returns (total: nat, ok: bool)
      requires Valid() && off0 + n <= Reach(img.cs) && img.alloc + 2 * n + 4 * img.cs <= TWO62
      modifies Objects()
      ensures Valid() && |img.l1| == old(|img.l1|) && B() == old(B())
      ensures img.alloc <= old(img.alloc) + 2 * n + 4 * img.cs
      ensures DiskOk(img.cs, old(img.disk)) && total <= n && (ok <==> total == n)
      ensures img.disk == OverDiscard(img.cs, old(img.disk), off0, total)
      ensures !ok ==> !Indexed(img.cs, |img.l1|, off0 + total)
    {
      hide Image.Valid; hide Table64; hide IndexFits; hide Quo; hide Rem; hide Over; hide GoodSize; hide DiskOk;
      hide BelowOk; hide TableSlots; hide Current; hide CellOf; hide Reach; hide OverDiscard;
      var cs := img.cs;
      total, ok := 0, true;
      OverWriteNothing(cs, img.disk, B(), off0, []);
      while total < n
        invariant Valid() && |img.l1| == old(|img.l1|) && total <= n && ok && B() == old(B())
        invariant img.disk == OverDiscard(cs, old(img.disk), off0, total)
        invariant 0 < total < n ==> Rem(off0 + total, cs) == 0
        invariant img.alloc <= old(img.alloc) + 2 * total + (if total == 0 then 0 else if total < n then 2 * cs
          else 4 * cs)
      {
        var c, at := Quo(off0 + total, cs), Rem(off0 + total, cs);
        var k := Min(cs - at, n - total);
        OverDiscardRound(cs, old(img.disk), off0, n, total);
        IndexInReach(cs, off0 + total);
        if at == 0 && k == cs {
          DiscardCluster(c);
        } else {
          ghost var before := img.disk;
          ok := DiscardPart(c, at, k);
          if !ok {
            CutNothing(before, CellOf(cs, c), at);
            return;
          }
        }
        total := total + k;
      }
    }

    /** lbd_qcow2_destroy: with the header written, the file alone determines the image's disk. */
    method Destroy()
      requires Valid()
      modifies img
      ensures Persisted(img.file, img.K(), img.alloc, img.freeHead, img.m, img.frees) && img.disk == old(img.disk)
      ensures img.l1 == old(img.l1)
    {
      hide Space; hide Chain; hide Described; hide Table64; hide TableSlots; hide ClusterSlots;
      assert img.K().(cache := map[]) == img.K();
      img.WriteAllocOffset();
      assert img.K().(cache := map[]) == img.K();
    }

    /** lbd_qcow2_read. */
    method Read(off0: nat, n: nat) returns (ok: bool, buf: seq<byte>)
      requires Valid() && off0 + n <= Reach(img.cs)
      modifies Caches()
      ensures Valid() && DiskOk(img.cs, img.disk) && BelowOk(img.cs, B()) && ok
      ensures buf == OverRead(img.cs, img.disk, B(), off0, n)
    {
      hide Image.Valid; hide Table64; hide IndexFits; hide Quo; hide Rem; hide Over; hide GoodSize; hide DiskOk;
      hide BelowOk; hide TableSlots; hide Current; hide CellOf; hide Reach; hide OverRead;
      ok, buf := true, [];
      var off, remaining := off0, n;
      assert [] + OverRead(img.cs, img.disk, B(), off0, n) == OverRead(img.cs, img.disk, B(), off0, n);
      while remaining > 0
        invariant Valid() && ok && 0 <= remaining && off + remaining == off0 + n
        invariant OverRead(img.cs, img.disk, B(), off0, n) == buf + OverRead(img.cs, img.disk, B(), off, remaining)
      {
        var at := Rem(off, img.cs);
        var k := Min(img.cs - at, remaining);
        OverReadRound(img.cs, img.disk, B(), off, remaining, OverRead(img.cs, img.disk, B(), off0, n), buf);
        IndexInReach(img.cs, off);
        var okLoad, s := ClusterLoad(Quo(off, img.cs));
        ok := okLoad;
        buf := buf + clusters.slots[s].value[at..at + k];
        off, remaining := off + k, remaining - k;
      }
      assert buf + OverRead(img.cs, img.disk, B(), off, 0) == buf;
    }
  }

  /** Clears k bytes of a cluster, if it is there. */
  function Cut(disk: map<Cell, seq<byte>>, c: Cell, k: nat, at: nat): map<Cell, seq<byte>> {
    if c in disk then disk[c := WriteAt(disk[c], at, Zeros(k))] else disk
  }

  lemma {:induction false} CutNothing(disk: map<Cell, seq<byte>>, c: Cell, at: nat)
    ensures Cut(disk, c, 0, at) == disk
  {
    assert Zeros(0) == [];
  }

  lemma {:induction false} IndexInReach(cs: nat, g: nat)
    requires GoodSize(cs) && g < Reach(cs)
    ensures IndexFits(cs, Quo(g, cs))
  {
    ReachFits(cs, g);
    hide Quo; hide Reach;
  }
}
