/** The space of an image file, as a collection of extents that never overlap. */
module ImageSpace {
  import opened Bytes

  const PAGE: nat := 4096

  /** A guest cluster: an index into the L1 table and one into the L2 table. */
  datatype Cell = Cell(i: nat, j: nat)

  /** Who an extent of the file belongs to. */
  datatype Owner = Header | L1 | L2(i: nat) | Data(cell: Cell) | Free(at: nat)

  /** An extent, and the meaningful bytes at its start. */
  datatype Extent = Extent(off: nat, size: nat, bytes: seq<byte>)

  ghost predicate Stored(file: seq<byte>, off: nat, bytes: seq<byte>) {
    bytes != [] ==> off + |bytes| <= |file| && file[off..off + |bytes|] == bytes
  }

  ghost predicate Apart(a: Extent, b: Extent) {
    a.off + a.size <= b.off || b.off + b.size <= a.off
  }

  ghost predicate Within(a: Extent, b: Extent) {
    b.off <= a.off && a.off + a.size <= b.off + b.size
  }

  /** Extents are page aligned, below the allocation offset, and hold their bytes. */
  ghost predicate Placed(file: seq<byte>, alloc: nat, e: Extent) {
    && e.off % PAGE == 0 && e.size % PAGE == 0 && 0 < e.size && |e.bytes| <= e.size
    && e.off + e.size <= alloc && Stored(file, e.off, e.bytes)
  }

  /** The extents of a file: each in place, any two apart. */
  ghost predicate Space(file: seq<byte>, alloc: nat, m: map<Owner, Extent>) {
    && (forall x | x in m :: Placed(file, alloc, m[x]))
    && forall x, y | x in m && y in m && x != y :: Apart(m[x], m[y])
  }

  /** No extent uses this range. */
  ghost predicate Vacant(m: map<Owner, Extent>, alloc: nat, off: nat, size: nat) {
    off + size <= alloc && forall x | x in m :: Apart(m[x], Extent(off, size, []))
  }

  lemma {:induction false} StoredElsewhere(file: seq<byte>, p: nat, d: seq<byte>, off: nat, bytes: seq<byte>)
    requires Stored(file, off, bytes) && (off + |bytes| <= p || p + |d| <= off)
    ensures Stored(WriteAt(file, p, d), off, bytes)
  {
    if bytes != [] {
      assert WriteAt(file, p, d)[off..off + |bytes|] == file[off..off + |bytes|];
    }
  }

  lemma {:induction false} StoredHere(file: seq<byte>, p: nat, d: seq<byte>)
    ensures Stored(WriteAt(file, p, d), p, d)
  {
    if d != [] {
      assert WriteAt(file, p, d)[p..p + |d|] == d;
    }
  }

  /** Writing inside another extent leaves an extent in place. */
  lemma {:induction false} PlacedElsewhere(file: seq<byte>, alloc: nat, e: Extent, p: nat, d: seq<byte>, o: Extent)
    requires Placed(file, alloc, e) && Apart(e, o) && o.off <= p && p + |d| <= o.off + o.size
    ensures Placed(WriteAt(file, p, d), alloc, e)
  {
    StoredElsewhere(file, p, d, e.off, e.bytes);
  }

  /** An extent may change its owner, shrink and be written to, all at once. */
  lemma {:induction false} SpacePut(file: seq<byte>, alloc: nat, m: map<Owner, Extent>, x: Owner, y: Owner, n: Extent,
                                    p: nat, d: seq<byte>)
    requires Space(file, alloc, m) && x in m && (y == x || y !in m) && Within(n, m[x])
    requires m[x].off <= p && p + |d| <= m[x].off + m[x].size
    requires Placed(WriteAt(file, p, d), alloc, n)
    ensures Space(WriteAt(file, p, d), alloc, (m - {x})[y := n])
  {
    var r := (m - {x})[y := n];
    forall z | z in r && z != y
      ensures Placed(WriteAt(file, p, d), alloc, r[z]) && Apart(r[z], n)
    {
      assert r[z] == m[z] && Apart(m[z], m[x]);
      PlacedElsewhere(file, alloc, m[z], p, d, m[x]);
    }
    hide Placed;
  }

  lemma {:induction false} SpaceRemove(file: seq<byte>, alloc: nat, m: map<Owner, Extent>, x: Owner)
    requires Space(file, alloc, m) && x in m
    ensures Space(file, alloc, m - {x}) && Vacant(m - {x}, alloc, m[x].off, m[x].size)
  {
    hide Stored;
    forall z | z in m - {x}
      ensures Apart((m - {x})[z], Extent(m[x].off, m[x].size, []))
    {
      assert Apart(m[z], m[x]);
    }
  }

  /** An extent may be created in a vacant range. */
  lemma {:induction false} SpaceAdd(file: seq<byte>, alloc: nat, m: map<Owner, Extent>, y: Owner, n: Extent)
    requires Space(file, alloc, m) && y !in m && Vacant(m, alloc, n.off, n.size)
    requires Placed(WriteAt(file, n.off, n.bytes), alloc, n)
    ensures Space(WriteAt(file, n.off, n.bytes), alloc, m[y := n])
  {
    var r := m[y := n];
    forall z | z in r && z != y
      ensures Placed(WriteAt(file, n.off, n.bytes), alloc, r[z]) && Apart(r[z], n)
    {
      assert r[z] == m[z] && Apart(m[z], Extent(n.off, n.size, []));
      PlacedElsewhere(file, alloc, m[z], n.off, n.bytes, n);
    }
    hide Placed;
  }

  /** Raising the allocation offset makes room at the end. */
  lemma {:induction false} SpaceGrow(file: seq<byte>, alloc: nat, m: map<Owner, Extent>, size: nat)
    requires Space(file, alloc, m)
    ensures Space(file, alloc + size, m) && Vacant(m, alloc + size, alloc, size)
  {
    hide Stored;
    forall x | x in m
      ensures Placed(file, alloc + size, m[x]) && Apart(m[x], Extent(alloc, size, []))
    {
      assert Placed(file, alloc, m[x]);
    }
  }

  /** What is left of an extent after its start has been taken is vacant. */
  lemma {:induction false} VacantRest(file: seq<byte>, alloc: nat, m: map<Owner, Extent>, x: Owner, y: Owner, n: Extent)
    requires Space(file, alloc, m) && x in m && (y == x || y !in m) && n.off == m[x].off && n.size <= m[x].size
    ensures Vacant((m - {x})[y := n], alloc, n.off + n.size, m[x].size - n.size)
  {
    hide Stored;
    var r := (m - {x})[y := n];
    assert Placed(file, alloc, m[x]);
    forall z | z in r
      ensures Apart(r[z], Extent(n.off + n.size, m[x].size - n.size, []))
    {
      if z != y { assert Apart(m[z], m[x]); }
    }
  }
}
