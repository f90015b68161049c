/** The free list of an image: a chain of tombstones written into the freed extents. */
module FreeChain {
  import opened Bytes
  import opened BigEndian
  import opened ImageSpace

  const TOMBSTONE: nat := 0xDEADF4EE
  const SCANLIMIT: nat := 8

  /** What freeing an extent writes at its start. */
  function Tomb(size: nat, next: nat): (r: seq<byte>)
    ensures |r| == 16
  {
    BE(4, TOMBSTONE) + BE(4, size) + BE(8, next)
  }

  lemma {:induction false} ReadTomb(b: seq<byte>, size: nat, next: nat)
    requires b == Tomb(size, next) && size < TWO32 && next < TWO64
    ensures UnBE(b[0..4]) == TOMBSTONE && UnBE(b[4..8]) == size && UnBE(b[8..16]) == next
  {
    assert b[0..4] == BE(4, TOMBSTONE) && b[4..8] == BE(4, size) && b[8..16] == BE(8, next);
    UnBE4(TOMBSTONE);
    UnBE4(size);
    UnBE8(next);
  }

  lemma {:induction false} RelinkTomb(size: nat, next: nat, other: nat)
    ensures Tomb(size, next)[..8] + BE(8, other) == Tomb(size, other)
  {}

  function Link(frees: seq<nat>, k: nat): nat {
    if k < |frees| then frees[k] else 0
  }

  /** Extent k of the chain is free and its tombstone leads to the next one. */
  ghost predicate Node(m: map<Owner, Extent>, frees: seq<nat>, k: nat)
    requires k < |frees|
  {
    && Free(frees[k]) in m && m[Free(frees[k])].off == frees[k] && 0 < frees[k] < TWO62
    && m[Free(frees[k])].size < TWO32
    && m[Free(frees[k])].bytes == Tomb(m[Free(frees[k])].size, Link(frees, k + 1))
  }

  /** The chain from head visits every free extent exactly once, and ends. */
  ghost predicate Chain(m: map<Owner, Extent>, frees: seq<nat>, head: nat) {
    && head == Link(frees, 0)
    && (forall k | 0 <= k < |frees| :: Node(m, frees, k))
    && (forall x | x in m && x.Free? :: x.at in frees)
    && (forall a, b | 0 <= a < b < |frees| :: frees[a] != frees[b])
  }

  /** The two agree on everything but free extents. */
  ghost predicate SameLive(m: map<Owner, Extent>, n: map<Owner, Extent>) {
    forall x: Owner | !x.Free? :: (x in m <==> x in n) && (x in m && x in n ==> m[x] == n[x])
  }

  lemma {:induction false} ChainSame(m: map<Owner, Extent>, n: map<Owner, Extent>, frees: seq<nat>, head: nat)
    requires Chain(m, frees, head)
    requires forall x: Owner | x.Free? :: (x in m <==> x in n) && (x in m && x in n ==> m[x] == n[x])
    ensures Chain(n, frees, head)
  {
    forall k | 0 <= k < |frees|
      ensures Node(n, frees, k)
    {
      assert Node(m, frees, k);
    }
  }

  /** A freed extent goes to the front. */
  lemma {:induction false} ChainPush(m: map<Owner, Extent>, frees: seq<nat>, head: nat, alloc: nat, off: nat, size: nat)
    requires Chain(m, frees, head) && Vacant(m, alloc, off, size) && 0 < size < TWO32 && 0 < off < TWO62
    requires forall x | x in m :: 0 < m[x].size
    ensures Free(off) !in m
    ensures Chain(m[Free(off) := Extent(off, size, Tomb(size, head))], [off] + frees, off)
  {
    hide Tomb;
    forall k | 0 <= k < |frees|
      ensures frees[k] != off
    {
      assert Node(m, frees, k) && Apart(m[Free(frees[k])], Extent(off, size, []));
    }
    var n := m[Free(off) := Extent(off, size, Tomb(size, head))];
    var fs := [off] + frees;
    forall k | 0 <= k < |fs|
      ensures Node(n, fs, k)
    {
      if k > 0 {
        assert Node(m, frees, k - 1) && Link(fs, k + 1) == Link(frees, k);
      }
    }
    assert forall a, b | 0 <= a < b < |fs| :: fs[b] == frees[b - 1] && (a > 0 ==> fs[a] == frees[a - 1]);
    forall x | x in n && x.Free?
      ensures x.at in fs
    {
      if x != Free(off) { assert x.at in frees; }
    }
  }

  /** The extents once number k of the chain has been taken for y: its predecessor's tombstone
      leads to its successor. */
  function Unlinked(m: map<Owner, Extent>, frees: seq<nat>, k: nat, y: Owner, n: Extent): map<Owner, Extent>
    requires k < |frees| && (k > 0 ==> Free(frees[k - 1]) in m)
  {
    var r := (m - {Free(frees[k])})[y := n];
    if k == 0 then r
    else
      var e := m[Free(frees[k - 1])];
      r[Free(frees[k - 1]) := Extent(e.off, e.size, Tomb(e.size, Link(frees, k + 1)))]
  }

  lemma {:induction false} ChainTake(m: map<Owner, Extent>, frees: seq<nat>, head: nat, k: nat, y: Owner, n: Extent)
    requires Chain(m, frees, head) && k < |frees| && !y.Free?
    ensures k > 0 ==> Node(m, frees, k - 1)
    ensures Chain(Unlinked(m, frees, k, y, n), frees[..k] + frees[k + 1..], if k == 0 then Link(frees, 1) else head)
  {
    hide Tomb;
    if k > 0 { assert Node(m, frees, k - 1); }
    var r := Unlinked(m, frees, k, y, n);
    var fs := frees[..k] + frees[k + 1..];
    forall q | 0 <= q < |fs|
      ensures Node(r, fs, q)
    {
      var o := if q < k then q else q + 1;
      assert fs[q] == frees[o] && Node(m, frees, o);
      if q != k - 1 {
        assert Link(fs, q + 1) == Link(frees, o + 1);
        assert k > 0 ==> frees[o] != frees[k - 1];
      } else {
        assert Link(fs, q + 1) == Link(frees, k + 1);
      }
    }
    forall x | x in r && x.Free?
      ensures x.at in fs
    {
      assert x in m;
      var q :| 0 <= q < |frees| && frees[q] == x.at;
      assert q != k;
      assert fs[if q < k then q else q - 1] == x.at;
    }
  }

  lemma {:induction false} FreeStep(file: seq<byte>, alloc: nat, m: map<Owner, Extent>, frees: seq<nat>, head: nat,
                                    off: nat, size: nat)
    requires Space(file, alloc, m) && Chain(m, frees, head) && Vacant(m, alloc, off, size) && alloc <= TWO62
    requires off % PAGE == 0 && size % PAGE == 0 && 0 < size < TWO32 && 0 < off
    ensures Free(off) !in m
    ensures Space(WriteAt(file, off, Tomb(size, head)), alloc, m[Free(off) := Extent(off, size, Tomb(size, head))])
    ensures Chain(m[Free(off) := Extent(off, size, Tomb(size, head))], [off] + frees, off)
  {
    assert forall x | x in m :: 0 < m[x].size;
    ChainPush(m, frees, head, alloc, off, size);
    hide Chain; hide Tomb;
    StoredHere(file, off, Tomb(size, head));
    SpaceAdd(file, alloc, m, Free(off), Extent(off, size, Tomb(size, head)));
  }

  /** Which space an allocation takes: the first of the first eight free extents from k on
      that is large enough, or else the end of the file. */
  ghost function Chosen(m: map<Owner, Extent>, frees: seq<nat>, k: nat, needed: nat, alloc: nat): nat
    decreases |frees| - k
  {
    if k < |frees| && k < SCANLIMIT && Free(frees[k]) in m then
      if m[Free(frees[k])].size >= needed then frees[k] else Chosen(m, frees, k + 1, needed, alloc)
    else alloc
  }

  /** Rewriting the link of a tombstone. */
  lemma {:induction false} Relinked(file: seq<byte>, off: nat, size: nat, next: nat, other: nat)
    requires Stored(file, off, Tomb(size, next))
    ensures Stored(WriteAt(file, off + 8, BE(8, other)), off, Tomb(size, other))
  {
    RelinkTomb(size, next, other);
    hide Tomb; hide BE;
    var g := WriteAt(file, off + 8, BE(8, other));
    assert g[off..off + 16] == file[off..off + 16][..8] + BE(8, other);
  }

  ghost function RelinkFile(file: seq<byte>, frees: seq<nat>, k: nat): seq<byte>
    requires k < |frees|
  {
    if k == 0 then file else WriteAt(file, frees[k - 1] + 8, BE(8, Link(frees, k + 1)))
  }

  /** Taking the first part of a free extent. */
  lemma {:induction false} TakeFirst(file: seq<byte>, alloc: nat, m: map<Owner, Extent>, x: Owner, y: Owner,
                                     needed: nat)
    requires Space(file, alloc, m) && x in m && x.Free? && y !in m && !y.Free?
    requires needed % PAGE == 0 && 0 < needed <= m[x].size
    ensures var r := (m - {x})[y := Extent(m[x].off, needed, [])];
      Space(file, alloc, r) && Vacant(r, alloc, m[x].off + needed, m[x].size - needed)
  {
    var n := Extent(m[x].off, needed, []);
    assert Placed(file, alloc, m[x]);
    SpacePut(file, alloc, m, x, y, n, m[x].off, []);
    VacantRest(file, alloc, m, x, y, n);
  }

  /** Replacing the bytes of an extent by other ones. */
  lemma {:induction false} Rewrite(file: seq<byte>, alloc: nat, m: map<Owner, Extent>, x: Owner, bytes: seq<byte>,
                                   p: nat, d: seq<byte>)
    requires Space(file, alloc, m) && x in m && |bytes| <= m[x].size && m[x].off <= p && p + |d| <= m[x].off + m[x].size
    requires Stored(WriteAt(file, p, d), m[x].off, bytes)
    ensures Space(WriteAt(file, p, d), alloc, m[x := Extent(m[x].off, m[x].size, bytes)])
  {
    var e := Extent(m[x].off, m[x].size, bytes);
    assert Placed(file, alloc, m[x]);
    SpacePut(file, alloc, m, x, x, e, p, d);
    assert (m - {x})[x := e] == m[x := e];
  }

  lemma {:induction false} VacantRewrite(m: map<Owner, Extent>, alloc: nat, x: Owner, bytes: seq<byte>, off: nat,
                                         size: nat)
    requires Vacant(m, alloc, off, size) && x in m
    ensures Vacant(m[x := Extent(m[x].off, m[x].size, bytes)], alloc, off, size)
  {
    var r := m[x := Extent(m[x].off, m[x].size, bytes)];
    forall z | z in r
      ensures Apart(r[z], Extent(off, size, []))
    {
      assert Apart(m[z], Extent(off, size, []));
    }
  }

  /** Taking the first part of extent k of the chain. */
  lemma {:induction false} TakeStep(file: seq<byte>, alloc: nat, m: map<Owner, Extent>, frees: seq<nat>, head: nat,
                                    k: nat, y: Owner, needed: nat)
    requires Space(file, alloc, m) && Chain(m, frees, head) && k < |frees| && y !in m && !y.Free?
    requires needed % PAGE == 0 && 0 < needed && Free(frees[k]) in m && needed <= m[Free(frees[k])].size
    ensures k > 0 ==> Free(frees[k - 1]) in m
    ensures var r := Unlinked(m, frees, k, y, Extent(frees[k], needed, []));
      && Space(RelinkFile(file, frees, k), alloc, r)
      && Vacant(r, alloc, frees[k] + needed, m[Free(frees[k])].size - needed)
  {
    hide Space; hide Chain; hide Vacant; hide Stored; hide Tomb; hide BE;
    ChainNode(m, frees, head, k);
    TakeFirst(file, alloc, m, Free(frees[k]), y, needed);
    if k > 0 {
      ChainNode(m, frees, head, k - 1);
      var r := (m - {Free(frees[k])})[y := Extent(frees[k], needed, [])];
      var x := Free(frees[k - 1]);
      assert r[x] == m[x];
      InPlace(file, alloc, m, x);
      Relinked(file, frees[k - 1], m[x].size, Link(frees, k), Link(frees, k + 1));
      Rewrite(file, alloc, r, x, Tomb(m[x].size, Link(frees, k + 1)), frees[k - 1] + 8, BE(8, Link(frees, k + 1)));
      VacantRewrite(r, alloc, x, Tomb(m[x].size, Link(frees, k + 1)), frees[k] + needed,
        m[Free(frees[k])].size - needed);
    }
  }

  lemma {:induction false} ChainNode(m: map<Owner, Extent>, frees: seq<nat>, head: nat, k: nat)
    requires Chain(m, frees, head) && k < |frees|
    ensures Node(m, frees, k) && forall q | 0 <= q < |frees| && q != k :: frees[q] != frees[k]
  {}

  lemma {:induction false} InPlace(file: seq<byte>, alloc: nat, m: map<Owner, Extent>, x: Owner)
    requires Space(file, alloc, m) && x in m
    ensures Placed(file, alloc, m[x])
  {}

  lemma {:induction false} UnlinkedLive(m: map<Owner, Extent>, frees: seq<nat>, k: nat, y: Owner, n: Extent)
    requires k < |frees| && (k > 0 ==> Free(frees[k - 1]) in m) && !y.Free?
    ensures var r := Unlinked(m, frees, k, y, n); SameLive(m[y := n], r) && y in r && r[y] == n
  {
    hide Tomb;
  }

  lemma {:induction false} ChainHead(m: map<Owner, Extent>, frees: seq<nat>, head: nat)
    requires Chain(m, frees, head)
    ensures head == Link(frees, 0) && forall k | 0 <= k < |frees| :: frees[k] > 0
  {
    forall k | 0 <= k < |frees|
      ensures frees[k] > 0
    {
      assert Node(m, frees, k);
    }
  }

  lemma {:induction false} ChosenNone(m: map<Owner, Extent>, frees: seq<nat>, k: nat, needed: nat, alloc: nat)
    requires k >= |frees| || k >= SCANLIMIT
    ensures Chosen(m, frees, k, needed, alloc) == alloc
  {}

  /** The sixteen bytes at a node of the chain. */
  lemma {:induction false} ReadNode(file: seq<byte>, alloc: nat, m: map<Owner, Extent>, frees: seq<nat>, head: nat,
                                    k: nat)
    requires Space(file, alloc, m) && Chain(m, frees, head) && k < |frees|
    ensures Free(frees[k]) in m && 0 < frees[k] == m[Free(frees[k])].off && m[Free(frees[k])].size < TWO32
    ensures frees[k] + m[Free(frees[k])].size <= alloc && frees[k] + 16 <= |file|
    ensures UnBE(file[frees[k]..frees[k] + 16][0..4]) == TOMBSTONE
    ensures UnBE(file[frees[k]..frees[k] + 16][4..8]) == m[Free(frees[k])].size
    ensures UnBE(file[frees[k]..frees[k] + 16][8..16]) == Link(frees, k + 1)
  {
    var cur := frees[k];
    assert Node(m, frees, k) && Placed(file, alloc, m[Free(cur)]);
    if k + 1 < |frees| { assert Node(m, frees, k + 1); }
    hide Tomb; hide UnBE;
    ReadTomb(file[cur..cur + 16], m[Free(cur)].size, Link(frees, k + 1));
  }

  lemma {:induction false} SameLiveItself(m: map<Owner, Extent>)
    ensures SameLive(m, m)
  {
  }

  lemma {:induction false} Append(file: seq<byte>, alloc: nat, m: map<Owner, Extent>, frees: seq<nat>, head: nat,
                                  y: Owner, size: nat)
    requires Space(file, alloc, m) && Chain(m, frees, head) && y !in m && !y.Free?
    requires alloc % PAGE == 0 && size % PAGE == 0 && 0 < size
    ensures Space(file, alloc + size, m[y := Extent(alloc, size, [])])
    ensures Chain(m[y := Extent(alloc, size, [])], frees, head)
  {
    SpaceGrow(file, alloc, m, size);
    SpaceAdd(file, alloc + size, m, y, Extent(alloc, size, []));
    ChainSame(m, m[y := Extent(alloc, size, [])], frees, head);
  }

  // ---------------------------------------------------------------- no space is lost

  ghost predicate In(e: Extent, p: nat) { e.off <= p < e.off + e.size }

  /** Some extent, in use or free, holds byte p. */
  ghost predicate Covered(m: map<Owner, Extent>, p: nat) { exists x | x in m :: In(m[x], p) }

  /** Every byte some extent held is still held, except perhaps those from lo up to hi. */
  ghost predicate Keeps(m: map<Owner, Extent>, n: map<Owner, Extent>, lo: nat, hi: nat) {
    forall p: nat | Covered(m, p) && !(lo <= p < hi) :: Covered(n, p)
  }

  /** All extents but one stay where they are, and that one's bytes are held by others. */
  lemma {:induction false} KeepsMoved(m: map<Owner, Extent>, n: map<Owner, Extent>, w: Owner, lo: nat, hi: nat)
    requires forall x | x in m && x != w :: x in n && n[x].off == m[x].off && n[x].size == m[x].size
    requires w in m ==> forall p: nat | In(m[w], p) && !(lo <= p < hi) :: Covered(n, p)
    ensures Keeps(m, n, lo, hi)
  {
    forall p: nat | Covered(m, p) && !(lo <= p < hi)
      ensures Covered(n, p)
    {
      var x :| x in m && In(m[x], p);
      if x != w { assert In(n[x], p); }
    }
  }

  lemma {:induction false} KeepsThen(a: map<Owner, Extent>, b: map<Owner, Extent>, c: map<Owner, Extent>, lo: nat,
                                     hi: nat)
    requires Keeps(a, b, 0, 0) && Keeps(b, c, lo, hi)
    ensures Keeps(a, c, lo, hi)
  {
    hide Covered;
  }

  /** A free extent that is split keeps all its bytes: the rest is nothing or a page at least. */
  lemma {:induction false} KeepsSplit(m: map<Owner, Extent>, frees: seq<nat>, k: nat, y: Owner, needed: nat,
                                      n: map<Owner, Extent>, b: seq<byte>)
    requires k < |frees| && (k > 0 ==> Free(frees[k - 1]) in m && frees[k - 1] != frees[k]) && !y.Free? && y !in m
    requires Free(frees[k]) in m && m[Free(frees[k])].off == frees[k] && needed <= m[Free(frees[k])].size
    requires var r := Unlinked(m, frees, k, y, Extent(frees[k], needed, []));
      if needed == m[Free(frees[k])].size then n == r
      else
        Free(frees[k] + needed) !in r
        && n == r[Free(frees[k] + needed) := Extent(frees[k] + needed, m[Free(frees[k])].size - needed, b)]
    ensures Keeps(m, n, 0, 0)
  {
    hide Tomb; hide Covered;
    var w := Free(frees[k]);
    assert y in n && n[y] == Extent(frees[k], needed, []);
    forall p: nat | In(m[w], p)
      ensures Covered(n, p)
    {
      if p < frees[k] + needed { HeldBy(n, y, p); } else { HeldBy(n, Free(frees[k] + needed), p); }
    }
    KeepsMoved(m, n, w, 0, 0);
  }

  lemma {:induction false} HeldBy(m: map<Owner, Extent>, x: Owner, p: nat)
    requires x in m && In(m[x], p)
    ensures Covered(m, p)
  {}

  lemma {:induction false} KeepsAdd(m: map<Owner, Extent>, y: Owner, e: Extent)
    requires y !in m
    ensures Keeps(m, m[y := e], 0, 0)
  {
    KeepsMoved(m, m[y := e], y, 0, 0);
  }

  /** An extent that changes owner keeps its bytes. */
  lemma {:induction false} KeepsRenamed(m: map<Owner, Extent>, x: Owner, y: Owner, e: Extent)
    requires x in m && (y !in m || y == x) && e.off == m[x].off && e.size == m[x].size
    ensures Keeps(m, (m - {x})[y := e], 0, 0)
  {
    var n := (m - {x})[y := e];
    forall p: nat | In(m[x], p)
      ensures Covered(n, p)
    {
      HeldBy(n, y, p);
    }
    KeepsMoved(m, n, x, 0, 0);
  }

  /** An extent rewritten in less space loses exactly its tail. */
  lemma {:induction false} KeepsShrunk(m: map<Owner, Extent>, x: Owner, e: Extent)
    requires x in m && e.off == m[x].off && e.size <= m[x].size
    ensures Keeps(m, m[x := e], e.off + e.size, e.off + m[x].size)
  {
    var n := m[x := e];
    forall p: nat | In(m[x], p) && !(e.off + e.size <= p < e.off + m[x].size)
      ensures Covered(n, p)
    {
      HeldBy(n, x, p);
    }
    KeepsMoved(m, n, x, e.off + e.size, e.off + m[x].size);
  }
}
