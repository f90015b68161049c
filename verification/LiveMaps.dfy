/** LiveMap: block ownership across segments, kept up to date as logs are processed. */
module LiveMaps {
  import opened Options
  import opened LogReplay
  import opened IntervalMap
  import opened Retire

  datatype SegInfo = SegInfo(totalEntries: nat, totalWriteBytes: nat)

  function Retagged(xs: seq<Extent<Tag>>, from: nat, to: nat): seq<Extent<Tag>> {
    seq(|xs|, i requires 0 <= i < |xs| =>
      if xs[i].tag.seg == from then xs[i].(tag := Tag(to, xs[i].tag.isTrim)) else xs[i])
  }

  predicate Joins<T(==)>(x: Extent<T>, y: Extent<T>) {
    x.tag == y.tag && x.End() == y.start
  }

  /** Neighbours with the same owner that meet become one extent. */
  function Merged<T(==)>(xs: seq<Extent<T>>): (ys: seq<Extent<T>>)
    ensures |ys| <= |xs| && (xs != [] ==> ys != [])
  {
    if |xs| <= 1 then xs
    else
      var m := Merged(xs[..|xs| - 1]);
      var prev, cur := m[|m| - 1], xs[|xs| - 1];
      if Joins(prev, cur) then m[|m| - 1 := prev.(blocks := prev.blocks + cur.blocks)]
      else m + [cur]
  }

  ghost predicate NoneJoin<T>(xs: seq<Extent<T>>) {
    forall i, j | 0 <= i < j < |xs| && j == i + 1 :: !Joins(xs[i], xs[j])
  }

  /** Afterwards no two neighbours have the same owner and meet. */
  lemma {:induction false} MergedNoneJoin<T>(xs: seq<Extent<T>>)
    ensures NoneJoin(Merged(xs))
  {
    if |xs| > 1 { MergedNoneJoin(xs[..|xs| - 1]); }
  }

  /** mergeAdjacent as written: the result is compacted over the array it is read from. */
  method MergeInPlace<T(==)>(a: array<Extent<T>>) returns (n: nat)
    modifies a
    ensures n <= a.Length && a[..n] == Merged(old(a[..]))
    ensures NoneJoin(a[..n])
  {
    ghost var xs := a[..];
    MergedNoneJoin(xs);
    if a.Length <= 1 {
      return a.Length;
    }
    n := 1;
    var i := 1;
    assert a[..1] == xs[..1];
    while i < a.Length
      invariant 1 <= n <= i <= a.Length
      invariant a[..n] == Merged(xs[..i])
      invariant forall k | i <= k < a.Length :: a[k] == xs[k]
    {
      var cur := a[i];
      assert xs[..i + 1][..i] == xs[..i];
      ghost var m := Merged(xs[..i]);
      assert a[n - 1] == m[|m| - 1];
      if a[n - 1].tag == cur.tag && a[n - 1].start + a[n - 1].blocks == cur.start {
        a[n - 1] := a[n - 1].(blocks := a[n - 1].blocks + cur.blocks);
        assert a[..n] == m[n - 1 := m[n - 1].(blocks := m[n - 1].blocks + cur.blocks)];
      } else {
        a[n] := cur;
        n := n + 1;
        assert a[..n] == m + [cur];
      }
      i := i + 1;
    }
    assert xs[..i] == xs;
  }

  // ---------------------------------------------------------------- merging keeps meaning

  lemma {:induction false} JoinOwner<T>(m: seq<Extent<T>>, cur: Extent<T>, b: nat)
    requires m != [] && Joins(m[|m| - 1], cur)
    ensures var j := m[|m| - 1 := m[|m| - 1].(blocks := m[|m| - 1].blocks + cur.blocks)];
      && Owner(j, b) == Owner(m + [cur], b)
      && Count(j, b) == Count(m + [cur], b)
  {
    var k := |m| - 1;
    var prev := m[k];
    var both := prev.(blocks := prev.blocks + cur.blocks);
    assert m[k := both] == m[..k] + [both];
    assert m + [cur] == m[..k] + [prev] + [cur];
    OwnerAppend(m[..k], [both], b);
    OwnerAppend(m[..k] + [prev], [cur], b);
    OwnerAppend(m[..k], [prev], b);
    OwnerOne(both, b); OwnerOne(prev, b); OwnerOne(cur, b);
    CountAppend(m[..k], [both], b);
    CountAppend(m[..k] + [prev], [cur], b);
    CountAppend(m[..k], [prev], b);
    CountOne(both, b); CountOne(prev, b); CountOne(cur, b);
  }

  /** Merging changes neither the owner of any block nor how often it is held. */
  lemma {:induction false} MergedOwner<T>(xs: seq<Extent<T>>, b: nat)
    ensures Owner(Merged(xs), b) == Owner(xs, b) && Count(Merged(xs), b) == Count(xs, b)
  {
    if |xs| > 1 {
      var n := |xs| - 1;
      var m := Merged(xs[..n]);
      MergedOwner(xs[..n], b);
      assert xs == xs[..n] + [xs[n]];
      OwnerAppend(m, [xs[n]], b);
      OwnerAppend(xs[..n], [xs[n]], b);
      CountAppend(m, [xs[n]], b);
      CountAppend(xs[..n], [xs[n]], b);
      if Joins(m[|m| - 1], xs[n]) { JoinOwner(m, xs[n], b); }
    }
  }

  lemma {:induction false} MergedPositive<T>(xs: seq<Extent<T>>)
    requires Positive(xs)
    ensures Positive(Merged(xs))
  {
    if |xs| > 1 { MergedPositive(xs[..|xs| - 1]); }
  }

  lemma {:induction false} MergedDisjoint<T>(xs: seq<Extent<T>>)
    requires Positive(xs) && Disjoint(xs)
    ensures Positive(Merged(xs)) && Disjoint(Merged(xs))
  {
    MergedPositive(xs);
    forall b: nat ensures Count(Merged(xs), b) <= 1 {
      MergedOwner(xs, b);
      CountsFromDisjoint(xs, b);
    }
    DisjointFromCounts(Merged(xs));
  }

  lemma {:induction false} MergedEnds<T>(xs: seq<Extent<T>>, b: nat)
    requires EndsBy(xs, b)
    ensures EndsBy(Merged(xs), b)
  {
    if |xs| > 1 {
      var n := |xs| - 1;
      assert xs == xs[..n] + [xs[n]];
      EndsBySnoc(xs[..n], xs[n], b);
      MergedEnds(xs[..n], b);
    }
  }

  /** Extending the last extent of a sorted list. */
  lemma {:induction false} ExtendLast<T>(m: seq<Extent<T>>, more: nat)
    requires m != [] && Sorted(m)
    ensures var k := |m| - 1; Sorted(m[k := m[k].(blocks := m[k].blocks + more)])
  {
    var k := |m| - 1;
    var longer := m[k].(blocks := m[k].blocks + more);
    SortedInit(m);
    hide Sorted;
    SortedSnoc(m[..k], longer);
    assert m[k := longer] == m[..k] + [longer];
  }

  lemma {:induction false} MergedSorted<T>(xs: seq<Extent<T>>)
    requires Sorted(xs)
    ensures Sorted(Merged(xs))
  {
    if |xs| > 1 {
      hide Sorted;
      hide EndsBy;
      var n := |xs| - 1;
      var m := Merged(xs[..n]);
      SortedInit(xs);
      MergedSorted(xs[..n]);
      MergedEnds(xs[..n], xs[n].start);
      SortedSnoc(m, xs[n]);
      ExtendLast(m, xs[n].blocks);
    }
  }

  /** Renaming a segment renames the owner of its blocks. */
  lemma {:induction false} RetaggedOwner(xs: seq<Extent<Tag>>, from: nat, to: nat, b: nat)
    ensures Owner(Retagged(xs, from, to), b) ==
            match Owner(xs, b) case None => None
            case Some(t) => Some(if t.seg == from then Tag(to, t.isTrim) else t)
    ensures Count(Retagged(xs, from, to), b) == Count(xs, b)
  {
    if xs != [] {
      assert Retagged(xs, from, to)[1..] == Retagged(xs[1..], from, to);
      RetaggedOwner(xs[1..], from, to, b);
    }
  }

  lemma {:induction false} RetaggedDisjoint(xs: seq<Extent<Tag>>, from: nat, to: nat)
    requires Positive(xs) && Disjoint(xs)
    ensures Positive(Retagged(xs, from, to)) && Disjoint(Retagged(xs, from, to))
    ensures Sorted(xs) ==> Sorted(Retagged(xs, from, to))
  {
    forall i, j | 0 <= i < j < |xs| ensures Apart(Retagged(xs, from, to)[i], Retagged(xs, from, to)[j]) {
      assert Apart(xs[i], xs[j]);
    }
    if Sorted(xs) {
      forall i, j | 0 <= i < j < |xs| ensures Retagged(xs, from, to)[i].End() <= Retagged(xs, from, to)[j].start {
        assert xs[i].End() <= xs[j].start;
      }
    }
  }

  // ---------------------------------------------------------------- the class

  /** What a live map holds. */
  datatype MapState = MapState(lastLabel: int, extents: seq<Extent<Tag>>, totals: map<nat, SegInfo>)

  /** The source's map has repaired == false; true stands for the same code with the insertion
      that keeps the order. */
  class LiveMap {
    var lastLabel: int
    const blockSize: nat
    const repaired: bool
    var extents: seq<Extent<Tag>>
    var segments: map<nat, SegInfo>

    ghost function State(): MapState
      reads this
    {
      MapState(lastLabel, extents, segments)
    }

    constructor (bs: nat, repaired: bool)
      ensures blockSize == bs && this.repaired == repaired && State() == MapState(-1, [], map[])
    {
      lastLabel := -1;
      blockSize := bs;
      this.repaired := repaired;
      extents := [];
      segments := map[];
    }

    method ApplyOp(start: nat, blocks: nat, seg: nat, isTrim: bool)
      modifies this`extents
      ensures extents == Placed(old(extents), Extent(start, blocks, Tag(seg, isTrim)), repaired)
    {
      extents := PlaceLoop(extents, Extent(start, blocks, Tag(seg, isTrim)), repaired);
    }

    method AddSegmentEntry(seg: nat, isWrite: bool, writeBytes: nat)
      modifies this`segments
      ensures segments == old(segments)[seg := Counted(old(segments), seg, isWrite, writeBytes)]
    {
      var info := if seg in segments then segments[seg] else SegInfo(0, 0);
      info := info.(totalEntries := info.totalEntries + 1);
      if isWrite { info := info.(totalWriteBytes := info.totalWriteBytes + writeBytes); }
      segments := segments[seg := info];
    }

    method RemoveSegment(seg: nat)
      modifies this`segments, this`extents
      ensures segments == old(segments) - {seg}
      ensures extents == WithoutSegment(old(extents), seg)
    {
      segments := segments - {seg};
      var result: seq<Extent<Tag>> := [];
      for i := 0 to |extents|
        invariant result == WithoutSegment(extents[..i], seg)
        invariant extents == old(extents) && segments == old(segments) - {seg}
      {
        assert extents[..i + 1][..i] == extents[..i];
        if extents[i].tag.seg != seg { result := result + [extents[i]]; }
      }
      assert extents[..|extents|] == extents;
      extents := result;
    }

    method ReattributeSegment(from: nat, to: nat)
      modifies this`extents
      ensures extents == Merged(Retagged(old(extents), from, to))
    {
      var a := new Extent<Tag>[|extents|](i requires 0 <= i < |extents| reads this => extents[i]);
      for i := 0 to a.Length
        invariant extents == old(extents)
        invariant forall k | 0 <= k < i :: a[k] == Retagged(extents, from, to)[k]
        invariant forall k | i <= k < a.Length :: a[k] == extents[k]
      {
        if a[i].tag.seg == from { a[i] := a[i].(tag := Tag(to, a[i].tag.isTrim)); }
      }
      assert a[..] == Retagged(extents, from, to);
      var n := MergeInPlace(a);
      extents := a[..n];
    }

    method SegmentLiveExtents(seg: nat) returns (result: seq<Extent<Tag>>)
      ensures result == SegExtents(extents, seg)
    {
      result := [];
      var i := 0;
      while i < |extents|
        invariant 0 <= i <= |extents|
        invariant result + SegExtents(extents[i..], seg) == SegExtents(extents, seg)
      {
        assert extents[i..][1..] == extents[i + 1..];
        if extents[i].tag.seg == seg {
          assert result + ([extents[i]] + SegExtents(extents[i + 1..], seg)) ==
                 result + [extents[i]] + SegExtents(extents[i + 1..], seg);
          result := result + [extents[i]];
        }
        i := i + 1;
      }
    }
  }

  function Counted(segments: map<nat, SegInfo>, seg: nat, isWrite: bool, bytes: nat): SegInfo {
    var was := if seg in segments then segments[seg] else SegInfo(0, 0);
    SegInfo(was.totalEntries + 1, was.totalWriteBytes + if isWrite then bytes else 0)
  }

  function WithoutSegment(xs: seq<Extent<Tag>>, seg: nat): seq<Extent<Tag>> {
    if xs == [] then []
    else WithoutSegment(xs[..|xs| - 1], seg) + (if xs[|xs| - 1].tag.seg == seg then [] else [xs[|xs| - 1]])
  }

  // ---------------------------------------------------------------- what is counted

  /** Blocks of the live writes of a segment. */
  function LiveBlocks(xs: seq<Extent<Tag>>, seg: nat): nat {
    if xs == [] then 0
    else LiveBlocks(xs[..|xs| - 1], seg) +
         if xs[|xs| - 1].tag == Tag(seg, false) then xs[|xs| - 1].blocks else 0
  }

  function LiveCount(xs: seq<Extent<Tag>>, seg: nat): nat {
    if xs == [] then 0
    else LiveCount(xs[..|xs| - 1], seg) + if xs[|xs| - 1].tag.seg == seg then 1 else 0
  }

  function WriteBytes(es: seq<Entry>): nat {
    if es == [] then 0 else WriteBytes(es[..|es| - 1]) + if es[|es| - 1].Write? then es[|es| - 1].Length() else 0
  }
}
