/** BlockSet: a set of blocks kept as sorted, non-overlapping, non-adjacent intervals. */
module BlockSets {
  import opened Bytes

  datatype Interval = Interval(lo: nat, hi: nat) {
    predicate Has(b: nat) { lo <= b < hi }
  }

  predicate Covered(ivs: seq<Interval>, b: nat) {
    exists i | 0 <= i < |ivs| :: ivs[i].Has(b)
  }

  /** Non-empty intervals, each ending strictly before the next one begins. */
  ghost predicate Canonical(ivs: seq<Interval>) {
    && (forall i | 0 <= i < |ivs| :: ivs[i].lo < ivs[i].hi)
    && (forall i, j | 0 <= i < j < |ivs| :: ivs[i].hi < ivs[j].lo)
  }

  ghost predicate SameBlocks(xs: seq<Interval>, ys: seq<Interval>) {
    forall b: nat :: Covered(xs, b) <==> Covered(ys, b)
  }

  // ---------------------------------------------------------------- canonicity

  lemma {:induction false} CoveredTail(xs: seq<Interval>, b: nat)
    requires xs != []
    ensures Covered(xs, b) <==> xs[0].Has(b) || Covered(xs[1..], b)
  {
    if Covered(xs, b) && !xs[0].Has(b) {
      var i :| 0 <= i < |xs| && xs[i].Has(b);
      assert xs[1..][i - 1] == xs[i];
    }
    if Covered(xs[1..], b) {
      var i :| 0 <= i < |xs[1..]| && xs[1..][i].Has(b);
      assert xs[i + 1] == xs[1..][i];
    }
  }

  /** In a canonical list the first block not covered at or after the first lo is the first hi. */
  lemma {:induction false} FirstInterval(xs: seq<Interval>, b: nat)
    requires xs != [] && Canonical(xs)
    ensures b < xs[0].lo ==> !Covered(xs, b)
    ensures b == xs[0].hi ==> !Covered(xs, b)
    ensures xs[0].Has(b) ==> Covered(xs, b)
    ensures Covered(xs[1..], b) ==> xs[0].hi < b
  {
    forall i | 0 < i < |xs| ensures xs[0].hi < xs[i].lo { }
  }

  /** A set of blocks has only one canonical list. */
  lemma {:induction false} CanonicalUnique(xs: seq<Interval>, ys: seq<Interval>)
    requires Canonical(xs) && Canonical(ys) && SameBlocks(xs, ys)
    ensures xs == ys
  {
    if xs == [] {
      if ys != [] { FirstInterval(ys, ys[0].lo); }
    } else if ys == [] {
      FirstInterval(xs, xs[0].lo);
    } else {
      SameFirst(xs, ys);
      SameTails(xs, ys);
      CanonicalTail(xs);
      CanonicalTail(ys);
      hide Canonical;
      hide SameBlocks;
      CanonicalUnique(xs[1..], ys[1..]);
      assert xs == [xs[0]] + xs[1..] && ys == [ys[0]] + ys[1..];
    }
  }

  lemma {:induction false} SameFirst(xs: seq<Interval>, ys: seq<Interval>)
    requires xs != [] && ys != [] && Canonical(xs) && Canonical(ys) && SameBlocks(xs, ys)
    ensures xs[0] == ys[0]
  {
    var x, y := xs[0], ys[0];
    assert forall b: nat :: Covered(xs, b) <==> Covered(ys, b);
    assert x.lo < x.hi && y.lo < y.hi;
    hide Canonical;
    hide SameBlocks;
    FirstInterval(xs, x.lo); FirstInterval(xs, y.lo); FirstInterval(xs, x.hi); FirstInterval(xs, y.hi);
    FirstInterval(ys, x.lo); FirstInterval(ys, y.lo); FirstInterval(ys, x.hi); FirstInterval(ys, y.hi);
    hide Covered;
  }

  lemma {:induction false} SameTails(xs: seq<Interval>, ys: seq<Interval>)
    requires xs != [] && ys != [] && Canonical(xs) && Canonical(ys) && SameBlocks(xs, ys) && xs[0] == ys[0]
    ensures SameBlocks(xs[1..], ys[1..])
  {
    forall b: nat ensures Covered(xs[1..], b) <==> Covered(ys[1..], b) {
      assert Covered(xs, b) <==> Covered(ys, b);
      CoveredTail(xs, b);
      CoveredTail(ys, b);
      FirstInterval(xs, b);
      FirstInterval(ys, b);
    }
  }

  // ---------------------------------------------------------------- specifications

  /** The set with [lo, hi) added, interval by interval. */
  function Added(ivs: seq<Interval>, lo: nat, hi: nat): seq<Interval> {
    if ivs == [] then [Interval(lo, hi)]
    else if ivs[0].hi < lo then [ivs[0]] + Added(ivs[1..], lo, hi)
    else if hi < ivs[0].lo then [Interval(lo, hi)] + ivs
    else Added(ivs[1..], Min(lo, ivs[0].lo), Max(hi, ivs[0].hi))
  }

  /** The parts of [cursor, hi) outside the set. */
  function Gaps(ivs: seq<Interval>, cursor: nat, hi: nat): seq<Interval> {
    if cursor >= hi then []
    else if ivs == [] then [Interval(cursor, hi)]
    else if ivs[0].hi <= cursor then Gaps(ivs[1..], cursor, hi)
    else if hi <= ivs[0].lo then [Interval(cursor, hi)]
    else (if cursor < ivs[0].lo then [Interval(cursor, ivs[0].lo)] else []) + Gaps(ivs[1..], ivs[0].hi, hi)
  }

  lemma {:induction false} CoveredCons(x: Interval, xs: seq<Interval>, b: nat)
    ensures Covered([x] + xs, b) <==> x.Has(b) || Covered(xs, b)
  {
    assert ([x] + xs)[1..] == xs;
    CoveredTail([x] + xs, b);
  }

  lemma {:induction false} CanonicalCons(x: Interval, xs: seq<Interval>)
    ensures Canonical([x] + xs) <==> Canonical(xs) && x.lo < x.hi && forall i | 0 <= i < |xs| :: x.hi < xs[i].lo
  {
    if Canonical([x] + xs) {
      assert ([x] + xs)[0] == x;
      assert forall i | 0 <= i < |xs| :: ([x] + xs)[i + 1] == xs[i];
    }
  }

  lemma {:induction false} AddedCovers(ivs: seq<Interval>, lo: nat, hi: nat, b: nat)
    requires lo < hi && Canonical(ivs)
    ensures Covered(Added(ivs, lo, hi), b) <==> Covered(ivs, b) || lo <= b < hi
  {
    if ivs == [] {
      CoveredTail([Interval(lo, hi)], b);
    } else {
      CoveredTail(ivs, b);
      if ivs[0].hi < lo {
        AddedCovers(ivs[1..], lo, hi, b);
        CoveredCons(ivs[0], Added(ivs[1..], lo, hi), b);
      } else if hi < ivs[0].lo {
        CoveredCons(Interval(lo, hi), ivs, b);
      } else {
        AddedCovers(ivs[1..], Min(lo, ivs[0].lo), Max(hi, ivs[0].hi), b);
      }
    }
  }

  lemma {:induction false} AddedCanonical(ivs: seq<Interval>, lo: nat, hi: nat, floor: int)
    requires lo < hi && Canonical(ivs)
    requires floor < lo && forall i | 0 <= i < |ivs| :: floor < ivs[i].lo
    ensures Canonical(Added(ivs, lo, hi))
    ensures forall i | 0 <= i < |Added(ivs, lo, hi)| :: floor < Added(ivs, lo, hi)[i].lo
  {
    if ivs == [] {
    } else if ivs[0].hi < lo {
      AddedCanonical(ivs[1..], lo, hi, ivs[0].hi);
      CanonicalCons(ivs[0], Added(ivs[1..], lo, hi));
    } else if hi < ivs[0].lo {
      CanonicalCons(Interval(lo, hi), ivs);
    } else {
      AddedCanonical(ivs[1..], Min(lo, ivs[0].lo), Max(hi, ivs[0].hi), floor);
    }
  }

  lemma {:induction false} GapsCover(ivs: seq<Interval>, cursor: nat, hi: nat, b: nat)
    requires Canonical(ivs)
    ensures Covered(Gaps(ivs, cursor, hi), b) <==> cursor <= b < hi && !Covered(ivs, b)
  {
    if cursor >= hi || ivs == [] {
      CoveredTail([Interval(cursor, hi)], b);
    } else {
      CoveredTail([Interval(cursor, hi)], b);
      CoveredTail(ivs, b);
      FirstInterval(ivs, b);
      if ivs[0].hi <= cursor {
        GapsCover(ivs[1..], cursor, hi, b);
      } else if ivs[0].lo < hi {
        GapsCover(ivs[1..], ivs[0].hi, hi, b);
        CoveredCons(Interval(cursor, ivs[0].lo), Gaps(ivs[1..], ivs[0].hi, hi), b);
        assert [] + Gaps(ivs[1..], ivs[0].hi, hi) == Gaps(ivs[1..], ivs[0].hi, hi);
      }
    }
  }

  lemma {:induction false} CanonicalTail(ivs: seq<Interval>)
    requires ivs != [] && Canonical(ivs)
    ensures Canonical(ivs[1..]) && ivs[0].lo < ivs[0].hi
  {
    assert ivs == [ivs[0]] + ivs[1..];
    CanonicalCons(ivs[0], ivs[1..]);
  }

  /** Every interval starts at or after c. */
  ghost predicate StartsFrom(ivs: seq<Interval>, c: nat) {
    forall i | 0 <= i < |ivs| :: c <= ivs[i].lo
  }

  lemma {:induction false} CanonicalPush(x: Interval, xs: seq<Interval>, c: nat)
    requires Canonical(xs) && StartsFrom(xs, c) && x.lo < x.hi < c
    ensures Canonical([x] + xs) && StartsFrom([x] + xs, x.lo)
  {
    CanonicalCons(x, xs);
  }

  lemma {:induction false} GapsCanonical(ivs: seq<Interval>, cursor: nat, hi: nat)
    requires Canonical(ivs)
    ensures Canonical(Gaps(ivs, cursor, hi)) && StartsFrom(Gaps(ivs, cursor, hi), cursor)
  {
    if cursor >= hi || ivs == [] {
    } else {
      var x := ivs[0];
      CanonicalTail(ivs);
      hide Canonical;
      if x.hi <= cursor {
        GapsCanonical(ivs[1..], cursor, hi);
      } else if x.lo < hi {
        var rest := Gaps(ivs[1..], x.hi, hi);
        GapsCanonical(ivs[1..], x.hi, hi);
        if cursor < x.lo {
          CanonicalPush(Interval(cursor, x.lo), rest, x.hi);
        } else {
          assert [] + rest == rest;
        }
      } else {
        CanonicalCons(Interval(cursor, hi), []);
        assert [Interval(cursor, hi)] + [] == [Interval(cursor, hi)];
        CanonicalNil();
      }
    }
  }

  lemma {:induction false} CanonicalNil()
    ensures Canonical([])
  {
  }

  /** Replacing ivs[f..t] by one interval m that has room on both sides. */
  lemma {:induction false} Splice(ivs: seq<Interval>, f: nat, t: nat, m: Interval)
    requires f <= t <= |ivs| && Canonical(ivs) && m.lo < m.hi
    requires forall i | 0 <= i < f :: ivs[i].hi < m.lo
    requires forall i | t <= i < |ivs| :: m.hi < ivs[i].lo
    ensures var r := ivs[..f] + [m] + ivs[t..];
      && Canonical(r)
      && (forall b: nat :: Covered(r, b) <==> m.Has(b) || Covered(ivs[..f], b) || Covered(ivs[t..], b))
      && (forall b: nat :: Covered(ivs, b) <==> Covered(ivs[..f], b) || Covered(ivs[f..t], b) || Covered(ivs[t..], b))
  {
    var r := ivs[..f] + [m] + ivs[t..];
    forall b: nat ensures Covered(r, b) <==> m.Has(b) || Covered(ivs[..f], b) || Covered(ivs[t..], b) {
      CoveredAppend(ivs[..f] + [m], ivs[t..], b);
      CoveredAppend(ivs[..f], [m], b);
      CoveredTail([m], b);
    }
    assert ivs == ivs[..f] + ivs[f..t] + ivs[t..];
    forall b: nat ensures Covered(ivs, b) <==> Covered(ivs[..f], b) || Covered(ivs[f..t], b) || Covered(ivs[t..], b) {
      CoveredAppend(ivs[..f] + ivs[f..t], ivs[t..], b);
      CoveredAppend(ivs[..f], ivs[f..t], b);
    }
  }

  lemma {:induction false} CoveredAppend(xs: seq<Interval>, ys: seq<Interval>, b: nat)
    ensures Covered(xs + ys, b) <==> Covered(xs, b) || Covered(ys, b)
  {
    if Covered(xs, b) {
      var i :| 0 <= i < |xs| && xs[i].Has(b);
      assert (xs + ys)[i].Has(b);
    }
    if Covered(ys, b) {
      var i :| 0 <= i < |ys| && ys[i].Has(b);
      assert (xs + ys)[|xs| + i].Has(b);
    }
  }

  class BlockSet {
    var intervals: seq<Interval>

    constructor ()
      ensures intervals == [] && Canonical(intervals)
    {
      intervals := [];
    }

    /** Adds [lo, hi), merging every interval it overlaps or touches. An empty range that touches
        none is left behind as an empty interval. */
    method Add(lo: nat, hi: nat)
      requires Canonical(intervals) && lo <= hi
      modifies this
      ensures forall b: nat :: Covered(intervals, b) <==> Covered(old(intervals), b) || lo <= b < hi
      ensures lo < hi ==> Canonical(intervals) && intervals == Added(old(intervals), lo, hi)
      ensures lo == hi ==>
        if TouchesSome(old(intervals), lo) then intervals == old(intervals) else Interval(lo, lo) in intervals
    {
      hide Covered; hide Canonical; hide Added;
      var first, last := -1, -1;
      var i := 0;
      while i < |intervals|
        invariant 0 <= i <= |intervals| && intervals == old(intervals)
        invariant -1 <= first <= last < i && (first == -1 <==> last == -1)
        invariant first == -1 ==> forall k | 0 <= k < i :: !Touches(intervals[k], lo, hi)
        invariant first >= 0 ==> Touches(intervals[first], lo, hi) && Touches(intervals[last], lo, hi)
        invariant first >= 0 ==> forall k | 0 <= k < first || last < k < i :: !Touches(intervals[k], lo, hi)
      {
        if intervals[i].lo <= hi && intervals[i].hi >= lo {
          if first == -1 { first := i; }
          last := i;
        }
        i := i + 1;
      }
      ghost var ivs := intervals;
      if first == -1 {
        var pos := SearchLo(lo);
        intervals := intervals[..pos] + [Interval(lo, hi)] + intervals[pos..];
        assert intervals[pos] == Interval(lo, hi);
        PutRun(ivs, pos, lo, hi);
      } else {
        var merged := Interval(lo, hi);
        if intervals[first].lo < merged.lo { merged := merged.(lo := intervals[first].lo); }
        if intervals[last].hi > merged.hi { merged := merged.(hi := intervals[last].hi); }
        intervals := intervals[first := merged];
        if last > first {
          intervals := intervals[..first + 1] + intervals[last + 1..];
        }
        assert intervals == ivs[..first] + [merged] + ivs[last + 1..];
        JoinRun(ivs, first, last, lo, hi, merged);
      }
    }

    /** sort.Search for the first interval with Lo >= lo. */
    method SearchLo(lo: nat) returns (pos: nat)
      requires Canonical(intervals)
      ensures pos <= |intervals|
      ensures forall k | 0 <= k < pos :: intervals[k].lo < lo
      ensures forall k | pos <= k < |intervals| :: lo <= intervals[k].lo
    {
      var i, j := 0, |intervals|;
      while i < j
        invariant 0 <= i <= j <= |intervals|
        invariant forall k | 0 <= k < i :: intervals[k].lo < lo
        invariant forall k | j <= k < |intervals| :: lo <= intervals[k].lo
      {
        var h := (i + j) / 2;
        if intervals[h].lo >= lo { j := h; } else { i := h + 1; }
      }
      pos := i;
    }

    /** The parts of [lo, hi) that no interval covers, in order. */
    method Uncovered(lo: nat, hi: nat) returns (gaps: seq<Interval>)
      requires Canonical(intervals)
      ensures Canonical(gaps)
      ensures forall b: nat :: Covered(gaps, b) <==> lo <= b < hi && !Covered(intervals, b)
      ensures gaps == Gaps(intervals, lo, hi)
    {
      gaps := [];
      var cursor: nat := lo;
      var i := 0;
      while i < |intervals|
        invariant 0 <= i <= |intervals|
        invariant gaps + Gaps(intervals[i..], cursor, hi) == Gaps(intervals, lo, hi)
      {
        var iv := intervals[i];
        assert intervals[i..][1..] == intervals[i + 1..];
        if iv.hi <= cursor {
          i := i + 1;
          continue;
        }
        if iv.lo >= hi {
          break;
        }
        if cursor < iv.lo {
          assert gaps + ([Interval(cursor, iv.lo)] + Gaps(intervals[i + 1..], iv.hi, hi))
              == gaps + [Interval(cursor, iv.lo)] + Gaps(intervals[i + 1..], iv.hi, hi);
          gaps := gaps + [Interval(cursor, iv.lo)];
        }
        if iv.hi > cursor { cursor := iv.hi; }
        i := i + 1;
      }
      assert Gaps(intervals[i..], cursor, hi) == if cursor < hi then [Interval(cursor, hi)] else [];
      if cursor < hi {
        gaps := gaps + [Interval(cursor, hi)];
      } else {
        assert gaps + [] == gaps;
      }
      GapsCanonical(intervals, lo, hi);
      forall b: nat ensures Covered(gaps, b) <==> lo <= b < hi && !Covered(intervals, b) {
        GapsCover(intervals, lo, hi, b);
      }
    }

    /** Whether one interval contains [lo, hi); for a non-empty range that is the same as
        having nothing uncovered. */
    method CoversAll(lo: nat, hi: nat) returns (r: bool)
      requires Canonical(intervals)
      ensures lo < hi ==> (r <==> Gaps(intervals, lo, hi) == [])
      ensures lo < hi ==> (r <==> forall b | lo <= b < hi :: Covered(intervals, b))
    {
      var i, j := 0, |intervals|;
      while i < j
        invariant 0 <= i <= j <= |intervals|
        invariant forall k | 0 <= k < i :: intervals[k].hi <= lo
        invariant forall k | j <= k < |intervals| :: lo < intervals[k].hi
      {
        var h := (i + j) / 2;
        if intervals[h].hi > lo { j := h; } else { i := h + 1; }
      }
      r := i < |intervals| && intervals[i].lo <= lo && intervals[i].hi >= hi;
      if lo < hi { CoversAllExact(intervals, lo, hi, i); }
    }
  }

  predicate Touches(iv: Interval, lo: nat, hi: nat) {
    iv.lo <= hi && iv.hi >= lo
  }

  /** The run of touching intervals together with [lo, hi) fills the merged interval. */
  lemma {:induction false} RunCovered(ivs: seq<Interval>, first: nat, last: nat, lo: nat, hi: nat, b: nat)
    requires Canonical(ivs) && lo < hi && first <= last < |ivs|
    requires Touches(ivs[first], lo, hi) && Touches(ivs[last], lo, hi)
    ensures Interval(Min(lo, ivs[first].lo), Max(hi, ivs[last].hi)).Has(b) <==>
            Covered(ivs[first..last + 1], b) || lo <= b < hi
  {
    var mid := ivs[first..last + 1];
    var m := Interval(Min(lo, ivs[first].lo), Max(hi, ivs[last].hi));
    assert mid[0] == ivs[first] && mid[|mid| - 1] == ivs[last];
    if m.Has(b) && !(lo <= b < hi) {
      assert mid[if b < lo then 0 else |mid| - 1].Has(b);
    }
    if Covered(mid, b) {
      var i :| 0 <= i < |mid| && mid[i].Has(b);
      assert mid[i] == ivs[first + i];
      assert i > 0 ==> ivs[first].hi < ivs[first + i].lo;
      assert first + i < last ==> ivs[first + i].hi < ivs[last].lo;
    }
  }

  /** The merged interval covers exactly [lo, hi) and the run of intervals it replaces. */
  lemma {:induction false} MergedRun(ivs: seq<Interval>, first: nat, last: nat, lo: nat, hi: nat, m: Interval)
    requires Canonical(ivs) && lo < hi && first <= last < |ivs|
    requires Touches(ivs[first], lo, hi) && Touches(ivs[last], lo, hi)
    requires forall k | 0 <= k < first || last < k < |ivs| :: !Touches(ivs[k], lo, hi)
    requires m == Interval(Min(lo, ivs[first].lo), Max(hi, ivs[last].hi))
    ensures var r := ivs[..first] + [m] + ivs[last + 1..];
      Canonical(r) && forall b: nat :: Covered(r, b) <==> Covered(ivs, b) || lo <= b < hi
  {
    forall i | 0 <= i < first ensures ivs[i].hi < m.lo { assert ivs[i].hi < ivs[first].lo; }
    forall i | last + 1 <= i < |ivs| ensures m.hi < ivs[i].lo { assert ivs[last].hi < ivs[i].lo; }
    assert m.lo < m.hi;
    hide Canonical;
    hide Covered;
    Splice(ivs, first, last + 1, m);
    forall b: nat ensures Covered(ivs[..first] + [m] + ivs[last + 1..], b) <==> Covered(ivs, b) || lo <= b < hi {
      RunCovered(ivs, first, last, lo, hi, b);
    }
  }

  /** Some interval overlaps or touches the empty range at lo. */
  ghost predicate TouchesSome(ivs: seq<Interval>, lo: nat) {
    exists k | 0 <= k < |ivs| :: Touches(ivs[k], lo, lo)
  }

  lemma {:induction false} PutRun(ivs: seq<Interval>, pos: nat, lo: nat, hi: nat)
    requires Canonical(ivs) && lo <= hi && pos <= |ivs|
    requires forall k | 0 <= k < |ivs| :: !Touches(ivs[k], lo, hi) && (lo <= ivs[k].lo <==> k >= pos)
    ensures var r := ivs[..pos] + [Interval(lo, hi)] + ivs[pos..];
      && (forall b: nat :: Covered(r, b) <==> Covered(ivs, b) || lo <= b < hi)
      && (lo < hi ==> Canonical(r) && r == Added(ivs, lo, hi))
  {
    hide Canonical; hide Added; hide Covered;
    var r := ivs[..pos] + [Interval(lo, hi)] + ivs[pos..];
    if lo < hi {
      InsertedRun(ivs, pos, lo, hi);
      AddedUnique(ivs, r, lo, hi);
    } else {
      forall b: nat ensures Covered(r, b) <==> Covered(ivs, b) {
        CoveredAppend(ivs[..pos] + [Interval(lo, lo)], ivs[pos..], b);
        CoveredAppend(ivs[..pos], [Interval(lo, lo)], b);
        CoveredAppend(ivs[..pos], ivs[pos..], b);
        assert ivs == ivs[..pos] + ivs[pos..];
        EmptyCovers(lo, b);
      }
    }
  }

  lemma {:induction false} EmptyCovers(lo: nat, b: nat)
    ensures !Covered([Interval(lo, lo)], b)
  {
  }

  lemma {:induction false} JoinRun(ivs: seq<Interval>, first: nat, last: nat, lo: nat, hi: nat, m: Interval)
    requires Canonical(ivs) && lo <= hi && first <= last < |ivs|
    requires Touches(ivs[first], lo, hi) && Touches(ivs[last], lo, hi)
    requires forall k | 0 <= k < first || last < k < |ivs| :: !Touches(ivs[k], lo, hi)
    requires m == Interval(Min(lo, ivs[first].lo), Max(hi, ivs[last].hi))
    ensures var r := ivs[..first] + [m] + ivs[last + 1..];
      && (forall b: nat :: Covered(r, b) <==> Covered(ivs, b) || lo <= b < hi)
      && (lo < hi ==> Canonical(r) && r == Added(ivs, lo, hi))
      && (lo == hi ==> r == ivs && TouchesSome(ivs, lo))
  {
    hide Added; hide Covered;
    var r := ivs[..first] + [m] + ivs[last + 1..];
    if lo < hi {
      MergedRun(ivs, first, last, lo, hi, m);
      AddedUnique(ivs, r, lo, hi);
    } else {
      assert first == last && m == ivs[first];
      assert r == ivs;
    }
  }

  /** The range fits between its neighbours. */
  lemma {:induction false} InsertedRun(ivs: seq<Interval>, pos: nat, lo: nat, hi: nat)
    requires Canonical(ivs) && lo < hi && pos <= |ivs|
    requires forall k | 0 <= k < |ivs| :: !Touches(ivs[k], lo, hi) && (lo <= ivs[k].lo <==> k >= pos)
    ensures var r := ivs[..pos] + [Interval(lo, hi)] + ivs[pos..];
      Canonical(r) && forall b: nat :: Covered(r, b) <==> Covered(ivs, b) || lo <= b < hi
  {
    Splice(ivs, pos, pos, Interval(lo, hi));
    assert ivs[pos..pos] == [];
  }

  /** A canonical list with the right blocks is the specified one. */
  lemma {:induction false} AddedUnique(ivs: seq<Interval>, r: seq<Interval>, lo: nat, hi: nat)
    requires Canonical(ivs) && Canonical(r) && lo < hi
    requires forall b: nat :: Covered(r, b) <==> Covered(ivs, b) || lo <= b < hi
    ensures r == Added(ivs, lo, hi)
  {
    forall b: nat ensures Covered(r, b) <==> Covered(Added(ivs, lo, hi), b) {
      AddedCovers(ivs, lo, hi, b);
    }
    AddedCanonical(ivs, lo, hi, -1);
    CanonicalUnique(r, Added(ivs, lo, hi));
  }

  /** idx is the first interval ending after lo. */
  lemma {:induction false} CoversAllExact(ivs: seq<Interval>, lo: nat, hi: nat, idx: nat)
    requires Canonical(ivs) && lo < hi && idx <= |ivs|
    requires forall k | 0 <= k < idx :: ivs[k].hi <= lo
    requires forall k | idx <= k < |ivs| :: lo < ivs[k].hi
    ensures var r := idx < |ivs| && ivs[idx].lo <= lo && ivs[idx].hi >= hi;
      && (r <==> forall b | lo <= b < hi :: Covered(ivs, b))
      && (r <==> Gaps(ivs, lo, hi) == [])
  {
    var r := idx < |ivs| && ivs[idx].lo <= lo && ivs[idx].hi >= hi;
    var g := Gaps(ivs, lo, hi);
    GapsCanonical(ivs, lo, hi);
    if r {
      forall b | lo <= b < hi ensures Covered(ivs, b) { assert ivs[idx].Has(b); }
      if g != [] { FirstInterval(g, g[0].lo); GapsCover(ivs, lo, hi, g[0].lo); }
    } else {
      var b := if idx < |ivs| && ivs[idx].lo <= lo then ivs[idx].hi else lo;
      assert !Covered(ivs, b) by {
        forall k | 0 <= k < |ivs| ensures !ivs[k].Has(b) {
          if idx < k { assert ivs[idx].hi < ivs[k].lo; }
        }
      }
      GapsCover(ivs, lo, hi, b);
    }
  }
}
