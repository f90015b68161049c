/** The backward sweep that finds which blocks of each entry no later entry shadows, and the
    entries cut out of them. Used by repack and by retirement. */
module Sweep {
  import opened Bytes
  import opened BlockSets
  import opened LogReplay
  import opened Options

  /** ranges[i] is the canonical list of the blocks whose last toucher is entry i. */
  ghost predicate IsSweep(es: seq<Entry>, bs: nat, ranges: seq<seq<Interval>>)
    requires bs > 0
  {
    && |ranges| == |es|
    && forall i | 0 <= i < |es| ::
         Canonical(ranges[i]) && forall b: nat :: Covered(ranges[i], b) <==> LastToucher(es, bs, b) == i
  }

  method ReverseSweep(es: seq<Entry>, bs: nat) returns (ranges: seq<seq<Interval>>)
    requires bs > 0
    ensures IsSweep(es, bs, ranges)
  {
    var covered := new BlockSet();
    ranges := seq(|es|, _ => []);
    var i := |es|;
    while i > 0
      invariant 0 <= i <= |es| && |ranges| == |es|
      invariant Canonical(covered.intervals)
      invariant forall b: nat :: Covered(covered.intervals, b) <==> LastToucher(es, bs, b) >= i
      invariant forall j | i <= j < |es| ::
          Canonical(ranges[j]) && forall b: nat :: Covered(ranges[j], b) <==> LastToucher(es, bs, b) == j
    {
      i := i - 1;
      var lo := es[i].block;
      var hi := lo + es[i].NumBlocks(bs);
      var uncovered := covered.Uncovered(lo, hi);
      forall b: nat ensures Covered(uncovered, b) <==> LastToucher(es, bs, b) == i {
        assert lo <= b < hi <==> es[i].Touches(bs, b);
      }
      ranges := ranges[i := uncovered];
      if |uncovered| > 0 {
        covered.Add(lo, hi);
      }
    }
  }

  // ---------------------------------------------------------------- emitted entries

  /** Non-empty ranges inside entry e. */
  ghost predicate Within(e: Entry, bs: nat, rs: seq<Interval>)
    requires bs > 0
  {
    forall i | 0 <= i < |rs| :: e.block <= rs[i].lo < rs[i].hi <= e.block + e.NumBlocks(bs)
  }

  function Cuts(e: Entry, rs: seq<Interval>, bs: nat): seq<Entry>
    requires bs > 0 && e.Aligned(bs) && Within(e, bs, rs)
  {
    if rs == [] then [] else Cuts(e, rs[..|rs| - 1], bs) + [Cut(e, rs[|rs| - 1], bs)]
  }

  ghost predicate AllWithin(es: seq<Entry>, bs: nat, ranges: seq<seq<Interval>>)
    requires bs > 0
  {
    |ranges| == |es| && AllAligned(es, bs) && forall i | 0 <= i < |es| :: Within(es[i], bs, ranges[i])
  }

  /** The cuts of the first n entries, in order. */
  function Emit(es: seq<Entry>, ranges: seq<seq<Interval>>, bs: nat, n: nat): seq<Entry>
    requires bs > 0 && n <= |es| && AllWithin(es, bs, ranges)
  {
    if n == 0 then [] else Emit(es, ranges, bs, n - 1) + Cuts(es[n - 1], ranges[n - 1], bs)
  }

  function TouchCount(es: seq<Entry>, bs: nat, b: nat): nat
    requires bs > 0
  {
    if es == [] then 0
    else TouchCount(es[..|es| - 1], bs, b) + if es[|es| - 1].Touches(bs, b) then 1 else 0
  }

  lemma {:induction false} TouchCountAppend(xs: seq<Entry>, ys: seq<Entry>, bs: nat, b: nat)
    requires bs > 0
    ensures TouchCount(xs + ys, bs, b) == TouchCount(xs, bs, b) + TouchCount(ys, bs, b)
  {
    if ys == [] {
      assert xs + ys == xs;
    } else {
      assert (xs + ys)[..|xs + ys| - 1] == xs + ys[..|ys| - 1];
      TouchCountAppend(xs, ys[..|ys| - 1], bs, b);
    }
  }

  lemma {:induction false} CoveredSnoc(rs: seq<Interval>, b: nat)
    requires rs != []
    ensures Covered(rs, b) <==> Covered(rs[..|rs| - 1], b) || rs[|rs| - 1].Has(b)
  {
    assert rs == rs[..|rs| - 1] + [rs[|rs| - 1]];
    CoveredAppend(rs[..|rs| - 1], [rs[|rs| - 1]], b);
    CoveredTail([rs[|rs| - 1]], b);
  }

  /** The cuts of one entry write exactly the covered blocks, with the entry's own bytes. */
  lemma {:induction false} CutsEffect(e: Entry, rs: seq<Interval>, bs: nat, p: nat)
    requires bs > 0 && e.Aligned(bs) && Within(e, bs, rs)
    ensures Covered(rs, p / bs) ==> e.HasByte(bs, p)
    ensures Effect(Cuts(e, rs, bs), bs, p) == if Covered(rs, p / bs) then Some(HitOf(e, bs, p)) else None
    ensures AllAligned(Cuts(e, rs, bs), bs)
  {
    if rs != [] {
      var n := |rs| - 1;
      CutsEffect(e, rs[..n], bs, p);
      CutShape(e, rs[n], bs, p);
      CoveredSnoc(rs, p / bs);
      var cs := Cuts(e, rs, bs);
      assert cs[..|cs| - 1] == Cuts(e, rs[..n], bs);
    }
  }

  /** The last range of a canonical list shares no block with the others. */
  lemma {:induction false} CanonicalLast(rs: seq<Interval>, b: nat)
    requires rs != [] && Canonical(rs)
    ensures Canonical(rs[..|rs| - 1]) && !(Covered(rs[..|rs| - 1], b) && rs[|rs| - 1].Has(b))
  {
    var n := |rs| - 1;
    if Covered(rs[..n], b) {
      var i :| 0 <= i < n && rs[..n][i].Has(b);
      assert rs[i].hi < rs[n].lo;
    }
  }

  lemma {:induction false} CutsCount(e: Entry, rs: seq<Interval>, bs: nat, b: nat)
    requires bs > 0 && e.Aligned(bs) && Within(e, bs, rs) && Canonical(rs)
    ensures TouchCount(Cuts(e, rs, bs), bs, b) == if Covered(rs, b) then 1 else 0
  {
    if rs != [] {
      var n := |rs| - 1;
      CanonicalLast(rs, b);
      CoveredSnoc(rs, b);
      CutShape(e, rs[n], bs, 0);
      hide Canonical;
      hide Covered;
      CutsCount(e, rs[..n], bs, b);
      var cs := Cuts(e, rs, bs);
      assert cs[..|cs| - 1] == Cuts(e, rs[..n], bs) && cs[|cs| - 1] == Cut(e, rs[n], bs);
      hide Cut;
    }
  }

  /** Sound ranges: a block is emitted for an entry only if the entry is its last toucher. */
  ghost predicate OnlyLast(es: seq<Entry>, bs: nat, ranges: seq<seq<Interval>>)
    requires bs > 0
  {
    |ranges| == |es| &&
    forall i, b: nat | 0 <= i < |es| && Covered(ranges[i], b) :: LastToucher(es, bs, b) == i
  }

  /** What the emitted entries do to a byte: what the original entries do if its block was
      emitted, nothing otherwise. */
  lemma {:induction false} EmitEffect(es: seq<Entry>, ranges: seq<seq<Interval>>, bs: nat, n: nat, p: nat)
    requires bs > 0 && n <= |es| && AllWithin(es, bs, ranges) && OnlyLast(es, bs, ranges)
    ensures var k := LastToucher(es, bs, p / bs);
      Effect(Emit(es, ranges, bs, n), bs, p) ==
        if 0 <= k < n && Covered(ranges[k], p / bs) then Effect(es, bs, p) else None
    ensures AllAligned(Emit(es, ranges, bs, n), bs)
  {
    if n > 0 {
      EmitEffect(es, ranges, bs, n - 1, p);
      CutsEffect(es[n - 1], ranges[n - 1], bs, p);
      EffectAppend(Emit(es, ranges, bs, n - 1), Cuts(es[n - 1], ranges[n - 1], bs), bs, p);
      EffectLast(es, bs, p);
    }
  }

  lemma {:induction false} EmitCount(es: seq<Entry>, ranges: seq<seq<Interval>>, bs: nat, n: nat, b: nat)
    requires bs > 0 && n <= |es| && AllWithin(es, bs, ranges) && OnlyLast(es, bs, ranges)
    requires forall i | 0 <= i < |es| :: Canonical(ranges[i])
    ensures var k := LastToucher(es, bs, b);
      TouchCount(Emit(es, ranges, bs, n), bs, b) == if 0 <= k < n && Covered(ranges[k], b) then 1 else 0
  {
    if n > 0 {
      EmitCount(es, ranges, bs, n - 1, b);
      CutsCount(es[n - 1], ranges[n - 1], bs, b);
      TouchCountAppend(Emit(es, ranges, bs, n - 1), Cuts(es[n - 1], ranges[n - 1], bs), bs, b);
    }
  }

  lemma {:induction false} SweepWithin(es: seq<Entry>, bs: nat, ranges: seq<seq<Interval>>)
    requires bs > 0 && AllAligned(es, bs) && IsSweep(es, bs, ranges)
    ensures AllWithin(es, bs, ranges) && OnlyLast(es, bs, ranges)
  {
    forall i | 0 <= i < |es| ensures Within(es[i], bs, ranges[i]) {
      forall k | 0 <= k < |ranges[i]|
        ensures es[i].block <= ranges[i][k].lo < ranges[i][k].hi <= es[i].block + es[i].NumBlocks(bs)
      {
        var r := ranges[i][k];
        assert r.Has(r.lo) && r.Has(r.hi - 1);
        assert Covered(ranges[i], r.lo) && Covered(ranges[i], r.hi - 1);
        assert LastToucher(es, bs, r.lo) == i && LastToucher(es, bs, r.hi - 1) == i;
      }
    }
  }

  /** Appends the cuts of each entry to the output, as the writing loops of repack and of
      retirement do. */
  method EmitLoop(es: seq<Entry>, ranges: seq<seq<Interval>>, bs: nat) returns (out: seq<Entry>)
    requires bs > 0 && AllWithin(es, bs, ranges)
    ensures out == Emit(es, ranges, bs, |es|)
  {
    out := [];
    for i := 0 to |es|
      invariant out == Emit(es, ranges, bs, i)
    {
      var before := out;
      for k := 0 to |ranges[i]|
        invariant out == before + Cuts(es[i], ranges[i][..k], bs)
      {
        var rs := ranges[i][..k + 1];
        assert rs[..k] == ranges[i][..k];
        out := out + [Cut(es[i], ranges[i][k], bs)];
      }
      assert ranges[i][..|ranges[i]|] == ranges[i];
    }
  }

  /** lbdlog repack: one entry per run of blocks, each block exactly once, same replay. */
  method Repack(es: seq<Entry>, bs: nat) returns (out: seq<Entry>)
    requires bs > 0 && AllAligned(es, bs)
    ensures AllAligned(out, bs)
    ensures forall p: nat, base: byte :: Replay(out, bs, p, base) == Replay(es, bs, p, base)
    ensures forall b: nat :: TouchCount(out, bs, b) == if LastToucher(es, bs, b) >= 0 then 1 else 0
  {
    var ranges := ReverseSweep(es, bs);
    SweepWithin(es, bs, ranges);
    out := EmitLoop(es, ranges, bs);
    EmitEffect(es, ranges, bs, |es|, 0);
    forall p: nat, base: byte ensures Replay(out, bs, p, base) == Replay(es, bs, p, base) {
      EffectLast(es, bs, p);
      EmitEffect(es, ranges, bs, |es|, p);
      ReplayByEffect(es, bs, p, base);
      ReplayByEffect(out, bs, p, base);
    }
    forall b: nat ensures TouchCount(out, bs, b) == if LastToucher(es, bs, b) >= 0 then 1 else 0 {
      EmitCount(es, ranges, bs, |es|, b);
    }
  }

  // ---------------------------------------------------------------- the sweep as a function

  /** The blocks touched by entry i or a later one, as a canonical list. */
  function SweepCovered(es: seq<Entry>, bs: nat, i: nat): seq<Interval>
    requires bs > 0 && i <= |es|
    decreases |es| - i
  {
    if i == |es| then []
    else Added(SweepCovered(es, bs, i + 1), es[i].block, es[i].block + es[i].NumBlocks(bs))
  }

  /** The blocks of entry i that no later entry touches. */
  function SweepRange(es: seq<Entry>, bs: nat, i: nat): seq<Interval>
    requires bs > 0 && i < |es|
  {
    Gaps(SweepCovered(es, bs, i + 1), es[i].block, es[i].block + es[i].NumBlocks(bs))
  }

  lemma {:induction false} SweepCoveredExact(es: seq<Entry>, bs: nat, i: nat)
    requires bs > 0 && i <= |es|
    ensures Canonical(SweepCovered(es, bs, i))
    ensures forall b: nat :: Covered(SweepCovered(es, bs, i), b) <==> LastToucher(es, bs, b) >= i
    decreases |es| - i
  {
    if i < |es| {
      SweepCoveredExact(es, bs, i + 1);
      var lo := es[i].block;
      var hi := lo + es[i].NumBlocks(bs);
      var ivs := SweepCovered(es, bs, i + 1);
      AddedCanonical(ivs, lo, hi, -1);
      forall b: nat ensures Covered(SweepCovered(es, bs, i), b) <==> LastToucher(es, bs, b) >= i {
        AddedCovers(ivs, lo, hi, b);
        assert lo <= b < hi <==> es[i].Touches(bs, b);
      }
    }
  }

  lemma {:induction false} SweepRangeExact(es: seq<Entry>, bs: nat, i: nat)
    requires bs > 0 && i < |es|
    ensures Canonical(SweepRange(es, bs, i))
    ensures forall b: nat :: Covered(SweepRange(es, bs, i), b) <==> LastToucher(es, bs, b) == i
  {
    SweepCoveredExact(es, bs, i + 1);
    var lo := es[i].block;
    var hi := lo + es[i].NumBlocks(bs);
    var ivs := SweepCovered(es, bs, i + 1);
    GapsCanonical(ivs, lo, hi);
    forall b: nat ensures Covered(SweepRange(es, bs, i), b) <==> LastToucher(es, bs, b) == i {
      GapsCover(ivs, lo, hi, b);
      assert lo <= b < hi <==> es[i].Touches(bs, b);
    }
  }

  /** A set of blocks has one canonical list, so a sweep has one result. */
  lemma {:induction false} SweepUnique(es: seq<Entry>, bs: nat, ranges: seq<seq<Interval>>)
    requires bs > 0 && IsSweep(es, bs, ranges)
    ensures forall i | 0 <= i < |es| :: ranges[i] == SweepRange(es, bs, i)
  {
    forall i | 0 <= i < |es| ensures ranges[i] == SweepRange(es, bs, i) {
      SweepRangeExact(es, bs, i);
      CanonicalUnique(ranges[i], SweepRange(es, bs, i));
    }
  }
}
