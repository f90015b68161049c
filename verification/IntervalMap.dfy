/** Interval maps: lists of extents, each giving one owner to a run of blocks.
    Both ExtentMap (owner = a log entry) and LiveMap (owner = a segment and a kind)
    keep such a list and edit it with the same two algorithms. */
module IntervalMap {
  import opened Options

  datatype Extent<+T> = Extent(start: nat, blocks: nat, tag: T) {
    function End(): nat { start + blocks }
    predicate Has(b: nat) { start <= b < End() }
  }

  /** The owner of block b: the tag of the first extent holding it. */
  function Owner<T>(xs: seq<Extent<T>>, b: nat): Option<T> {
    if xs == [] then None
    else if xs[0].Has(b) then Some(xs[0].tag)
    else Owner(xs[1..], b)
  }

  ghost predicate Positive<T>(xs: seq<Extent<T>>) {
    forall i | 0 <= i < |xs| :: xs[i].blocks > 0
  }

  ghost predicate Apart<T>(x: Extent<T>, y: Extent<T>) {
    x.End() <= y.start || y.End() <= x.start
  }

  ghost predicate Disjoint<T>(xs: seq<Extent<T>>) {
    forall i, j | 0 <= i < j < |xs| :: Apart(xs[i], xs[j])
  }

  /** Sorted by start and non-overlapping, as the type comments promise. */
  ghost predicate Sorted<T>(xs: seq<Extent<T>>) {
    forall i, j | 0 <= i < j < |xs| :: xs[i].End() <= xs[j].start
  }

  /** part is a piece of whole: same owner, contained range. */
  ghost predicate PieceOf<T>(part: Extent<T>, whole: Extent<T>) {
    part.tag == whole.tag && whole.start <= part.start && part.End() <= whole.End()
  }

  // ---------------------------------------------------------------- algorithms

  /** What is left of an overlapping extent outside [lo, hi). */
  function Pieces<T>(x: Extent<T>, lo: nat, hi: nat): seq<Extent<T>>
    requires x.start < hi && lo < x.End()
  {
    (if x.start < lo then [Extent(x.start, lo - x.start, x.tag)] else []) +
    (if x.End() > hi then [Extent(hi, x.End() - hi, x.tag)] else [])
  }

  predicate Misses<T>(x: Extent<T>, lo: nat, hi: nat) {
    x.End() <= lo || x.start >= hi
  }

  datatype ScanState<+T> = ScanState(result: seq<Extent<T>>, inserted: bool)

  /** One round of the insertion loop. */
  function InsertStep<T>(s: ScanState<T>, x: Extent<T>, e: Extent<T>): ScanState<T> {
    if Misses(x, e.start, e.End()) then
      if !s.inserted && x.start >= e.End()
      then ScanState(s.result + [e, x], true)
      else ScanState(s.result + [x], s.inserted)
    else ScanState(s.result + Pieces(x, e.start, e.End()), s.inserted)
  }

  function InsertScan<T>(xs: seq<Extent<T>>, e: Extent<T>): ScanState<T> {
    if xs == [] then ScanState([], false)
    else InsertStep(InsertScan(xs[..|xs| - 1], e), xs[|xs| - 1], e)
  }

  /** sort.Search for the first start >= key: a binary search, whatever the order of xs. */
  function SearchStart<T>(xs: seq<Extent<T>>, key: nat, i: nat, j: nat): (pos: nat)
    requires i <= j <= |xs|
    ensures i <= pos <= j
    decreases j - i
  {
    if i == j then i
    else
      var h := (i + j) / 2;
      if xs[h].start >= key then SearchStart(xs, key, i, h) else SearchStart(xs, key, h + 1, j)
  }

  /** The list that AddWrite and applyOp leave behind. */
  function Inserted<T>(xs: seq<Extent<T>>, e: Extent<T>): seq<Extent<T>> {
    var s := InsertScan(xs, e);
    if s.inserted then s.result
    else
      var pos := SearchStart(s.result, e.start, 0, |s.result|);
      s.result[..pos] + [e] + s.result[pos..]
  }

  /** The list that RemoveTrim leaves behind. */
  function Removed<T>(xs: seq<Extent<T>>, lo: nat, hi: nat): seq<Extent<T>> {
    if xs == [] then []
    else
      var x := xs[|xs| - 1];
      Removed(xs[..|xs| - 1], lo, hi) +
      (if Misses(x, lo, hi) then [x] else Pieces(x, lo, hi))
  }

  /** The clipped extents that Lookup and intersectRange report: the scan stops at the
      first extent that starts at or after hi. */
  function Query<T>(xs: seq<Extent<T>>, lo: nat, hi: nat): seq<Extent<T>>
    requires lo <= hi
  {
    if xs == [] then []
    else if xs[0].End() <= lo then Query(xs[1..], lo, hi)
    else if xs[0].start >= hi then []
    else
      var s := if xs[0].start < lo then lo else xs[0].start;
      var e := if xs[0].End() > hi then hi else xs[0].End();
      [Extent(s, e - s, xs[0].tag)] + Query(xs[1..], lo, hi)
  }

  // ---------------------------------------------------------------- owners

  lemma {:induction false} OwnerAppend<T>(xs: seq<Extent<T>>, ys: seq<Extent<T>>, b: nat)
    ensures Owner(xs + ys, b) == if Owner(xs, b).Some? then Owner(xs, b) else Owner(ys, b)
  {
    if xs == [] {
      assert xs + ys == ys;
    } else {
      assert (xs + ys)[1..] == xs[1..] + ys;
      OwnerAppend(xs[1..], ys, b);
    }
  }

  /** In a disjoint list any extent holding b names its owner. */
  lemma {:induction false} OwnerAt<T>(xs: seq<Extent<T>>, k: nat, b: nat)
    requires k < |xs| && xs[k].Has(b) && Disjoint(xs)
    ensures Owner(xs, b) == Some(xs[k].tag)
  {
    if k > 0 {
      assert Apart(xs[0], xs[k]);
      forall i, j | 0 <= i < j < |xs[1..]| ensures Apart(xs[1..][i], xs[1..][j]) {
        assert Apart(xs[i + 1], xs[j + 1]);
      }
      OwnerAt(xs[1..], k - 1, b);
    }
  }

  lemma {:induction false} OwnerWitness<T>(xs: seq<Extent<T>>, b: nat) returns (k: nat)
    requires Owner(xs, b).Some?
    ensures k < |xs| && xs[k].Has(b) && Owner(xs, b) == Some(xs[k].tag)
  {
    if xs[0].Has(b) {
      k := 0;
    } else {
      k := OwnerWitness(xs[1..], b);
      k := k + 1;
    }
  }

  lemma {:induction false} OwnerNone<T>(xs: seq<Extent<T>>, b: nat)
    ensures Owner(xs, b).None? <==> forall i | 0 <= i < |xs| :: !xs[i].Has(b)
  {
    if Owner(xs, b).Some? {
      var k := OwnerWitness(xs, b);
    } else {
      OwnerNoneForward(xs, b);
    }
  }

  lemma {:induction false} OwnerNoneForward<T>(xs: seq<Extent<T>>, b: nat)
    requires Owner(xs, b).None?
    ensures forall i | 0 <= i < |xs| :: !xs[i].Has(b)
  {
    if xs != [] {
      OwnerNoneForward(xs[1..], b);
      forall i | 0 <= i < |xs| ensures !xs[i].Has(b) {
        if i > 0 { assert xs[i] == xs[1..][i - 1]; }
      }
    }
  }

  lemma {:induction false} OwnerOne<T>(x: Extent<T>, b: nat)
    ensures Owner([x], b) == if x.Has(b) then Some(x.tag) else None
  {
    assert [x][1..] == [];
  }

  lemma {:induction false} OwnerPieces<T>(x: Extent<T>, lo: nat, hi: nat, b: nat)
    requires x.start < hi && lo < x.End() && lo <= hi
    ensures Owner(Pieces(x, lo, hi), b) == if x.Has(b) && !(lo <= b < hi) then Some(x.tag) else None
  {
    var l := Extent(x.start, if x.start < lo then lo - x.start else 0, x.tag);
    var r := Extent(hi, if x.End() > hi then x.End() - hi else 0, x.tag);
    OwnerOne(l, b);
    OwnerOne(r, b);
    OwnerAppend([l], [r], b);
    assert [] + [r] == [r] && [l] + [] == [l];
  }

  /** While scanning, blocks outside the new range keep their owner; blocks inside belong
      to the new extent if it is already placed and to nobody otherwise. */
  lemma {:induction false} InsertScanOwner<T>(xs: seq<Extent<T>>, e: Extent<T>, b: nat)
    ensures Owner(InsertScan(xs, e).result, b) ==
            if e.Has(b) then (if InsertScan(xs, e).inserted then Some(e.tag) else None)
            else Owner(xs, b)
  {
    if xs != [] {
      var n := |xs| - 1;
      var x := xs[n];
      var s := InsertScan(xs[..n], e);
      InsertScanOwner(xs[..n], e, b);
      assert xs[..n] + [x] == xs;
      OwnerAppend(xs[..n], [x], b);
      OwnerOne(x, b);
      OwnerOne(e, b);
      if Misses(x, e.start, e.End()) {
        OwnerAppend(s.result, [x], b);
        OwnerAppend(s.result, [e, x], b);
        OwnerAppend([e], [x], b);
        assert [e] + [x] == [e, x];
      } else {
        OwnerPieces(x, e.start, e.End(), b);
        OwnerAppend(s.result, Pieces(x, e.start, e.End()), b);
      }
    }
  }

  /** Insertion overrides the block-to-owner function on the new range and nowhere else. */
  lemma {:induction false} InsertedOwner<T>(xs: seq<Extent<T>>, e: Extent<T>, b: nat)
    ensures Owner(Inserted(xs, e), b) == if e.Has(b) then Some(e.tag) else Owner(xs, b)
  {
    InsertScanOwner(xs, e, b);
    var r := InsertScan(xs, e).result;
    if !InsertScan(xs, e).inserted {
      var pos := SearchStart(r, e.start, 0, |r|);
      OwnerAppend(r[..pos] + [e], r[pos..], b);
      OwnerAppend(r[..pos], [e], b);
      OwnerOne(e, b);
      OwnerAppend(r[..pos], r[pos..], b);
      assert r[..pos] + r[pos..] == r;
    }
  }

  /** Trimming erases the owner on the range and nowhere else. */
  lemma {:induction false} RemovedOwner<T>(xs: seq<Extent<T>>, lo: nat, hi: nat, b: nat)
    requires lo <= hi
    ensures Owner(Removed(xs, lo, hi), b) == if lo <= b < hi then None else Owner(xs, b)
  {
    if xs != [] {
      var n := |xs| - 1;
      var x := xs[n];
      RemovedOwner(xs[..n], lo, hi, b);
      assert xs[..n] + [x] == xs;
      OwnerAppend(xs[..n], [x], b);
      OwnerOne(x, b);
      var tail := if Misses(x, lo, hi) then [x] else Pieces(x, lo, hi);
      if !Misses(x, lo, hi) { OwnerPieces(x, lo, hi, b); }
      OwnerAppend(Removed(xs[..n], lo, hi), tail, b);
    }
  }

  // ---------------------------------------------------------------- disjointness

  /** How many extents of the list hold block b. */
  function Count<T>(xs: seq<Extent<T>>, b: nat): nat {
    if xs == [] then 0 else (if xs[0].Has(b) then 1 else 0) + Count(xs[1..], b)
  }

  lemma {:induction false} CountAppend<T>(xs: seq<Extent<T>>, ys: seq<Extent<T>>, b: nat)
    ensures Count(xs + ys, b) == Count(xs, b) + Count(ys, b)
  {
    if xs == [] {
      assert xs + ys == ys;
    } else {
      assert (xs + ys)[1..] == xs[1..] + ys;
      CountAppend(xs[1..], ys, b);
    }
  }

  lemma {:induction false} CountPositive<T>(xs: seq<Extent<T>>, k: nat, b: nat)
    requires k < |xs| && xs[k].Has(b)
    ensures Count(xs, b) >= 1
  {
    if k > 0 { CountPositive(xs[1..], k - 1, b); }
  }

  /** Two extents that are not apart share a block, which is then counted twice. */
  lemma {:induction false} CountTwice<T>(xs: seq<Extent<T>>, i: nat, j: nat, b: nat)
    requires i < j < |xs| && xs[i].Has(b) && xs[j].Has(b)
    ensures Count(xs, b) >= 2
  {
    if i == 0 { CountPositive(xs[1..], j - 1, b); }
    else { CountTwice(xs[1..], i - 1, j - 1, b); }
  }

  lemma {:induction false} DisjointFromCounts<T>(xs: seq<Extent<T>>)
    requires Positive(xs) && forall b: nat :: Count(xs, b) <= 1
    ensures Disjoint(xs)
  {
    forall i, j | 0 <= i < j < |xs| ensures Apart(xs[i], xs[j]) {
      if !Apart(xs[i], xs[j]) {
        CountTwice(xs, i, j, if xs[i].start > xs[j].start then xs[i].start else xs[j].start);
      }
    }
  }

  lemma {:induction false} CountsFromDisjoint<T>(xs: seq<Extent<T>>, b: nat)
    requires Disjoint(xs)
    ensures Count(xs, b) <= 1
  {
    if xs != [] {
      forall i, j | 0 <= i < j < |xs| - 1 ensures Apart(xs[1..][i], xs[1..][j]) {
        assert Apart(xs[i + 1], xs[j + 1]);
      }
      CountsFromDisjoint(xs[1..], b);
      if xs[0].Has(b) && Count(xs[1..], b) > 0 {
        var k := CountWitness(xs[1..], b);
      }
    }
  }

  lemma {:induction false} CountWitness<T>(xs: seq<Extent<T>>, b: nat) returns (k: nat)
    requires Count(xs, b) > 0
    ensures k < |xs| && xs[k].Has(b)
  {
    if xs[0].Has(b) { k := 0; }
    else { k := CountWitness(xs[1..], b); k := k + 1; }
  }

  lemma {:induction false} CountOne<T>(x: Extent<T>, b: nat)
    ensures Count([x], b) == if x.Has(b) then 1 else 0
  {
    assert [x][1..] == [];
  }

  lemma {:induction false} CountPieces<T>(x: Extent<T>, lo: nat, hi: nat, b: nat)
    requires x.start < hi && lo < x.End() && lo <= hi
    ensures Count(Pieces(x, lo, hi), b) == if x.Has(b) && !(lo <= b < hi) then 1 else 0
  {
    var l := Extent(x.start, if x.start < lo then lo - x.start else 0, x.tag);
    var r := Extent(hi, if x.End() > hi then x.End() - hi else 0, x.tag);
    CountOne(l, b);
    CountOne(r, b);
    CountAppend([l], [r], b);
    assert [] + [r] == [r] && [l] + [] == [l];
  }

  lemma {:induction false} InsertStepCount<T>(s: ScanState<T>, x: Extent<T>, e: Extent<T>, b: nat)
    ensures Count(InsertStep(s, x, e).result, b) == Count(s.result, b)
      + (if InsertStep(s, x, e).inserted && !s.inserted && e.Has(b) then 1 else 0)
      + (if x.Has(b) && !e.Has(b) then 1 else 0)
    ensures s.inserted ==> InsertStep(s, x, e).inserted
  {
    hide Count; hide Pieces;
    CountOne(x, b);
    CountOne(e, b);
    if Misses(x, e.start, e.End()) {
      CountAppend(s.result, [x], b);
      CountAppend(s.result, [e, x], b);
      CountAppend([e], [x], b);
      assert [e] + [x] == [e, x];
    } else {
      CountPieces(x, e.start, e.End(), b);
      CountAppend(s.result, Pieces(x, e.start, e.End()), b);
    }
  }

  lemma {:induction false} InsertScanCount<T>(xs: seq<Extent<T>>, e: Extent<T>, b: nat)
    ensures Count(InsertScan(xs, e).result, b) ==
            if e.Has(b) then (if InsertScan(xs, e).inserted then 1 else 0) else Count(xs, b)
  {
    if xs != [] {
      hide InsertStep;
      var n := |xs| - 1;
      InsertScanCount(xs[..n], e, b);
      InsertStepCount(InsertScan(xs[..n], e), xs[n], e, b);
      assert xs[..n] + [xs[n]] == xs;
      CountAppend(xs[..n], [xs[n]], b);
      CountOne(xs[n], b);
      hide Count;
    }
  }

  lemma {:induction false} InsertedCount<T>(xs: seq<Extent<T>>, e: Extent<T>, b: nat)
    ensures Count(Inserted(xs, e), b) == if e.Has(b) then 1 else Count(xs, b)
  {
    InsertScanCount(xs, e, b);
    var r := InsertScan(xs, e).result;
    if !InsertScan(xs, e).inserted {
      var pos := SearchStart(r, e.start, 0, |r|);
      CountAppend(r[..pos] + [e], r[pos..], b);
      CountAppend(r[..pos], [e], b);
      CountOne(e, b);
      CountAppend(r[..pos], r[pos..], b);
      assert r[..pos] + r[pos..] == r;
    }
  }

  // ---------------------------------------------------------------- provenance

  ghost predicate PieceOfSome<T>(part: Extent<T>, xs: seq<Extent<T>>) {
    part.blocks > 0 && exists i | 0 <= i < |xs| :: PieceOf(part, xs[i])
  }

  /** Every extent of ys is a non-empty piece of an extent of xs. */
  ghost predicate AllPieces<T>(ys: seq<Extent<T>>, xs: seq<Extent<T>>) {
    forall k | 0 <= k < |ys| :: PieceOfSome(ys[k], xs)
  }

  lemma {:induction false} AllPiecesWiden<T>(ys: seq<Extent<T>>, xs: seq<Extent<T>>, zs: seq<Extent<T>>)
    requires AllPieces(ys, xs)
    ensures AllPieces(ys, xs + zs)
  {
    forall k | 0 <= k < |ys| ensures PieceOfSome(ys[k], xs + zs) {
      var i :| 0 <= i < |xs| && PieceOf(ys[k], xs[i]);
      assert (xs + zs)[i] == xs[i];
    }
  }

  lemma {:induction false} AllPiecesLast<T>(ys: seq<Extent<T>>, xs: seq<Extent<T>>, x: Extent<T>)
    requires forall k | 0 <= k < |ys| :: ys[k].blocks > 0 && PieceOf(ys[k], x)
    ensures AllPieces(ys, xs + [x])
  {
    assert (xs + [x])[|xs|] == x;
  }

  lemma {:induction false} InsertScanPieces<T>(xs: seq<Extent<T>>, e: Extent<T>)
    requires Positive(xs) && e.blocks > 0
    ensures AllPieces(InsertScan(xs, e).result, [e] + xs)
  {
    if xs != [] {
      var n := |xs| - 1;
      var x := xs[n];
      var s := InsertScan(xs[..n], e);
      InsertScanPieces(xs[..n], e);
      AllPiecesWiden(s.result, [e] + xs[..n], [x]);
      assert [e] + xs[..n] + [x] == [e] + xs;
      assert ([e] + xs)[0] == e;
      var tail := InsertScan(xs, e).result[|s.result|..];
      assert InsertScan(xs, e).result == s.result + tail;
      var own := if |tail| > 0 && tail[0] == e then tail[1..] else tail;
      AllPiecesLast(own, [e] + xs[..n], x);
    }
  }

  /** Insertion keeps a disjoint list disjoint, and every extent of the result is a piece
      of the new extent or of an old one. */
  lemma {:induction false} InsertedShape<T>(xs: seq<Extent<T>>, e: Extent<T>)
    requires Positive(xs) && e.blocks > 0
    ensures Positive(Inserted(xs, e)) && AllPieces(Inserted(xs, e), [e] + xs)
    ensures Disjoint(xs) ==> Disjoint(Inserted(xs, e))
  {
    InsertScanPieces(xs, e);
    var s := InsertScan(xs, e);
    if !s.inserted {
      var pos := SearchStart(s.result, e.start, 0, |s.result|);
      var r := Inserted(xs, e);
      forall k | 0 <= k < |r| ensures PieceOfSome(r[k], [e] + xs) {
        if k < pos { assert r[k] == s.result[k]; }
        else if k > pos { assert r[k] == s.result[k - 1]; }
        else { assert PieceOf(e, ([e] + xs)[0]); }
      }
    }
    if Disjoint(xs) {
      forall b: nat ensures Count(Inserted(xs, e), b) <= 1 {
        InsertedCount(xs, e, b);
        CountsFromDisjoint(xs, b);
      }
      DisjointFromCounts(Inserted(xs, e));
    }
  }

  lemma {:induction false} RemovedCount<T>(xs: seq<Extent<T>>, lo: nat, hi: nat, b: nat)
    requires lo <= hi
    ensures Count(Removed(xs, lo, hi), b) == if lo <= b < hi then 0 else Count(xs, b)
  {
    if xs != [] {
      var n := |xs| - 1;
      var x := xs[n];
      RemovedCount(xs[..n], lo, hi, b);
      assert xs[..n] + [x] == xs;
      CountAppend(xs[..n], [x], b);
      CountOne(x, b);
      var tail := if Misses(x, lo, hi) then [x] else Pieces(x, lo, hi);
      if !Misses(x, lo, hi) { CountPieces(x, lo, hi, b); }
      CountAppend(Removed(xs[..n], lo, hi), tail, b);
    }
  }

  lemma {:induction false} RemovedPieces<T>(xs: seq<Extent<T>>, lo: nat, hi: nat)
    requires lo <= hi && Positive(xs)
    ensures AllPieces(Removed(xs, lo, hi), xs)
  {
    if xs != [] {
      var n := |xs| - 1;
      var x := xs[n];
      RemovedPieces(xs[..n], lo, hi);
      assert xs == xs[..n] + [x];
      AllPiecesWiden(Removed(xs[..n], lo, hi), xs[..n], [x]);
      AllPiecesLast(if Misses(x, lo, hi) then [x] else Pieces(x, lo, hi), xs[..n], x);
    }
  }

  /** Every extent of xs ends at or before the start of every extent of ys. */
  ghost predicate Precedes<T>(xs: seq<Extent<T>>, ys: seq<Extent<T>>) {
    forall i, j | 0 <= i < |xs| && 0 <= j < |ys| :: xs[i].End() <= ys[j].start
  }

  lemma {:induction false} SortedAppend<T>(xs: seq<Extent<T>>, ys: seq<Extent<T>>)
    ensures Sorted(xs + ys) <==> Sorted(xs) && Sorted(ys) && Precedes(xs, ys)
  {
    if Sorted(xs + ys) {
      assert forall i | 0 <= i < |xs| :: (xs + ys)[i] == xs[i];
      assert forall j | 0 <= j < |ys| :: (xs + ys)[|xs| + j] == ys[j];
    }
  }

  /** Every extent of xs ends by b. */
  ghost predicate EndsBy<T>(xs: seq<Extent<T>>, b: nat) {
    forall i | 0 <= i < |xs| :: xs[i].End() <= b
  }

  lemma {:induction false} SortedSnoc<T>(xs: seq<Extent<T>>, x: Extent<T>)
    ensures Sorted(xs + [x]) <==> Sorted(xs) && EndsBy(xs, x.start)
  {
    SortedAppend(xs, [x]);
    if Precedes(xs, [x]) { assert forall i | 0 <= i < |xs| :: xs[i].End() <= [x][0].start; }
  }

  lemma {:induction false} PiecesPrecede<T>(ys: seq<Extent<T>>, xs: seq<Extent<T>>, zs: seq<Extent<T>>, x: Extent<T>)
    requires AllPieces(ys, xs) && Precedes(xs, [x])
    requires forall k | 0 <= k < |zs| :: PieceOf(zs[k], x)
    ensures Precedes(ys, zs)
  {
    forall i, j | 0 <= i < |ys| && 0 <= j < |zs| ensures ys[i].End() <= zs[j].start {
      var k :| 0 <= k < |xs| && PieceOf(ys[i], xs[k]);
      assert xs[k].End() <= [x][0].start;
    }
  }

  /** Trimming keeps order and disjointness. */
  lemma {:induction false} RemovedShape<T>(xs: seq<Extent<T>>, lo: nat, hi: nat)
    requires lo <= hi && Positive(xs)
    ensures Positive(Removed(xs, lo, hi)) && AllPieces(Removed(xs, lo, hi), xs)
    ensures Disjoint(xs) ==> Disjoint(Removed(xs, lo, hi))
    ensures Sorted(xs) ==> Sorted(Removed(xs, lo, hi))
  {
    RemovedPieces(xs, lo, hi);
    if Disjoint(xs) {
      forall b: nat ensures Count(Removed(xs, lo, hi), b) <= 1 {
        RemovedCount(xs, lo, hi, b);
        CountsFromDisjoint(xs, b);
      }
      DisjointFromCounts(Removed(xs, lo, hi));
    }
    if Sorted(xs) { RemovedSorted(xs, lo, hi); }
  }

  lemma {:induction false} RemovedSorted<T>(xs: seq<Extent<T>>, lo: nat, hi: nat)
    requires lo <= hi && Positive(xs) && Sorted(xs)
    ensures Sorted(Removed(xs, lo, hi))
  {
    if xs != [] {
      var n := |xs| - 1;
      var x := xs[n];
      assert xs == xs[..n] + [x];
      SortedAppend(xs[..n], [x]);
      RemovedSorted(xs[..n], lo, hi);
      RemovedPieces(xs[..n], lo, hi);
      var tail := if Misses(x, lo, hi) then [x] else Pieces(x, lo, hi);
      PiecesPrecede(Removed(xs[..n], lo, hi), xs[..n], tail, x);
      SortedAppend(Removed(xs[..n], lo, hi), tail);
    }
  }

  // ---------------------------------------------------------------- order

  /** Some extent other than the last one reaches past the end of e from before it. */
  ghost predicate SpillsBeforeLast<T>(xs: seq<Extent<T>>, e: Extent<T>) {
    exists i | 0 <= i < |xs| - 1 :: xs[i].start < e.End() < xs[i].End()
  }

  ghost predicate NoneSpills<T>(xs: seq<Extent<T>>, e: Extent<T>) {
    forall i | 0 <= i < |xs| :: !(xs[i].start < e.End() < xs[i].End())
  }

  lemma {:induction false} EndsBySnoc<T>(xs: seq<Extent<T>>, x: Extent<T>, b: nat)
    ensures EndsBy(xs + [x], b) <==> EndsBy(xs, b) && x.End() <= b
  {
    if EndsBy(xs + [x], b) {
      assert forall i | 0 <= i < |xs| :: (xs + [x])[i] == xs[i];
      assert (xs + [x])[|xs|] == x;
    }
  }

  lemma {:induction false} EndsByMono<T>(xs: seq<Extent<T>>, b: nat, c: nat)
    requires EndsBy(xs, b) && b <= c
    ensures EndsBy(xs, c)
  {
  }

  /** Until the new extent is placed, what the scan emits ends where its input ends. */
  lemma {:induction false} UnplacedEndsBy<T>(xs: seq<Extent<T>>, e: Extent<T>, b: nat)
    requires EndsBy(xs, b) && !InsertScan(xs, e).inserted
    ensures EndsBy(InsertScan(xs, e).result, b)
  {
    if xs != [] {
      hide InsertStep;
      var n := |xs| - 1;
      assert xs == xs[..n] + [xs[n]];
      EndsBySnoc(xs[..n], xs[n], b);
      UnplacedStep(InsertScan(xs[..n], e), xs[n], e, b);
      if EndsBy(xs[..n], b) && !InsertScan(xs[..n], e).inserted { UnplacedEndsBy(xs[..n], e, b); }
      hide EndsBy;
    }
  }

  lemma {:induction false} UnplacedStep<T>(s: ScanState<T>, x: Extent<T>, e: Extent<T>, b: nat)
    ensures !InsertStep(s, x, e).inserted ==> !s.inserted
    ensures !InsertStep(s, x, e).inserted && EndsBy(s.result, b) && x.End() <= b ==>
      EndsBy(InsertStep(s, x, e).result, b)
  {}

  /** Appending one or two extents to a sorted list that ends early enough. */
  lemma {:induction false} SortedPush<T>(xs: seq<Extent<T>>, x: Extent<T>, b: nat)
    requires Sorted(xs) && EndsBy(xs, x.start) && x.End() <= b
    ensures Sorted(xs + [x]) && EndsBy(xs + [x], b)
  {
    hide Sorted;
    hide EndsBy;
    SortedSnoc(xs, x);
    EndsByMono(xs, x.start, b);
    EndsBySnoc(xs, x, b);
  }

  lemma {:induction false} SortedPush2<T>(xs: seq<Extent<T>>, x: Extent<T>, y: Extent<T>)
    requires Sorted(xs) && EndsBy(xs, x.start) && x.End() <= y.start
    ensures Sorted(xs + [x, y]) && EndsBy(xs + [x, y], y.End())
  {
    hide Sorted;
    hide EndsBy;
    SortedPush(xs, x, y.start);
    SortedPush(xs + [x], y, y.End());
    assert xs + [x] + [y] == xs + [x, y];
  }

  /** One round of the scan on an extent that does not spill. */
  lemma {:induction false} OrderStep<T>(s: ScanState<T>, x: Extent<T>, e: Extent<T>)
    requires Sorted(s.result) && EndsBy(s.result, x.start) && e.blocks > 0 && !(x.start < e.End() < x.End())
    requires if s.inserted then x.start >= e.End() else EndsBy(s.result, e.start)
    ensures var t := InsertStep(s, x, e);
      && Sorted(t.result)
      && if t.inserted then x.start >= e.End() && EndsBy(t.result, x.End()) else EndsBy(t.result, e.start)
  {
    hide Sorted;
    hide EndsBy;
    if x.start >= e.End() {
      if s.inserted { SortedPush(s.result, x, x.End()); } else { SortedPush2(s.result, e, x); }
    } else if x.End() <= e.start {
      SortedPush(s.result, x, e.start);
    } else if x.start < e.start {
      var l := Extent(x.start, e.start - x.start, x.tag);
      assert Pieces(x, e.start, e.End()) == [l];
      SortedPush(s.result, l, e.start);
    } else {
      assert Pieces(x, e.start, e.End()) == [];
      assert s.result + [] == s.result;
    }
  }

  /** What the predecessor says about a sorted list. */
  lemma {:induction false} SortedInit<T>(xs: seq<Extent<T>>)
    requires xs != [] && Sorted(xs)
    ensures var n := |xs| - 1;
      Sorted(xs[..n]) && EndsBy(xs[..n], xs[n].start) && (n > 0 ==> xs[n - 1].End() <= xs[n].start)
  {
    var n := |xs| - 1;
    assert xs == xs[..n] + [xs[n]];
    SortedSnoc(xs[..n], xs[n]);
  }

  /** Without a spilling extent the scan keeps the order; until the new extent is placed
      everything lies before it, and afterwards the list ends with the last old extent. */
  lemma {:induction false} InsertScanOrder<T>(xs: seq<Extent<T>>, e: Extent<T>)
    requires Sorted(xs) && e.blocks > 0 && NoneSpills(xs, e)
    ensures var s := InsertScan(xs, e);
      && Sorted(s.result)
      && (!s.inserted ==> EndsBy(s.result, e.start))
      && (s.inserted ==> xs != [] && xs[|xs| - 1].start >= e.End() && EndsBy(s.result, xs[|xs| - 1].End()))
  {
    if xs != [] {
      hide Sorted;
      hide EndsBy;
      hide InsertStep;
      var n := |xs| - 1;
      var x := xs[n];
      var s := InsertScan(xs[..n], e);
      SortedInit(xs);
      InsertScanOrder(xs[..n], e);
      if s.inserted {
        EndsByMono(s.result, xs[n - 1].End(), x.start);
      } else {
        UnplacedEndsBy(xs[..n], e, x.start);
      }
      OrderStep(s, x, e);
    }
  }

  /** Binary search on a sorted list finds the boundary. */
  lemma {:induction false} SearchStartFinds<T>(xs: seq<Extent<T>>, key: nat, g: nat, i: nat, j: nat)
    requires i <= g <= j <= |xs|
    requires forall k | 0 <= k < g :: xs[k].start < key
    requires forall k | g <= k < |xs| :: xs[k].start >= key
    ensures SearchStart(xs, key, i, j) == g
    decreases j - i
  {
    if i < j {
      var h := (i + j) / 2;
      if xs[h].start >= key { SearchStartFinds(xs, key, g, i, h); }
      else { SearchStartFinds(xs, key, g, h + 1, j); }
    }
  }

  lemma {:induction false} InsertInGap<T>(l: seq<Extent<T>>, r: seq<Extent<T>>, e: Extent<T>)
    requires Positive(l + r) && EndsBy(l, e.start)
    requires forall k | 0 <= k < |r| :: r[k].start >= e.start
    ensures SearchStart(l + r, e.start, 0, |l + r|) == |l|
  {
    assert forall k | 0 <= k < |l| :: (l + r)[k] == l[k];
    assert forall k | |l| <= k < |l + r| :: (l + r)[k] == r[k - |l|];
    SearchStartFinds(l + r, e.start, |l|, 0, |l + r|);
  }

  /** An extent past the end of the list is appended. */
  lemma {:induction false} InsertedAtEnd<T>(xs: seq<Extent<T>>, e: Extent<T>)
    requires EndsBy(xs, e.start) && Positive(xs) && e.blocks > 0
    ensures Inserted(xs, e) == xs + [e]
  {
    ScanUntouched(xs, e);
    assert xs + [] == xs && xs[..|xs|] == xs && xs[|xs|..] == [];
    InsertInGap(xs, [], e);
  }

  lemma {:induction false} ScanUntouched<T>(xs: seq<Extent<T>>, e: Extent<T>)
    requires EndsBy(xs, e.start) && Positive(xs) && e.blocks > 0
    ensures InsertScan(xs, e) == ScanState(xs, false)
  {
    if xs != [] {
      ScanUntouched(xs[..|xs| - 1], e);
      assert xs == xs[..|xs| - 1] + [xs[|xs| - 1]];
    }
  }

  lemma {:induction false} ScanMonotone<T>(xs: seq<Extent<T>>, n: nat, e: Extent<T>)
    requires n <= |xs|
    ensures InsertScan(xs[..n], e).result <= InsertScan(xs, e).result
    ensures InsertScan(xs[..n], e).inserted ==> InsertScan(xs, e).inserted
  {
    if n == |xs| {
      assert xs[..n] == xs;
    } else {
      var m := |xs| - 1;
      ScanMonotone(xs[..m], n, e);
      assert xs[..m][..n] == xs[..n];
    }
  }

  lemma {:induction false} NotInsertedBefore<T>(xs: seq<Extent<T>>, e: Extent<T>)
    requires forall i | 0 <= i < |xs| :: xs[i].start < e.End()
    ensures !InsertScan(xs, e).inserted
  {
    if xs != [] { NotInsertedBefore(xs[..|xs| - 1], e); }
  }

  /** The failing branch: the part of xs[i] after e is emitted, and only then e itself. */
  lemma {:induction false} SpillBreaksOrder<T>(xs: seq<Extent<T>>, e: Extent<T>, i: nat)
    requires Sorted(xs) && Positive(xs) && e.blocks > 0
    requires i < |xs| - 1 && xs[i].start < e.End() < xs[i].End()
    ensures !Sorted(Inserted(xs, e))
  {
    var x, y := xs[i], xs[i + 1];
    forall k | 0 <= k < i ensures xs[k].start < e.End() { assert xs[k].End() <= xs[i].start; }
    NotInsertedBefore(xs[..i], e);
    assert xs[..i + 1][..i] == xs[..i] && xs[..i + 2][..i + 1] == xs[..i + 1];
    var s := InsertScan(xs[..i], e);
    var r := InsertScan(xs[..i + 2], e);
    assert x.End() <= y.start;
    var rest := Extent(e.End(), x.End() - e.End(), x.tag);
    assert InsertScan(xs[..i + 1], e) == ScanState(s.result + Pieces(x, e.start, e.End()), false);
    assert r.inserted && r.result == s.result + Pieces(x, e.start, e.End()) + [e, y];
    var k := |r.result| - 3;
    assert r.result[k] == rest && r.result[k + 1] == e;
    ScanMonotone(xs, i + 2, e);
    assert Inserted(xs, e)[k] == rest && Inserted(xs, e)[k + 1] == e;
  }

  lemma {:induction false} NoSpillKeepsOrder<T>(xs: seq<Extent<T>>, e: Extent<T>)
    requires Sorted(xs) && Positive(xs) && e.blocks > 0 && NoneSpills(xs, e)
    ensures Sorted(Inserted(xs, e))
  {
    InsertScanOrder(xs, e);
    InsertScanPieces(xs, e);
    var r := InsertScan(xs, e).result;
    if !InsertScan(xs, e).inserted {
      assert r + [] == r && r[|r|..] == [] && r[..|r|] == r;
      InsertInGap(r, [], e);
      SortedSnoc(r, e);
      assert Inserted(xs, e) == r + [e];
    }
  }

  /** A spilling last extent is split around the new one: the scan ends with a left part
      that lies before e and one remainder that starts where e ends. */
  lemma {:induction false} LastSpillScan<T>(xs: seq<Extent<T>>, e: Extent<T>)
    returns (left: seq<Extent<T>>, right: Extent<T>)
    requires Sorted(xs) && e.blocks > 0 && !SpillsBeforeLast(xs, e)
    requires xs != [] && xs[|xs| - 1].start < e.End() < xs[|xs| - 1].End()
    ensures InsertScan(xs, e) == ScanState(left + [right], false)
    ensures Sorted(left) && EndsBy(left, e.start) && right.start == e.End()
  {
    var n := |xs| - 1;
    var x := xs[n];
    var s := InsertScan(xs[..n], e);
    SortedInit(xs);
    NoneSpillsInit(xs, e);
    hide Sorted;
    hide EndsBy;
    hide NoneSpills;
    hide SpillsBeforeLast;
    InsertScanOrder(xs[..n], e);
    UnplacedEndsBy(xs[..n], e, x.start);
    right := Extent(e.End(), x.End() - e.End(), x.tag);
    if x.start < e.start {
      var l := Extent(x.start, e.start - x.start, x.tag);
      SortedPush(s.result, l, e.start);
      left := s.result + [l];
      assert s.result + [l] + [right] == s.result + [l, right];
    } else {
      left := s.result;
    }
  }

  lemma {:induction false} NoneSpillsInit<T>(xs: seq<Extent<T>>, e: Extent<T>)
    requires xs != [] && !SpillsBeforeLast(xs, e)
    ensures NoneSpills(xs[..|xs| - 1], e)
  {
    assert forall i | 0 <= i < |xs| - 1 :: !(xs[i].start < e.End() < xs[i].End());
  }

  lemma {:induction false} LastSpillKeepsOrder<T>(xs: seq<Extent<T>>, e: Extent<T>)
    requires Sorted(xs) && Positive(xs) && e.blocks > 0 && !SpillsBeforeLast(xs, e)
    requires xs != [] && xs[|xs| - 1].start < e.End() < xs[|xs| - 1].End()
    ensures Sorted(Inserted(xs, e))
  {
    var left, right := LastSpillScan(xs, e);
    InsertScanPieces(xs, e);
    hide Sorted;
    InsertInGap(left, [right], e);
    assert Inserted(xs, e) == left + [e] + [right] by {
      assert (left + [right])[..|left|] == left && (left + [right])[|left|..] == [right];
    }
    SortedSnoc(left, e);
    EndsByMono(left, e.start, e.End());
    EndsBySnoc(left, e, e.End());
    SortedSnoc(left + [e], right);
  }

  /** A sorted list stays sorted after an insertion exactly when no extent reaching past
      the end of the new range is followed by another extent. */
  lemma {:induction false} InsertedSortedIff<T>(xs: seq<Extent<T>>, e: Extent<T>)
    requires Sorted(xs) && Positive(xs) && e.blocks > 0
    ensures Sorted(Inserted(xs, e)) <==> !SpillsBeforeLast(xs, e)
  {
    if SpillsBeforeLast(xs, e) {
      var i :| 0 <= i < |xs| - 1 && xs[i].start < e.End() < xs[i].End();
      SpillBreaksOrder(xs, e, i);
    } else {
      assert forall i | 0 <= i < |xs| - 1 :: !(xs[i].start < e.End() < xs[i].End());
      if xs != [] && xs[|xs| - 1].start < e.End() < xs[|xs| - 1].End() {
        LastSpillKeepsOrder(xs, e);
      } else {
        NoSpillKeepsOrder(xs, e);
      }
    }
  }

  // ---------------------------------------------------------------- a repaired insertion

  /** What the insertion would leave behind if it placed e only after the overlapped extents
      have been cut: the order is then never lost. */
  function Repaired<T>(xs: seq<Extent<T>>, e: Extent<T>): seq<Extent<T>> {
    var r := Removed(xs, e.start, e.End());
    var pos := SearchStart(r, e.start, 0, |r|);
    r[..pos] + [e] + r[pos..]
  }

  lemma {:induction false} RemovedMisses<T>(xs: seq<Extent<T>>, lo: nat, hi: nat)
    requires lo <= hi
    ensures forall k | 0 <= k < |Removed(xs, lo, hi)| :: Misses(Removed(xs, lo, hi)[k], lo, hi)
  {
    if xs != [] { RemovedMisses(xs[..|xs| - 1], lo, hi); }
  }

  lemma {:induction false} FirstAtOrAfter<T>(xs: seq<Extent<T>>, key: nat) returns (g: nat)
    requires Sorted(xs)
    ensures g <= |xs| && forall k | 0 <= k < |xs| :: xs[k].start >= key <==> k >= g
  {
    g := 0;
    while g < |xs| && xs[g].start < key
      invariant g <= |xs| && forall k | 0 <= k < g :: xs[k].start < key
    {
      g := g + 1;
    }
    forall k | g < k < |xs| ensures xs[k].start >= key { assert xs[g].End() <= xs[k].start; }
  }

  /** The repaired insertion has the same owners as the original one. */
  lemma {:induction false} RepairedOwner<T>(xs: seq<Extent<T>>, e: Extent<T>, b: nat)
    ensures Owner(Repaired(xs, e), b) == Owner(Inserted(xs, e), b)
  {
    var r := Removed(xs, e.start, e.End());
    var g := SearchStart(r, e.start, 0, |r|);
    assert r == r[..g] + r[g..];
    InsertedOwner(xs, e, b);
    RemovedOwner(xs, e.start, e.End(), b);
    OwnerAppend(r[..g], r[g..], b);
    OwnerAppend(r[..g] + [e], r[g..], b);
    OwnerAppend(r[..g], [e], b);
    OwnerOne(e, b);
  }

  lemma {:induction false} SortedAround<T>(r: seq<Extent<T>>, e: Extent<T>, g: nat)
    requires Sorted(r) && Positive(r) && e.blocks > 0 && g <= |r|
    requires forall k | 0 <= k < |r| :: Misses(r[k], e.start, e.End()) && (r[k].start >= e.start <==> k >= g)
    ensures Sorted(r[..g] + [e] + r[g..])
  {
    assert EndsBy(r[..g], e.start);
    var l := r[..g] + [e];
    forall i, j | 0 <= i < |l| && 0 <= j < |r[g..]| ensures l[i].End() <= r[g..][j].start {
      if i < g { assert r[i].End() <= r[g + j].start; }
    }
    assert Sorted(r[..g]) && Sorted(r[g..]);
    hide *;
    SortedSnoc(r[..g], e);
    SortedAppend(l, r[g..]);
  }

  /** The repaired insertion always keeps the list sorted. */
  lemma {:induction false} RepairedSorted<T>(xs: seq<Extent<T>>, e: Extent<T>)
    requires Sorted(xs) && Positive(xs) && e.blocks > 0
    ensures Sorted(Repaired(xs, e)) && Positive(Repaired(xs, e))
  {
    var r := Removed(xs, e.start, e.End());
    RemovedShape(xs, e.start, e.End());
    RemovedMisses(xs, e.start, e.End());
    hide Sorted;
    var g := FirstAtOrAfter(r, e.start);
    SearchStartFinds(r, e.start, g, 0, |r|);
    SortedAround(r, e, g);
  }

  /** It also keeps a disjoint list disjoint, and leaves only pieces of the new extent and of
      old ones. */
  lemma {:induction false} RepairedShape<T>(xs: seq<Extent<T>>, e: Extent<T>)
    requires Positive(xs) && e.blocks > 0
    ensures Positive(Repaired(xs, e)) && AllPieces(Repaired(xs, e), [e] + xs)
    ensures Disjoint(xs) ==> Disjoint(Repaired(xs, e))
  {
    var r := Removed(xs, e.start, e.End());
    var g := SearchStart(r, e.start, 0, |r|);
    RemovedShape(xs, e.start, e.End());
    var all := Repaired(xs, e);
    forall k | 0 <= k < |all| ensures PieceOfSome(all[k], [e] + xs) {
      if k == g {
        assert PieceOf(e, ([e] + xs)[0]);
      } else {
        var j := if k < g then k else k - 1;
        assert PieceOfSome(r[j], xs);
        var i :| 0 <= i < |xs| && PieceOf(r[j], xs[i]);
        assert ([e] + xs)[i + 1] == xs[i];
      }
    }
    if Disjoint(xs) {
      forall b: nat ensures Count(all, b) <= 1 {
        RepairedCount(xs, e, b);
        CountsFromDisjoint(xs, b);
      }
      DisjointFromCounts(all);
    }
  }

  lemma {:induction false} RepairedCount<T>(xs: seq<Extent<T>>, e: Extent<T>, b: nat)
    ensures Count(Repaired(xs, e), b) == if e.Has(b) then 1 else Count(xs, b)
  {
    var r := Removed(xs, e.start, e.End());
    var g := SearchStart(r, e.start, 0, |r|);
    assert r == r[..g] + r[g..];
    RemovedCount(xs, e.start, e.End(), b);
    CountAppend(r[..g], r[g..], b);
    CountAppend(r[..g] + [e], r[g..], b);
    CountAppend(r[..g], [e], b);
    CountOne(e, b);
  }

  /** Placing an extent, as the source does it or repaired. */
  function Placed<T>(xs: seq<Extent<T>>, e: Extent<T>, repaired: bool): seq<Extent<T>> {
    if repaired then Repaired(xs, e) else Inserted(xs, e)
  }

  lemma {:induction false} PlacedOwner<T>(xs: seq<Extent<T>>, e: Extent<T>, repaired: bool, b: nat)
    ensures Owner(Placed(xs, e, repaired), b) == if e.Has(b) then Some(e.tag) else Owner(xs, b)
  {
    hide Inserted; hide Repaired; hide Owner;
    InsertedOwner(xs, e, b);
    RepairedOwner(xs, e, b);
  }

  lemma {:induction false} PlacedShape<T>(xs: seq<Extent<T>>, e: Extent<T>, repaired: bool)
    requires Positive(xs) && e.blocks > 0
    ensures Positive(Placed(xs, e, repaired)) && AllPieces(Placed(xs, e, repaired), [e] + xs)
    ensures Disjoint(xs) ==> Disjoint(Placed(xs, e, repaired))
    ensures repaired && Sorted(xs) ==> Sorted(Placed(xs, e, repaired))
  {
    hide Inserted; hide Repaired; hide Positive; hide Disjoint; hide Sorted; hide AllPieces;
    if repaired {
      RepairedShape(xs, e);
      if Sorted(xs) { RepairedSorted(xs, e); }
    } else {
      InsertedShape(xs, e);
    }
  }

  // ---------------------------------------------------------------- queries

  ghost predicate Overlaps<T>(x: Extent<T>, lo: nat, hi: nat) {
    lo < x.End() && x.start < hi
  }

  /** An extent that overlaps [lo, hi) stands behind one that makes the scan stop. */
  ghost predicate Hidden<T>(xs: seq<Extent<T>>, lo: nat, hi: nat) {
    exists j, k | 0 <= j < k < |xs| :: lo < xs[j].End() && hi <= xs[j].start && Overlaps(xs[k], lo, hi)
  }

  /** The extent that holds b stands behind one that makes the scan of [lo, hi) stop. */
  ghost predicate HiddenAt<T>(xs: seq<Extent<T>>, lo: nat, hi: nat, b: nat) {
    exists j, k | 0 <= j < k < |xs| :: lo < xs[j].End() && hi <= xs[j].start && xs[k].Has(b)
  }

  lemma {:induction false} HiddenAtTail<T>(xs: seq<Extent<T>>, lo: nat, hi: nat, b: nat)
    requires xs != [] && HiddenAt(xs[1..], lo, hi, b)
    ensures HiddenAt(xs, lo, hi, b)
  {
    var t := xs[1..];
    var j, k :| 0 <= j < k < |t| && lo < t[j].End() && hi <= t[j].start && t[k].Has(b);
    assert xs[j + 1] == t[j] && xs[k + 1] == t[k];
  }

  /** A query reports every block whose extent is not hidden. */
  lemma {:induction false} QueryComplete<T>(xs: seq<Extent<T>>, lo: nat, hi: nat, b: nat)
    requires lo <= b < hi && !HiddenAt(xs, lo, hi, b)
    ensures Owner(Query(xs, lo, hi), b) == Owner(xs, b)
  {
    if xs == [] {
    } else if lo < xs[0].End() && hi <= xs[0].start {
      OwnerNone(xs, b);
    } else {
      if HiddenAt(xs[1..], lo, hi, b) { HiddenAtTail(xs, lo, hi, b); }
      QueryComplete(xs[1..], lo, hi, b);
      var q := Query(xs, lo, hi);
      if q != [] { assert q[1..] == Query(xs[1..], lo, hi) || xs[0].End() <= lo; }
    }
  }

  /** Whatever a query reports comes from an extent before the point where it stops. */
  lemma {:induction false} QuerySound<T>(xs: seq<Extent<T>>, lo: nat, hi: nat, k: nat) returns (i: nat)
    requires lo <= hi && k < |Query(xs, lo, hi)| && Positive(xs) && lo < hi
    ensures i < |xs| && PieceOf(Query(xs, lo, hi)[k], xs[i])
    ensures var q := Query(xs, lo, hi)[k]; q.blocks > 0 && lo <= q.start && q.End() <= hi
    ensures forall j | 0 <= j <= i :: !(lo < xs[j].End() && hi <= xs[j].start)
  {
    if xs[0].End() > lo && k == 0 {
      i := 0;
    } else {
      var k' := if xs[0].End() <= lo then k else k - 1;
      i := QuerySound(xs[1..], lo, hi, k');
      i := i + 1;
      assert forall j | 1 <= j <= i :: xs[j] == xs[1..][j - 1];
    }
  }

  /** Exactly which blocks a query leaves out. */
  lemma {:induction false} QueryAt<T>(xs: seq<Extent<T>>, lo: nat, hi: nat, b: nat)
    requires Positive(xs) && Disjoint(xs) && lo <= b < hi
    ensures Owner(Query(xs, lo, hi), b) == if HiddenAt(xs, lo, hi, b) then None else Owner(xs, b)
    ensures HiddenAt(xs, lo, hi, b) ==> Owner(xs, b).Some?
  {
    if HiddenAt(xs, lo, hi, b) {
      var j, k :| 0 <= j < k < |xs| && lo < xs[j].End() && hi <= xs[j].start && xs[k].Has(b);
      OwnerAt(xs, k, b);
      if Owner(Query(xs, lo, hi), b).Some? {
        var m := OwnerWitness(Query(xs, lo, hi), b);
        var i := QuerySound(xs, lo, hi, m);
      }
    } else {
      QueryComplete(xs, lo, hi, b);
    }
  }

  /** A query leaves some block out exactly when an extent is hidden from it. */
  lemma {:induction false} HiddenBlock<T>(xs: seq<Extent<T>>, lo: nat, hi: nat)
    requires Positive(xs) && lo < hi
    ensures Hidden(xs, lo, hi) <==> exists b | lo <= b < hi :: HiddenAt(xs, lo, hi, b)
  {
    if Hidden(xs, lo, hi) {
      var j, k :| 0 <= j < k < |xs| && lo < xs[j].End() && hi <= xs[j].start && Overlaps(xs[k], lo, hi);
      var b := if lo < xs[k].start then xs[k].start else lo;
      assert xs[k].Has(b);
      assert HiddenAt(xs, lo, hi, b);
    }
    if b :| lo <= b < hi && HiddenAt(xs, lo, hi, b) {
      var j, k :| 0 <= j < k < |xs| && lo < xs[j].End() && hi <= xs[j].start && xs[k].Has(b);
      assert Overlaps(xs[k], lo, hi);
    }
  }

  /** The query answers for every block of its range exactly when no overlapping extent is
      hidden behind an extent that starts at or after the range. */
  lemma {:induction false} QueryExact<T>(xs: seq<Extent<T>>, lo: nat, hi: nat)
    requires Positive(xs) && Disjoint(xs) && lo < hi
    ensures (forall b | lo <= b < hi :: Owner(Query(xs, lo, hi), b) == Owner(xs, b)) <==> !Hidden(xs, lo, hi)
  {
    hide Hidden; hide HiddenAt; hide Query; hide Owner;
    HiddenBlock(xs, lo, hi);
    if Hidden(xs, lo, hi) {
      var b :| lo <= b < hi && HiddenAt(xs, lo, hi, b);
      QueryAt(xs, lo, hi, b);
    } else {
      forall b | lo <= b < hi ensures Owner(Query(xs, lo, hi), b) == Owner(xs, b) {
        assert !HiddenAt(xs, lo, hi, b);
        QueryAt(xs, lo, hi, b);
      }
    }
  }

  lemma {:induction false} SortedNeverHides<T>(xs: seq<Extent<T>>, lo: nat, hi: nat)
    requires Sorted(xs)
    ensures !Hidden(xs, lo, hi)
  {
  }

  /** An insertion inside the first of two extents, and what a query then misses. */
  lemma {:induction false} OrderLost<T>(lo: nat, hi: nat, n: nat, m: nat, k: nat, a: T, b: T, c: T)
    requires 0 < lo < hi < n <= m
    ensures var ys := Inserted([Extent(0, n, a), Extent(m, k, b)], Extent(lo, hi - lo, c));
      && ys == [Extent(0, lo, a), Extent(hi, n - hi, a), Extent(lo, hi - lo, c), Extent(m, k, b)]
      && Owner(ys, lo) == Some(c) && forall q, r | lo <= q < r <= hi :: Query(ys, q, r) == []
  {
    var e1, e2, e3 := Extent(0, n, a), Extent(m, k, b), Extent(lo, hi - lo, c);
    var xs := [e1, e2];
    var ys := [Extent(0, lo, a), Extent(hi, n - hi, a), Extent(lo, hi - lo, c), Extent(m, k, b)];
    assert xs[..1] == [e1] && [e1][..0] == [];
    assert InsertScan([e1], e3) == ScanState([Extent(0, lo, a), Extent(hi, n - hi, a)], false);
    assert InsertScan(xs, e3).result == ys;
    assert ys[1..][0] == Extent(hi, n - hi, a);
    assert ys[1..][1..][0] == e3;
    assert Owner(ys[1..][1..], lo) == Some(c);
    assert Owner(ys[1..], lo) == Some(c);
    forall q, r | lo <= q < r <= hi ensures Query(ys, q, r) == [] {
      assert Query(ys, q, r) == Query(ys[1..], q, r) == [];
    }
  }

  // ---------------------------------------------------------------- the loops

  /** sort.Search as written: halve [i, j) until it is empty. */
  method SearchLoop<T>(xs: seq<Extent<T>>, key: nat) returns (pos: nat)
    ensures pos == SearchStart(xs, key, 0, |xs|)
  {
    var i, j := 0, |xs|;
    while i < j
      invariant 0 <= i <= j <= |xs|
      invariant SearchStart(xs, key, i, j) == SearchStart(xs, key, 0, |xs|)
    {
      var h := (i + j) / 2;
      if xs[h].start >= key { j := h; } else { i := h + 1; }
    }
    pos := i;
  }

  /** The loop shared by ExtentMap.AddWrite and LiveMap.applyOp. */
  method InsertLoop<T>(xs: seq<Extent<T>>, e: Extent<T>) returns (result: seq<Extent<T>>)
    ensures result == Inserted(xs, e)
  {
    result := [];
    var inserted := false;
    for i := 0 to |xs|
      invariant ScanState(result, inserted) == InsertScan(xs[..i], e)
    {
      var ext := xs[i];
      assert xs[..i + 1][..i] == xs[..i];
      if ext.End() <= e.start || ext.start >= e.End() {
        if !inserted && ext.start >= e.End() {
          result := result + [e];
          inserted := true;
        }
        result := result + [ext];
        continue;
      }
      if ext.start < e.start {
        result := result + [Extent(ext.start, e.start - ext.start, ext.tag)];
      }
      if ext.End() > e.End() {
        result := result + [Extent(e.End(), ext.End() - e.End(), ext.tag)];
      }
    }
    assert xs[..|xs|] == xs;
    if !inserted {
      var pos := SearchLoop(result, e.start);
      result := result[..pos] + [e] + result[pos..];
    }
  }

  /** The loop of ExtentMap.RemoveTrim. */
  method RemoveLoop<T>(xs: seq<Extent<T>>, lo: nat, hi: nat) returns (result: seq<Extent<T>>)
    requires lo <= hi
    ensures result == Removed(xs, lo, hi)
  {
    result := [];
    for i := 0 to |xs|
      invariant result == Removed(xs[..i], lo, hi)
    {
      var ext := xs[i];
      assert xs[..i + 1][..i] == xs[..i];
      if ext.End() <= lo || ext.start >= hi {
        result := result + [ext];
        continue;
      }
      if ext.start < lo {
        result := result + [Extent(ext.start, lo - ext.start, ext.tag)];
      }
      if ext.End() > hi {
        result := result + [Extent(hi, ext.End() - hi, ext.tag)];
      }
    }
    assert xs[..|xs|] == xs;
  }

  /** Insertion as the source does it, or cutting first and placing afterwards. */
  method PlaceLoop<T>(xs: seq<Extent<T>>, e: Extent<T>, repaired: bool) returns (result: seq<Extent<T>>)
    ensures result == Placed(xs, e, repaired)
  {
    if repaired {
      result := RemoveLoop(xs, e.start, e.End());
      var pos := SearchLoop(result, e.start);
      result := result[..pos] + [e] + result[pos..];
    } else {
      result := InsertLoop(xs, e);
    }
  }

  lemma {:induction false} QueryTail<T>(xs: seq<Extent<T>>, i: nat, lo: nat, hi: nat)
    requires i < |xs| && lo <= hi
    ensures xs[i].End() <= lo ==> Query(xs[i..], lo, hi) == Query(xs[i + 1..], lo, hi)
    ensures xs[i].End() > lo && xs[i].start >= hi ==> Query(xs[i..], lo, hi) == []
    ensures xs[i].End() > lo && xs[i].start < hi ==>
      var s := if xs[i].start < lo then lo else xs[i].start;
      var t := if xs[i].End() > hi then hi else xs[i].End();
      Query(xs[i..], lo, hi) == [Extent(s, t - s, xs[i].tag)] + Query(xs[i + 1..], lo, hi)
  {
    assert xs[i..][1..] == xs[i + 1..] && xs[i..][0] == xs[i];
  }

  lemma {:induction false} QueryNothing<T>(xs: seq<Extent<T>>, lo: nat, hi: nat)
    requires lo <= hi && xs == []
    ensures Query(xs, lo, hi) == []
  {}

  /** The loop of ExtentMap.Lookup and of intersectRange. */
  method QueryLoop<T>(xs: seq<Extent<T>>, lo: nat, hi: nat) returns (result: seq<Extent<T>>)
    requires lo <= hi
    ensures result == Query(xs, lo, hi)
  {
    hide Query;
    result := [];
    var i := 0;
    assert xs[0..] == xs;
    while i < |xs|
      invariant 0 <= i <= |xs|
      invariant result + Query(xs[i..], lo, hi) == Query(xs, lo, hi)
    {
      var ext := xs[i];
      QueryTail(xs, i, lo, hi);
      if ext.End() <= lo {
        i := i + 1;
        continue;
      }
      if ext.start >= hi {
        break;
      }
      var s := ext.start;
      if s < lo { s := lo; }
      var t := ext.End();
      if t > hi { t := hi; }
      ghost var rest := Query(xs[i + 1..], lo, hi);
      assert result + ([Extent(s, t - s, ext.tag)] + rest) == result + [Extent(s, t - s, ext.tag)] + rest;
      result := result + [Extent(s, t - s, ext.tag)];
      i := i + 1;
    }
    QueryNothing(xs[|xs|..], lo, hi);
  }
}
