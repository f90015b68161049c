/** The device scanner: changed runs become log entries, runs of zeros become coalesced trims. */
module Scanner {
  import opened Bytes
  import opened BigEndian
  import opened LogReplay

  const BLOCK: nat := 4096
  const RUNBLOCKS: nat := 15
  const RUN: nat := 61440
  const CHUNK: nat := 0xFFFF_FFFF

  // ---------------------------------------------------------------- runs and hashes

  function RunEnd(size: nat, i: nat): nat { if (i + 1) * RUN > size then size else (i + 1) * RUN }

  function RunData(dev: seq<byte>, i: nat): seq<byte>
    requires i * RUN <= |dev|
  {
    dev[i * RUN..RunEnd(|dev|, i)]
  }

  function TotalRuns(size: nat): nat { size / RUN + if size % RUN != 0 then 1 else 0 }

  /** No two different runs of the same length have the same hash. */
  ghost predicate Injective(hash: seq<byte> -> nat) {
    forall a, b | |a| == |b| && hash(a) == hash(b) :: a == b
  }

  /** The image has the stored hash wherever one is stored. */
  ghost predicate Matches(img: seq<byte>, hashes: map<nat, nat>, hash: seq<byte> -> nat) {
    forall i | i in hashes && i * RUN <= |img| :: hashes[i] == hash(RunData(img, i))
  }

  lemma {:induction false} RunBounds(size: nat, i: nat)
    requires i < TotalRuns(size)
    ensures i * RUN < RunEnd(size, i) <= size && RunEnd(size, i) <= i * RUN + RUN
    ensures i + 1 < TotalRuns(size) ==> RunEnd(size, i) == (i + 1) * RUN
    ensures i + 1 == TotalRuns(size) ==> RunEnd(size, i) == size
  {}

  // ---------------------------------------------------------------- changes

  /** The bytes a change covers. */
  function From(e: Entry): nat { e.block * BLOCK }

  function To(e: Entry): nat { e.block * BLOCK + e.Length() }

  /** Changes come in order and do not overlap, all before the limit. */
  ghost predicate Ordered(es: seq<Entry>, limit: nat) {
    && (forall i, j | 0 <= i < j < |es| :: To(es[i]) <= From(es[j]))
    && (forall i | 0 <= i < |es| :: To(es[i]) <= limit)
  }

  lemma {:induction false} OrderedNext(es: seq<Entry>, limit: nat, e: Entry, next: nat)
    requires Ordered(es, limit) && limit <= From(e) && To(e) <= next
    ensures Ordered(es + [e], next)
  {}

  lemma {:induction false} Untouched(es: seq<Entry>, limit: nat, p: nat, base: byte)
    requires Ordered(es, limit) && limit <= p
    ensures Replay(es, BLOCK, p, base) == base
    decreases |es|
  {
    if es != [] { Untouched(es[..|es| - 1], limit, p, base); }
  }

  lemma {:induction false} ReplayNext(es: seq<Entry>, e: Entry, p: nat, base: byte)
    ensures Replay(es + [e], BLOCK, p, base) ==
      if From(e) <= p < To(e) then e.Value(BLOCK, p) else Replay(es, BLOCK, p, base)
  {
    assert (es + [e])[..|es|] == es;
  }

  /** A trim that is still growing, from run start on. */
  datatype Pending = NoTrim | Growing(start: nat, length: nat)

  function PendingEntry(t: Pending): Entry
    requires t.Growing?
  {
    Trim(t.start * RUNBLOCKS, t.length)
  }

  /** The changes found in the first i runs: replaying them over any matching image gives the
      device, but for the pending trim's bytes, which are zero. */
  ghost predicate Found(dev: seq<byte>, img: seq<byte>, es: seq<Entry>, t: Pending, end: nat) {
    && end <= |dev| == |img|
    && (t.Growing? ==> t.start * RUN + t.length == end && t.length > 0)
    && var known := if t.Growing? then t.start * RUN else end;
       && Ordered(es, known)
       && (forall p | 0 <= p < known :: Replay(es, BLOCK, p, img[p]) == dev[p])
       && forall p | known <= p < end :: dev[p] == 0
  }

  lemma {:induction false} SameRun(dev: seq<byte>, img: seq<byte>, es: seq<Entry>, end: nat, next: nat)
    requires Found(dev, img, es, NoTrim, end) && end <= next <= |dev| && dev[end..next] == img[end..next]
    ensures Found(dev, img, es, NoTrim, next)
  {
    forall p | end <= p < next
      ensures Replay(es, BLOCK, p, img[p]) == dev[p]
    {
      Untouched(es, end, p, img[p]);
      assert dev[end..next][p - end] == img[end..next][p - end];
    }
  }

  lemma {:induction false} ZeroRun(dev: seq<byte>, img: seq<byte>, es: seq<Entry>, t: Pending, end: nat, next: nat,
                                   i: nat)
    requires Found(dev, img, es, t, end) && end < next <= |dev| && dev[end..next] == Zeros(next - end)
    requires (t.NoTrim? ==> end == i * RUN)
    ensures Found(dev, img, es, if t.Growing? then Growing(t.start, t.length + (next - end))
      else Growing(i, next - end), next)
  {
    forall p | end <= p < next
      ensures dev[p] == 0
    {
      assert dev[end..next][p - end] == 0;
    }
    hide Replay; hide Ordered;
  }

  lemma {:induction false} FlushedTrim(dev: seq<byte>, img: seq<byte>, es: seq<Entry>, t: Pending, end: nat)
    requires Found(dev, img, es, t, end) && t.Growing?
    ensures Found(dev, img, es + [PendingEntry(t)], NoTrim, end)
  {
    var e := PendingEntry(t);
    assert From(e) == t.start * RUN && To(e) == end;
    OrderedNext(es, t.start * RUN, e, end);
    forall p | 0 <= p < end
      ensures Replay(es + [e], BLOCK, p, img[p]) == dev[p]
    {
      ReplayNext(es, e, p, img[p]);
    }
    hide Replay; hide Ordered;
  }

  lemma {:induction false} WrittenRun(dev: seq<byte>, img: seq<byte>, es: seq<Entry>, i: nat, next: nat)
    requires i * RUN < next <= |dev| && Found(dev, img, es, NoTrim, i * RUN)
    ensures Found(dev, img, es + [Write(i * RUNBLOCKS, dev[i * RUN..next])], NoTrim, next)
  {
    var end := i * RUN;
    var e := Write(i * RUNBLOCKS, dev[end..next]);
    assert From(e) == end && To(e) == next;
    OrderedNext(es, end, e, next);
    forall p | 0 <= p < next
      ensures Replay(es + [e], BLOCK, p, img[p]) == dev[p]
    {
      ReplayNext(es, e, p, img[p]);
    }
    hide Replay; hide Ordered;
  }

  // ---------------------------------------------------------------- the scan

  /** Every run below n has the hash of the device's run. */
  ghost predicate Recorded(dev: seq<byte>, hashes: map<nat, nat>, hash: seq<byte> -> nat, n: nat) {
    forall i | 0 <= i < n && i * RUN <= |dev| :: i in hashes && hashes[i] == hash(RunData(dev, i))
  }

  /** The runs below n whose hash was not stored. */
  ghost predicate ChangedBelow(updates: map<nat, nat>, dev: seq<byte>, hashes: map<nat, nat>, hash: seq<byte> -> nat,
                               n: nat)
  {
    forall k: nat :: k in updates <==> k < n && ChangedAt(dev, hashes, hash, k)
  }

  /** Whether a run is zero: known from a hole, or by its hash. */
  method IsZeroRun(data: seq<byte>, hash: seq<byte> -> nat, hole: bool) returns (h: nat, zero: bool)
    requires Injective(hash) && (hole ==> data == Zeros(|data|))
    ensures h == hash(data) && (zero <==> data == Zeros(|data|))
  {
    if hole {
      return hash(Zeros(|data|)), true;
    }
    h := hash(data);
    zero := h == hash(Zeros(|data|));
  }

  // ---------------------------------------------------------------- what the scan finds

  predicate ZeroAt(dev: seq<byte>, i: nat) {
    i * RUN <= |dev| && RunData(dev, i) == Zeros(|RunData(dev, i)|)
  }

  /** The run has no stored hash, or another one. */
  predicate ChangedAt(dev: seq<byte>, hashes: map<nat, nat>, hash: seq<byte> -> nat, i: nat) {
    i * RUN <= |dev| && !(i in hashes && hashes[i] == hash(RunData(dev, i)))
  }

  datatype Scan = Scan(es: seq<Entry>, t: Pending)

  function Flushed(s: Scan): seq<Entry> { if s.t.Growing? then s.es + [PendingEntry(s.t)] else s.es }

  /** One more run: zeros grow the pending trim, or start one if they are new; anything else ends
      it, and is written if it is new. */
  function ScanRun(s: Scan, dev: seq<byte>, hashes: map<nat, nat>, hash: seq<byte> -> nat, i: nat): Scan
    requires i < TotalRuns(|dev|)
  {
    RunBounds(|dev|, i);
    var data := RunData(dev, i);
    if ZeroAt(dev, i) then
      if s.t.Growing? then Scan(s.es, Growing(s.t.start, s.t.length + |data|))
      else if ChangedAt(dev, hashes, hash, i) then Scan(s.es, Growing(i, |data|))
      else s
    else Scan(Flushed(s) + (if ChangedAt(dev, hashes, hash, i) then [Write(i * RUNBLOCKS, data)] else []), NoTrim)
  }

  function ScanTo(dev: seq<byte>, hashes: map<nat, nat>, hash: seq<byte> -> nat, n: nat): Scan
    requires n <= TotalRuns(|dev|)
  {
    if n == 0 then Scan([], NoTrim) else ScanRun(ScanTo(dev, hashes, hash, n - 1), dev, hashes, hash, n - 1)
  }

  /** The changes, as a function of the device and the stored hashes. */
  function Changes(dev: seq<byte>, hashes: map<nat, nat>, hash: seq<byte> -> nat): seq<Entry> {
    Flushed(ScanTo(dev, hashes, hash, TotalRuns(|dev|)))
  }

  /** One more run keeps what has been found. */
  lemma {:induction false} FoundNext(dev: seq<byte>, img: seq<byte>, hashes: map<nat, nat>, hash: seq<byte> -> nat,
                                     s: Scan, i: nat)
    requires Injective(hash) && |img| == |dev| && Matches(img, hashes, hash) && i < TotalRuns(|dev|)
    requires Found(dev, img, s.es, s.t, EndAt(|dev|, i))
    ensures var r := ScanRun(s, dev, hashes, hash, i); Found(dev, img, r.es, r.t, EndAt(|dev|, i + 1))
  {
    RunBounds(|dev|, i);
    SameHash(dev, img, hashes, hash, i);
    hide Replay; hide Ordered; hide Found; hide Injective; hide Matches;
    var end, next := EndAt(|dev|, i), EndAt(|dev|, i + 1);
    assert end == i * RUN && next == RunEnd(|dev|, i);
    if ZeroAt(dev, i) {
      ZeroRun(dev, img, s.es, s.t, end, next, i);
      if s.t.NoTrim? && !ChangedAt(dev, hashes, hash, i) { SameRun(dev, img, s.es, end, next); }
    } else {
      if s.t.Growing? { FlushedTrim(dev, img, s.es, s.t, end); }
      var es := Flushed(s);
      if ChangedAt(dev, hashes, hash, i) {
        WrittenRun(dev, img, es, i, next);
      } else {
        SameRun(dev, img, es, end, next);
        assert es + [] == es;
      }
    }
  }

  /** The end of the runs below b. */
  function EndAt(size: nat, b: nat): nat { if b * RUN > size then size else b * RUN }

  /** The run loop of ScanDevice. For every image that matches the stored hashes, replaying the
      changes gives the device; the new hashes are those of the device. */
  method FindChanges(dev: seq<byte>, hashes: map<nat, nat>, hash: seq<byte> -> nat, inHole: nat -> bool,
                     ghost img: seq<byte>)
    returns (es: seq<Entry>, updates: map<nat, nat>)
    requires Injective(hash) && |img| == |dev| && Matches(img, hashes, hash)
    requires forall i: nat | i < TotalRuns(|dev|) && i * RUN <= |dev| && inHole(i) ::
      RunData(dev, i) == Zeros(|RunData(dev, i)|)
    ensures es == Changes(dev, hashes, hash)
    ensures forall e :: e in es && e.Write? <==> WritesNew(dev, hashes, hash, TotalRuns(|dev|), e)
    ensures es == [] <==> Current(dev, hashes, hash)
    ensures ChangedBelow(updates, dev, hashes, hash, TotalRuns(|dev|))
    ensures Ordered(es, |dev|) && forall p | 0 <= p < |dev| :: Replay(es, BLOCK, p, img[p]) == dev[p]
    ensures Recorded(dev, hashes + updates, hash, TotalRuns(|dev|))
  {
    hide Replay; hide Ordered; hide ScanTo; hide Found; hide Injective; hide Matches; hide WritesNew; hide Current;
    es, updates := [], map[];
    var t := NoTrim;
    FoundNothing(dev, img);
    ScanStart(dev, hashes, hash);
    for i := 0 to TotalRuns(|dev|)
      invariant Found(dev, img, es, t, EndAt(|dev|, i)) && Scan(es, t) == ScanTo(dev, hashes, hash, i)
      invariant Recorded(dev, hashes + updates, hash, i)
      invariant ChangedBelow(updates, dev, hashes, hash, i)
    {
      hide Recorded; hide EndAt; hide ChangedBelow;
      RunBounds(|dev|, i);
      ScanNext(dev, hashes, hash, i);
      FoundNext(dev, img, hashes, hash, Scan(es, t), i);
      ghost var before := updates;
      var data := RunData(dev, i);
      var h, zero := IsZeroRun(data, hash, inHole(i));
      var same := i in hashes && hashes[i] == h;
      assert same <==> !ChangedAt(dev, hashes, hash, i);
      hide RunData; hide RunEnd;
      if zero {
        if same {
          if t.Growing? { t := Growing(t.start, t.length + |data|); }
        } else {
          t := if t.Growing? then Growing(t.start, t.length + |data|) else Growing(i, |data|);
          updates := updates[i := h];
        }
      } else {
        if t.Growing? {
          es := es + [PendingEntry(t)];
          t := NoTrim;
        }
        if same {
          assert es + [] == es;
        } else {
          es := es + [Write(i * RUNBLOCKS, data)];
          updates := updates[i := h];
        }
      }
      RecordedNext(dev, hashes, before, updates, hash, i);
      ChangedNext(dev, hashes, before, updates, hash, i, h);
    }
    assert EndAt(|dev|, TotalRuns(|dev|)) == |dev|;
    if t.Growing? {
      FlushedTrim(dev, img, es, t, |dev|);
      es := es + [PendingEntry(t)];
    }
    FoundAll(dev, img, es);
    ChangesWrites(dev, hashes, hash);
    NothingFound(dev, hashes, hash);
  }

  lemma {:induction false} ScanStart(dev: seq<byte>, hashes: map<nat, nat>, hash: seq<byte> -> nat)
    ensures ScanTo(dev, hashes, hash, 0) == Scan([], NoTrim)
  {
  }

  lemma {:induction false} ScanNext(dev: seq<byte>, hashes: map<nat, nat>, hash: seq<byte> -> nat, i: nat)
    requires i < TotalRuns(|dev|)
    ensures ScanTo(dev, hashes, hash, i + 1) == ScanRun(ScanTo(dev, hashes, hash, i), dev, hashes, hash, i)
  {
  }

  lemma {:induction false} FoundAll(dev: seq<byte>, img: seq<byte>, es: seq<Entry>)
    requires Found(dev, img, es, NoTrim, |dev|)
    ensures |img| == |dev| && Ordered(es, |dev|) && forall p | 0 <= p < |dev| :: Replay(es, BLOCK, p, img[p]) == dev[p]
  {
    hide Replay; hide Ordered;
  }

  // ---------------------------------------------------------------- stretches of zeros

  ghost predicate ZeroFrom(dev: seq<byte>, a: nat, b: nat) {
    forall k: nat | a <= k < b :: ZeroAt(dev, k)
  }

  /** No run before a has changed and is joined to a by zeros. */
  ghost predicate FirstOf(dev: seq<byte>, hashes: map<nat, nat>, hash: seq<byte> -> nat, a: nat) {
    forall j: nat | j < a && ChangedAt(dev, hashes, hash, j) :: !ZeroFrom(dev, j, a)
  }

  /** Runs a up to b are zero, up to the next run that is not or to the end of the device; a is
      the first of them that has changed. */
  ghost predicate Stretch(dev: seq<byte>, hashes: map<nat, nat>, hash: seq<byte> -> nat, a: nat, b: nat) {
    && a < b <= TotalRuns(|dev|) && ChangedAt(dev, hashes, hash, a)
    && ZeroFrom(dev, a, b) && FirstOf(dev, hashes, hash, a)
    && (b == TotalRuns(|dev|) || !ZeroAt(dev, b))
  }

  function TrimOf(dev: seq<byte>, a: nat, b: nat): Entry
    requires a * RUN <= EndAt(|dev|, b)
  {
    Trim(a * RUNBLOCKS, EndAt(|dev|, b) - a * RUN)
  }

  lemma {:induction false} EndsGrow(size: nat, a: nat, b: nat)
    requires a < b <= TotalRuns(size)
    ensures a * RUN < EndAt(size, b)
  {
    RunBounds(size, a);
  }

  /** The trims among the entries are exactly those of the stretches that end before run n. */
  ghost predicate TrimsAre(es: seq<Entry>, dev: seq<byte>, hashes: map<nat, nat>, hash: seq<byte> -> nat, n: nat) {
    && (forall i | 0 <= i < |es| && es[i].Trim? :: IsStretch(es[i], dev, hashes, hash, n))
    && (forall a: nat, b: nat | Stretch(dev, hashes, hash, a, b) && b < n :: HasTrim(es, dev, a, b))
  }

  ghost predicate IsStretch(e: Entry, dev: seq<byte>, hashes: map<nat, nat>, hash: seq<byte> -> nat, n: nat) {
    exists a: nat, b: nat ::
      Stretch(dev, hashes, hash, a, b) && b < n && a * RUN <= EndAt(|dev|, b) && e == TrimOf(dev, a, b)
  }

  ghost predicate HasTrim(es: seq<Entry>, dev: seq<byte>, a: nat, b: nat) {
    a * RUN <= EndAt(|dev|, b) && TrimOf(dev, a, b) in es
  }

  /** The pending trim is the stretch that is still open before run n. */
  ghost predicate OpenAt(t: Pending, dev: seq<byte>, hashes: map<nat, nat>, hash: seq<byte> -> nat, n: nat) {
    match t
    case NoTrim => forall j: nat | j < n && ChangedAt(dev, hashes, hash, j) :: !ZeroFrom(dev, j, n)
    case Growing(a, length) =>
      && a < n && ChangedAt(dev, hashes, hash, a) && ZeroFrom(dev, a, n) && FirstOf(dev, hashes, hash, a)
      && a * RUN + length == EndAt(|dev|, n)
  }

  /** An open stretch has only one start. */
  lemma {:induction false} OneStart(dev: seq<byte>, hashes: map<nat, nat>, hash: seq<byte> -> nat, n: nat, a: nat,
                                    c: nat)
    requires a < n && c < n && ChangedAt(dev, hashes, hash, a) && ChangedAt(dev, hashes, hash, c)
    requires ZeroFrom(dev, a, n) && ZeroFrom(dev, c, n) && FirstOf(dev, hashes, hash, a)
    requires FirstOf(dev, hashes, hash, c)
    ensures a == c
  {
    hide ChangedAt; hide ZeroAt;
    ZeroPart(dev, a, n, c);
    ZeroPart(dev, c, n, a);
    hide ZeroFrom;
  }

  lemma {:induction false} ZeroPart(dev: seq<byte>, a: nat, n: nat, c: nat)
    requires ZeroFrom(dev, a, n) && c <= n
    ensures ZeroFrom(dev, a, c)
  {
  }

  lemma {:induction false} OpenNext(s: Scan, dev: seq<byte>, hashes: map<nat, nat>, hash: seq<byte> -> nat, n: nat)
    requires n < TotalRuns(|dev|) && OpenAt(s.t, dev, hashes, hash, n)
    ensures OpenAt(ScanRun(s, dev, hashes, hash, n).t, dev, hashes, hash, n + 1)
  {
    RunBounds(|dev|, n);
    var next := ScanRun(s, dev, hashes, hash, n);
    assert EndAt(|dev|, n + 1) == EndAt(|dev|, n) + |RunData(dev, n)|;
    hide RunData;
    if !ZeroAt(dev, n) {
      forall j: nat | j < n + 1 && ChangedAt(dev, hashes, hash, j) ensures !ZeroFrom(dev, j, n + 1) {
        assert j <= n;
      }
    } else if s.t.Growing? {
      assert ZeroFrom(dev, s.t.start, n + 1);
    } else {
      forall j: nat | j < n && ChangedAt(dev, hashes, hash, j) ensures !ZeroFrom(dev, j, n + 1) {
        assert !ZeroFrom(dev, j, n);
      }
    }
  }

  /** A stretch that ends at n is the pending trim. */
  lemma {:induction false} ClosesAt(t: Pending, dev: seq<byte>, hashes: map<nat, nat>, hash: seq<byte> -> nat, n: nat,
                                    a: nat)
    requires OpenAt(t, dev, hashes, hash, n) && Stretch(dev, hashes, hash, a, n)
    ensures t.Growing? && t.start == a && a * RUN <= EndAt(|dev|, n) && PendingEntry(t) == TrimOf(dev, a, n)
  {
    hide ChangedAt; hide ZeroAt; hide ZeroFrom; hide FirstOf;
    EndsGrow(|dev|, a, n);
    if t.Growing? { OneStart(dev, hashes, hash, n, a, t.start); }
  }

  lemma {:induction false} TrimsKeep(es: seq<Entry>, more: seq<Entry>, dev: seq<byte>, hashes: map<nat, nat>,
                                     hash: seq<byte> -> nat, n: nat)
    requires TrimsAre(es, dev, hashes, hash, n)
    requires forall i | 0 <= i < |more| && more[i].Trim? :: IsStretch(more[i], dev, hashes, hash, n + 1)
    requires forall a: nat | Stretch(dev, hashes, hash, a, n) :: HasTrim(es + more, dev, a, n)
    ensures TrimsAre(es + more, dev, hashes, hash, n + 1)
  {
    hide Stretch;
    var all := es + more;
    forall i | 0 <= i < |all| && all[i].Trim? ensures IsStretch(all[i], dev, hashes, hash, n + 1) {
      if i < |es| {
        assert IsStretch(es[i], dev, hashes, hash, n);
      } else {
        assert all[i] == more[i - |es|];
      }
    }
    forall a: nat, b: nat | Stretch(dev, hashes, hash, a, b) && b < n + 1 ensures HasTrim(all, dev, a, b) {
      if b < n { assert HasTrim(es, dev, a, b); }
    }
  }

  lemma {:induction false} ClosedTrim(t: Pending, dev: seq<byte>, hashes: map<nat, nat>, hash: seq<byte> -> nat, n: nat)
    requires OpenAt(t, dev, hashes, hash, n) && t.Growing? && n <= TotalRuns(|dev|)
    requires (n == TotalRuns(|dev|) || !ZeroAt(dev, n))
    ensures IsStretch(PendingEntry(t), dev, hashes, hash, n + 1) && Stretch(dev, hashes, hash, t.start, n)
  {
    hide ChangedAt; hide ZeroAt; hide ZeroFrom; hide FirstOf;
    EndsGrow(|dev|, t.start, n);
    assert Stretch(dev, hashes, hash, t.start, n);
    assert PendingEntry(t) == TrimOf(dev, t.start, n);
  }

  /** Flushing at the end of a stretch. */
  lemma {:induction false} TrimsFlush(s: Scan, more: seq<Entry>, dev: seq<byte>, hashes: map<nat, nat>,
                                      hash: seq<byte> -> nat, n: nat)
    requires TrimsAre(s.es, dev, hashes, hash, n) && OpenAt(s.t, dev, hashes, hash, n)
    requires n <= TotalRuns(|dev|) && (n == TotalRuns(|dev|) || !ZeroAt(dev, n))
    requires forall i | 0 <= i < |more| :: more[i].Write?
    ensures TrimsAre(Flushed(s) + more, dev, hashes, hash, n + 1)
  {
    hide Stretch; hide OpenAt; hide TrimsAre;
    var tail := (if s.t.Growing? then [PendingEntry(s.t)] else []) + more;
    assert Flushed(s) + more == s.es + tail;
    if s.t.Growing? { ClosedTrim(s.t, dev, hashes, hash, n); }
    forall a: nat | Stretch(dev, hashes, hash, a, n) ensures HasTrim(s.es + tail, dev, a, n) {
      ClosesAt(s.t, dev, hashes, hash, n, a);
      assert (s.es + tail)[|s.es|] == PendingEntry(s.t);
    }
    TrimsKeep(s.es, tail, dev, hashes, hash, n);
  }

  lemma {:induction false} TrimsNext(s: Scan, dev: seq<byte>, hashes: map<nat, nat>, hash: seq<byte> -> nat, n: nat)
    requires n < TotalRuns(|dev|) && TrimsAre(s.es, dev, hashes, hash, n) && OpenAt(s.t, dev, hashes, hash, n)
    ensures TrimsAre(ScanRun(s, dev, hashes, hash, n).es, dev, hashes, hash, n + 1)
  {
    hide OpenAt; hide TrimsAre; hide RunData; hide ChangedAt;
    if ZeroAt(dev, n) {
      TrimsKeep(s.es, [], dev, hashes, hash, n);
      assert s.es + [] == s.es;
    } else {
      RunBounds(|dev|, n);
      var more := if ChangedAt(dev, hashes, hash, n) then [Write(n * RUNBLOCKS, RunData(dev, n))] else [];
      TrimsFlush(s, more, dev, hashes, hash, n);
    }
  }

  lemma {:induction false} ScanTrims(dev: seq<byte>, hashes: map<nat, nat>, hash: seq<byte> -> nat, n: nat)
    requires n <= TotalRuns(|dev|)
    ensures var s := ScanTo(dev, hashes, hash, n);
      TrimsAre(s.es, dev, hashes, hash, n) && OpenAt(s.t, dev, hashes, hash, n)
  {
    hide TrimsAre; hide OpenAt; hide ScanRun; hide ScanTo; hide TotalRuns;
    if n == 0 {
      ScanStart(dev, hashes, hash);
      NoTrims(dev, hashes, hash);
    } else {
      ScanTrims(dev, hashes, hash, n - 1);
      ScanNext(dev, hashes, hash, n - 1);
      TrimsNext(ScanTo(dev, hashes, hash, n - 1), dev, hashes, hash, n - 1);
      OpenNext(ScanTo(dev, hashes, hash, n - 1), dev, hashes, hash, n - 1);
    }
  }

  lemma {:induction false} NoTrims(dev: seq<byte>, hashes: map<nat, nat>, hash: seq<byte> -> nat)
    ensures TrimsAre([], dev, hashes, hash, 0) && OpenAt(NoTrim, dev, hashes, hash, 0)
  {
    hide Stretch; hide ChangedAt; hide ZeroFrom;
  }

  /** The trims of a scan are exactly the stretches of zeros that begin at a changed run. */
  lemma {:induction false} ChangesTrims(dev: seq<byte>, hashes: map<nat, nat>, hash: seq<byte> -> nat)
    ensures TrimsAre(Changes(dev, hashes, hash), dev, hashes, hash, TotalRuns(|dev|) + 1)
  {
    var n := TotalRuns(|dev|);
    ScanTrims(dev, hashes, hash, n);
    hide TrimsAre; hide OpenAt; hide ScanTo;
    var s := ScanTo(dev, hashes, hash, n);
    TrimsFlush(s, [], dev, hashes, hash, n);
    assert Flushed(s) + [] == Flushed(s);
  }

  // ---------------------------------------------------------------- changed runs

  /** The writes among the entries, in order. */
  function Writes(es: seq<Entry>): seq<Entry> {
    if es == [] then []
    else Writes(es[..|es| - 1]) + if es[|es| - 1].Write? then [es[|es| - 1]] else []
  }

  lemma {:induction false} WritesAppend(a: seq<Entry>, b: seq<Entry>)
    ensures Writes(a + b) == Writes(a) + Writes(b)
  {
    if b == [] {
      assert a + b == a;
    } else {
      assert (a + b)[..|a + b| - 1] == a + b[..|b| - 1];
      WritesAppend(a, b[..|b| - 1]);
    }
  }

  lemma {:induction false} WritesOnly(es: seq<Entry>, e: Entry)
    ensures e in Writes(es) <==> e in es && e.Write?
  {
    if es != [] {
      assert es == es[..|es| - 1] + [es[|es| - 1]];
      WritesOnly(es[..|es| - 1], e);
    }
  }

  lemma {:induction false} WritesOne(e: Entry)
    ensures Writes([e]) == if e.Write? then [e] else []
  {
    assert [e][..0] == [];
  }

  /** Run i is neither zero nor what its stored hash says. */
  predicate NewRun(dev: seq<byte>, hashes: map<nat, nat>, hash: seq<byte> -> nat, i: nat) {
    i * RUN <= |dev| && !ZeroAt(dev, i) && ChangedAt(dev, hashes, hash, i)
  }

  /** A write of each new run below n, in order. */
  function NewRuns(dev: seq<byte>, hashes: map<nat, nat>, hash: seq<byte> -> nat, n: nat): seq<Entry> {
    if n == 0 then []
    else
      NewRuns(dev, hashes, hash, n - 1) +
      if NewRun(dev, hashes, hash, n - 1) then [Write((n - 1) * RUNBLOCKS, RunData(dev, n - 1))] else []
  }

  lemma {:induction false} NewRunsSnoc(dev: seq<byte>, hashes: map<nat, nat>, hash: seq<byte> -> nat, n: nat)
    ensures var init, ws := NewRuns(dev, hashes, hash, n), NewRuns(dev, hashes, hash, n + 1);
      if NewRun(dev, hashes, hash, n) then n * RUN <= |dev| && ws == init + [Write(n * RUNBLOCKS, RunData(dev, n))]
      else ws == init
  {
  }

  lemma {:induction false} NewRunsNext(dev: seq<byte>, hashes: map<nat, nat>, hash: seq<byte> -> nat, s: Scan, n: nat)
    requires n < TotalRuns(|dev|) && Writes(s.es) == NewRuns(dev, hashes, hash, n)
    ensures Writes(ScanRun(s, dev, hashes, hash, n).es) == NewRuns(dev, hashes, hash, n + 1)
  {
    hide RunData; hide ZeroAt; hide ChangedAt; hide Writes; hide Flushed; hide ScanRun; hide NewRuns; hide TotalRuns;
    ScanRunFinds(s, dev, hashes, hash, n);
    NewRunsSnoc(dev, hashes, hash, n);
    if !ZeroAt(dev, n) {
      WritesFlushed(s);
      if ChangedAt(dev, hashes, hash, n) {
        var e := Write(n * RUNBLOCKS, RunData(dev, n));
        WritesAppend(Flushed(s), [e]);
        WritesOne(e);
      }
    }
  }

  lemma {:induction false} ScanRunFinds(s: Scan, dev: seq<byte>, hashes: map<nat, nat>, hash: seq<byte> -> nat, n: nat)
    requires n < TotalRuns(|dev|)
    ensures n * RUN <= |dev|
    ensures ScanRun(s, dev, hashes, hash, n).es ==
            if ZeroAt(dev, n) then s.es
            else if ChangedAt(dev, hashes, hash, n) then Flushed(s) + [Write(n * RUNBLOCKS, RunData(dev, n))]
            else Flushed(s)
  {
    RunBounds(|dev|, n);
    hide RunData; hide ZeroAt; hide ChangedAt; hide Flushed;
    assert Flushed(s) + [] == Flushed(s);
  }

  lemma {:induction false} WritesFlushed(s: Scan)
    ensures Writes(Flushed(s)) == Writes(s.es)
  {
    if s.t.Growing? {
      WritesAppend(s.es, [PendingEntry(s.t)]);
      WritesOne(PendingEntry(s.t));
    }
  }

  lemma {:induction false} ScanWrites(dev: seq<byte>, hashes: map<nat, nat>, hash: seq<byte> -> nat, n: nat)
    requires n <= TotalRuns(|dev|)
    ensures Writes(ScanTo(dev, hashes, hash, n).es) == NewRuns(dev, hashes, hash, n)
  {
    if n > 0 {
      ScanWrites(dev, hashes, hash, n - 1);
      hide Writes; hide NewRuns; hide ScanRun;
      NewRunsNext(dev, hashes, hash, ScanTo(dev, hashes, hash, n - 1), n - 1);
    }
  }

  /** The writes are in order, so each is there once. */
  lemma {:induction false} NewRunsAscend(dev: seq<byte>, hashes: map<nat, nat>, hash: seq<byte> -> nat, n: nat)
    ensures var ws := NewRuns(dev, hashes, hash, n);
      && (forall i | 0 <= i < |ws| :: ws[i].Write? && ws[i].block < n * RUNBLOCKS)
      && forall i, j | 0 <= i < j < |ws| :: ws[i].block < ws[j].block
  {
    if n > 0 {
      NewRunsAscend(dev, hashes, hash, n - 1);
      NewRunsSnoc(dev, hashes, hash, n - 1);
      hide NewRun; hide RunData; hide NewRuns;
    }
  }

  /** Some run below n is new, and this is its write. */
  ghost predicate WritesNew(dev: seq<byte>, hashes: map<nat, nat>, hash: seq<byte> -> nat, n: nat, e: Entry) {
    exists i: nat | i < n :: WriteOf(dev, hashes, hash, i, e)
  }

  predicate WriteOf(dev: seq<byte>, hashes: map<nat, nat>, hash: seq<byte> -> nat, i: nat, e: Entry) {
    NewRun(dev, hashes, hash, i) && e == Write(i * RUNBLOCKS, RunData(dev, i))
  }

  lemma {:induction false} NewRunsAre(dev: seq<byte>, hashes: map<nat, nat>, hash: seq<byte> -> nat, n: nat, e: Entry)
    ensures e in NewRuns(dev, hashes, hash, n) <==> WritesNew(dev, hashes, hash, n, e)
  {
    hide WriteOf;
    if n == 0 {
      assert NewRuns(dev, hashes, hash, 0) == [];
    } else {
      hide NewRuns;
      NewRunsAre(dev, hashes, hash, n - 1, e);
      NewRunsStep(dev, hashes, hash, n - 1, e);
    }
  }

  lemma {:induction false} NewRunsStep(dev: seq<byte>, hashes: map<nat, nat>, hash: seq<byte> -> nat, n: nat, e: Entry)
    ensures e in NewRuns(dev, hashes, hash, n + 1) <==>
            e in NewRuns(dev, hashes, hash, n) || WriteOf(dev, hashes, hash, n, e)
  {
    hide NewRuns; hide RunData; hide ZeroAt; hide ChangedAt;
    NewRunsSnoc(dev, hashes, hash, n);
  }

  /** The writes of a scan are exactly the new runs, each once. */
  lemma {:induction false} ChangesWrites(dev: seq<byte>, hashes: map<nat, nat>, hash: seq<byte> -> nat)
    ensures Writes(Changes(dev, hashes, hash)) == NewRuns(dev, hashes, hash, TotalRuns(|dev|))
    ensures forall e :: e in Changes(dev, hashes, hash) && e.Write? <==>
      WritesNew(dev, hashes, hash, TotalRuns(|dev|), e)
  {
    var n := TotalRuns(|dev|);
    ScanWrites(dev, hashes, hash, n);
    WritesFlushed(ScanTo(dev, hashes, hash, n));
    ChangesAre(dev, hashes, hash);
    hide WritesNew; hide Writes; hide NewRuns; hide Changes; hide ScanTo;
    forall e ensures e in Changes(dev, hashes, hash) && e.Write? <==> WritesNew(dev, hashes, hash, n, e) {
      WritesOnly(Changes(dev, hashes, hash), e);
      NewRunsAre(dev, hashes, hash, n, e);
    }
  }

  lemma {:induction false} ChangesAre(dev: seq<byte>, hashes: map<nat, nat>, hash: seq<byte> -> nat)
    ensures Changes(dev, hashes, hash) == Flushed(ScanTo(dev, hashes, hash, TotalRuns(|dev|)))
  {
  }

  lemma {:induction false} NothingChanged(updates: map<nat, nat>, dev: seq<byte>, hashes: map<nat, nat>,
                                          hash: seq<byte> -> nat)
    requires ChangedBelow(updates, dev, hashes, hash, TotalRuns(|dev|)) && Current(dev, hashes, hash)
    ensures updates == map[]
  {
  }

  /** Every run has its stored hash. */
  ghost predicate Current(dev: seq<byte>, hashes: map<nat, nat>, hash: seq<byte> -> nat) {
    forall i: nat | i < TotalRuns(|dev|) :: !ChangedAt(dev, hashes, hash, i)
  }

  lemma {:induction false} ScanQuiet(dev: seq<byte>, hashes: map<nat, nat>, hash: seq<byte> -> nat, n: nat)
    requires n <= TotalRuns(|dev|)
    ensures Flushed(ScanTo(dev, hashes, hash, n)) == [] <==> forall i: nat | i < n :: !ChangedAt(dev, hashes, hash, i)
  {
    hide RunData; hide ChangedAt; hide ZeroAt;
    if n > 0 { ScanQuiet(dev, hashes, hash, n - 1); }
  }

  /** A scan finds nothing exactly when every stored hash is current. */
  lemma {:induction false} NothingFound(dev: seq<byte>, hashes: map<nat, nat>, hash: seq<byte> -> nat)
    ensures Changes(dev, hashes, hash) == [] <==> Current(dev, hashes, hash)
  {
    ScanQuiet(dev, hashes, hash, TotalRuns(|dev|));
  }

  lemma {:induction false} FoundNothing(dev: seq<byte>, img: seq<byte>)
    requires |img| == |dev|
    ensures Found(dev, img, [], NoTrim, 0)
  {}

  /** A run whose stored hash is the device's run's hash is the device's run. */
  lemma {:induction false} SameHash(dev: seq<byte>, img: seq<byte>, hashes: map<nat, nat>, hash: seq<byte> -> nat,
                                    i: nat)
    requires Injective(hash) && |img| == |dev| && Matches(img, hashes, hash) && i < TotalRuns(|dev|) && i * RUN <= |dev|
    ensures i in hashes && hashes[i] == hash(RunData(dev, i)) ==> RunData(dev, i) == RunData(img, i)
  {
    RunBounds(|dev|, i);
    assert |RunData(dev, i)| == |RunData(img, i)|;
  }

  lemma {:induction false} RecordedNext(dev: seq<byte>, hashes: map<nat, nat>, before: map<nat, nat>,
                                        updates: map<nat, nat>, hash: seq<byte> -> nat, i: nat)
    requires Recorded(dev, hashes + before, hash, i) && i * RUN <= |dev|
    requires updates == before || (i in updates && updates == before[i := updates[i]])
    requires if i in updates then updates[i] == hash(RunData(dev, i))
      else i in hashes && hashes[i] == hash(RunData(dev, i))
    ensures Recorded(dev, hashes + updates, hash, i + 1)
  {
    forall k | 0 <= k < i && k * RUN <= |dev|
      ensures k in hashes + updates && (hashes + updates)[k] == hash(RunData(dev, k))
    {
      assert k in hashes + before && (hashes + before)[k] == hash(RunData(dev, k));
    }
  }

  lemma {:induction false} ChangedNext(dev: seq<byte>, hashes: map<nat, nat>, before: map<nat, nat>,
                                       updates: map<nat, nat>, hash: seq<byte> -> nat, i: nat, h: nat)
    requires ChangedBelow(before, dev, hashes, hash, i)
    requires updates == if ChangedAt(dev, hashes, hash, i) then before[i := h] else before
    ensures ChangedBelow(updates, dev, hashes, hash, i + 1)
  {
  }

  // ---------------------------------------------------------------- emission

  /** A trim as the log holds it: lengths have 32 bits, and the block number advances by whole
      blocks only. */
  function Chunks(block: nat, remaining: nat): seq<Entry>
    decreases remaining
  {
    if remaining == 0 then []
    else
      var chunk := if remaining > CHUNK then CHUNK else remaining;
      [Trim(block, chunk)] + Chunks(block + chunk / BLOCK, remaining - chunk)
  }

  function EmitOne(e: Entry): seq<Entry> { if e.Write? then [e] else Chunks(e.block, e.length) }

  function EmitAll(es: seq<Entry>): seq<Entry> {
    if es == [] then [] else EmitAll(es[..|es| - 1]) + EmitOne(es[|es| - 1])
  }

  /** How many bytes from its start a trim really clears. */
  function Cleared(n: nat): (r: nat)
    ensures r <= n && (n > CHUNK ==> r >= CHUNK)
  {
    if n <= CHUNK then n
    else
      var rest := CHUNK - 4095 + Cleared(n - CHUNK);
      if rest < CHUNK then CHUNK else rest
  }

  /** With k chunks, of which the last has r bytes, the end of the trim is missed by 4095 bytes
      per chunk boundary, or by a little less if the last chunk is shorter than that. */
  lemma {:induction false} ClearedIs(n: nat, k: nat, r: nat)
    requires n == k * CHUNK + r && 0 < r <= CHUNK
    ensures Cleared(n) == n - (if k == 0 then 0 else if r >= 4095 then 4095 * k else 4095 * (k - 1) + r)
    decreases k
  {
    if k > 0 {
      assert n - CHUNK == (k - 1) * CHUNK + r;
      ClearedIs(n - CHUNK, k - 1, r);
    }
  }

  /** Exactly the trims below 2^32 bytes are cleared to their end. */
  lemma {:induction false} ClearedAll(n: nat)
    ensures Cleared(n) == n <==> n < TWO32
    decreases n
  {
    if n > CHUNK { ClearedAll(n - CHUNK); }
  }

  lemma {:induction false} ChunksClear(block: nat, n: nat, p: nat, base: byte)
    ensures Replay(Chunks(block, n), BLOCK, p, base) ==
      if block * BLOCK <= p < block * BLOCK + Cleared(n) then 0 else base
    decreases n
  {
    if n > 0 {
      var chunk := if n > CHUNK then CHUNK else n;
      var rest := Chunks(block + chunk / BLOCK, n - chunk);
      ReplayAppend([Trim(block, chunk)], rest, BLOCK, p, base);
      ReplayNext([], Trim(block, chunk), p, base);
      assert [] + [Trim(block, chunk)] == [Trim(block, chunk)];
      ChunksClear(block + chunk / BLOCK, n - chunk, p, Replay([Trim(block, chunk)], BLOCK, p, base));
      hide Replay; hide Chunks;
    }
  }

  /** Byte p is in the part of a trim that its chunks do not reach. */
  ghost predicate Missed(es: seq<Entry>, p: nat) {
    exists i | 0 <= i < |es| :: MissedBy(es[i], p)
  }

  ghost predicate MissedBy(e: Entry, p: nat) { e.Trim? && From(e) + Cleared(e.length) <= p < To(e) }

  lemma {:induction false} EmitOneReplays(e: Entry, p: nat, base: byte)
    ensures Replay(EmitOne(e), BLOCK, p, base) ==
      if From(e) <= p < To(e) && !MissedBy(e, p) then e.Value(BLOCK, p) else base
  {
    if e.Write? {
      ReplayNext([], e, p, base);
      assert [] + [e] == [e];
    } else {
      ChunksClear(e.block, e.length, p, base);
    }
    hide Replay; hide Chunks; hide Cleared;
  }

  /** What the emitted entries do, compared with the changes. */
  lemma {:induction false} EmitReplays(es: seq<Entry>, limit: nat, p: nat, base: byte)
    requires Ordered(es, limit)
    ensures Replay(EmitAll(es), BLOCK, p, base) == if Missed(es, p) then base else Replay(es, BLOCK, p, base)
    decreases |es|
  {
    if es != [] {
      var init, e := es[..|es| - 1], es[|es| - 1];
      assert es == init + [e];
      assert Ordered(init, limit);
      EmitReplays(init, limit, p, base);
      ReplayAppend(EmitAll(init), EmitOne(e), BLOCK, p, base);
      EmitOneReplays(e, p, Replay(EmitAll(init), BLOCK, p, base));
      ReplayNext(init, e, p, base);
      if From(e) <= p { UntouchedBefore(init, e, limit, p, base); }
      MissedSplit(init, e, p);
      hide Replay; hide EmitOne; hide Ordered; hide Missed; hide MissedBy;
    }
  }

  lemma {:induction false} UntouchedBefore(init: seq<Entry>, e: Entry, limit: nat, p: nat, base: byte)
    requires Ordered(init + [e], limit) && From(e) <= p
    ensures Replay(init, BLOCK, p, base) == base && !Missed(init, p)
  {
    var es := init + [e];
    forall i | 0 <= i < |init|
      ensures To(init[i]) <= From(e)
    {
      assert init[i] == es[i] && e == es[|init|];
    }
    assert Ordered(init, From(e)) by {
      forall i, j | 0 <= i < j < |init|
        ensures To(init[i]) <= From(init[j])
      {
        assert init[i] == es[i] && init[j] == es[j];
      }
    }
    Untouched(init, From(e), p, base);
  }

  lemma {:induction false} MissedSplit(init: seq<Entry>, e: Entry, p: nat)
    ensures Missed(init + [e], p) <==> Missed(init, p) || MissedBy(e, p)
  {
    var es := init + [e];
    if MissedBy(e, p) { assert MissedBy(es[|init|], p); }
    if Missed(init, p) {
      var i :| 0 <= i < |init| && MissedBy(init[i], p);
      assert MissedBy(es[i], p);
    }
  }

  lemma {:induction false} ChunksWriteNothing(block: nat, n: nat)
    ensures Writes(Chunks(block, n)) == []
    decreases n
  {
    if n > 0 {
      var chunk := if n > CHUNK then CHUNK else n;
      ChunksWriteNothing(block + chunk / BLOCK, n - chunk);
      WritesAppend([Trim(block, chunk)], Chunks(block + chunk / BLOCK, n - chunk));
      WritesOne(Trim(block, chunk));
    }
  }

  /** Cutting trims into chunks leaves the writes as they are. */
  lemma {:induction false} EmitWrites(es: seq<Entry>)
    ensures Writes(EmitAll(es)) == Writes(es) && (es == [] ==> EmitAll(es) == [])
  {
    if es != [] {
      var e := es[|es| - 1];
      EmitWrites(es[..|es| - 1]);
      WritesAppend(EmitAll(es[..|es| - 1]), EmitOne(e));
      WritesOne(e);
      if e.Trim? { ChunksWriteNothing(e.block, e.length); }
    }
  }

  /** The emission loop: every change, trims in chunks. */
  method Emit(es: seq<Entry>) returns (out: seq<Entry>)
    ensures out == EmitAll(es)
  {
    out := [];
    for i := 0 to |es|
      invariant out == EmitAll(es[..i])
    {
      assert es[..i + 1][..i] == es[..i];
      if es[i].Trim? {
        var remaining: nat, block: nat := es[i].length, es[i].block;
        ghost var before := out;
        while remaining > 0
          invariant 0 <= remaining && before + Chunks(es[i].block, es[i].length) == out + Chunks(block, remaining)
        {
          var chunk := if remaining > CHUNK then CHUNK else remaining;
          out := out + [Trim(block, chunk)];
          remaining, block := remaining - chunk, block + chunk / BLOCK;
        }
      } else {
        out := out + [es[i]];
      }
    }
    assert es[..|es|] == es;
  }

  /** Byte p is beyond what the chunks of a stretch of zeros clear: the stretch begins at a
      changed run and has 2^32 bytes or more. */
  ghost predicate BeyondChunks(dev: seq<byte>, hashes: map<nat, nat>, hash: seq<byte> -> nat, p: nat) {
    exists a: nat, b: nat :: Stretch(dev, hashes, hash, a, b) && BeyondIn(|dev|, a, b, p)
  }

  ghost predicate BeyondIn(size: nat, a: nat, b: nat, p: nat) {
    a * RUN <= EndAt(size, b) && a * RUN + Cleared(EndAt(size, b) - a * RUN) <= p < EndAt(size, b)
  }

  lemma {:induction false} MissedOne(dev: seq<byte>, a: nat, b: nat, p: nat)
    requires a * RUN <= EndAt(|dev|, b)
    ensures MissedBy(TrimOf(dev, a, b), p) <==> BeyondIn(|dev|, a, b, p)
  {
  }

  lemma {:induction false} MissedIff(dev: seq<byte>, hashes: map<nat, nat>, hash: seq<byte> -> nat, p: nat)
    ensures Missed(Changes(dev, hashes, hash), p) <==> BeyondChunks(dev, hashes, hash, p)
  {
    ChangesTrims(dev, hashes, hash);
    hide Changes; hide Stretch; hide MissedBy; hide BeyondIn; hide TrimOf;
    var es, n := Changes(dev, hashes, hash), TotalRuns(|dev|) + 1;
    if Missed(es, p) {
      var i :| 0 <= i < |es| && MissedBy(es[i], p);
      assert es[i].Trim? by { MissedTrim(es[i], p); }
      assert IsStretch(es[i], dev, hashes, hash, n);
      var a: nat, b: nat :|
        Stretch(dev, hashes, hash, a, b) && b < n && a * RUN <= EndAt(|dev|, b) && es[i] == TrimOf(dev, a, b);
      MissedOne(dev, a, b, p);
    }
    if BeyondChunks(dev, hashes, hash, p) {
      var a: nat, b: nat :| Stretch(dev, hashes, hash, a, b) && BeyondIn(|dev|, a, b, p);
      StretchEnds(dev, hashes, hash, a, b);
      assert HasTrim(es, dev, a, b);
      var i :| 0 <= i < |es| && es[i] == TrimOf(dev, a, b);
      MissedOne(dev, a, b, p);
    }
  }

  lemma {:induction false} MissedTrim(e: Entry, p: nat)
    requires MissedBy(e, p)
    ensures e.Trim?
  {
  }

  lemma {:induction false} StretchEnds(dev: seq<byte>, hashes: map<nat, nat>, hash: seq<byte> -> nat, a: nat, b: nat)
    requires Stretch(dev, hashes, hash, a, b)
    ensures a < b <= TotalRuns(|dev|)
  {
  }

  /** Only a stretch of 2^32 bytes or more has bytes beyond its chunks. */
  lemma {:induction false} BeyondIsLong(dev: seq<byte>, hashes: map<nat, nat>, hash: seq<byte> -> nat, p: nat)
    requires BeyondChunks(dev, hashes, hash, p)
    ensures |dev| >= TWO32
  {
    hide Stretch; hide Cleared;
    var a: nat, b: nat :| Stretch(dev, hashes, hash, a, b) && BeyondIn(|dev|, a, b, p);
    ClearedAll(EndAt(|dev|, b) - a * RUN);
  }

  /** ScanDevice. Over any image that matches the stored hashes, the emitted entries yield the
      device at byte p exactly when p is not beyond the chunks of a long stretch of zeros, or was
      zero already. The new hashes are those of the device. */
  method ScanDevice(dev: seq<byte>, hashes: map<nat, nat>, hash: seq<byte> -> nat, inHole: nat -> bool,
                    ghost img: seq<byte>)
    returns (out: seq<Entry>, stored: map<nat, nat>)
    requires Injective(hash) && |img| == |dev| && Matches(img, hashes, hash)
    requires forall i: nat | i < TotalRuns(|dev|) && i * RUN <= |dev| && inHole(i) ::
      RunData(dev, i) == Zeros(|RunData(dev, i)|)
    ensures out == EmitAll(Changes(dev, hashes, hash))
    ensures forall p | 0 <= p < |dev| ::
      Replay(out, BLOCK, p, img[p]) == dev[p] <==> !BeyondChunks(dev, hashes, hash, p) || img[p] == 0
    ensures |dev| < TWO32 ==> forall p | 0 <= p < |dev| :: Replay(out, BLOCK, p, img[p]) == dev[p]
    ensures Recorded(dev, stored, hash, TotalRuns(|dev|))
    ensures Writes(out) == NewRuns(dev, hashes, hash, TotalRuns(|dev|))
    ensures Current(dev, hashes, hash) ==> out == [] && stored == hashes
  {
    hide Replay; hide Ordered; hide RunData; hide EmitAll; hide Recorded; hide Matches; hide Injective; hide Changes;
    hide Missed;
    hide BeyondChunks;
    var changes, updates := FindChanges(dev, hashes, hash, inHole, img);
    out := Emit(changes);
    stored := hashes + updates;
    ChangesWrites(dev, hashes, hash);
    EmitWrites(changes);
    if Current(dev, hashes, hash) { NothingChanged(updates, dev, hashes, hash); }
    assert hashes + map[] == hashes;
    forall p | 0 <= p < |dev|
      ensures Replay(out, BLOCK, p, img[p]) == dev[p] <==> !BeyondChunks(dev, hashes, hash, p) || img[p] == 0
      ensures |dev| < TWO32 ==> !BeyondChunks(dev, hashes, hash, p)
    {
      EmitReplays(changes, |dev|, p, img[p]);
      MissedZero(changes, |dev|, p, img[p]);
      MissedIff(dev, hashes, hash, p);
      if BeyondChunks(dev, hashes, hash, p) { BeyondIsLong(dev, hashes, hash, p); }
    }
  }

  /** The bytes of a trim are zero on the device. */
  lemma {:induction false} MissedZero(es: seq<Entry>, limit: nat, p: nat, base: byte)
    requires Ordered(es, limit)
    ensures Missed(es, p) ==> Replay(es, BLOCK, p, base) == 0
    decreases |es|
  {
    if es != [] {
      var init, e := es[..|es| - 1], es[|es| - 1];
      assert es == init + [e];
      MissedZero(init, limit, p, base);
      ReplayNext(init, e, p, base);
      MissedSplit(init, e, p);
      if From(e) <= p { UntouchedBefore(init, e, limit, p, base); }
      hide Replay; hide Ordered; hide Missed; hide Cleared;
    }
  }

  lemma {:induction false} WholeDevice(hash: seq<byte> -> nat)
    ensures BeyondChunks(Zeros(TWO32), map[], hash, TWO32 - 1)
  {
    var dev := Zeros(TWO32);
    var n := TotalRuns(TWO32);
    hide Zeros; hide RunData;
    assert n > 0 && EndAt(TWO32, n) == TWO32;
    forall i: nat | i < n ensures ZeroAt(dev, i) { ZeroRuns(TWO32, i); }
    assert ChangedAt(dev, map[], hash, 0);
    assert Stretch(dev, map[], hash, 0, n);
    ClearedIs(TWO32, 1, 1);
    hide Cleared;
    assert BeyondIn(TWO32, 0, n, TWO32 - 1);
  }

  lemma {:induction false} ZeroRuns(size: nat, i: nat)
    requires i < TotalRuns(size)
    ensures ZeroAt(Zeros(size), i)
  {
    RunBounds(size, i);
  }

  /** A device of 2^32 bytes that is all zero now, scanned for the first time: the last byte of
      the image it was, if not zero, stays. */
  method LastByteStays(img: seq<byte>, hash: seq<byte> -> nat) returns (out: seq<Entry>)
    requires |img| == TWO32 && img[TWO32 - 1] != 0 && Injective(hash)
    ensures out == EmitAll(Changes(Zeros(TWO32), map[], hash))
    ensures Replay(out, BLOCK, TWO32 - 1, img[TWO32 - 1]) != Zeros(TWO32)[TWO32 - 1]
  {
    var stored;
    WholeDevice(hash);
    hide BeyondChunks; hide Changes; hide EmitAll; hide Injective; hide Replay; hide Recorded;
    out, stored := ScanDevice(Zeros(TWO32), map[], hash, _ => false, img);
  }
}
