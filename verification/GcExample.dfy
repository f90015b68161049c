/** Stores on which garbage collection does not do what its comments say. */
module GcExample {
  import opened Bytes
  import opened Options
  import opened LogReplay
  import opened IntervalMap
  import opened Store
  import opened Retire
  import opened LiveMaps
  import opened Accounting
  import opened Gc
  import opened GcRuns
  import opened Payload
  import opened Incremental
  import opened Samples

  // ---------------------------------------------------------------- a first run over two logs

  const Start := MapState(-1, [], map[])

  lemma {:induction false} FreshTracks(store: seq<Segment>, bs: nat)
    requires bs > 0 && StoreOk(store, bs)
    ensures Tracks(Start, store, bs) && Usable(Start)
  {
    assert store[..0] == [];
    assert Seen(Start, store, 0, bs);
  }

  lemma {:induction false} AllNew(s: Segment, t: Segment)
    ensures After([s, t], -1) == [s, t]
  {
    assert [s, t][..1] == [s] && [s][..0] == [];
    assert After([], -1) == [] && After([s], -1) == [] + [s] && After([s, t], -1) == [s] + [t];
  }

  lemma {:induction false} ReadTwo(m: MapState, s: Segment, t: Segment, bs: nat)
    requires bs > 0
    ensures Read(m, [s, t], bs, false) == ReadOne(ReadOne(m, s, bs, false), t, bs, false)
  {
    hide ReadOne;
    assert [s, t][..1] == [s] && [s][..0] == [];
    assert Read(m, [], bs, false) == m;
    assert Read(m, [s], bs, false) == ReadOne(m, s, bs, false);
  }

  /** A fresh map that has read two segments. */
  lemma {:induction false} SeenTwo(s: Segment, t: Segment, bs: nat)
    requires bs > 0 && s.id == 1 && t.id == 2 && s.entries != [] && t.entries != []
    ensures var u := Updated(Start, [s, t], bs, false);
      && u.extents == Applied(Applied([], s, bs, |s.entries|, false), t, bs, |t.entries|, false)
      && u.totals.Keys == {1, 2}
      && TotalOf(u.totals, 1) == WriteBytes(s.entries) && TotalOf(u.totals, 2) == WriteBytes(t.entries)
  {
    var logs := [s, t];
    hide Applied; hide Tallied; hide WriteBytes;
    AllNew(s, t);
    WithoutNone([]);
    assert Cleaned(Start, Ids(logs)) == Start;
    var one := ReadOne(Start, s, bs, false);
    ReadTwo(Start, s, t, bs);
    TalliedKeys(map[], s, |s.entries|);
    TalliedKeys(one.totals, t, |t.entries|);
    forall id ensures TotalOf(Updated(Start, logs, bs, false).totals, id) ==
      (if id == 1 then WriteBytes(s.entries) else 0) + if id == 2 then WriteBytes(t.entries) else 0
    {
      TalliedTotal(map[], s, |s.entries|, id);
      TalliedTotal(one.totals, t, |t.entries|, id);
      assert s.entries[..|s.entries|] == s.entries && t.entries[..|t.entries|] == t.entries;
    }
  }

  /** The newer of two segments is never retired; the older one is if it is below the threshold. */
  lemma {:induction false} PickFirst(m: MapState, bs: nat, threshold: nat, retire: seq<nat>)
    requires m.totals.Keys == {1, 2} && TotalOf(m.totals, 1) > 0
    requires LiveBlocks(m.extents, 1) * bs * 100 < threshold * TotalOf(m.totals, 1)
    requires StrictlySorted(retire) && SetOf(retire) == Picked(m, bs, threshold)
    ensures retire == [1] && SetOf(retire) == {1}
  {
    assert 1 in m.totals && 2 in m.totals && 1 < 2;
    assert Newest(m, 2) && !Newest(m, 1);
    assert Picked(m, bs, threshold) == {1};
    OnlyOne(retire);
  }

  lemma {:induction false} OnlyOne(ids: seq<nat>)
    requires StrictlySorted(ids) && SetOf(ids) == {1}
    ensures ids == [1]
  {
    assert 1 in SetOf(ids);
    forall i | 0 <= i < |ids| ensures ids[i] == 1 { assert ids[i] in SetOf(ids); }
    assert ids[0] == 1 && ids[|ids| - 1] == 1;
  }

  // ---------------------------------------------------------------- a hidden write

  /** Three writes, the last one inside the first; then an unrelated write. */
  function First(bs: nat): Segment {
    Segment(1, [Fill(0, 100, bs, 1), Fill(200, 10, bs, 1), Fill(2, 96, bs, 1)])
  }
  function Second(bs: nat): Segment { Segment(2, [Fill(1000, 1, bs, 1)]) }
  function Logs(bs: nat): seq<Segment> { [First(bs), Second(bs)] }

  const A := Tag(1, false)
  const B := Tag(2, false)

  /** The map left by the two segments: block 2 comes after block 98. */
  const Map: seq<Extent<Tag>> :=
    [Extent(0, 2, A), Extent(98, 2, A), Extent(2, 96, A), Extent(200, 10, A), Extent(1000, 1, B)]

  lemma {:induction false} Shapes(bs: nat)
    requires bs > 0
    ensures AllAligned(First(bs).entries, bs) && AllAligned(Second(bs).entries, bs)
    ensures var es := First(bs).entries;
      es[0].NumBlocks(bs) == 100 && es[1].NumBlocks(bs) == 10 && es[2].NumBlocks(bs) == 96
    ensures Second(bs).entries[0].NumBlocks(bs) == 1
  {
    FillShape(0, 100, bs, 1);
    FillShape(200, 10, bs, 1);
    FillShape(2, 96, bs, 1);
    FillShape(1000, 1, bs, 1);
  }

  lemma {:induction false} FirstBuilt(bs: nat)
    requires bs > 0
    ensures Applied([], First(bs), bs, 3, false) == Map[..4]
  {
    var s := First(bs);
    var e1, e2, e3 := Extent(0, 100, A), Extent(200, 10, A), Extent(2, 96, A);
    Shapes(bs);
    assert OpExtent(s.entries[0], 1, bs) == e1 && OpExtent(s.entries[1], 1, bs) == e2;
    assert OpExtent(s.entries[2], 1, bs) == e3 && s.id == 1;
    hide First; hide OpExtent; hide Inserted;
    assert Applied([], s, bs, 1, false) == [e1] by { InsertedAtEnd([], e1); }
    assert Applied([], s, bs, 2, false) == [e1, e2] by { InsertedAtEnd([e1], e2); }
    OrderLost(2, 98, 100, 200, 10, A, A, A);
    assert Applied([], s, bs, 3, false) == Inserted([e1, e2], e3) == Map[..4];
  }

  lemma {:induction false} AppliedOne(xs: seq<Extent<Tag>>, s: Segment, e: Extent<Tag>, bs: nat)
    requires bs > 0 && |s.entries| == 1 && OpExtent(s.entries[0], s.id, bs) == e && e.blocks > 0
    requires Positive(xs) && EndsBy(xs, e.start)
    ensures Applied(xs, s, bs, 1, false) == xs + [e]
  {
    hide Inserted; hide OpExtent;
    InsertedAtEnd(xs, e);
    assert Applied(xs, s, bs, 0, false) == xs;
  }

  lemma {:induction false} MapBuilt(bs: nat)
    requires bs > 0
    ensures Applied(Applied([], First(bs), bs, 3, false), Second(bs), bs, 1, false) == Map
  {
    var t, e4 := Second(bs), Extent(1000, 1, B);
    Shapes(bs);
    assert OpExtent(t.entries[0], 2, bs) == e4 && t.id == 2;
    assert |t.entries| == 1 && Positive(Map[..4]) && EndsBy(Map[..4], 1000);
    hide First; hide Second; hide OpExtent; hide Applied;
    FirstBuilt(bs);
    AppliedOne(Map[..4], t, e4, bs);
    assert Map[..4] + [e4] == Map;
  }

  lemma {:induction false} LogsOk(bs: nat)
    requires bs > 0
    ensures StoreOk(Logs(bs), bs) && |Logs(bs)| == 2 && Logs(bs)[0] == First(bs) && Logs(bs)[1] == Second(bs)
  {
    Shapes(bs);
  }

  /** A fresh live map that has read both logs is that map, and agrees with the store. */
  lemma {:induction false} MapAgrees(bs: nat)
    requires bs > 0
    ensures StoreOk(Logs(bs), bs) && Agrees(Map, Logs(bs), bs) && Positive(Map) && Disjoint(Map)
    ensures Updated(Start, Logs(bs), bs, false).extents == Map
  {
    LogsOk(bs);
    MapBuilt(bs);
    assert |First(bs).entries| == 3 && |Second(bs).entries| == 1;
    SeenTwo(First(bs), Second(bs), bs);
    hide *;
    FreshTracks(Logs(bs), bs);
    UpdatedAgrees(Start, Logs(bs), bs, false);
    assert Logs(bs) == [First(bs), Second(bs)];
    MapShape();
  }

  lemma {:induction false} MapShape()
    ensures Positive(Map) && Disjoint(Map) && EndsBy(Map, 1001)
  {
  }

  lemma {:induction false} SegExtentsCons(x: Extent<Tag>, xs: seq<Extent<Tag>>, seg: nat)
    ensures SegExtents([x] + xs, seg) == (if x.tag.seg == seg then [x] else []) + SegExtents(xs, seg)
  {
    assert ([x] + xs)[1..] == xs;
  }

  lemma {:induction false} OwnExtents()
    ensures SegExtents(Map, 1) == Map[..4]
  {
    var a, b, c, d, e := Map[0], Map[1], Map[2], Map[3], Map[4];
    SegExtentsCons(e, [], 1);
    SegExtentsCons(d, [e], 1);
    SegExtentsCons(c, [d, e], 1);
    SegExtentsCons(b, [c, d, e], 1);
    SegExtentsCons(a, [b, c, d, e], 1);
    assert [e] + [] == [e] && [d] + [e] == [d, e] && [c] + [d, e] == [c, d, e] && [b] + [c, d, e] == [b, c, d, e];
    assert [a] + [b, c, d, e] == Map && SegExtents([], 1) == [];
    hide SegExtents;
    assert SegExtents([e], 1) == [];
    assert SegExtents([d, e], 1) == [d];
    assert SegExtents([c, d, e], 1) == [c, d];
    assert SegExtents([b, c, d, e], 1) == [b, c, d];
    assert SegExtents(Map, 1) == [a, b, c, d] == Map[..4];
  }

  lemma {:induction false} Touchers(bs: nat, b: nat)
    requires bs > 0
    ensures LastToucher(First(bs).entries, bs, b) ==
      if 2 <= b < 98 then 2 else if 200 <= b < 210 then 1 else if b < 100 then 0 else -1
  {
    Shapes(bs);
    var es := First(bs).entries;
    assert es[..2] == [es[0], es[1]] && es[..2][..1] == [es[0]] && [es[0]][..0] == [];
  }

  /** Exactly blocks 2 to 97 are live writes that are not copied. */
  lemma {:induction false} HiddenWrites(bs: nat, b: nat)
    requires bs > 0
    ensures LostWrite(First(bs), Map, bs, b) <==> 2 <= b < 98
  {
    var es, own := First(bs).entries, SegExtents(Map, 1);
    OwnExtents();
    assert First(bs).id == 1;
    hide First; hide SegExtents; hide LastToucher;
    if 2 <= b < 98 {
      forall c: nat ensures LastToucher(es, bs, c) ==
        if 2 <= c < 98 then 2 else if 200 <= c < 210 then 1 else if c < 100 then 0 else -1
      {
        Touchers(bs, c);
      }
      assert RunAt(es, bs, b, 2, 98);
      assert own[1].start == 98 && own[2].Has(b);
      assert HiddenAt(own, 2, 98, b);
      MapShape();
      OwnerAt(Map, 2, b);
    } else {
      forall lo: nat, hi: nat | RunAt(es, bs, b, lo, hi) ensures !HiddenAt(own, lo, hi, b) { }
    }
  }

  lemma {:induction false} Sizes(bs: nat)
    requires bs > 0
    ensures WriteBytes(First(bs).entries) == 206 * bs && LiveBlocks(Map, 1) == 110
  {
    var es := First(bs).entries;
    assert es[..2][..1] == es[..1] && es[..1][..0] == [];
    assert WriteBytes(es[..1]) == 100 * bs && WriteBytes(es[..2]) == 110 * bs;
    assert Map[..4][..3] == Map[..3] && Map[..3][..2] == Map[..2] && Map[..2][..1] == Map[..1] && Map[..1][..0] == [];
    assert LiveBlocks(Map[..1], 1) == 2 && LiveBlocks(Map[..2], 1) == 4 && LiveBlocks(Map[..3], 1) == 100;
    assert LiveBlocks(Map[..4], 1) == 110;
  }

  lemma {:induction false} LostCount(bs: nat)
    requires bs > 0
    ensures SegLost(First(bs), Map, bs, 1001) == 96
  {
    var f := (b: nat) => if LostWrite(First(bs), Map, bs, b) then 1 else 0;
    forall b | 0 <= b < 1001 ensures f(b) == if 2 <= b < 98 then 1 else 0 { HiddenWrites(bs, b); }
    SumRun(f, 2, 98, 1001);
  }

  /** Of the 110 live blocks, 14 are copied. */
  lemma {:induction false} CopiedCount(bs: nat)
    requires bs > 0
    ensures StoreOk(Logs(bs), bs) && Positive(Map) && WriteBytes(Copied(Logs(bs), Map, {1}, bs)) == 14 * bs
  {
    var logs := Logs(bs);
    LogsOk(bs);
    MapAgrees(bs);
    MapShape();
    LostCount(bs);
    Sizes(bs);
    assert logs[..1] == [First(bs)] && [First(bs)][..0] == [] && First(bs).id == 1 && Second(bs).id == 2;
    assert RetiredLost([First(bs)], Map, {1}, bs, 1001) == 96 && RetiredLive([First(bs)], Map, {1}) == 110;
    assert RetiredLost(logs, Map, {1}, bs, 1001) == 96 && RetiredLive(logs, Map, {1}) == 110;
    hide *;
    AgreesBacked(Map, logs, bs);
    CopiedBytes(logs, Map, {1}, bs, 1001);
  }

  /** What a first run over the two logs sees, at threshold 60. */
  lemma {:induction false} FirstRun(bs: nat, r: GcResult, seen: MapState, left: Outcome)
    requires bs > 0 && Ran(Logs(bs), Start, 60, false, 3, bs, false, r, seen, left)
    ensures seen.extents == Map && r.Done? && r.retire == [1] && SetOf(r.retire) == {1} && r.newSegment.Some?
    ensures StoreOk(Logs(bs), bs) && Positive(Map)
    ensures left.store == Collected(Logs(bs), Map, {1}, bs, 3) && r.copiedBytes == 14 * bs
  {
    MapAgrees(bs);
    LogsOk(bs);
    Sizes(bs);
    CopiedCount(bs);
    assert Logs(bs) == [First(bs), Second(bs)];
    SeenTwo(First(bs), Second(bs), bs);
    RanPicks(Logs(bs), Start, 60, false, 3, bs, false, r, seen, left);
    hide Updated; hide StatsFor; hide Chosen; hide LiveBlocks; hide WriteBytes; hide Copied; hide Logs; hide Kept;
    PickFirst(seen, bs, 60, r.retire);
    assert Map[0].tag.seg in r.retire;
    assert OwnsAny(Map, r.retire);
  }

  lemma {:induction false} ByteLost(bs: nat)
    requires bs > 0
    ensures Retirable(Logs(bs), Map, bs, 3)
    ensures Replay(Entries(Logs(bs)), bs, 2 * bs, 0) == 1
    ensures Replay(Entries(Collected(Logs(bs), Map, {1}, bs, 3)), bs, 2 * bs, 0) == 0
  {
    MapAgrees(bs);
    LogsOk(bs);
    BytesAtTwo(bs);
    var p := 2 * bs;
    MulDivMod(2, bs);
    HiddenWrites(bs, 2);
    CollectedGone(Logs(bs), Map, {1}, bs, 3, p, 0);
    EntriesEffect(Logs(bs), bs, p);
    EntriesEffect(Collected(Logs(bs), Map, {1}, bs, 3), bs, p);
    ReplayByEffect(Entries(Logs(bs)), bs, p, 0);
    ReplayByEffect(Entries(Collected(Logs(bs), Map, {1}, bs, 3)), bs, p, 0);
  }

  lemma {:induction false} BytesAtTwo(bs: nat)
    requires bs > 0
    ensures StoreEffect(Logs(bs), bs, 2 * bs) == Some(Owned(1, Hit(false, 1)))
    ensures StoreEffect(Kept(Logs(bs), {1}), bs, 2 * bs) == None
  {
    var p := 2 * bs;
    var logs := Logs(bs);
    assert logs[..1] == [First(bs)] && [First(bs)][..0] == [];
    assert Second(bs).entries[..0] == [];
    assert !Fill(1000, 1, bs, 1).HasByte(bs, p) by { MulLe(3, 1000, bs); }
    assert Effect(Second(bs).entries, bs, p) == None;
    assert Fill(2, 96, bs, 1).HasByte(bs, p);
    assert Effect(First(bs).entries, bs, p) == Some(Hit(false, 1));
    assert Kept([First(bs)], {1}) == Kept([], {1}) + [] == [];
    assert Kept(logs, {1}) == [] + [Second(bs)];
    assert [Second(bs)][..0] == [];
  }

  /** A first run over two logs, at threshold 60: byte 2*bs of the device, written with 1,
      reads 0 afterwards. */
  method GcLosesData(bs: nat) returns (before: seq<Segment>, after: seq<Segment>)
    requires bs > 0
    ensures before == Logs(bs) && Replay(Entries(before), bs, 2 * bs, 0) == 1
    ensures Replay(Entries(after), bs, 2 * bs, 0) == 0
  {
    before := Logs(bs);
    LogsOk(bs);
    ByteLost(bs);
    FreshTracks(before, bs);
    assert forall j | 0 <= j < |before| :: before[j].id < 3;
    hide *;
    var store := new LogStore(before);
    var lm := new LiveMap(bs, false);
    assert lm.State() == Start by { FreshState(lm); }
    var r;
    ghost var seen;
    r, seen := RunGC(store, lm, 60, false, 3);
    FirstRun(bs, r, seen, Outcome(store.segments, lm.State()));
    after := store.segments;
  }

  lemma {:induction false} StartIs()
    ensures Start == MapState(-1, [], map[])
  {
  }

  lemma {:induction false} FreshState(lm: LiveMap)
    requires lm.extents == [] && lm.segments == map[] && lm.lastLabel == -1
    ensures lm.State() == Start
  {
  }

  lemma {:induction false} LostForImage(bs: nat, mark: int)
    requires bs > 0
    ensures Retirable(Logs(bs), Map, bs, 3)
    ensures UpToDate(Logs(bs), Collected(Logs(bs), Map, {1}, bs, 3), mark, bs, 2 * bs, 0) == if mark >= 1 then 1 else 0
  {
    var logs, p := Logs(bs), 2 * bs;
    MapAgrees(bs);
    LogsOk(bs);
    BytesAtTwo(bs);
    MulDivMod(2, bs);
    HiddenWrites(bs, 2);
    assert LostAt(logs, Map, {1}, bs, p, 0) && logs[0].id == 1 && logs[1].id == 2;
    if mark < 1 {
      assert UpTo(logs, mark) == [] by {
        assert logs[..1] == [First(bs)] && [First(bs)][..0] == [];
        assert UpTo([First(bs)], mark) == [] + [];
      }
    }
    hide Skipped; hide Collected; hide UpToDate; hide Kept; hide UpTo; hide Logs; hide Agrees; hide First; hide Second;
    ImageByte(logs, Map, {1}, bs, 3, mark, p, 0);
    assert StoreEffect([], bs, p) == None;
  }

  lemma {:induction false} LogsReady(bs: nat)
    requires bs > 0
    ensures StoreOk(Logs(bs), bs) && Usable(Start) && forall j | 0 <= j < |Logs(bs)| :: Logs(bs)[j].id < 3
  {
    LogsOk(bs);
    FreshTracks(Logs(bs), bs);
  }

  /** The same run and an image of the logs up to a label, brought up to date afterwards: the byte
      is there exactly if the image had it before. */
  method ImageLosesData(bs: nat, mark: int) returns (before: seq<Segment>, after: seq<Segment>, image: byte)
    requires bs > 0
    ensures before == Logs(bs) && Replay(Entries(before), bs, 2 * bs, 0) == 1
    ensures image == UpToDate(before, after, mark, bs, 2 * bs, 0) && image == if mark >= 1 then 1 else 0
  {
    hide *;
    before := Logs(bs);
    LogsReady(bs);
    ByteLost(bs);
    LostForImage(bs, mark);
    var store := new LogStore(before);
    var lm := new LiveMap(bs, false);
    StartIs();
    var r;
    ghost var seen;
    r, seen := RunGC(store, lm, 60, false, 3);
    FirstRun(bs, r, seen, Outcome(store.segments, lm.State()));
    after := store.segments;
    image := UpToDate(before, after, mark, bs, 2 * bs, 0);
  }

  /** Two runs over the same logs: the second reports more live bytes of the first one's output
      than bytes in total. */
  method LiveExceedsTotal(bs: nat) returns (second: GcResult, ghost i: nat)
    requires bs > 0
    ensures second.Done? && i < |second.stats| && second.stats[i].id == 3
    ensures second.stats[i].liveWriteBytes == 110 * bs && second.stats[i].totalWriteBytes == 28 * bs
  {
    var logs := Logs(bs);
    LogsOk(bs);
    Sizes(bs);
    FreshTracks(logs, bs);
    assert forall j | 0 <= j < |logs| :: logs[j].id < 3;
    assert SumLive(Map, [1]) == LiveBlocks(Map, 1) by { assert [1][..0] == []; }
    hide *;
    var store := new LogStore(logs);
    var lm := new LiveMap(bs, false);
    assert lm.State() == Start by { FreshState(lm); }
    assert lm.lastLabel == -1;
    var first;
    ghost var seen, left;
    first, second, seen, left, i := RunThenLook(store, lm, 60, 3, 4);
    FirstRun(bs, first, seen, left);
  }

  // ---------------------------------------------------------------- a late segment

  /** A block written twice, an unrelated write, and a third write of the block that is completed
      only after a run. */
  function Twice(bs: nat): Segment { Segment(1, [Fill(0, 1, bs, 1), Fill(0, 1, bs, 1)]) }
  function Other(bs: nat): Segment { Segment(2, [Fill(5, 1, bs, 1)]) }
  function Late(bs: nat): Segment { Segment(3, [Fill(0, 1, bs, 2)]) }

  const Small: seq<Extent<Tag>> := [Extent(0, 1, A), Extent(5, 1, B)]

  lemma {:induction false} SmallBuilt(bs: nat)
    requires bs > 0
    ensures StoreOk([Twice(bs), Other(bs)], bs)
    ensures Applied(Applied([], Twice(bs), bs, 2, false), Other(bs), bs, 1, false) == Small
    ensures WriteBytes(Twice(bs).entries) == 2 * bs && LiveBlocks(Small, 1) == 1
  {
    var s, t, e, f := Twice(bs), Other(bs), Extent(0, 1, A), Extent(5, 1, B);
    FillShape(0, 1, bs, 1);
    FillShape(5, 1, bs, 1);
    assert OpExtent(s.entries[0], 1, bs) == e && OpExtent(s.entries[1], 1, bs) == e;
    assert OpExtent(t.entries[0], 2, bs) == f;
    assert Applied([], s, bs, 1, false) == [e] by { InsertedAtEnd([], e); }
    assert [e][..0] == [];
    assert Applied([], s, bs, 2, false) == Inserted([e], e) == [e];
    assert Applied([e], t, bs, 0, false) == [e];
    assert Applied([e], t, bs, 1, false) == [e, f] by { InsertedAtEnd([e], f); }
    var es := s.entries;
    assert es[..1][..0] == [];
    assert WriteBytes(es[..1]) == bs;
    assert Small[..1][..0] == [];
    assert LiveBlocks(Small[..1], 1) == 1;
  }

  lemma {:induction false} LateReplays(bs: nat, xs: seq<Extent<Tag>>)
    requires bs > 0 && xs == Small && StoreOk([Twice(bs), Other(bs)], bs) && Agrees(xs, [Twice(bs), Other(bs)], bs)
    ensures var logs := [Twice(bs), Other(bs)];
      && Replay(Entries(logs + [Late(bs)]), bs, 0, 0) == 2
      && Positive(xs) && Replay(Entries(InLabelOrder(Collected(logs, xs, {1}, bs, 4), Late(bs))), bs, 0, 0) == 1
  {
    var logs, s := [Twice(bs), Other(bs)], Late(bs);
    var after := Collected(logs, xs, {1}, bs, 4);
    FillShape(0, 1, bs, 1);
    FillShape(5, 1, bs, 1);
    assert Effect(s.entries, bs, 0) == Some(Hit(false, 2));
    assert Effect(Twice(bs).entries, bs, 0) == Some(Hit(false, 1));
    assert Other(bs).entries[..0] == [] && Effect(Other(bs).entries, bs, 0) == None;
    assert logs[..1] == [Twice(bs)] && [Twice(bs)][..0] == [];
    assert StoreEffect(logs, bs, 0) == Some(Owned(1, Hit(false, 1)));
    SortedHidesNothing(logs, xs, {1}, bs);
    hide Collected; hide Effect; hide StoreEffect; hide Replay; hide InLabelOrder; hide Entries; hide NothingHidden;
    ClearMoves(logs, xs, {1}, bs, 4, 0);
    CollectedOk(logs, xs, {1}, bs, 4);
    InLabelOrderEffect(after, s, bs, 0);
    StoreEffectAppend(logs, [s], bs, 0);
    StoreEffectOne(s, bs, 0);
    EntriesEffect(logs + [s], bs, 0);
    ReplayByEffect(Entries(logs + [s]), bs, 0, 0);
    EntriesEffect(InLabelOrder(after, s), bs, 0);
    ReplayByEffect(Entries(InLabelOrder(after, s)), bs, 0, 0);
  }

  lemma {:induction false} LateRun(bs: nat, r: GcResult, seen: MapState, left: Outcome)
    requires bs > 0 && Ran([Twice(bs), Other(bs)], Start, 60, false, 4, bs, false, r, seen, left)
    ensures seen.extents == Small && Positive(Small) && StoreOk([Twice(bs), Other(bs)], bs)
    ensures Agrees(Small, [Twice(bs), Other(bs)], bs)
    ensures left.store == Collected([Twice(bs), Other(bs)], Small, {1}, bs, 4)
  {
    var logs := [Twice(bs), Other(bs)];
    SmallBuilt(bs);
    SeenTwo(Twice(bs), Other(bs), bs);
    FreshTracks(logs, bs);
    RanPicks(logs, Start, 60, false, 4, bs, false, r, seen, left);
    UpdatedAgrees(Start, logs, bs, false);
    hide Updated; hide StatsFor; hide Chosen; hide LiveBlocks; hide WriteBytes; hide Copied; hide Kept; hide Agrees;
    hide Tracks;
    PickFirst(seen, bs, 60, r.retire);
    assert Small[0].tag.seg in r.retire;
    assert OwnsAny(Small, r.retire);
  }

  /** The third write of block 0 is logged last, and replayed before the run's copy of the second. */
  method LateSegmentLoses(bs: nat) returns (logged: seq<Segment>, after: seq<Segment>)
    requires bs > 0
    ensures logged == [Twice(bs), Other(bs), Late(bs)] && Replay(Entries(logged), bs, 0, 0) == 2
    ensures Replay(Entries(after), bs, 0, 0) == 1
  {
    var logs := [Twice(bs), Other(bs)];
    SmallBuilt(bs);
    FreshTracks(logs, bs);
    assert forall j | 0 <= j < |logs| :: logs[j].id < 4;
    logged := logs + [Late(bs)];
    assert logged == [Twice(bs), Other(bs), Late(bs)];
    hide *;
    var store := new LogStore(logs);
    var lm := new LiveMap(bs, false);
    assert lm.State() == Start by { FreshState(lm); }
    var r;
    ghost var seen;
    r, seen := RunGC(store, lm, 60, false, 4);
    LateRun(bs, r, seen, Outcome(store.segments, lm.State()));
    LateReplays(bs, Small);
    after := InLabelOrder(store.segments, Late(bs));
  }

  /** A late write of a block that nothing else touches. */
  function Elsewhere(bs: nat): Segment { Segment(3, [Fill(9, 1, bs, 2)]) }

  lemma {:induction false} NineUntouched(bs: nat)
    requires bs > 0
    ensures Effect(Twice(bs).entries, bs, 9 * bs) == None && Effect(Other(bs).entries, bs, 9 * bs) == None
  {
    var a, b, p := Fill(0, 1, bs, 1), Fill(5, 1, bs, 1), 9 * bs;
    assert !a.HasByte(bs, p) && !b.HasByte(bs, p);
    hide Entry.HasByte; hide Fill;
    assert [a, a][..1] == [a] && [a][..0] == [] && [b][..0] == [];
    assert Effect([], bs, p) == None;
    assert Effect([a], bs, p) == None && Effect([b], bs, p) == None;
  }

  lemma {:induction false} ElsewhereFiled(bs: nat)
    requires bs > 0 && StoreOk([Twice(bs), Other(bs)], bs) && Agrees(Small, [Twice(bs), Other(bs)], bs)
    ensures Positive(Small)
    ensures var after := Collected([Twice(bs), Other(bs)], Small, {1}, bs, 4);
      && Replay(Entries(InLabelOrder(after, Elsewhere(bs))), bs, 9 * bs, 0) == 2
      && UpToDate(after, InLabelOrder(after, Elsewhere(bs)), 4, bs, 9 * bs, 0) == 0
  {
    var logs, s, p := [Twice(bs), Other(bs)], Elsewhere(bs), 9 * bs;
    var after := Collected(logs, Small, {1}, bs, 4);
    FillShape(9, 1, bs, 2);
    assert Fill(9, 1, bs, 2).HasByte(bs, p) && s.entries[..0] == [];
    assert Effect(s.entries, bs, p) == Some(Hit(false, 2));
    NineUntouched(bs);
    StoreEffectOne(Twice(bs), bs, p);
    StoreEffectOne(Other(bs), bs, p);
    StoreEffectAppend([Twice(bs)], [Other(bs)], bs, p);
    assert logs == [Twice(bs)] + [Other(bs)];
    assert StoreEffect(logs, bs, p) == None;
    assert s.id !in Ids(after) by {
      var out := Segment(4, Copied(logs, Small, {1}, bs));
      KeptIds(logs, {1});
      IdsAppend(Kept(logs, {1}), [out]);
      assert s.id !in Ids(logs);
    }
    hide Effect; hide StoreEffect; hide Replay; hide UpToDate; hide InLabelOrder; hide Copied; hide Agrees;
    CollectedKept(logs, Small, {1}, bs, 4, p);
    CollectedOk(logs, Small, {1}, bs, 4);
    FiledByte(after, s, bs, 4, p, 0);
  }

  /** The late segment reaches the store after an image was brought up to date past its label: its
      write is in the logs, but no incremental replay puts it into the image. */
  method LateNeverReplayed(bs: nat) returns (store: LogStore, filed: seq<Segment>, image: byte)
    requires bs > 0
    ensures filed == InLabelOrder(store.segments, Elsewhere(bs)) && Replay(Entries(filed), bs, 9 * bs, 0) == 2
    ensures image == UpToDate(store.segments, filed, 4, bs, 9 * bs, 0) && image == 0
  {
    var logs := [Twice(bs), Other(bs)];
    SmallBuilt(bs);
    FreshTracks(logs, bs);
    assert forall j | 0 <= j < |logs| :: logs[j].id < 4;
    hide *;
    store := new LogStore(logs);
    var lm := new LiveMap(bs, false);
    assert lm.State() == Start by { FreshState(lm); }
    var r;
    ghost var seen;
    r, seen := RunGC(store, lm, 60, false, 4);
    LateRun(bs, r, seen, Outcome(store.segments, lm.State()));
    ElsewhereFiled(bs);
    filed := InLabelOrder(store.segments, Elsewhere(bs));
    image := UpToDate(store.segments, filed, 4, bs, 9 * bs, 0);
  }
}
