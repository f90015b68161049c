/** A log from which a miss is answered with zeros where data was written. */
module PagingExample {
  import opened LogReplay
  import opened IntervalMap
  import opened DemandPaging
  import opened Samples

  /** Three writes, the last one inside the first. */
  function Log(bs: nat): seq<Entry> { [Fill(0, 10, bs, 1), Fill(20, 10, bs, 1), Fill(2, 3, bs, 1)] }

  lemma {:induction false} LogMap(bs: nat)
    requires bs > 0
    ensures AllAligned(Log(bs), bs)
    ensures Query(MapOf([Log(bs)], bs, false), 2, 3) == [] && Owner(MapOf([Log(bs)], bs, false), 2).Some?
  {
    FillShape(0, 10, bs, 1); FillShape(20, 10, bs, 1); FillShape(2, 3, bs, 1);
    var es := Log(bs);
    var x, y, z := RefExtent(es[0], 0, 0, bs), RefExtent(es[1], 0, 1, bs), RefExtent(es[2], 0, 2, bs);
    assert MapOf([es][..0], bs, false) == [];
    assert Scanned([], es, 0, bs, 1, false) == [x] by { InsertedAtEnd([], x); }
    assert Scanned([], es, 0, bs, 2, false) == [x, y] by { InsertedAtEnd([x], y); }
    OrderLost(2, 5, 10, 20, 10, x.tag, y.tag, z.tag);
    assert Scanned([], es, 0, bs, 3, false) == Inserted([x, y], z);
  }

  lemma {:induction false} LogByte(bs: nat)
    requires bs > 0
    ensures Replay(Log(bs), bs, 2 * bs, 0) == 1
  {
    assert Fill(2, 3, bs, 1).HasByte(bs, 2 * bs);
  }

  /** Block 2 was written with ones; the miss is answered with zeros. */
  method MissLosesData(bs: nat) returns (r: MissReply)
    requires bs > 0
    ensures r.Continue? && Replay(Log(bs), bs, 2 * bs, 0) == 1
  {
    LogMap(bs);
    LogByte(bs);
    var logs := [Log(bs)];
    var em := BuildMap(logs, bs, false);
    r := HandleMiss(2, em, logs, bs, 1, Flatten(logs));
  }
}
