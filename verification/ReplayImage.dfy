/** Replaying logs into a compressed image. */
module ReplayImage {
  import opened Bytes
  import opened BigEndian
  import opened LogReplay
  import opened Store
  import opened Incremental
  import opened ImageSpace
  import opened ImageTables
  import opened FlatDisk
  import opened ImageState
  import opened Images
  import ImageRuns

  /** What replayToQCow2 asks of the image for one entry. */
  function OpOf(e: Entry, bs: nat): ImageRuns.Op {
    match e
    case Write(block, data) => ImageRuns.Op.Write(block * bs, data)
    case Trim(block, length) => ImageRuns.Op.Trim(block * bs, length)
  }

  function OpsOf(es: seq<Entry>, bs: nat): (r: seq<ImageRuns.Op>)
    ensures |r| == |es|
  {
    seq(|es|, i requires 0 <= i < |es| => OpOf(es[i], bs))
  }

  /** A flat disk on which the entries take effect is the replayed device. */
  lemma {:induction false} FlatIsReplay(init: nat -> byte, capacity: nat, es: seq<Entry>, bs: nat, g: nat)
    requires g < capacity
    ensures ImageRuns.Flat(init, capacity, OpsOf(es, bs), g) == Replay(es, bs, g, init(g))
    decreases |es|
  {
    if es != [] {
      var before := es[..|es| - 1];
      FlatIsReplay(init, capacity, before, bs, g);
      assert OpsOf(es, bs)[..|es| - 1] == OpsOf(before, bs);
    }
  }

  /** The part of an image that its L1 table covers and where every byte has its own place. */
  ghost predicate Within(cs: nat, l1Size: nat, g: nat)
    requires GoodSize(cs)
  {
    g < ImageRuns.Capacity(cs, l1Size) && g < Reach(cs)
  }

  /** One disk holds, over what the other one holds, the replayed entries. */
  ghost predicate Replayed(cs: nat, l1Size: nat, disk: map<Cell, seq<byte>>, disk': map<Cell, seq<byte>>,
                           es: seq<Entry>, bs: nat)
    requires GoodSize(cs) && DiskOk(cs, disk) && DiskOk(cs, disk')
  {
    forall g: nat | Within(cs, l1Size, g) :: ByteAt(cs, disk', g) == Replay(es, bs, g, ByteAt(cs, disk, g))
  }

  /** The entries applied to an image, and the image closed. */
  method ApplyAll(img: Image, es: seq<Entry>, bs: nat) returns (last: Image)
    requires img.Valid() && GoodSize(img.cs)
    requires forall i | 0 <= i < |es| :: ImageRuns.InReach(img.cs, OpOf(es[i], bs))
    requires img.alloc + Cost(img.cs, OpsOf(es, bs), ImageRuns.Length) <= TWO62
    modifies img
    ensures last.Valid() && last.cs == img.cs && last.codec == img.codec && |last.l1| == old(|img.l1|)
    ensures Persisted(last.file, last.K(), last.alloc, last.freeHead, last.m, last.frees)
    ensures DiskOk(img.cs, old(img.disk)) && DiskOk(img.cs, last.disk)
    ensures Replayed(img.cs, old(|img.l1|), old(img.disk), last.disk, es, bs)
  {
    var ops := OpsOf(es, bs);
    assert forall i | 0 <= i < |ops| :: ops[i] == OpOf(es[i], bs);
    hide *;
    ghost var cs, size, disk := img.cs, |img.l1|, img.disk;
    img.Sized();
    var bufs;
    last, bufs := ImageRuns.Run(img, ops);
    last.Sized();
    ShownIsReplay(cs, size, disk, last.disk, es, bs);
    last.Flush();
  }

  /** replayToQCow2 on an existing image file: it is opened, the entries are applied, and it is
      closed. The file left behind holds, over what it held before, the replayed entries. */
  method ReplayOnto(codec: Codec, file: seq<byte>, es: seq<Entry>, bs: nat, ghost h: Held)
    returns (after: seq<byte>, ghost h': Held)
    requires FileHolds(file, h) && h.k.codec == codec
    requires forall i | 0 <= i < |es| :: ImageRuns.InReach(h.k.cs, OpOf(es[i], bs))
    requires h.alloc + Cost(h.k.cs, OpsOf(es, bs), ImageRuns.Length) <= TWO62
    ensures FileHolds(after, h') && h'.k.codec == codec && h'.k.cs == h.k.cs && |h'.k.l1| == |h.k.l1|
    ensures DiskOk(h.k.cs, h.k.disk) && DiskOk(h.k.cs, h'.k.disk)
    ensures Replayed(h.k.cs, |h.k.l1|, h.k.disk, h'.k.disk, es, bs)
  {
    hide *;
    HoldsParts(file, h);
    var found := Open(codec, file, h.k, h.alloc, h.head, h.m, h.frees);
    var last := ApplyAll(found, es, bs);
    after := last.file;
    h' := Held(last.K(), last.alloc, last.freeHead, last.m, last.frees);
    Finished(last);
  }

  lemma {:induction false} HoldsParts(file: seq<byte>, h: Held)
    requires FileHolds(file, h)
    ensures Persisted(file, h.k, h.alloc, h.head, h.m, h.frees) && GoodSize(h.k.cs)
  {
  }

  lemma {:induction false} Finished(img: Image)
    requires Persisted(img.file, img.K(), img.alloc, img.freeHead, img.m, img.frees) && GoodSize(img.cs)
    ensures FileHolds(img.file, Held(img.K(), img.alloc, img.freeHead, img.m, img.frees))
    ensures img.K().codec == img.codec && img.K().cs == img.cs && img.K().l1 == img.l1 && img.K().disk == img.disk
  {
    hide Persisted;
  }

  lemma {:induction false} ShownIsReplay(cs: nat, l1Size: nat, disk: map<Cell, seq<byte>>, disk': map<Cell, seq<byte>>,
                                         es: seq<Entry>, bs: nat)
    requires GoodSize(cs) && DiskOk(cs, disk) && DiskOk(cs, disk')
    requires ImageRuns.Shows(cs, disk', ImageRuns.Contents(cs, disk), ImageRuns.Capacity(cs, l1Size), OpsOf(es, bs))
    ensures Replayed(cs, l1Size, disk, disk', es, bs)
  {
    hide GoodSize; hide DiskOk; hide ByteAt; hide Reach; hide ImageRuns.Capacity; hide Replay; hide ImageRuns.Flat;
    hide OpsOf;
    forall g: nat | Within(cs, l1Size, g) ensures ByteAt(cs, disk', g) == Replay(es, bs, g, ByteAt(cs, disk, g)) {
      FlatIsReplay(ImageRuns.Contents(cs, disk), ImageRuns.Capacity(cs, l1Size), es, bs, g);
    }
  }

  /** Incremental replay into an image: if it holds the logs of an earlier store up to a label,
      replaying the logs of the present store past it leaves an image that is up to date. */
  method BringUpToDate(codec: Codec, file: seq<byte>, ghost earlier: seq<Segment>, now: seq<Segment>, mark: int,
                       bs: nat, ghost h: Held)
    returns (after: seq<byte>, ghost h': Held)
    requires FileHolds(file, h) && h.k.codec == codec && DiskOk(h.k.cs, h.k.disk)
    requires forall g: nat | Within(h.k.cs, |h.k.l1|, g) ::
               ByteAt(h.k.cs, h.k.disk, g) == Replay(Store.Entries(UpTo(earlier, mark)), bs, g, 0)
    requires var es := Store.Entries(After(now, mark));
      && (forall i | 0 <= i < |es| :: ImageRuns.InReach(h.k.cs, OpOf(es[i], bs)))
      && h.alloc + Cost(h.k.cs, OpsOf(es, bs), ImageRuns.Length) <= TWO62
    ensures FileHolds(after, h') && h'.k.codec == codec && h'.k.cs == h.k.cs && |h'.k.l1| == |h.k.l1|
    ensures DiskOk(h.k.cs, h'.k.disk)
    ensures forall g: nat | Within(h.k.cs, |h.k.l1|, g) ::
              ByteAt(h.k.cs, h'.k.disk, g) == UpToDate(earlier, now, mark, bs, g, 0)
  {
    hide FileHolds; hide ByteAt; hide Replay; hide GoodSize; hide DiskOk; hide Within; hide OpsOf; hide Cost;
    var es := Store.Entries(After(now, mark));
    after, h' := ReplayOnto(codec, file, es, bs, h);
  }

  /** The whole replay: the entries, then closing and opening the image again, then a read. */
  function Session(es: seq<Entry>, bs: nat, off: nat, n: nat): seq<ImageRuns.Op> {
    OpsOf(es, bs) + [ImageRuns.Op.Reopen, ImageRuns.Op.Read(off, n)]
  }

  lemma {:induction false} SessionIsReplay(capacity: nat, es: seq<Entry>, bs: nat, off: nat, n: nat, g: nat)
    requires g < capacity
    ensures ImageRuns.Flat(_ => 0, capacity, Session(es, bs, off, n)[..|es| + 1], g) == Replay(es, bs, g, 0)
  {
    var ops := Session(es, bs, off, n)[..|es| + 1];
    FlatIsReplay(_ => 0, capacity, es, bs, g);
    assert ops[..|es|] == OpsOf(es, bs) && ops[|es|] == ImageRuns.Op.Reopen;
  }

  /** replayToQCow2 into a new image of 64 KiB clusters: once it has been closed and opened again,
      every read within the device returns the replayed bytes. */
  method ReplayToImage(codec: Codec, deviceSize: nat, es: seq<Entry>, bs: nat, off: nat, n: nat)
    returns (buf: seq<byte>)
    requires Sound(codec) && GoodSize(ClusterSize(16)) && off + n <= deviceSize < TWO64
    requires deviceSize + ImageTables.Entries(ClusterSize(16)) * ClusterSize(16) <= TWO64
    requires deviceSize + ImageTables.Entries(ClusterSize(16)) * ClusterSize(16) <= Reach(ClusterSize(16))
    requires L1Count(ClusterSize(16), deviceSize) < 0x2000_0000
    requires forall i | 0 <= i <= |es| :: ImageRuns.InReach(ClusterSize(16), Session(es, bs, off, n)[i])
    requires 0x2_0000_0000 + Cost(ClusterSize(16), Session(es, bs, off, n), ImageRuns.Length) <= TWO62
    ensures |buf| == n && forall k | 0 <= k < n :: buf[k] == Replay(es, bs, off + k, 0)
  {
    hide *;
    var cs, ops := ClusterSize(16), Session(es, bs, off, n);
    SessionShape(es, bs, off, n);
    assert ImageRuns.InReach(cs, ops[|es| + 1]) by { ReadReaches(cs, off, n); }
    ghost var capacity := ImageRuns.Capacity(cs, L1Count(cs, deviceSize));
    ImageRuns.CreateCovers(cs, deviceSize);
    var last, bufs := ImageRuns.RunNew(codec, 16, deviceSize, ops);
    assert |bufs| == |es| + 2 by { OneBufferEach(cs, capacity, ops, bufs); }
    buf := bufs[|es| + 1];
    SessionRead(cs, capacity, es, bs, off, n, bufs, buf);
  }

  lemma {:induction false} ReadReaches(cs: nat, off: nat, n: nat)
    requires GoodSize(cs)
    ensures ImageRuns.InReach(cs, ImageRuns.Op.Read(off, n))
  {
  }

  lemma {:induction false} OneBufferEach(cs: nat, capacity: nat, ops: seq<ImageRuns.Op>, bufs: seq<seq<byte>>)
    requires GoodSize(cs) && ImageRuns.AllShown(cs, _ => 0, capacity, ops, bufs)
    ensures |bufs| == |ops|
  {
  }

  lemma {:induction false} SessionShape(es: seq<Entry>, bs: nat, off: nat, n: nat)
    ensures var ops := Session(es, bs, off, n); |ops| == |es| + 2 && ops[|es| + 1] == ImageRuns.Op.Read(off, n)
  {
  }

  lemma {:induction false} SessionRead(cs: nat, capacity: nat, es: seq<Entry>, bs: nat, off: nat, n: nat,
                                       bufs: seq<seq<byte>>, buf: seq<byte>)
    requires GoodSize(cs) && off + n <= capacity && off + n <= Reach(cs)
    requires ImageRuns.AllShown(cs, _ => 0, capacity, Session(es, bs, off, n), bufs)
    requires |bufs| == |es| + 2 && buf == bufs[|es| + 1]
    ensures |buf| == n && forall k | 0 <= k < n :: buf[k] == Replay(es, bs, off + k, 0)
  {
    var ops := Session(es, bs, off, n);
    SessionShape(es, bs, off, n);
    hide Session; hide Reach; hide GoodSize; hide Replay; hide ImageRuns.Flat;
    assert ImageRuns.IsShown(cs, _ => 0, capacity, ops[..|es| + 1], off, bufs[|es| + 1]);
    forall k | 0 <= k < n ensures buf[k] == Replay(es, bs, off + k, 0) {
      SessionIsReplay(capacity, es, bs, off, n, off + k);
    }
  }
}
