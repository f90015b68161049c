/** Converting flat files to images, extracting them again, and compacting images. */
module ImageTools {
  import opened Bytes
  import opened BigEndian
  import opened ImageSpace
  import opened ImageTables
  import opened FlatDisk
  import opened ImageState
  import opened Images
  import ImageRuns

  /** Where the bytes of cluster c are. */
  lemma {:induction false} ClusterPlace(cs: nat, c: nat, off: nat, g: nat)
    requires GoodSize(cs) && off == c * cs && off <= g < off + cs
    ensures Locate(cs, g) == Place(CellOf(cs, c), g - off) && Quo(off, cs) == c
  {
    hide CellOf;
    DivUnique(g, cs, c, g - off);
    DivUnique(off, cs, c, 0);
  }

  /** Replacing a cluster replaces its bytes and no others. */
  lemma {:induction false} PutCluster(cs: nat, disk: map<Cell, seq<byte>>, c: nat, off: nat, data: seq<byte>, g: nat)
    requires GoodSize(cs) && DiskOk(cs, disk) && off == c * cs && |data| == cs && off + cs <= Reach(cs) && g < Reach(cs)
    ensures DiskOk(cs, Put(disk, CellOf(cs, c), data))
    ensures ByteAt(cs, Put(disk, CellOf(cs, c), data), g) ==
      if off <= g < off + cs then data[g - off] else ByteAt(cs, disk, g)
  {
    ClusterPlace(cs, c, off, off);
    ReachFits(cs, off);
    ReachFits(cs, g);
    PutByte(cs, disk, off, data, g);
    assert WriteAt(Get(cs, disk, CellOf(cs, c)), 0, data) == data;
    hide ByteAt; hide Reach; hide CellOf; hide Get; hide Put; hide Locate;
  }

  /** The image shows the first n bytes of x, then zeros. */
  ghost predicate ShowsFirst(cs: nat, disk: map<Cell, seq<byte>>, x: seq<byte>, n: nat) {
    && GoodSize(cs) && DiskOk(cs, disk)
    && forall g | 0 <= g < Reach(cs) :: ByteAt(cs, disk, g) == if g < n && g < |x| then x[g] else 0
  }

  /** The data of a cluster, padded with zeros at the end of the file. */
  function Padded(x: seq<byte>, off: nat, cs: nat): (r: seq<byte>)
    requires off <= |x|
    ensures |r| == cs
  {
    if off + cs <= |x| then x[off..off + cs] else x[off..] + Zeros(off + cs - |x|)
  }

  lemma {:induction false} ShowsNothing(cs: nat, x: seq<byte>)
    requires GoodSize(cs)
    ensures ShowsFirst(cs, map[], x, 0)
  {
    hide Locate; hide Reach;
  }

  /** One cluster more, stored or, if it is all zero, left out. */
  lemma {:induction false} ShowsNext(cs: nat, disk: map<Cell, seq<byte>>, x: seq<byte>, c: nat, off: nat,
                                     data: seq<byte>)
    requires ShowsFirst(cs, disk, x, off) && off == c * cs && off <= |x| && off + cs <= Reach(cs)
    requires data == Padded(x, off, cs)
    ensures ShowsFirst(cs, Put(disk, CellOf(cs, c), data), x, off + cs)
    ensures AllZero(data) ==> ShowsFirst(cs, disk, x, off + cs)
  {
    hide CellOf; hide Reach; hide ByteAt; hide Put; hide DiskOk;
    var r := Put(disk, CellOf(cs, c), data);
    forall g | 0 <= g < Reach(cs)
      ensures DiskOk(cs, r) && ByteAt(cs, r, g) == if g < off + cs && g < |x| then x[g] else 0
      ensures AllZero(data) ==> ByteAt(cs, disk, g) == if g < off + cs && g < |x| then x[g] else 0
    {
      PutCluster(cs, disk, c, off, data, g);
      if off <= g < off + cs && AllZero(data) { assert data[g - off] == 0; }
    }
    PutCluster(cs, disk, c, off, data, 0);
  }

  /** ExtractTo: every cluster into a flat file of the given size, the last one cut off. */
  method ExtractTo(img: Image, size: nat) returns (ok: bool, out: seq<byte>)
    requires img.Valid() && GoodSize(img.cs) && size <= Reach(img.cs)
    modifies img`cache
    ensures img.Valid() && DiskOk(img.cs, img.disk) && ok && |out| == size
    ensures forall g | 0 <= g < size :: out[g] == ByteAt(img.cs, img.disk, g)
  {
    hide Image.Valid; hide CellOf; hide Reach; hide GoodSize; hide Get; hide DiskOk;
    var cs := img.cs;
    ok, out := true, Zeros(size);
    var c, off := 0, 0;
    img.Sized();
    while off < size
      invariant img.Valid() && DiskOk(cs, img.disk) && ok && |out| == size && off == c * cs
      invariant forall g | 0 <= g < size && g < off :: out[g] == ByteAt(cs, img.disk, g)
    {
      var okRead, data := img.ReadCluster(c);
      ok := okRead;
      var n := if off + cs > size then size - off else cs;
      ghost var before := out;
      out := WriteAt(out, off, data[..n]);
      forall g | 0 <= g < off + n
        ensures out[g] == ByteAt(cs, img.disk, g)
      {
        if g < off { assert out[g] == before[g]; } else { ClusterPlace(cs, c, off, g); }
      }
      c, off := c + 1, off + cs;
    }
  }

  /** The clusters of a file of n bytes lie within the reach. */
  predicate Convertible(cs: nat, n: nat)
    requires GoodSize(cs)
  {
    n + Entries(cs) * cs <= TWO64 && n + Entries(cs) * cs <= Reach(cs)
  }

  /** What the virtual size covers is indexed by the new image's L1 table. */
  lemma {:induction false} Covered(cs: nat, n: nat, g: nat)
    requires GoodSize(cs) && Convertible(cs, n) && g < n
    ensures Indexed(cs, L1Count(cs, n), g) && g + cs <= Reach(cs)
  {
    ImageRuns.CreateCovers(cs, n);
    ImageRuns.IndexedBelow(cs, L1Count(cs, n), g);
    MulLe(1, Entries(cs), cs);
    hide Reach; hide Indexed; hide L1Count; hide ImageRuns.Capacity;
  }

  lemma {:induction false} IndexedCluster(cs: nat, n: nat, c: nat, off: nat)
    requires GoodSize(cs) && off == c * cs
    ensures Indexed(cs, n, off) <==> CellOf(cs, c).i < n
  {
    ClusterPlace(cs, c, off, off);
    hide CellOf; hide Quo; hide Locate;
  }

  /** cmd_convert: an image of a flat file. All-zero clusters are left out, the last one is
      padded, and the finished file alone determines the image. */
  method Convert(codec: Codec, bits: nat, x: seq<byte>) returns (img: Image?)
    requires Sound(codec) && 12 <= bits <= 24 && GoodSize(ClusterSize(bits)) && Convertible(ClusterSize(bits), |x|)
    requires L1Count(ClusterSize(bits), |x|) < 0x2000_0000 && 2 * |x| + 0x3_0000_0000 <= TWO62 && |x| < TWO64
    ensures img == null <==> x == []
    ensures img != null ==>
      fresh(img) && img.Valid() && img.codec == codec && img.cs == ClusterSize(bits)
      && ShowsFirst(img.cs, img.disk, x, |x|) && img.virtualSize == |x|
    ensures img != null ==> |img.file| >= 24 && UnBE(img.file[16..24]) == |x|
    ensures img != null ==> Persisted(img.file, img.K(), img.alloc, img.freeHead, img.m, img.frees)
  {
    hide Image.Valid; hide CellOf; hide Reach; hide GoodSize; hide ShowsFirst; hide Put; hide L1Count; hide Indexed;
    hide Sound; hide Pow2; hide Persisted; hide Convertible; hide LosesTail; hide Image.StoredAs; hide Openable;
    hide UnBE; hide Padded;
    if x == [] {
      return null;
    }
    var created := Create(codec, bits, |x|);
    var result: Image := created;
    var cs := result.cs;
    var c, off := 0, 0;
    ShowsNothing(cs, x);
    SizeBound(cs);
    while off < |x|
      invariant result.Valid() && fresh(result) && result.codec == codec && result.cs == cs
      invariant |result.l1| == L1Count(cs, |x|)
      invariant off == c * cs && off < |x| + cs && ShowsFirst(cs, result.disk, x, off)
      invariant result.alloc <= 0x2_0000_0000 + 2 * off
    {
      Covered(cs, |x|, off);
      IndexedCluster(cs, |result.l1|, c, off);
      var data := Padded(x, off, cs);
      ShowsNext(cs, result.disk, x, c, off, data);
      var zero := Image.IsZero(data);
      if !zero {
        var ok := result.WriteCluster(c, data);
      }
      c, off := c + 1, off + cs;
    }
    ShowsAll(cs, result.disk, x, off);
    result.Flush();
    SizeOnDisk(result.file, result.K(), result.alloc, result.freeHead, result.m, result.frees);
    img := result;
  }

  lemma {:induction false} SizeOnDisk(file: seq<byte>, k: Core, alloc: nat, head: nat, m: map<Owner, Extent>,
                                      frees: seq<nat>)
    requires Persisted(file, k, alloc, head, m, frees)
    ensures |file| >= 24 && UnBE(file[16..24]) == k.virtualSize
  {
    hide Persisted; hide UnBE;
    OpenReads(file, k, alloc, head, m, frees);
    SameFields(file);
  }

  lemma {:induction false} SizeBound(cs: nat)
    requires GoodSize(cs)
    ensures 0 < cs <= 0x100_0000
  {}

  lemma {:induction false} ShowsAll(cs: nat, disk: map<Cell, seq<byte>>, x: seq<byte>, n: nat)
    requires ShowsFirst(cs, disk, x, n) && |x| <= n
    ensures ShowsFirst(cs, disk, x, |x|)
  {
    hide ByteAt; hide Reach;
  }

  /** Extracting what has been converted gives the file back, through the bytes on disk: how long
      it is, the header of the image tells. */
  method ConvertThenExtract(codec: Codec, bits: nat, x: seq<byte>) returns (out: seq<byte>)
    requires x != [] && Sound(codec) && 12 <= bits <= 24 && GoodSize(ClusterSize(bits))
    requires Convertible(ClusterSize(bits), |x|)
    requires L1Count(ClusterSize(bits), |x|) < 0x2000_0000 && 2 * |x| + 0x3_0000_0000 <= TWO62 && |x| < TWO64
    ensures out == x
  {
    hide Image.Valid; hide GoodSize; hide ByteAt; hide Persisted; hide L1Count; hide Sound; hide Pow2;
    var img := Convert(codec, bits, x);
    var again := Open(codec, img.file, img.K(), img.alloc, img.freeHead, img.m, img.frees);
    var ok;
    ok, out := ExtractTo(again, again.virtualSize);
  }

  /** The image can be compacted within the bounds of an image. */
  ghost predicate Compactable(img: Image)
    reads img
  {
    var size := img.virtualSize;
    && img.Valid() && GoodSize(img.cs) && 12 <= img.bits <= 24 && img.cs == ClusterSize(img.bits) && Sound(img.codec)
    && Convertible(img.cs, size) && L1Count(img.cs, size) < 0x2000_0000 && 2 * size + 0x3_0000_0000 <= TWO62
    && size < TWO64
  }

  /** cmd_compact: the clusters that are not all zero, rewritten one after the other into a new
      image of the same size. */
  method Compact(img: Image) returns (result: Image)
    requires Compactable(img)
    modifies img`cache
    ensures img.Valid() && DiskOk(img.cs, img.disk) && fresh(result) && result.Valid() && result.cs == img.cs
    ensures DiskOk(img.cs, result.disk)
    ensures img.disk == old(img.disk) && result.codec == img.codec && result.virtualSize == img.virtualSize
    ensures forall g | 0 <= g < img.virtualSize :: ByteAt(img.cs, result.disk, g) == ByteAt(img.cs, img.disk, g)
    ensures Persisted(result.file, result.K(), result.alloc, result.freeHead, result.m, result.frees)
  {
    hide Image.Valid; hide CellOf; hide Reach; hide GoodSize; hide Put; hide L1Count; hide Indexed; hide Sound;
    hide Pow2; hide Persisted; hide Convertible; hide LosesTail; hide ByteAt; hide DiskOk; hide Get; hide UnBE;
    hide Image.StoredAs; hide Openable; hide SameFirst;
    img.Sized();
    var size := img.virtualSize;
    var created := Create(img.codec, img.bits, size);
    result := created;
    var cs := img.cs;
    SizeBound(cs);
    var c, off := 0, 0;
    result.Sized();
    SameNothing(cs, img.disk);
    while off < size
      invariant img.Valid() && DiskOk(cs, img.disk) && result.Valid() && fresh(result) && result.cs == cs
      invariant |result.l1| == L1Count(cs, size)
      invariant off == c * cs && off < size + cs && SameFirst(cs, result.disk, img.disk, off)
      invariant result.alloc <= 0x2_0000_0000 + 2 * off
    {
      Covered(cs, size, off);
      IndexedCluster(cs, |result.l1|, c, off);
      var ok, data := img.ReadCluster(c);
      SameNext(cs, result.disk, img.disk, c, off, data);
      var zero := Image.IsZero(data);
      if !zero {
        ok := result.WriteCluster(c, data);
      }
      c, off := c + 1, off + cs;
    }
    SameBytes(cs, result.disk, img.disk, off, size);
    result.Flush();
  }

  /** Extracting from the compacted file gives what extracting from the image gives: as many bytes,
      by its own header, and the same ones. */
  method CompactThenExtract(img: Image) returns (before: seq<byte>, after: seq<byte>)
    requires Compactable(img)
    modifies img`cache
    ensures |before| == img.virtualSize && after == before
    ensures GoodSize(img.cs) && DiskOk(img.cs, img.disk) && img.disk == old(img.disk)
    ensures forall g | 0 <= g < |before| :: before[g] == ByteAt(img.cs, img.disk, g)
  {
    hide Image.Valid; hide GoodSize; hide ByteAt; hide Persisted; hide L1Count; hide Sound; hide Pow2; hide DiskOk;
    var ok;
    ok, before := ExtractTo(img, img.virtualSize);
    var result := Compact(img);
    var again := Open(result.codec, result.file, result.K(), result.alloc, result.freeHead, result.m, result.frees);
    ok, after := ExtractTo(again, again.virtualSize);
  }

  /** The first n bytes of the two are the same, and the first one has only zeros after them. */
  ghost predicate SameFirst(cs: nat, d: map<Cell, seq<byte>>, e: map<Cell, seq<byte>>, n: nat) {
    && GoodSize(cs) && DiskOk(cs, d) && DiskOk(cs, e)
    && forall g | 0 <= g < Reach(cs) :: ByteAt(cs, d, g) == if g < n then ByteAt(cs, e, g) else 0
  }

  lemma {:induction false} SameNothing(cs: nat, e: map<Cell, seq<byte>>)
    requires GoodSize(cs) && DiskOk(cs, e)
    ensures SameFirst(cs, map[], e, 0)
  {
    hide Locate; hide Reach;
  }

  lemma {:induction false} SameNext(cs: nat, d: map<Cell, seq<byte>>, e: map<Cell, seq<byte>>, c: nat, off: nat,
                                    data: seq<byte>)
    requires SameFirst(cs, d, e, off) && off == c * cs && off + cs <= Reach(cs) && data == Get(cs, e, CellOf(cs, c))
    ensures SameFirst(cs, Put(d, CellOf(cs, c), data), e, off + cs)
    ensures AllZero(data) ==> SameFirst(cs, d, e, off + cs)
  {
    hide CellOf; hide Reach; hide Put; hide DiskOk; hide Locate; hide Get;
    var r := Put(d, CellOf(cs, c), data);
    forall g | 0 <= g < Reach(cs)
      ensures DiskOk(cs, r) && ByteAt(cs, r, g) == if g < off + cs then ByteAt(cs, e, g) else 0
      ensures AllZero(data) ==> ByteAt(cs, d, g) == if g < off + cs then ByteAt(cs, e, g) else 0
    {
      PutCluster(cs, d, c, off, data, g);
      if off <= g < off + cs { ClusterPlace(cs, c, off, g); }
    }
    PutCluster(cs, d, c, off, data, 0);
  }

  lemma {:induction false} SameBytes(cs: nat, d: map<Cell, seq<byte>>, e: map<Cell, seq<byte>>, n: nat, size: nat)
    requires SameFirst(cs, d, e, n) && size <= n && GoodSize(cs) && Convertible(cs, size)
    ensures DiskOk(cs, d) && forall g | 0 <= g < size :: ByteAt(cs, d, g) == ByteAt(cs, e, g)
  {
    hide ByteAt; hide Reach; hide DiskOk;
  }
}
