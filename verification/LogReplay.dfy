/** Log entries and what replaying them does to a device. Replay is the specification that
    repack, garbage collection and demand paging have to agree with. */
module LogReplay {
  import opened Bytes
  import opened BlockSets
  import opened Options

  /** A log entry; a write's length is the length of its data. */
  datatype Entry = Write(block: nat, data: seq<byte>) | Trim(block: nat, length: nat) {
    function Length(): nat { if Write? then |data| else length }

    /** Length / blockSize, but at least one block. */
    function NumBlocks(bs: nat): (n: nat)
      requires bs > 0
      ensures n > 0
    {
      if Length() / bs == 0 then 1 else Length() / bs
    }

    predicate Touches(bs: nat, b: nat)
      requires bs > 0
    {
      block <= b < block + NumBlocks(bs)
    }

    predicate HasByte(bs: nat, p: nat) { block * bs <= p < block * bs + Length() }

    /** The value byte p takes when this entry is applied to it. */
    function Value(bs: nat, p: nat): byte
      requires HasByte(bs, p)
    {
      if Write? then data[p - block * bs] else 0
    }

    /** A positive number of whole blocks. */
    predicate Aligned(bs: nat)
      requires bs > 0
    {
      Length() > 0 && Length() % bs == 0
    }
  }

  ghost predicate AllAligned(es: seq<Entry>, bs: nat)
    requires bs > 0
  {
    forall i | 0 <= i < |es| :: es[i].Aligned(bs)
  }

  /** Byte p of a device whose byte was base, after replaying es over it. */
  function Replay(es: seq<Entry>, bs: nat, p: nat, base: byte): byte {
    if es == [] then base
    else
      var e := es[|es| - 1];
      if e.HasByte(bs, p) then e.Value(bs, p) else Replay(es[..|es| - 1], bs, p, base)
  }

  /** The index of the last entry touching block b, or -1. */
  function LastToucher(es: seq<Entry>, bs: nat, b: nat): (k: int)
    requires bs > 0
    ensures -1 <= k < |es|
    ensures k >= 0 ==> es[k].Touches(bs, b)
    ensures forall j | k < j < |es| :: !es[j].Touches(bs, b)
  {
    if es == [] then -1
    else if es[|es| - 1].Touches(bs, b) then |es| - 1
    else LastToucher(es[..|es| - 1], bs, b)
  }

  function Flatten(logs: seq<seq<Entry>>): seq<Entry> {
    if logs == [] then [] else Flatten(logs[..|logs| - 1]) + logs[|logs| - 1]
  }

  lemma {:induction false} ReplayAppend(xs: seq<Entry>, ys: seq<Entry>, bs: nat, p: nat, base: byte)
    ensures Replay(xs + ys, bs, p, base) == Replay(ys, bs, p, Replay(xs, bs, p, base))
  {
    if ys == [] {
      assert xs + ys == xs;
    } else {
      assert (xs + ys)[..|xs + ys| - 1] == xs + ys[..|ys| - 1];
      ReplayAppend(xs, ys[..|ys| - 1], bs, p, base);
    }
  }

  // ---------------------------------------------------------------- effects

  /** What the log says about a byte: whether its last toucher is a trim, and its value. */
  datatype Hit = Hit(isTrim: bool, value: byte)

  function HitOf(e: Entry, bs: nat, p: nat): Hit
    requires e.HasByte(bs, p)
  {
    Hit(e.Trim?, e.Value(bs, p))
  }

  function Effect(es: seq<Entry>, bs: nat, p: nat): Option<Hit> {
    if es == [] then None
    else
      var e := es[|es| - 1];
      if e.HasByte(bs, p) then Some(HitOf(e, bs, p)) else Effect(es[..|es| - 1], bs, p)
  }

  /** The effect determines the replayed byte. */
  lemma {:induction false} ReplayByEffect(es: seq<Entry>, bs: nat, p: nat, base: byte)
    ensures Replay(es, bs, p, base) == match Effect(es, bs, p) case None => base case Some(h) => h.value
  {
    if es != [] { ReplayByEffect(es[..|es| - 1], bs, p, base); }
  }

  lemma {:induction false} EffectAppend(xs: seq<Entry>, ys: seq<Entry>, bs: nat, p: nat)
    ensures Effect(xs + ys, bs, p) == if Effect(ys, bs, p).Some? then Effect(ys, bs, p) else Effect(xs, bs, p)
  {
    if ys == [] {
      assert xs + ys == xs;
    } else {
      assert (xs + ys)[..|xs + ys| - 1] == xs + ys[..|ys| - 1];
      EffectAppend(xs, ys[..|ys| - 1], bs, p);
    }
  }

  /** For whole-block entries, bytes and blocks tell the same story. */
  lemma {:induction false} AlignedBytes(e: Entry, bs: nat, p: nat)
    requires bs > 0 && e.Aligned(bs)
    ensures e.HasByte(bs, p) <==> e.Touches(bs, p / bs)
    ensures e.Length() == e.NumBlocks(bs) * bs
  {
    var n := e.Length() / bs;
    assert e.Length() == n * bs;
    assert n > 0;
    BlockOfByte(bs, p, e.block, e.block + n);
    assert (e.block + n) * bs == e.block * bs + n * bs;
  }

  /** Only for them: the tail of any other entry is outside the blocks it is accounted for, or
      its one block holds bytes it does not write. */
  lemma {:induction false} AlignedIff(e: Entry, bs: nat)
    requires bs > 0
    ensures e.Aligned(bs) <==> forall p: nat :: e.HasByte(bs, p) <==> e.Touches(bs, p / bs)
  {
    hide Entry.HasByte; hide Entry.Touches; hide Entry.Aligned;
    if e.Aligned(bs) {
      forall p: nat ensures e.HasByte(bs, p) <==> e.Touches(bs, p / bs) {
        AlignedBytes(e, bs, p);
      }
    } else {
      var p := UnalignedByte(e, bs);
    }
  }

  lemma {:induction false} UnalignedByte(e: Entry, bs: nat) returns (p: nat)
    requires bs > 0 && !e.Aligned(bs)
    ensures e.HasByte(bs, p) != e.Touches(bs, p / bs)
  {
    var len := e.Length();
    var q := len / bs;
    Division(len, bs);
    Distribute(e.block, q, bs);
    Distribute(e.block, 1, bs);
    if q == 0 {
      p := e.block * bs + len;
      BlockOfByte(bs, p, e.block, e.block + 1);
    } else {
      p := (e.block + q) * bs;
      BlockOfByte(bs, p, e.block, e.block + q);
    }
  }

  lemma {:induction false} Division(n: nat, bs: nat)
    requires bs > 0
    ensures n == (n / bs) * bs + n % bs && n % bs < bs
  {
  }

  /** The effect on a byte comes from the last entry touching its block. */
  lemma {:induction false} EffectLast(es: seq<Entry>, bs: nat, p: nat)
    requires bs > 0 && AllAligned(es, bs)
    ensures var k := LastToucher(es, bs, p / bs);
      if k < 0 then Effect(es, bs, p) == None
      else es[k].HasByte(bs, p) && Effect(es, bs, p) == Some(HitOf(es[k], bs, p))
  {
    if es != [] {
      AlignedBytes(es[|es| - 1], bs, p);
      EffectLast(es[..|es| - 1], bs, p);
    }
  }

  /** A byte whose last toucher is a trim becomes zero. */
  lemma {:induction false} TrimIsZero(es: seq<Entry>, bs: nat, p: nat)
    ensures var h := Effect(es, bs, p); h.Some? && h.value.isTrim ==> h.value.value == 0
  {
    if es != [] { TrimIsZero(es[..|es| - 1], bs, p); }
  }

  // ---------------------------------------------------------------- replay to a flat file

  /** fallocate with PUNCH_HOLE and KEEP_SIZE. */
  function PunchHole(f: seq<byte>, off: nat, len: nat): (g: seq<byte>)
    ensures |g| == |f|
    ensures forall p | 0 <= p < |f| :: g[p] == if off <= p < off + len then 0 else f[p]
  {
    seq(|f|, p requires 0 <= p < |f| => if off <= p < off + len then 0 else f[p])
  }

  function ByteOr0(f: seq<byte>, p: nat): byte { if p < |f| then f[p] else 0 }

  /** One entry carried out on a flat file. */
  function Carried(out: seq<byte>, e: Entry, bs: nat): seq<byte> {
    if e.Write? then WriteAt(out, e.block * bs, e.data) else PunchHole(out, e.block * bs, e.length)
  }

  lemma {:induction false} FlatStep(out: seq<byte>, es: seq<Entry>, e: Entry, bs: nat, p: nat, base: byte)
    requires ByteOr0(out, p) == Replay(es, bs, p, base)
    ensures ByteOr0(Carried(out, e, bs), p) == Replay(es + [e], bs, p, base)
  {
    assert (es + [e])[..|es|] == es;
  }

  /** Applies every entry of every log to the file, in order. A fresh run starts from a
      file of deviceSize zeros, an incremental run from the existing image. */
  method ReplayToFlat(logs: seq<seq<Entry>>, image: seq<byte>, bs: nat) returns (out: seq<byte>)
    ensures |out| >= |image|
    ensures forall p: nat :: ByteOr0(out, p) == Replay(Flatten(logs), bs, p, ByteOr0(image, p))
  {
    out := image;
    for i := 0 to |logs|
      invariant |out| >= |image|
      invariant forall p: nat :: ByteOr0(out, p) == Replay(Flatten(logs[..i]), bs, p, ByteOr0(image, p))
    {
      assert logs[..i + 1][..i] == logs[..i];
      var before := Flatten(logs[..i]);
      assert before + logs[i][..0] == before;
      for k := 0 to |logs[i]|
        invariant |out| >= |image|
        invariant forall p: nat :: ByteOr0(out, p) == Replay(before + logs[i][..k], bs, p, ByteOr0(image, p))
      {
        var e := logs[i][k];
        assert before + logs[i][..k + 1] == before + logs[i][..k] + [e];
        forall p: nat
          ensures ByteOr0(Carried(out, e, bs), p) == Replay(before + logs[i][..k + 1], bs, p, ByteOr0(image, p))
        {
          FlatStep(out, before + logs[i][..k], e, bs, p, ByteOr0(image, p));
        }
        var offset := e.block * bs;
        if e.Write? {
          out := WriteAt(out, offset, e.data);
        } else {
          out := PunchHole(out, offset, e.length);
        }
      }
      assert logs[i][..|logs[i]|] == logs[i];
    }
    assert logs[..|logs|] == logs;
  }

  // ---------------------------------------------------------------- cutting entries

  /** The part of entry e on blocks r: the same operation, the matching slice of its data. */
  function Cut(e: Entry, r: Interval, bs: nat): Entry
    requires bs > 0 && e.Aligned(bs) && e.block <= r.lo <= r.hi <= e.block + e.NumBlocks(bs)
  {
    AlignedBytes(e, bs, 0);
    SliceBounds(r.lo - e.block, r.hi - e.block, e.NumBlocks(bs), bs);
    if e.Write? then Write(r.lo, e.data[(r.lo - e.block) * bs..(r.hi - e.block) * bs])
    else Trim(r.lo, (r.hi - r.lo) * bs)
  }

  lemma {:induction false} SliceBounds(i: nat, j: nat, n: nat, bs: nat)
    requires i <= j <= n
    ensures i * bs <= j * bs <= n * bs
  {
    MulLe(i, j, bs);
    MulLe(j, n, bs);
  }

  lemma {:induction false} CutShape(e: Entry, r: Interval, bs: nat, p: nat)
    requires bs > 0 && e.Aligned(bs) && e.block <= r.lo < r.hi <= e.block + e.NumBlocks(bs)
    ensures var c := Cut(e, r, bs);
      && c.Aligned(bs) && c.NumBlocks(bs) == r.hi - r.lo
      && (c.HasByte(bs, p) <==> r.Has(p / bs))
      && (c.HasByte(bs, p) ==> e.HasByte(bs, p) && c.Value(bs, p) == e.Value(bs, p))
  {
    var c := Cut(e, r, bs);
    var n := r.hi - r.lo;
    AlignedBytes(e, bs, p);
    SliceBounds(r.lo - e.block, r.hi - e.block, e.NumBlocks(bs), bs);
    assert (r.hi - e.block) * bs - (r.lo - e.block) * bs == n * bs;
    assert c.Length() == n * bs;
    MulDivMod(n, bs);
    AlignedBytes(c, bs, p);
    assert e.block * bs + (r.lo - e.block) * bs == r.lo * bs;
  }
}
