/** The CBOR subset of the log: heads, strings and skipping, after section 3 of RFC 8949. */
module Cbor {
  import opened Bytes
  import opened Options
  import opened BigEndian

  // ---------------------------------------------------------------- heads

  /** How many argument bytes follow the initial byte in the shortest form. */
  function Width(val: nat): nat {
    if val < 24 then 0 else if val <= 0xFF then 1 else if val <= 0xFFFF then 2 else if val < TWO32 then 4 else 8
  }

  function Info(width: nat): nat {
    if width == 1 then 24 else if width == 2 then 25 else if width == 4 then 26 else 27
  }

  predicate Fits(width: nat, val: nat) {
    match width case 0 => val < 24 case 1 => val <= 0xFF case 2 => val <= 0xFFFF case 4 => val < TWO32
      case 8 => val < TWO64 case _ => false
  }

  /** A head whose argument takes the given number of bytes. */
  function WideHead(major: nat, val: nat, width: nat): (r: seq<byte>)
    requires major < 8 && Fits(width, val)
    ensures |r| == 1 + width
  {
    if width == 0 then [(major * 32 + val) as byte] else [(major * 32 + Info(width)) as byte] + BE(width, val)
  }

  /** cbor_enc_head: the shortest form. */
  function Head(major: nat, val: nat): (r: seq<byte>)
    requires major < 8 && val < TWO64
    ensures 1 <= |r| <= 9
  {
    WideHead(major, val, Width(val))
  }

  /** The initial byte has the major type in its top three bits, then the value itself or 24 to 27
      for the number of bytes that follow, most significant first: section 3 of RFC 8949. */
  lemma {:induction false} HeadLayout(major: nat, val: nat)
    requires major < 8 && val < TWO64
    ensures val < 24 ==> Head(major, val) == [(major * 32 + val) as byte]
    ensures 24 <= val <= 0xFF ==> Head(major, val) == [(major * 32 + 24) as byte, val as byte]
    ensures 0x100 <= val <= 0xFFFF ==>
      Head(major, val) == [(major * 32 + 25) as byte, (val / 256) as byte, (val % 256) as byte]
    ensures 0x1_0000 <= val < TWO32 ==> Head(major, val) == [(major * 32 + 26) as byte] + BE(4, val)
    ensures TWO32 <= val ==> Head(major, val) == [(major * 32 + 27) as byte] + BE(8, val)
  {
    assert BE(1, val) == [] + [(val % 256) as byte] by { assert BE(0, val / 256) == []; }
    assert BE(2, val) == BE(1, val / 256) + [(val % 256) as byte];
    assert BE(1, val / 256) == [] + [(val / 256 % 256) as byte] by { assert BE(0, val / 256 / 256) == []; }
  }

  datatype HeadAt = HeadAt(major: nat, val: nat, next: nat)

  /** cbor_dec_head at position p. */
  function ReadHead(b: seq<byte>, p: nat): (r: Option<HeadAt>)
    ensures r.Some? ==> p < r.value.next <= |b| && r.value.major < 8
  {
    if p >= |b| then None
    else
      var major, info := b[p] / 32, b[p] % 32;
      if info < 24 then Some(HeadAt(major, info, p + 1))
      else if info > 27 then None
      else
        var w := if info == 24 then 1 else if info == 25 then 2 else if info == 26 then 4 else 8;
        if p + 1 + w > |b| then None else Some(HeadAt(major, UnBE(b[p + 1..p + 1 + w]), p + 1 + w))
  }

  lemma {:induction false} AtInside(b: seq<byte>, p: nat, a: seq<byte>)
    requires At(b, p, a)
    ensures p + |a| <= |b|
  {}

  lemma {:induction false} SliceAt(b: seq<byte>, p: nat, n: nat)
    requires p + n <= |b|
    ensures At(b, p, b[p..p + n]) && (n == 0 ==> b[p..p + n] == [])
  {}

  lemma {:induction false} PowerOf(width: nat, val: nat)
    requires Fits(width, val) && width > 0
    ensures val < Pow256(width)
  {
    Powers();
    assert Pow256(2) == 65536;
  }

  /** A head is read back, whatever surrounds it and however wide it is. */
  lemma {:induction false} HeadReads(b: seq<byte>, p: nat, major: nat, val: nat, width: nat)
    requires major < 8 && Fits(width, val) && At(b, p, WideHead(major, val, width))
    ensures ReadHead(b, p) == Some(HeadAt(major, val, p + 1 + width))
  {
    hide BE; hide UnBE; hide Pow256;
    var h := WideHead(major, val, width);
    AtSlice(b, p, h);
    assert b[p] == b[p..p + |h|][0];
    if width > 0 {
      assert b[p + 1..p + 1 + width] == b[p..p + |h|][1..] == h[1..] == BE(width, val);
      PowerOf(width, val);
      UnBEBE(width, val);
    }
  }

  lemma {:induction false} HeadRoundTrip(b: seq<byte>, p: nat, major: nat, val: nat)
    requires major < 8 && val < TWO64 && At(b, p, Head(major, val))
    ensures ReadHead(b, p) == Some(HeadAt(major, val, p + |Head(major, val)|))
  {
    HeadReads(b, p, major, val, Width(val));
  }

  lemma {:induction false} UnBEBound(s: seq<byte>)
    ensures UnBE(s) < Pow256(|s|)
  {
    if s != [] { UnBEBound(s[..|s| - 1]); }
  }

  lemma {:induction false} BEUnBE(s: seq<byte>)
    ensures BE(|s|, UnBE(s)) == s
  {
    if s != [] {
      var t := s[..|s| - 1];
      BEUnBE(t);
      assert UnBE(s) / 256 == UnBE(t) && UnBE(s) % 256 == s[|s| - 1];
    }
  }

  /** Whatever is read was written with some width, so nothing shorter than the shortest form
      is ever read. */
  lemma {:induction false} ReadWidth(b: seq<byte>, p: nat) returns (width: nat)
    requires ReadHead(b, p).Some?
    ensures var h := ReadHead(b, p).value;
      Fits(width, h.val) && h.next == p + 1 + width
      && At(b, p, WideHead(h.major, h.val, width)) && Width(h.val) <= width
  {
    width := ReadHead(b, p).value.next - p - 1;
    if width > 0 {
      WideAt(b, p, width);
    } else {
      NarrowAt(b, p);
    }
    hide UnBE; hide BE; hide At; hide WideHead;
  }

  lemma {:induction false} NarrowAt(b: seq<byte>, p: nat)
    requires p < |b| && b[p] % 32 < 24
    ensures At(b, p, WideHead(b[p] / 32, b[p] % 32, 0))
  {
    var c := b[p..p + 1];
    assert |c| == 1 && c[0] == b[p];
    assert b[p] / 32 * 32 + b[p] % 32 == b[p];
  }

  lemma {:induction false} WideAt(b: seq<byte>, p: nat, w: nat)
    requires (w == 1 || w == 2 || w == 4 || w == 8) && p + 1 + w <= |b| && b[p] % 32 == Info(w)
    ensures Fits(w, UnBE(b[p + 1..p + 1 + w])) && At(b, p, WideHead(b[p] / 32, UnBE(b[p + 1..p + 1 + w]), w))
  {
    hide BE; hide UnBE; hide Pow256; hide Fits; hide Info;
    var s := b[p + 1..p + 1 + w];
    UnBEBound(s);
    FitsIf(w, UnBE(s));
    BEUnBE(s);
    assert b[p] / 32 * 32 + b[p] % 32 == b[p];
    assert b[p..p + 1 + w] == [b[p]] + s;
  }

  lemma {:induction false} FitsIf(w: nat, v: nat)
    requires (w == 1 || w == 2 || w == 4 || w == 8) && v < Pow256(w)
    ensures Fits(w, v)
  {
    Powers();
    assert Pow256(1) == 256 && Pow256(2) == 65536;
  }

  // ---------------------------------------------------------------- items

  /** A definite-length item without tags. A map is a group of keys and values in turn. */
  datatype Item =
    | Simple(major: nat, val: nat, width: nat)
    | Str(major: nat, data: seq<byte>, width: nat)
    | Group(major: nat, items: seq<Item>, width: nat)

  function Argument(it: Item): nat {
    match it case Simple(_, val, _) => val case Str(_, data, _) => |data|
      case Group(major, items, _) => if major == 5 then |items| / 2 else |items|
  }

  predicate Good(it: Item) {
    && it.major < 8 && Fits(it.width, Argument(it))
    && match it
       case Simple(major, _, _) => major == 0 || major == 1 || major == 7
       case Str(major, _, _) => major == 2 || major == 3
       case Group(major, items, _) =>
         (major == 4 || (major == 5 && |items| % 2 == 0)) && forall i | 0 <= i < |items| :: Good(items[i])
  }

  function ItemBytes(it: Item): seq<byte>
    requires Good(it)
  {
    WideHead(it.major, Argument(it), it.width) + match it case Simple(_, _, _) => [] case Str(_, data, _) => data
      case Group(_, items, _) => AllBytes(items)
  }

  function AllBytes(items: seq<Item>): seq<byte>
    requires forall i | 0 <= i < |items| :: Good(items[i])
  {
    if items == [] then [] else ItemBytes(items[0]) + AllBytes(items[1..])
  }

  // ---------------------------------------------------------------- skipping

  /** cbor_skip: the position after the item at p. */
  function Skip(b: seq<byte>, p: nat): (r: Option<nat>)
    ensures r.Some? ==> p < r.value <= |b|
    decreases |b| - p, 0, 0
  {
    match ReadHead(b, p)
    case None => None
    case Some(h) =>
      if h.major == 0 || h.major == 1 || h.major == 7 then Some(h.next)
      else if h.major == 2 || h.major == 3 then (if h.next + h.val <= |b| then Some(h.next + h.val) else None)
      else if h.major == 4 then SkipMany(b, h.next, h.val)
      else if h.major == 5 then SkipMany(b, h.next, 2 * h.val)
      else None
  }

  function SkipMany(b: seq<byte>, p: nat, k: nat): (r: Option<nat>)
    requires p <= |b|
    ensures r.Some? ==> p <= r.value <= |b|
    decreases |b| - p, 1, k
  {
    if k == 0 then Some(p)
    else match Skip(b, p) case None => None case Some(q) => SkipMany(b, q, k - 1)
  }

  /** An item is skipped exactly, whatever follows it. */
  lemma {:induction false} SkipsItem(b: seq<byte>, p: nat, it: Item)
    requires Good(it) && At(b, p, ItemBytes(it))
    ensures Skip(b, p) == Some(p + |ItemBytes(it)|)
    decreases it, 0
  {
    hide WideHead; hide ReadHead; hide Fits; hide At; hide AllBytes;
    var h := WideHead(it.major, Argument(it), it.width);
    match it {
      case Simple(_, _, _) =>
        AtParts(b, p, h, []);
      case Str(_, data, _) =>
        AtParts(b, p, h, data);
        AtInside(b, p + |h|, data);
      case Group(_, items, _) =>
        AtParts(b, p, h, AllBytes(items));
        AtInside(b, p, h);
        SkipsAll(b, p + |h|, items);
    }
    HeadReads(b, p, it.major, Argument(it), it.width);
  }

  lemma {:induction false} SkipsAll(b: seq<byte>, p: nat, items: seq<Item>)
    requires p <= |b| && (forall i | 0 <= i < |items| :: Good(items[i])) && At(b, p, AllBytes(items))
    ensures SkipMany(b, p, |items|) == Some(p + |AllBytes(items)|)
    decreases items, 1
  {
    hide ItemBytes; hide Good; hide Skip; hide At;
    if items != [] {
      AtParts(b, p, ItemBytes(items[0]), AllBytes(items[1..]));
      AtInside(b, p, ItemBytes(items[0]));
      SkipsItem(b, p, items[0]);
      SkipsAll(b, p + |ItemBytes(items[0])|, items[1..]);
    }
  }

  /** What is skipped is an item. */
  lemma {:induction false} SkippedIsItem(b: seq<byte>, p: nat) returns (it: Item)
    requires Skip(b, p).Some?
    ensures Good(it) && At(b, p, ItemBytes(it)) && Skip(b, p) == Some(p + |ItemBytes(it)|)
    decreases |b| - p, 0, 0
  {
    hide WideHead; hide ReadHead; hide Fits; hide AllBytes; hide At;
    var w := ReadWidth(b, p);
    var h := ReadHead(b, p).value;
    var head := WideHead(h.major, h.val, w);
    if h.major == 0 || h.major == 1 || h.major == 7 {
      it := Simple(h.major, h.val, w);
      SliceAt(b, h.next, 0);
      AtParts(b, p, head, []);
    } else if h.major == 2 || h.major == 3 {
      it := Str(h.major, b[h.next..h.next + h.val], w);
      SliceAt(b, h.next, h.val);
      AtParts(b, p, head, it.data);
    } else {
      var items := SkippedAreItems(b, h.next, if h.major == 4 then h.val else 2 * h.val);
      it := Group(h.major, items, w);
      AtParts(b, p, head, AllBytes(items));
    }
  }

  lemma {:induction false} SkippedAreItems(b: seq<byte>, p: nat, k: nat) returns (items: seq<Item>)
    requires p <= |b| && SkipMany(b, p, k).Some?
    ensures |items| == k && (forall i | 0 <= i < |items| :: Good(items[i]))
    ensures At(b, p, AllBytes(items)) && SkipMany(b, p, k) == Some(p + |AllBytes(items)|)
    decreases |b| - p, 1, k
  {
    hide ItemBytes; hide Good; hide Skip; hide At;
    if k == 0 {
      items := [];
      SliceAt(b, p, 0);
    } else {
      var it := SkippedIsItem(b, p);
      var q := Skip(b, p).value;
      var rest := SkippedAreItems(b, q, k - 1);
      items := [it] + rest;
      assert items[0] == it && items[1..] == rest;
      AtParts(b, p, ItemBytes(it), AllBytes(rest));
    }
  }

  // ---------------------------------------------------------------- the encoder

  /** The encoder: a buffer of fixed size and a sticky error. */
  class Encoder {
    const buf: array<byte>
    var pos: nat
    var err: bool

    ghost predicate Valid()
      reads this
    {
      pos <= buf.Length
    }

    ghost function Out(): seq<byte>
      requires Valid()
      reads this, buf
    {
      buf[..pos]
    }

    constructor (cap: nat)
      ensures Valid() && fresh(buf) && buf.Length == cap && pos == 0 && !err && Out() == []
    {
      buf := new byte[cap];
      pos, err := 0, false;
    }

    /** cbor_put. */
    method Put(b: byte)
      requires Valid()
      modifies this, buf
      ensures Valid() && (err <==> old(err) || old(pos) >= buf.Length)
      ensures Out() == if err then old(Out()) else old(Out()) + [b]
    {
      if err {
        return;
      }
      if pos >= buf.Length {
        err := true;
        return;
      }
      buf[pos] := b;
      pos := pos + 1;
    }

    /** A run of cbor_put calls: all bytes are there, or the error is set. */
    method PutAll(s: seq<byte>)
      requires Valid()
      modifies this, buf
      ensures Valid() && (err <==> old(err) || old(pos) + |s| > buf.Length)
      ensures !err ==> Out() == old(Out()) + s
    {
      for i := 0 to |s|
        invariant Valid() && (err <==> old(err) || old(pos) + i > buf.Length)
        invariant !err ==> pos == old(pos) + i && Out() == old(Out()) + s[..i]
      {
        Put(s[i]);
        assert s[..i + 1] == s[..i] + [s[i]];
      }
      assert s[..|s|] == s;
    }

    /** The low bytes of an argument, from the high one on. */
    method PutArgument(width: nat, val: nat)
      requires Valid()
      modifies this, buf
      ensures Valid() && (err <==> old(err) || old(pos) + width > buf.Length)
      ensures !err ==> Out() == old(Out()) + BE(width, val)
    {
      hide BE;
      ghost var arg := BE(width, val);
      var k := width;
      while k > 0
        invariant 0 <= k <= width && Valid() && (err <==> old(err) || old(pos) + width - k > buf.Length)
        invariant !err ==> pos == old(pos) + width - k && Out() == old(Out()) + arg[..width - k]
      {
        BEByte(width, val, k);
        Put((val / Pow256(k - 1) % 256) as byte);
        assert arg[..width - k + 1] == arg[..width - k] + [arg[width - k]];
        k := k - 1;
      }
      assert arg[..width] == arg;
    }

    /** cbor_enc_head: the initial byte, then the argument. */
    method EncHead(major: nat, val: nat)
      requires Valid() && major < 8 && val < TWO64
      modifies this, buf
      ensures Valid() && (err <==> old(err) || old(pos) + |Head(major, val)| > buf.Length)
      ensures !err ==> Out() == old(Out()) + Head(major, val)
    {
      hide BE;
      if val < 24 {
        Put((major * 32 + val) as byte);
      } else {
        Put((major * 32 + Info(Width(val))) as byte);
        PutArgument(Width(val), val);
      }
    }

    method EncUint(val: nat)
      requires Valid() && val < TWO64
      modifies this, buf
      ensures Valid() && (err <==> old(err) || old(pos) + |Head(0, val)| > buf.Length)
      ensures !err ==> Out() == old(Out()) + Head(0, val)
    {
      EncHead(0, val);
    }

    method EncMap(count: nat)
      requires Valid() && count < TWO64
      modifies this, buf
      ensures Valid() && (err <==> old(err) || old(pos) + |Head(5, count)| > buf.Length)
      ensures !err ==> Out() == old(Out()) + Head(5, count)
    {
      EncHead(5, count);
    }

    method EncBytesHdr(n: nat)
      requires Valid() && n < TWO64
      modifies this, buf
      ensures Valid() && (err <==> old(err) || old(pos) + |Head(2, n)| > buf.Length)
      ensures !err ==> Out() == old(Out()) + Head(2, n)
    {
      EncHead(2, n);
    }

    /** cbor_enc_text. */
    method EncText(s: seq<byte>)
      requires Valid() && |s| < TWO64
      modifies this, buf
      ensures Valid() && (err <==> old(err) || old(pos) + |Head(3, |s|)| + |s| > buf.Length)
      ensures !err ==> Out() == old(Out()) + Head(3, |s|) + s
    {
      hide Head;
      EncHead(3, |s|);
      PutAll(s);
    }
  }

  /** Byte k from the end of a big-endian number. */
  lemma {:induction false} BEByte(n: nat, x: nat, k: nat)
    requires 0 < k <= n
    ensures Pow256(k - 1) > 0 && BE(n, x)[n - k] == x / Pow256(k - 1) % 256
    decreases n
  {
    if k > 1 {
      BEByte(n - 1, x / 256, k - 1);
      var m := Pow256(k - 2);
      assert Pow256(k - 1) == 256 * m;
      assert x / 256 / m == x / (256 * m) by { DivDiv(x, 256, m); }
    }
  }

  lemma {:induction false} DivDiv(x: nat, a: nat, b: nat)
    requires a > 0 && b > 0
    ensures x / a / b == x / (a * b)
  {
    var q, r := x / a, x % a;
    var q2, r2 := q / b, q % b;
    assert x == a * q + r && q == b * q2 + r2;
    assert a * q == a * (b * q2) + a * r2 && a * (b * q2) == q2 * (a * b);
    MulLe(r2 + 1, b, a);
    assert a * r2 + r < a * b;
    DivUnique(x, a * b, q2, a * r2 + r);
  }

  // ---------------------------------------------------------------- the decoder

  /** The number of argument bytes an initial byte announces, if it is not reserved. */
  function InfoWidth(info: nat): nat {
    if info < 24 then 0 else if info == 24 then 1 else if info == 25 then 2 else if info == 26 then 4 else 8
  }

  /** A reader over a finite stream. */
  class Decoder {
    const data: seq<byte>
    var pos: nat

    ghost predicate Valid()
      reads this
    {
      pos <= |data|
    }

    constructor (data: seq<byte>)
      ensures Valid() && this.data == data && pos == 0
    {
      this.data, pos := data, 0;
    }

    /** cbor_read_head and cbor_dec_head: the argument is assembled byte by byte. */
    method DecHead() returns (ok: bool, major: nat, val: nat)
      requires Valid()
      modifies this
      ensures Valid() && (ok <==> ReadHead(data, old(pos)).Some?)
      ensures ok ==> ReadHead(data, old(pos)) == Some(HeadAt(major, val, pos))
    {
      if pos >= |data| {
        return false, 0, 0;
      }
      var ib := data[pos];
      pos := pos + 1;
      major := ib / 32;
      var info := ib % 32;
      if info < 24 {
        return true, major, info;
      }
      var w := InfoWidth(info);
      if info > 27 || pos + w > |data| {
        return false, 0, 0;
      }
      val := 0;
      ghost var from := pos;
      for k := 0 to w
        invariant pos == from && val == UnBE(data[from..from + k])
      {
        assert data[from..from + k + 1][..k] == data[from..from + k];
        val := 256 * val + data[pos + k];
      }
      pos := pos + w;
      return true, major, val;
    }

    /** cbor_read_uint. */
    method DecUint() returns (ok: bool, val: nat)
      requires Valid()
      modifies this
      ensures Valid() && (ok <==> ReadUint(data, old(pos)).Some?)
      ensures ok ==> ReadUint(data, old(pos)) == Some(HeadAt(0, val, pos))
    {
      hide ReadHead;
      var major;
      ok, major, val := DecHead();
      ok := ok && major == 0;
    }

    /** cbor_read_text into a buffer of cap bytes. */
    method DecText(cap: nat) returns (ok: bool, s: seq<byte>)
      requires Valid()
      modifies this
      ensures Valid() && (ok <==> ReadText(data, old(pos), cap).Some?)
      ensures ok ==> ReadText(data, old(pos), cap) == Some(TextAt(s, pos))
    {
      hide ReadHead;
      var major, n;
      ok, major, n := DecHead();
      if !ok || major != 3 || n >= cap || pos + n > |data| {
        return false, [];
      }
      s := data[pos..pos + n];
      pos := pos + n;
      return true, s;
    }

    /** cbor_skip. It terminates on every input, whatever counts the input declares, since every
        item takes at least a byte. */
    method SkipItem() returns (ok: bool)
      requires Valid()
      modifies this
      ensures Valid() && (ok <==> Skip(data, old(pos)).Some?)
      ensures ok ==> Skip(data, old(pos)) == Some(pos)
      decreases |data| - pos
    {
      hide ReadHead;
      var major, val;
      ok, major, val := DecHead();
      if !ok {
        return;
      }
      if major == 0 || major == 1 || major == 7 {
        return true;
      }
      if major == 2 || major == 3 {
        ghost var end := pos + val;
        while val > 0
          invariant 0 <= val && Valid() && pos + val == end
        {
          var chunk := if val < 256 then val else 256;
          if pos + chunk > |data| {
            return false;
          }
          pos, val := pos + chunk, val - chunk;
        }
        return true;
      }
      if major != 4 && major != 5 {
        return false;
      }
      ghost var from := pos;
      ghost var all := if major == 4 then val else 2 * val;
      for i := 0 to val
        invariant Valid() && from <= pos && i <= all
        invariant SkipMany(data, from, all) == SkipMany(data, pos, if major == 4 then all - i else all - 2 * i)
      {
        ok := SkipItem();
        if !ok {
          return;
        }
        if major == 5 {
          ok := SkipItem();
          if !ok {
            return;
          }
        }
      }
      return true;
    }
  }

  function ReadUint(b: seq<byte>, p: nat): (r: Option<HeadAt>)
    ensures r.Some? ==> p < r.value.next <= |b|
  {
    hide ReadHead;
    var h := ReadHead(b, p);
    if h.Some? && h.value.major == 0 then h else None
  }

  datatype TextAt = TextAt(text: seq<byte>, next: nat)

  function ReadText(b: seq<byte>, p: nat, cap: nat): (r: Option<TextAt>)
    ensures r.Some? ==> p < r.value.next <= |b|
  {
    hide ReadHead;
    var h := ReadHead(b, p);
    if h.Some? && h.value.major == 3 && h.value.val < cap && h.value.next + h.value.val <= |b| then
      Some(TextAt(b[h.value.next..h.value.next + h.value.val], h.value.next + h.value.val))
    else None
  }
}
