/** The block decoder, working in place on its output buffer. */
module Lz4Decompress {
  import opened Bytes
  import opened Options
  import opened Lz4Format

  // ---------------------------------------------------------------- periods

  /** Bytes that repeat at some distance also repeat at its multiples. */
  lemma {:induction false} RepeatsTimes(x: seq<byte>, q: nat, offset: nat, n: nat, k: nat, d: nat, from: nat)
    requires Repeats(x, q, offset, n) && 0 < offset <= q && q + n <= |x|
    requires 0 < k && d == k * offset && q <= from <= q + n && d <= from && from - d >= q - offset
    ensures Repeats(x, from, d, q + n - from)
    decreases k
  {
    if k > 1 {
      assert d - offset == (k - 1) * offset;
      RepeatsTimes(x, q, offset, n, k - 1, d - offset, from);
      forall i, j | from <= i < q + n && j == i - d
        ensures x[i] == x[j]
      {
        var m := i - (d - offset);
        assert x[i] == x[m] && m - offset == j;
      }
    }
  }

  /** A match copied byte by byte repeats at its offset; at offset zero it is all zeros. */
  lemma {:induction false} CopyMatchRepeats(out: seq<byte>, offset: nat, n: nat)
    requires offset <= |out|
    ensures offset > 0 ==> Repeats(CopyMatch(out, offset, n), |out|, offset, n)
    ensures offset == 0 ==> forall i | |out| <= i < |out| + n :: CopyMatch(out, offset, n)[i] == 0
    decreases n
  {
    if n > 0 {
      var next := out + [if offset == 0 then 0 else out[|out| - offset]];
      CopyMatchRepeats(next, offset, n - 1);
      var r := CopyMatch(next, offset, n - 1);
      assert r[|out|] == next[|out|];
      if offset > 0 {
        assert r[|out| - offset] == next[|out| - offset];
      }
    }
  }

  /** A shorter match copies a prefix of a longer one. */
  lemma {:induction false} CopyMatchPrefix(out: seq<byte>, offset: nat, n: nat, m: nat)
    requires offset <= |out| && n <= m
    ensures CopyMatch(out, offset, n) == CopyMatch(out, offset, m)[..|out| + n]
    decreases n
  {
    if n > 0 {
      CopyMatchPrefix(out + [if offset == 0 then 0 else out[|out| - offset]], offset, n - 1, m - 1);
    } else {
      assert out <= CopyMatch(out, offset, m);
    }
  }

  // ---------------------------------------------------------------- copying

  /** The buffer holds the first n bytes of the text. */
  ghost predicate Holds(dst: array<byte>, text: seq<byte>, n: nat)
    reads dst
  {
    n <= dst.Length && n <= |text| && dst[..n] == text[..n]
  }

  /** memcpy within the buffer, on ranges that do not overlap: one period of a repeating text. */
  method CopyBack(dst: array<byte>, op: nat, d: nat, n: nat, ghost text: seq<byte>)
    requires Holds(dst, text, op) && n <= d <= op && op + n <= dst.Length && op + n <= |text|
    requires Repeats(text, op, d, n)
    modifies dst
    ensures Holds(dst, text, op + n)
  {
    forall i | 0 <= i < n {
      dst[op + i] := dst[op - d + i];
    }
    forall p | op <= p < op + n
      ensures dst[p] == text[p]
    {
      assert dst[p] == old(dst[..op])[p - d] && text[p] == text[p - d];
    }
    assert dst[..op] == old(dst[..op]);
  }

  /** LZ4_wildCopy8 from d bytes back: strides of eight until the end is reached, which may
      overwrite up to seven bytes past it. */
  method WildCopyBack(dst: array<byte>, op: nat, d: nat, end: nat, ghost text: seq<byte>)
    requires Holds(dst, text, op) && 8 <= d <= op && |text| == dst.Length
    requires op + 8 <= dst.Length && end + 7 <= dst.Length
    requires Repeats(text, op, d, |text| - op)
    modifies dst
    ensures Holds(dst, text, end)
  {
    var p := op;
    CopyBack(dst, p, d, 8, text);
    p := p + 8;
    while p < end
      invariant op + 8 <= p && Holds(dst, text, p)
    {
      CopyBack(dst, p, d, 8, text);
      p := p + 8;
    }
    assert text[..p][..end] == text[..end] && dst[..p][..end] == dst[..end];
  }

  /** memcpy of n literals into the buffer. */
  method CopyIn(dst: array<byte>, op: nat, src: seq<byte>, ip: nat, n: nat)
    requires op + n <= dst.Length && ip + n <= |src|
    modifies dst
    ensures dst[..op + n] == old(dst[..op]) + src[ip..ip + n]
  {
    forall i | 0 <= i < n {
      dst[op + i] := src[ip + i];
    }
  }

  lemma {:induction false} Shorter(x: seq<byte>, a: seq<byte>, b: seq<byte>, n: nat)
    requires x == a + b && n <= |b|
    ensures x[..|a| + n] == a + b[..n]
  {}

  /** LZ4_wildCopy8 of literals. Its strides stay inside the input and the buffer because both
      end at least eight bytes later. */
  method WildCopyIn(dst: array<byte>, op: nat, src: seq<byte>, ip: nat, n: nat)
    requires op + n + 8 <= dst.Length && ip + n + 8 <= |src|
    modifies dst
    ensures dst[..op + n] == old(dst[..op]) + src[ip..ip + n]
  {
    CopyIn(dst, op, src, ip, 8);
    var k := 8;
    while k < n
      invariant 8 <= k <= n + 8 && dst[..op + k] == old(dst[..op]) + src[ip..ip + k]
    {
      CopyIn(dst, op + k, src, ip + k, 8);
      assert src[ip..ip + k + 8] == src[ip..ip + k] + src[ip + k..ip + k + 8];
      k := k + 8;
    }
    Shorter(dst[..op + k], old(dst[..op]), src[ip..ip + k], n);
    assert dst[..op + n] == dst[..op + k][..op + n] && src[ip..ip + n] == src[ip..ip + k][..n];
  }

  // ---------------------------------------------------------------- matches

  const INC32: seq<nat> := [0, 1, 2, 1, 0, 4, 4, 4]
  const DEC64: seq<int> := [0, 0, 0, -1, -4, 1, 2, 3]

  /** How far back the second four bytes, and everything after the first eight, are copied
      from when the offset is below eight. */
  function Back4(offset: nat): nat
    requires offset < 8
  {
    4 + offset - INC32[offset]
  }

  function Back8(offset: nat): nat
    requires offset < 8
  {
    8 + offset - INC32[offset] + DEC64[offset]
  }

  /** The two tables turn a short offset into distances that are multiples of it, wide enough
      for copies of four and of eight bytes at a time. */
  lemma {:induction false} Widened(text: seq<byte>, op: nat, offset: nat)
    requires offset < 8 && offset <= op && op + 8 <= |text|
    requires offset > 0 ==> Repeats(text, op, offset, |text| - op)
    requires offset == 0 ==> forall i | op <= i < |text| :: text[i] == 0
    ensures 4 <= Back4(offset) <= op + 4 && Repeats(text, op + 4, Back4(offset), 4)
    ensures 8 <= Back8(offset) <= op + 8 && Repeats(text, op + 8, Back8(offset), |text| - op - 8)
  {
    if offset > 0 {
      var times4 := [0, 4, 2, 2, 2, 1, 1, 1][offset];
      var times8 := [0, 8, 4, 3, 2, 2, 2, 2][offset];
      RepeatsTimes(text, op, offset, |text| - op, times4, Back4(offset), op + 4);
      RepeatsTimes(text, op, offset, |text| - op, times8, Back8(offset), op + 8);
    }
  }

  method CopyByte(dst: array<byte>, op: nat, offset: nat, ghost text: seq<byte>)
    requires offset <= op < dst.Length && Holds(dst, text, op) && op < |text|
    requires if offset == 0 then dst[op] == text[op] else text[op] == text[op - offset]
    modifies dst
    ensures Holds(dst, text, op + 1) && forall i | op < i < dst.Length :: dst[i] == old(dst[i])
  {
    dst[op] := dst[op - offset];
    assert dst[..op] == old(dst[..op]);
  }

  /** The first four bytes of an overlapping match. The zeros are what a zero offset copies. */
  method FirstFour(dst: array<byte>, op: nat, offset: nat, ghost text: seq<byte>)
    requires offset <= op && op + 4 <= dst.Length && op + 4 <= |text| && Holds(dst, text, op)
    requires if offset == 0 then forall i | op <= i < op + 4 :: text[i] == 0 else Repeats(text, op, offset, 4)
    modifies dst
    ensures Holds(dst, text, op + 4)
  {
    dst[op], dst[op + 1], dst[op + 2], dst[op + 3] := 0, 0, 0, 0;
    assert dst[..op] == old(dst[..op]);
    CopyByte(dst, op, offset, text);
    CopyByte(dst, op + 1, offset, text);
    CopyByte(dst, op + 2, offset, text);
    CopyByte(dst, op + 3, offset, text);
  }

  lemma {:induction false} RepeatsLess(x: seq<byte>, q: nat, offset: nat, n: nat, from: nat, m: nat)
    requires Repeats(x, q, offset, n) && q <= from && from + m <= q + n
    ensures Repeats(x, from, offset, m)
  {}

  lemma {:induction false} HoldsLess(dst: array<byte>, text: seq<byte>, n: nat, m: nat)
    requires Holds(dst, text, n) && m <= n
    ensures Holds(dst, text, m)
  {
    assert dst[..m] == dst[..n][..m] && text[..m] == text[..n][..m];
  }

  /** The first eight bytes of a match, and the distance from which the rest can be copied in
      strides. An overlapping match is spread byte by byte, then by the tables. */
  method FirstEight(dst: array<byte>, op: nat, offset: nat, ghost text: seq<byte>) returns (d: nat)
    requires offset <= op && op + 8 <= dst.Length && |text| == dst.Length && Holds(dst, text, op)
    requires offset > 0 ==> Repeats(text, op, offset, |text| - op)
    requires offset == 0 ==> forall i | op <= i < |text| :: text[i] == 0
    modifies dst
    ensures Holds(dst, text, op + 8) && 8 <= d <= op + 8
    ensures Repeats(text, op + 8, d, |text| - op - 8)
  {
    hide Holds;
    if offset < 8 {
      Widened(text, op, offset);
      hide Repeats;
      if offset > 0 {
        RepeatsLess(text, op, offset, |text| - op, op, 4);
      }
      FirstFour(dst, op, offset, text);
      CopyBack(dst, op + 4, Back4(offset), 4, text);
      d := Back8(offset);
    } else {
      hide Repeats;
      RepeatsLess(text, op, offset, |text| - op, op, 8);
      RepeatsLess(text, op, offset, |text| - op, op + 8, |text| - op - 8);
      CopyBack(dst, op, offset, 8, text);
      d := offset;
    }
  }

  /** The rest of a match that ends close to the end of the buffer: strides up to seven bytes
      before the end, then single bytes. */
  method CopyNearEnd(dst: array<byte>, op: nat, d: nat, end: nat, ghost text: seq<byte>)
    requires Holds(dst, text, op) && 8 <= d <= op <= dst.Length && |text| == dst.Length
    requires end <= dst.Length && 7 <= dst.Length && Repeats(text, op, d, |text| - op)
    modifies dst
    ensures Holds(dst, text, end)
  {
    hide Holds; hide Repeats;
    var limit := dst.Length - 7;
    var p := op;
    if p < limit {
      WildCopyBack(dst, p, d, limit, text);
      p := limit;
    }
    while p < end
      invariant op <= p <= dst.Length && Holds(dst, text, p)
    {
      RepeatsLess(text, op, d, |text| - op, p, 1);
      CopyBack(dst, p, d, 1, text);
      p := p + 1;
    }
    HoldsLess(dst, text, p, end);
  }

  /** The rest of a match that ends far from the end of the buffer. */
  method CopyFarFromEnd(dst: array<byte>, op: nat, d: nat, end: nat, ghost text: seq<byte>)
    requires Holds(dst, text, op) && 8 <= d <= op <= dst.Length && |text| == dst.Length
    requires op + 8 <= dst.Length && end + 12 <= dst.Length && Repeats(text, op, d, |text| - op)
    modifies dst
    ensures Holds(dst, text, end)
  {
    hide Holds; hide Repeats;
    RepeatsLess(text, op, d, |text| - op, op, 8);
    CopyBack(dst, op, d, 8, text);
    if end > op + 8 {
      RepeatsLess(text, op, d, |text| - op, op + 8, |text| - op - 8);
      WildCopyBack(dst, op + 8, d, end, text);
    } else {
      HoldsLess(dst, text, op + 8, end);
    }
  }

  /** What a match may write: the byte-at-a-time copy, continued to the end of the buffer. */
  lemma {:induction false} MatchStart(dst: array<byte>, op: nat, offset: nat, text: seq<byte>)
    requires offset <= op <= dst.Length && text == CopyMatch(dst[..op], offset, dst.Length - op)
    ensures |text| == dst.Length && Holds(dst, text, op)
    ensures offset > 0 ==> Repeats(text, op, offset, |text| - op)
    ensures offset == 0 ==> forall i | op <= i < |text| :: text[i] == 0
  {
    CopyMatchRepeats(dst[..op], offset, dst.Length - op);
    hide CopyMatch; hide Repeats;
  }

  lemma {:induction false} MatchDone(dst: array<byte>, before: seq<byte>, offset: nat, length: nat, text: seq<byte>)
    requires offset <= |before| && |before| + length <= dst.Length
    requires text == CopyMatch(before, offset, dst.Length - |before|) && Holds(dst, text, |before| + length)
    ensures dst[..|before| + length] == CopyMatch(before, offset, length)
  {
    CopyMatchPrefix(before, offset, length, dst.Length - |before|);
    hide CopyMatch;
  }

  /** The match copy of the safe loop. It fails exactly when the match would reach into the
      last five bytes; otherwise the strides produce the byte-at-a-time copy. */
  method CopyMatchInPlace(dst: array<byte>, op: nat, offset: nat, length: nat) returns (ok: bool)
    requires offset <= op && op + MFLIMIT <= dst.Length && length >= MINMATCH
    modifies dst
    ensures ok <==> op + length + LASTLITERALS <= dst.Length
    ensures ok ==> dst[..op + length] == CopyMatch(old(dst[..op]), offset, length)
  {
    hide CopyMatch; hide Repeats; hide Holds;
    ghost var before := dst[..op];
    ghost var text := CopyMatch(before, offset, dst.Length - op);
    MatchStart(dst, op, offset, text);
    var d := FirstEight(dst, op, offset, text);
    var end := op + length;
    if end + 12 > dst.Length {
      if end + LASTLITERALS > dst.Length {
        return false;
      }
      CopyNearEnd(dst, op + 8, d, end, text);
    } else {
      CopyFarFromEnd(dst, op + 8, d, end, text);
    }
    MatchDone(dst, before, offset, length, text);
    return true;
  }

  // ---------------------------------------------------------------- the decoder

  /** read_variable_length. Every byte it looks at lies inside the input. */
  method ReadVariable(src: seq<byte>, ip: nat, limit: int, initialCheck: bool) returns (r: Option<Length>)
    requires ip <= |src| && limit < |src| && (!initialCheck ==> ip < |src|)
    ensures r == if initialCheck && ip >= limit then None else ReadVar(src, ip, limit)
  {
    if initialCheck && ip >= limit {
      return None;
    }
    var p := ip;
    var length: nat := 0;
    while true
      invariant ip <= p < |src| && (p > ip ==> p <= limit)
      invariant ReadVar(src, ip, limit) == Plus(length, ReadVar(src, p, limit))
      decreases |src| - p
    {
      var s := src[p];
      p := p + 1;
      if p > limit {
        return None;
      }
      length := length + s;
      if s != 255 {
        return Some(Length(length, p));
      }
    }
  }

  function Plus(n: nat, r: Option<Length>): Option<Length> {
    if r.None? then None else Some(Length(n + r.value.n, r.value.next))
  }

  method ReadMatchCode(src: seq<byte>, ip: nat, nibble: nat) returns (r: Option<Length>)
    requires ip < |src|
    ensures r == MatchCode(src, ip, nibble)
  {
    if nibble != 15 {
      return Some(Length(nibble, ip));
    }
    var more := ReadVariable(src, ip, |src| - LASTLITERALS + 1, false);
    return Plus(15, more);
  }

  method ReadLitLength(src: seq<byte>, ip: nat) returns (r: Option<Length>)
    requires ip < |src|
    ensures r == LitLength(src, ip)
  {
    if src[ip] / 16 != 15 {
      return Some(Length(src[ip] / 16, ip + 1));
    }
    var more := ReadVariable(src, ip + 1, |src| - 15, true);
    return Plus(15, more);
  }

  /** The match of a sequence, from its offset on. */
  method MatchPass(src: seq<byte>, dst: array<byte>, op: nat, ip: nat, nibble: nat, short: bool)
    returns (r: Option<Length>)
    requires ip + 2 < |src| && nibble <= 15
    requires op + (if short then 18 else MFLIMIT) <= dst.Length
    modifies dst
    ensures r.None? <==> Match(src, ip, nibble, old(dst[..op]), dst.Length, short).None?
    ensures r.Some? ==> r.value.n <= dst.Length
    ensures r.Some? ==>
      Match(src, ip, nibble, old(dst[..op]), dst.Length, short) == Some(Step(dst[..r.value.n], r.value.next))
  {
    hide CopyMatch; hide MatchCode;
    var offset := ReadLE16(src, ip);
    if short && nibble != 15 && offset >= 8 && offset <= op {
      CopyEighteen(dst, op, offset, nibble + MINMATCH);
      return Some(Length(op + nibble + MINMATCH, ip + 2));
    }
    var code := ReadMatchCode(src, ip + 2, nibble);
    if code.None? || offset > op {
      return None;
    }
    var ok := CopyMatchInPlace(dst, op, offset, code.value.n + MINMATCH);
    if !ok {
      return None;
    }
    return Some(Length(op + code.value.n + MINMATCH, code.value.next));
  }

  /** The shortcut's match: 8, 8 and 2 bytes from at least eight back, whatever the length. */
  method CopyEighteen(dst: array<byte>, op: nat, offset: nat, length: nat)
    requires 8 <= offset <= op && op + 18 <= dst.Length && length <= 18
    modifies dst
    ensures dst[..op + length] == CopyMatch(old(dst[..op]), offset, length)
  {
    hide CopyMatch; hide Repeats; hide Holds;
    ghost var before := dst[..op];
    ghost var text := CopyMatch(before, offset, dst.Length - op);
    MatchStart(dst, op, offset, text);
    RepeatsLess(text, op, offset, |text| - op, op, 8);
    RepeatsLess(text, op, offset, |text| - op, op + 8, 8);
    RepeatsLess(text, op, offset, |text| - op, op + 16, 2);
    CopyBack(dst, op, offset, 8, text);
    CopyBack(dst, op + 8, offset, 8, text);
    CopyBack(dst, op + 16, offset, 2, text);
    HoldsLess(dst, text, op + 18, op + length);
    MatchDone(dst, before, offset, length, text);
  }

  /** The literals of a sequence. The shortcut copies sixteen bytes, whatever their number. */
  method LiteralPass(src: seq<byte>, dst: array<byte>, op: nat, ip: nat, ll: nat, short: bool)
    returns (more: bool, ok: bool)
    requires op <= dst.Length && ip <= |src| && (short ==> ll < 15 && ip + 16 < |src| && op + 32 <= dst.Length)
    modifies dst
    ensures ok <==> !Literals(src, ip, ll, old(dst[..op]), dst.Length, short).LitError?
    ensures more <==> Literals(src, ip, ll, old(dst[..op]), dst.Length, short).LitMore?
    ensures ok ==>
      op + ll <= dst.Length && Literals(src, ip, ll, old(dst[..op]), dst.Length, short).out == dst[..op + ll]
  {
    if short {
      CopyIn(dst, op, src, ip, 16);
      assert dst[..op + ll] == dst[..op + 16][..op + ll] && src[ip..ip + ll] == src[ip..ip + 16][..ll];
      return true, true;
    }
    if op + ll + MFLIMIT > dst.Length || ip + ll + 8 > |src| {
      if ip + ll != |src| || op + ll > dst.Length {
        return false, false;
      }
      CopyIn(dst, op, src, ip, ll);
      return false, true;
    }
    WildCopyIn(dst, op, src, ip, ll);
    return true, true;
  }

  /** What a decoder returns: the number of bytes decoded, or a negative number. */
  ghost predicate Returns(r: int, dst: array<byte>, spec: Option<seq<byte>>)
    reads dst
  {
    (r >= 0 <==> spec.Some?) && (r >= 0 ==> r <= dst.Length && spec == Some(dst[..r]))
  }

  /** The safe loop of LZ4_decompress_generic, from some point of the input on. */
  method SafeLoop(src: seq<byte>, dst: array<byte>, start: nat, written: nat) returns (r: int)
    requires start < |src| && written <= dst.Length
    modifies dst
    ensures Returns(r, dst, DecodeFrom(src, start, old(dst[..written]), dst.Length))
  {
    hide DecodeFrom; hide Match; hide Literals; hide LitLength;
    ghost var spec := DecodeFrom(src, start, dst[..written], dst.Length);
    var ip: nat, op: nat := start, written;
    while true
      invariant op <= dst.Length && ip < |src|
      invariant spec == DecodeFrom(src, ip, dst[..op], dst.Length)
      decreases |src| - ip
    {
      ghost var out := dst[..op];
      var short := Short(src[ip] / 16, ip + 1, op, |src|, dst.Length);
      var ll := ReadLitLength(src, ip);
      if ll.None? {
        FailsAtLength(src, ip, out, dst.Length);
        return -1;
      }
      var more, ok := LiteralPass(src, dst, op, ll.value.next, ll.value.n, short);
      ghost var out1 := if ok then dst[..op + ll.value.n] else out;
      if !more {
        EndsInLiterals(src, ip, out, dst.Length, ll.value, short);
        return if ok then op + ll.value.n else -1;
      }
      var i := ll.value.next + ll.value.n;
      var step := MatchPass(src, dst, op + ll.value.n, i, src[ip] % 16, short);
      GoesOn(src, ip, out, dst.Length, ll.value, short, out1, i);
      if step.None? {
        return -1;
      }
      op, ip := step.value.n, step.value.next;
    }
  }

  /** LZ4_decompress_safe with a full block and no dictionary, without the fast loop. For every
      input, well formed or not, each access stays inside the input and the buffer, and the
      result is the one the format's byte-at-a-time reading gives. */
  method Decompress(src: seq<byte>, dst: array<byte>) returns (r: int)
    modifies dst
    ensures r >= 0 <==> Decode(src, dst.Length).Some?
    ensures r >= 0 ==> r <= dst.Length && Decode(src, dst.Length) == Some(dst[..r])
  {
    hide DecodeFrom;
    if dst.Length == 0 {
      return if |src| == 1 && src[0] == 0 then 0 else -1;
    }
    if |src| == 0 {
      return -1;
    }
    assert dst[..0] == [];
    r := SafeLoop(src, dst, 0, 0);
  }

  lemma {:induction false} FailsAtLength(src: seq<byte>, ip: nat, out: seq<byte>, cap: nat)
    requires ip < |src| && LitLength(src, ip).None?
    ensures DecodeFrom(src, ip, out, cap).None?
  {}

  lemma {:induction false} EndsInLiterals(src: seq<byte>, ip: nat, out: seq<byte>, cap: nat, ll: Length, short: bool)
    requires ip < |src| && LitLength(src, ip) == Some(ll)
    requires short == Short(src[ip] / 16, ip + 1, |out|, |src|, cap)
    requires !Literals(src, ll.next, ll.n, out, cap, short).LitMore?
    ensures DecodeFrom(src, ip, out, cap) ==
      match Literals(src, ll.next, ll.n, out, cap, short) { case LitLast(o) => Some(o) case _ => None }
  {}

  lemma {:induction false} GoesOn(src: seq<byte>, ip: nat, out: seq<byte>, cap: nat, ll: Length, short: bool,
                                  o: seq<byte>, i: nat)
    requires ip < |src| && LitLength(src, ip) == Some(ll)
    requires short == Short(src[ip] / 16, ip + 1, |out|, |src|, cap)
    requires Literals(src, ll.next, ll.n, out, cap, short) == LitMore(o, i)
    ensures i + 2 < |src| && DecodeFrom(src, ip, out, cap) ==
      match Match(src, i, src[ip] % 16, o, cap, short) { case None => None
        case Some(step) => DecodeFrom(src, step.ip, step.out, cap) }
  {}
}
