/** The block decoder with its fast loop: wide copies as long as the output is far from the end
    of the buffer. */
module Lz4FastDecode {
  import opened Bytes
  import opened Options
  import opened Lz4Format
  import opened Lz4Decompress

  const SAFEDISTANCE := 64

  // ---------------------------------------------------------------- wide copies

  /** LZ4_wildCopy32 of literals: twice sixteen bytes at a time, up to 31 past the end. */
  method WildCopy32In(dst: array<byte>, op: nat, src: seq<byte>, ip: nat, n: nat)
    requires op + n + 32 <= dst.Length && ip + n + 32 <= |src|
    modifies dst
    ensures dst[..op + n] == old(dst[..op]) + src[ip..ip + n]
  {
    ghost var before := dst[..op];
    Copy32In(dst, op, src, ip, 0, before);
    var k := 32;
    while k < n
      invariant 32 <= k <= n + 32 && dst[..op + k] == before + src[ip..ip + k]
    {
      Copy32In(dst, op, src, ip, k, before);
      k := k + 32;
    }
    Shorter(dst[..op + k], before, src[ip..ip + k], n);
    assert dst[..op + n] == dst[..op + k][..op + n] && src[ip..ip + n] == src[ip..ip + k][..n];
  }

  method Copy32In(dst: array<byte>, op: nat, src: seq<byte>, ip: nat, k: nat, ghost before: seq<byte>)
    requires op + k + 32 <= dst.Length && ip + k + 32 <= |src| && dst[..op + k] == before + src[ip..ip + k]
    modifies dst
    ensures dst[..op + (k + 32)] == before + src[ip..ip + (k + 32)]
  {
    CopyIn(dst, op + k, src, ip + k, 16);
    CopyIn(dst, op + k + 16, src, ip + k + 16, 16);
    assert src[ip..ip + (k + 32)] == src[ip..ip + k] + src[ip + k..ip + k + 16] + src[ip + k + 16..ip + k + 32];
  }

  /** LZ4_wildCopy32 within the buffer, from at least sixteen bytes back. */
  method WildCopy32Back(dst: array<byte>, op: nat, d: nat, end: nat, ghost text: seq<byte>)
    requires Holds(dst, text, op) && 16 <= d <= op && |text| == dst.Length
    requires op + 32 <= dst.Length && end + 31 <= dst.Length && Repeats(text, op, d, |text| - op)
    modifies dst
    ensures Holds(dst, text, end)
  {
    hide Holds; hide Repeats;
    var p := op;
    Copy32Back(dst, op, p, d, text);
    p := p + 32;
    while p < end
      invariant op + 32 <= p && Holds(dst, text, p)
    {
      Copy32Back(dst, op, p, d, text);
      p := p + 32;
    }
    HoldsLess(dst, text, p, end);
  }

  method Copy32Back(dst: array<byte>, op: nat, p: nat, d: nat, ghost text: seq<byte>)
    requires Holds(dst, text, p) && op <= p && 16 <= d <= op && p + 32 <= dst.Length == |text|
    requires Repeats(text, op, d, |text| - op)
    modifies dst
    ensures Holds(dst, text, p + 32)
  {
    hide Holds; hide Repeats;
    RepeatsLess(text, op, d, |text| - op, p, 16);
    RepeatsLess(text, op, d, |text| - op, p + 16, 16);
    CopyBack(dst, p, d, 16, text);
    CopyBack(dst, p + 16, d, 16, text);
  }

  /** The eight-byte pattern of a match whose offset divides eight. */
  method Pattern(dst: array<byte>, op: nat, offset: nat, ghost text: seq<byte>) returns (v: seq<byte>)
    requires offset in {1, 2, 4} && offset <= op && op + 8 <= dst.Length == |text| && Holds(dst, text, op)
    requires Repeats(text, op, offset, |text| - op)
    ensures v == text[op..op + 8]
  {
    var b := dst[op - offset..op];
    if offset == 1 {
      v := [b[0], b[0], b[0], b[0], b[0], b[0], b[0], b[0]];
    } else if offset == 2 {
      v := b + b;
      v := v + v;
    } else {
      v := b + b;
    }
    PatternIs(text, op, offset, b, v);
  }

  lemma {:induction false} PatternIs(text: seq<byte>, op: nat, offset: nat, b: seq<byte>, v: seq<byte>)
    requires offset in {1, 2, 4} && offset <= op && op + 8 <= |text| && Repeats(text, op, offset, |text| - op)
    requires b == text[op - offset..op] && |v| == 8 && forall i | 0 <= i < 8 :: v[i] == b[i % offset]
    ensures v == text[op..op + 8]
  {
    forall i | 0 <= i < 8 ensures v[i] == text[op + i] {
      PatternAt(text, op, offset, i);
    }
  }

  lemma {:induction false} PatternAt(text: seq<byte>, op: nat, offset: nat, i: nat)
    requires offset in {1, 2, 4} && offset <= op && i < 8 && op + 8 <= |text| && Repeats(text, op, offset, |text| - op)
    ensures text[op + i] == text[op - offset + i % offset]
  {
    var j := op + i - offset;
    assert text[op + i] == text[j];
    if i >= offset {
      PatternAt(text, op, offset, i - offset);
    }
  }

  method CopyEight(dst: array<byte>, p: nat, v: seq<byte>, ghost text: seq<byte>)
    requires |v| == 8 && p + 8 <= dst.Length == |text| && Holds(dst, text, p) && v == text[p..p + 8]
    modifies dst
    ensures Holds(dst, text, p + 8)
  {
    forall i | 0 <= i < 8 {
      dst[p + i] := v[i];
    }
    assert dst[..p] == old(dst[..p]);
    forall i | p <= i < p + 8 ensures dst[i] == text[i] { assert dst[i] == v[i - p]; }
  }

  /** The loop of LZ4_memcpy_using_offset that repeats a pattern. */
  method RepeatPattern(dst: array<byte>, op: nat, offset: nat, end: nat, ghost text: seq<byte>)
    requires offset in {1, 2, 4} && offset <= op && op + 8 <= dst.Length == |text| && end + 7 <= dst.Length
    requires Holds(dst, text, op)
    requires Repeats(text, op, offset, |text| - op)
    modifies dst
    ensures Holds(dst, text, end)
  {
    var v := Pattern(dst, op, offset, text);
    RepeatsTimes(text, op, offset, |text| - op, 8 / offset, 8, op + 8);
    hide Holds;
    CopyEight(dst, op, v, text);
    var p := op + 8;
    while p < end
      invariant op + 8 <= p && Holds(dst, text, p) && v == text[p - 8..p]
    {
      NextPattern(text, op + 8, p);
      CopyEight(dst, p, v, text);
      p := p + 8;
    }
    HoldsLess(dst, text, p, end);
  }

  lemma {:induction false} NextPattern(text: seq<byte>, q: nat, p: nat)
    requires q <= p && p + 8 <= |text| && Repeats(text, q, 8, |text| - q)
    ensures text[p..p + 8] == text[p - 8..p]
  {
    var a, b := text[p..p + 8], text[p - 8..p];
    forall i | 0 <= i < 8 ensures a[i] == b[i] {
      var j := p + i - 8;
      assert text[p + i] == text[j];
    }
  }

  /** LZ4_memcpy_using_offset. */
  method CopyUsingOffset(dst: array<byte>, op: nat, offset: nat, end: nat, ghost text: seq<byte>)
    requires offset <= op && op + 16 <= dst.Length == |text| && end + 7 <= dst.Length && Holds(dst, text, op)
    requires offset > 0 ==> Repeats(text, op, offset, |text| - op)
    requires offset == 0 ==> forall i | op <= i < |text| :: text[i] == 0
    modifies dst
    ensures Holds(dst, text, end)
  {
    hide Holds; hide Repeats;
    if offset == 1 || offset == 2 || offset == 4 {
      RepeatPattern(dst, op, offset, end, text);
    } else {
      var d := FirstEight(dst, op, offset, text);
      WildCopyBack(dst, op + 8, d, end, text);
    }
  }

  /** The match copy of the fast loop. */
  method FastMatch(dst: array<byte>, op: nat, offset: nat, length: nat)
    requires offset <= op && op + length + SAFEDISTANCE <= dst.Length
    modifies dst
    ensures dst[..op + length] == CopyMatch(old(dst[..op]), offset, length)
  {
    hide CopyMatch; hide Repeats; hide Holds;
    ghost var before := dst[..op];
    ghost var text := CopyMatch(before, offset, dst.Length - op);
    MatchStart(dst, op, offset, text);
    if offset < 16 {
      CopyUsingOffset(dst, op, offset, op + length, text);
    } else {
      WildCopy32Back(dst, op, offset, op + length, text);
    }
    MatchDone(dst, before, offset, length, text);
  }

  // ---------------------------------------------------------------- sequences

  /** A match that ends at least five bytes before the end of the buffer. */
  lemma {:induction false} MatchIs(src: seq<byte>, i: nat, nibble: nat, o: seq<byte>, cap: nat, short: bool,
                                   code: Length)
    requires i + 2 < |src| && nibble <= 15 && MatchCode(src, i + 2, nibble) == Some(code) && ReadLE16(src, i) <= |o|
    requires |o| + code.n + MINMATCH + LASTLITERALS <= cap
    ensures Match(src, i, nibble, o, cap, short) ==
      Some(Step(CopyMatch(o, ReadLE16(src, i), code.n + MINMATCH), code.next))
  {
    hide CopyMatch;
  }

  /** A match without a length, with an offset before the output, or too close to the end. */
  lemma {:induction false} MatchFails(src: seq<byte>, i: nat, nibble: nat, o: seq<byte>, cap: nat, short: bool)
    requires i + 2 < |src| && nibble <= 15
    requires
      var code := MatchCode(src, i + 2, nibble);
      code.None? || ReadLE16(src, i) > |o| || (!short && |o| + code.value.n + MINMATCH + LASTLITERALS > cap)
    ensures Match(src, i, nibble, o, cap, short).None?
  {
    hide CopyMatch;
  }

  /** Whether the fast loop copies the literals itself. */
  predicate FastLits(token: nat, ip: nat, ll: nat, op: nat, iend: nat, cap: nat) {
    if token == 15 then op + ll + 32 <= cap && ip + ll + 32 <= iend else ip + 17 <= iend
  }

  /** The literals of the fast loop are those of the format, under either set of limits. */
  lemma {:induction false} FastLitsAre(src: seq<byte>, ip: nat, ll: Length, out: seq<byte>, cap: nat)
    requires ip < |src| && LitLength(src, ip) == Some(ll) && |out| + SAFEDISTANCE <= cap
    requires FastLits(src[ip] / 16, ll.next, ll.n, |out|, |src|, cap)
    ensures ll.next + ll.n <= |src| && (src[ip] / 16 != 15 ==> ll.n < 15)
    ensures Literals(src, ll.next, ll.n, out, cap, Short(src[ip] / 16, ip + 1, |out|, |src|, cap)) ==
            LitMore(out + src[ll.next..ll.next + ll.n], ll.next + ll.n)
  {
  }

  lemma {:induction false} SlowLitsAre(src: seq<byte>, ip: nat, ll: Length, out: seq<byte>, cap: nat)
    requires ip < |src| && LitLength(src, ip) == Some(ll) && |out| + SAFEDISTANCE <= cap
    requires !FastLits(src[ip] / 16, ll.next, ll.n, |out|, |src|, cap)
    ensures !Short(src[ip] / 16, ip + 1, |out|, |src|, cap)
  {
  }

  method CopyLiterals(src: seq<byte>, dst: array<byte>, op: nat, ip: nat, ll: nat, token: nat)
    requires ip + ll <= |src| && op + SAFEDISTANCE <= dst.Length && FastLits(token, ip, ll, op, |src|, dst.Length)
    requires token != 15 ==> ll < 15
    modifies dst
    ensures op + ll <= dst.Length && dst[..op + ll] == old(dst[..op]) + src[ip..ip + ll]
  {
    if token == 15 {
      WildCopy32In(dst, op, src, ip, ll);
    } else {
      CopyIn(dst, op, src, ip, 16);
      assert dst[..op + ll] == dst[..op + 16][..op + ll] && src[ip..ip + ll] == src[ip..ip + 16][..ll];
    }
  }

  /** safe_literal_copy and what follows it: the rest of the sequence and the safe loop. */
  method FromLiterals(src: seq<byte>, dst: array<byte>, op: nat, ip: nat, ll: Length) returns (r: int)
    requires ip < |src| && LitLength(src, ip) == Some(ll) && op <= dst.Length
    requires !Short(src[ip] / 16, ip + 1, op, |src|, dst.Length)
    modifies dst
    ensures Returns(r, dst, DecodeFrom(src, ip, old(dst[..op]), dst.Length))
  {
    hide DecodeFrom; hide Match; hide Literals; hide LitLength;
    ghost var out := dst[..op];
    var more, ok := LiteralPass(src, dst, op, ll.next, ll.n, false);
    if !more {
      EndsInLiterals(src, ip, out, dst.Length, ll, false);
      return if ok then op + ll.n else -1;
    }
    ghost var out1 := dst[..op + ll.n];
    GoesOn(src, ip, out, dst.Length, ll, false, out1, ll.next + ll.n);
    var step := MatchPass(src, dst, op + ll.n, ll.next + ll.n, src[ip] % 16, false);
    if step.None? {
      return -1;
    }
    r := SafeLoop(src, dst, step.value.next, step.value.n);
  }

  /** safe_match_copy and what follows it. The literals were short or far from the end, so that
      the match either ends in time under both sets of limits or was not in the shortcut. */
  method FromMatch(src: seq<byte>, dst: array<byte>, op: nat, i: nat, nibble: nat, code: Length, ghost short: bool)
    returns (r: int)
    requires i + 2 < |src| && nibble <= 15 && MatchCode(src, i + 2, nibble) == Some(code) && op + MFLIMIT <= dst.Length
    requires short ==> op + 50 <= dst.Length
    modifies dst
    ensures Returns(r, dst, match Match(src, i, nibble, old(dst[..op]), dst.Length, short)
                            { case None => None case Some(step) => DecodeFrom(src, step.ip, step.out, dst.Length) })
  {
    hide DecodeFrom; hide Match; hide MatchCode; hide CopyMatch;
    ghost var o := dst[..op];
    var offset := ReadLE16(src, i);
    if offset > op {
      MatchFails(src, i, nibble, o, dst.Length, short);
      return -1;
    }
    var ok := CopyMatchInPlace(dst, op, offset, code.n + MINMATCH);
    if !ok {
      MatchTooLong(src, i, nibble, o, dst.Length, short, code);
      return -1;
    }
    MatchIs(src, i, nibble, o, dst.Length, short, code);
    CodeNext(src, i, nibble, code);
    r := SafeLoop(src, dst, code.next, op + code.n + MINMATCH);
  }

  lemma {:induction false} CodeNext(src: seq<byte>, i: nat, nibble: nat, code: Length)
    requires i + 2 < |src| && MatchCode(src, i + 2, nibble) == Some(code)
    ensures i < code.next < |src| && (nibble != 15 ==> code == Length(nibble, i + 2))
  {
  }

  /** In the shortcut a match that passes the end of the buffer has a long length. */
  lemma {:induction false} MatchTooLong(src: seq<byte>, i: nat, nibble: nat, o: seq<byte>, cap: nat, short: bool,
                                        code: Length)
    requires i + 2 < |src| && nibble <= 15 && MatchCode(src, i + 2, nibble) == Some(code)
    requires |o| + code.n + MINMATCH + LASTLITERALS > cap && (short ==> |o| + 50 <= cap)
    ensures Match(src, i, nibble, o, cap, short).None?
  {
    hide CopyMatch;
    CodeNext(src, i, nibble, code);
  }

  /** After the literals there is room for the widest copy of a match. */
  lemma {:induction false} ShortRoom(token: nat, ip: nat, out: seq<byte>, iend: nat, cap: nat, ll: nat, start: nat)
    requires |out| + SAFEDISTANCE <= cap && (token != 15 ==> ll < 15) && FastLits(token, start, ll, |out|, iend, cap)
    ensures |out| + ll + 32 <= cap && (Short(token, ip, |out|, iend, cap) ==> |out| + ll + 50 <= cap)
  {
  }

  /** The rest of the input after a match. */
  ghost function AfterMatch(src: seq<byte>, i: nat, nibble: nat, o: seq<byte>, cap: nat, short: bool): Option<seq<byte>>
    requires i + 2 < |src| && nibble <= 15
  {
    match Match(src, i, nibble, o, cap, short) case None => None
      case Some(step) => DecodeFrom(src, step.ip, step.out, cap)
  }

  /** The match of a sequence in the fast loop. done means that a safe part has taken over, or
      that the input is wrong. */
  method FastTail(src: seq<byte>, dst: array<byte>, op: nat, i: nat, nibble: nat, ghost short: bool)
    returns (done: bool, r: int, next: nat, written: nat)
    requires i + 2 < |src| && nibble <= 15 && op + 32 <= dst.Length && (short ==> op + 50 <= dst.Length)
    modifies dst
    ensures done ==> Returns(r, dst, AfterMatch(src, i, nibble, old(dst[..op]), dst.Length, short))
    ensures !done ==> i < next < |src| && written + SAFEDISTANCE <= dst.Length
    ensures !done ==>
      AfterMatch(src, i, nibble, old(dst[..op]), dst.Length, short) == DecodeFrom(src, next, dst[..written], dst.Length)
  {
    hide DecodeFrom; hide Match; hide MatchCode; hide CopyMatch; hide ReadLE16;
    ghost var o, cap := dst[..op], dst.Length;
    done, r, next, written := true, -1, 0, 0;
    var offset := ReadLE16(src, i);
    var code := ReadMatchCode(src, i + 2, nibble);
    if code.None? {
      MatchFails(src, i, nibble, o, cap, short);
      return;
    }
    var length := code.value.n + MINMATCH;
    CodeNext(src, i, nibble, code.value);
    if op + length + SAFEDISTANCE >= dst.Length {
      r := FromMatch(src, dst, op, i, nibble, code.value, short);
      return;
    }
    if nibble != 15 && offset <= op && offset >= 8 {
      CopyEighteen(dst, op, offset, length);
    } else {
      if offset > op {
        MatchFails(src, i, nibble, o, cap, short);
        return;
      }
      FastMatch(dst, op, offset, length);
    }
    MatchIs(src, i, nibble, o, cap, short, code.value);
    done, written, next := false, op + length, code.value.next;
  }

  /** LZ4_decompress_safe with the fast loop. It accepts the same inputs as the safe loop alone
      and gives the same bytes, and all its accesses stay inside the input and the buffer. */
  method DecompressFast(src: seq<byte>, dst: array<byte>) returns (r: int)
    modifies dst
    ensures r >= 0 <==> Decode(src, dst.Length).Some?
    ensures r >= 0 ==> r <= dst.Length && Decode(src, dst.Length) == Some(dst[..r])
  {
    hide DecodeFrom; hide Match; hide Literals; hide LitLength; hide FastLits; hide Short;
    if dst.Length == 0 {
      return if |src| == 1 && src[0] == 0 then 0 else -1;
    }
    if |src| == 0 {
      return -1;
    }
    assert dst[..0] == [];
    if dst.Length < SAFEDISTANCE {
      r := SafeLoop(src, dst, 0, 0);
      return;
    }
    var ip: nat, op: nat := 0, 0;
    while true
      invariant ip < |src| && op + SAFEDISTANCE <= dst.Length
      invariant Decode(src, dst.Length) == DecodeFrom(src, ip, dst[..op], dst.Length)
      decreases |src| - ip
    {
      hide Decode;
      ghost var out, cap := dst[..op], dst.Length;
      var token := src[ip] / 16;
      ghost var short := Short(token, ip + 1, op, |src|, cap);
      var len := Lz4Decompress.ReadLitLength(src, ip);
      if len.None? {
        FailsAtLength(src, ip, out, cap);
        return -1;
      }
      var ll := len.value;
      if !FastLits(token, ll.next, ll.n, op, |src|, dst.Length) {
        SlowLitsAre(src, ip, ll, out, cap);
        r := FromLiterals(src, dst, op, ip, ll);
        return;
      }
      FastLitsAre(src, ip, ll, out, cap);
      ShortRoom(token, ip + 1, out, |src|, cap, ll.n, ll.next);
      CopyLiterals(src, dst, op, ll.next, ll.n, token);
      var i := ll.next + ll.n;
      GoesOn(src, ip, out, cap, ll, short, dst[..op + ll.n], i);
      var done;
      done, r, ip, op := FastTail(src, dst, op + ll.n, i, src[ip] % 16, short);
      if done {
        return;
      }
    }
  }
}
