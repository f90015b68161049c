/** The LZ4 block format: how sequences are written, and what the safe decoder accepts. */
module Lz4Format {
  import opened Bytes
  import opened Options

  const MINMATCH := 4
  const LASTLITERALS := 5
  const MFLIMIT := 12
  const MAXDISTANCE := 65535

  /** One sequence: literals, then a match of ml bytes at distance offset. */
  datatype Sequence = Sequence(lits: seq<byte>, offset: nat, ml: nat)

  // ---------------------------------------------------------------- writing

  /** A length beyond the token: 255s, then the remainder. */
  function Ext(m: nat): seq<byte> {
    if m < 255 then [m as byte] else [255] + Ext(m - 255)
  }

  function Nibble(x: nat): nat { if x < 15 then x else 15 }

  function LitHead(ll: nat, code: nat): seq<byte> {
    [(Nibble(ll) * 16 + Nibble(code)) as byte] + if ll < 15 then [] else Ext(ll - 15)
  }

  function LE16(x: nat): seq<byte> { [(x % 256) as byte, (x / 256 % 256) as byte] }

  function MatchTail(offset: nat, code: nat): seq<byte> {
    LE16(offset) + if code < 15 then [] else Ext(code - 15)
  }

  function EncodeSequence(s: Sequence): seq<byte>
    requires s.ml >= MINMATCH
  {
    LitHead(|s.lits|, s.ml - MINMATCH) + s.lits + MatchTail(s.offset, s.ml - MINMATCH)
  }

  function EncodeLast(lits: seq<byte>): seq<byte> { LitHead(|lits|, 0) + lits }

  function Encode(ss: seq<Sequence>, last: seq<byte>): seq<byte>
    requires forall i | 0 <= i < |ss| :: ss[i].ml >= MINMATCH
  {
    if ss == [] then EncodeLast(last) else EncodeSequence(ss[0]) + Encode(ss[1..], last)
  }

  // ---------------------------------------------------------------- reading

  /** A length that has been read, and the input position after it. */
  datatype Length = Length(n: nat, next: nat)

  /** The output after a match, and the input position after it. */
  datatype Step = Step(out: seq<byte>, ip: nat)

  /** read_variable_length, once the initial check has passed. */
  function ReadVar(src: seq<byte>, ip: nat, limit: int): (r: Option<Length>)
    requires ip < |src| && limit < |src|
    ensures r.Some? ==> ip < r.value.next <= limit
    decreases |src| - ip
  {
    if ip + 1 > limit then None
    else if src[ip] != 255 then Some(Length(src[ip], ip + 1))
    else
      match ReadVar(src, ip + 1, limit)
      case None => None
      case Some(l) => Some(Length(255 + l.n, l.next))
  }

  /** n more bytes, each copied from offset bytes back; a zero offset yields zeros. */
  function CopyMatch(out: seq<byte>, offset: nat, n: nat): (r: seq<byte>)
    requires offset <= |out|
    ensures |r| == |out| + n && out <= r
    decreases n
  {
    if n == 0 then out
    else CopyMatch(out + [if offset == 0 then 0 else out[|out| - offset]], offset, n - 1)
  }

  function ReadLE16(src: seq<byte>, ip: nat): nat
    requires ip + 2 <= |src|
  {
    src[ip] as int + 256 * (src[ip + 1] as int)
  }

  /** Whether the decoder takes its shortcut: short literals, far from both ends. */
  predicate Short(ll: nat, ip: nat, op: nat, iend: nat, cap: nat) {
    ll != 15 && ip + 16 < iend && op + 32 <= cap
  }

  datatype LitStep = LitError | LitLast(out: seq<byte>) | LitMore(out: seq<byte>, ip: nat)

  /** The literals of a sequence whose literal length ll has been read; ip is at the first
      literal. Past either parsing limit they must be the last ones. */
  function Literals(src: seq<byte>, ip: nat, ll: nat, out: seq<byte>, cap: nat, short: bool): (r: LitStep)
    requires ip <= |src| && (short ==> ll < 15 && ip + 16 < |src|)
    ensures r.LitMore? ==> r.ip == ip + ll && r.ip + 2 < |src| && r.out == out + src[ip..ip + ll]
    ensures r.LitMore? && !short ==> r.ip + 8 <= |src| && |r.out| + MFLIMIT <= cap
  {
    if !short && (|out| + ll + MFLIMIT > cap || ip + ll + 8 > |src|) then
      if ip + ll != |src| || |out| + ll > cap then LitError else LitLast(out + src[ip..ip + ll])
    else LitMore(out + src[ip..ip + ll], ip + ll)
  }

  /** The match length code: the nibble, plus the bytes at ip if it is 15. */
  function MatchCode(src: seq<byte>, ip: nat, nibble: nat): (r: Option<Length>)
    requires ip < |src|
    ensures r.Some? ==> ip <= r.value.next < |src|
  {
    if nibble != 15 then Some(Length(nibble, ip))
    else
      match ReadVar(src, ip, |src| - LASTLITERALS + 1)
      case None => None
      case Some(l) => Some(Length(15 + l.n, l.next))
  }

  /** The match of a sequence: offset at ip, nibble from the token. Inside the shortcut a
      short far match needs no check against the end of the output. */
  function Match(src: seq<byte>, ip: nat, nibble: nat, out: seq<byte>, cap: nat, short: bool): (r: Option<Step>)
    requires ip + 2 < |src| && nibble <= 15
    ensures r.Some? ==> ip < r.value.ip < |src|
  {
    var offset := ReadLE16(src, ip);
    if short && nibble != 15 && offset >= 8 && offset <= |out| then
      Some(Step(CopyMatch(out, offset, nibble + MINMATCH), ip + 2))
    else
      var len := MatchCode(src, ip + 2, nibble);
      if len.None? then None
      else
        var ml := len.value.n + MINMATCH;
        if offset > |out| || |out| + ml + LASTLITERALS > cap then None
        else Some(Step(CopyMatch(out, offset, ml), len.value.next))
  }

  /** The literal length of the sequence whose token is at ip, and where its literals start. */
  function LitLength(src: seq<byte>, ip: nat): (r: Option<Length>)
    requires ip < |src|
    ensures r.Some? ==> ip < r.value.next <= |src|
    ensures r.Some? && src[ip] / 16 != 15 ==> r.value == Length(src[ip] / 16, ip + 1)
  {
    if src[ip] / 16 != 15 then Some(Length(src[ip] / 16, ip + 1))
    else if ip + 1 + 15 >= |src| then None
    else
      match ReadVar(src, ip + 1, |src| - 15)
      case None => None
      case Some(l) => Some(Length(15 + l.n, l.next))
  }

  /** The safe decoding loop from input position ip with out already produced. */
  function DecodeFrom(src: seq<byte>, ip: nat, out: seq<byte>, cap: nat): Option<seq<byte>>
    requires ip < |src|
    decreases |src| - ip
  {
    var short := Short(src[ip] / 16, ip + 1, |out|, |src|, cap);
    var ll := LitLength(src, ip);
    if ll.None? then None
    else
      match Literals(src, ll.value.next, ll.value.n, out, cap, short)
      case LitError => None
      case LitLast(o) => Some(o)
      case LitMore(o, i) =>
        match Match(src, i, src[ip] % 16, o, cap, short)
        case None => None
        case Some(step) => DecodeFrom(src, step.ip, step.out, cap)
  }

  /** LZ4_decompress_safe into a buffer of cap bytes. */
  function Decode(src: seq<byte>, cap: nat): Option<seq<byte>> {
    if cap == 0 then (if src == [0] then Some([]) else None)
    else if src == [] then None
    else DecodeFrom(src, 0, [], cap)
  }

  // ---------------------------------------------------------------- parses of an input

  /** ss and last are a parse of x from position a on that obeys the compressor's limits:
      matches repeat earlier bytes, start at least MFLIMIT and end at least LASTLITERALS
      before the end. */
  ghost predicate Parse(x: seq<byte>, a: nat, ss: seq<Sequence>, last: seq<byte>)
    decreases |ss|
  {
    if ss == [] then a <= |x| && last == x[a..]
    else
      var q := a + |ss[0].lits|;
      && MatchAt(x, q, ss[0].offset, ss[0].ml)
      && ss[0].lits == x[a..q]
      && Parse(x, q + ss[0].ml, ss[1..], last)
  }

  ghost predicate MatchAt(x: seq<byte>, q: nat, offset: nat, ml: nat) {
    && 1 <= offset <= q && offset <= MAXDISTANCE && ml >= MINMATCH
    && q + MFLIMIT <= |x| && q + ml + LASTLITERALS <= |x|
    && Repeats(x, q, offset, ml)
  }

  lemma {:induction false} MatchBounds(x: seq<byte>, q: nat, offset: nat, ml: nat)
    requires MatchAt(x, q, offset, ml)
    ensures 1 <= offset <= q && offset <= MAXDISTANCE && ml >= MINMATCH
    ensures q + MFLIMIT <= |x| && q + ml <= |x| && q + ml + LASTLITERALS <= |x|
  {
  }

  /** The n bytes at q repeat the bytes offset before them. */
  ghost predicate Repeats(x: seq<byte>, q: nat, offset: nat, n: nat) {
    offset <= q && q + n <= |x| && forall i, j | q <= i < q + n && j == i - offset :: x[i] == x[j]
  }

  lemma {:induction false} ParseLens(x: seq<byte>, a: nat, ss: seq<Sequence>, last: seq<byte>)
    requires Parse(x, a, ss, last)
    ensures forall i | 0 <= i < |ss| :: ss[i].ml >= MINMATCH
    ensures ss != [] ==> |last| >= LASTLITERALS
    ensures a + |last| <= |x|
    decreases |ss|
  {
    if ss != [] {
      var q := a + |ss[0].lits|;
      ParseLens(x, q + ss[0].ml, ss[1..], last);
      forall i | 0 <= i < |ss| ensures ss[i].ml >= MINMATCH {
        if i > 0 { assert ss[i] == ss[1..][i - 1]; }
      }
      if |ss| == 1 { assert ss[1..] == []; }
    }
  }

  /** The copy reproduces the matched bytes. */
  lemma {:induction false} CopyMatchExact(x: seq<byte>, q: nat, offset: nat, n: nat)
    requires 1 <= offset && Repeats(x, q, offset, n)
    ensures CopyMatch(x[..q], offset, n) == x[..q + n]
    decreases n
  {
    if n > 0 {
      assert x[..q] + [x[q - offset]] == x[..q + 1];
      CopyMatchExact(x, q + 1, offset, n - 1);
    }
  }

  // ---------------------------------------------------------------- reading back lengths

  lemma {:induction false} ExtSize(m: nat)
    ensures |Ext(m)| == m / 255 + 1
  {
    if m >= 255 { ExtSize(m - 255); }
  }

  /** A written length is read back, if the limit lies beyond it. */
  lemma {:induction false} ReadExt(src: seq<byte>, ip: nat, m: nat, limit: int)
    requires At(src, ip, Ext(m)) && ip + |Ext(m)| <= limit < |src|
    ensures ReadVar(src, ip, limit) == Some(Length(m, ip + |Ext(m)|))
    decreases m
  {
    assert src[ip + 0] == Ext(m)[0];
    if m >= 255 {
      AtParts(src, ip, [255], Ext(m - 255));
      ReadExt(src, ip + 1, m - 255, limit);
    }
  }

  lemma {:induction false} ReadOffset(src: seq<byte>, ip: nat, offset: nat)
    requires offset <= MAXDISTANCE && At(src, ip, LE16(offset))
    ensures ReadLE16(src, ip) == offset
  {
    assert src[ip + 0] == LE16(offset)[0] && src[ip + 1] == LE16(offset)[1];
  }

  /** The literal length in front of at least ll bytes is read back by the decoder. */
  lemma {:induction false} ReadLitLength(src: seq<byte>, ip: nat, ll: nat, code: nat)
    requires At(src, ip, LitHead(ll, code)) && ip + |LitHead(ll, code)| + ll <= |src|
    ensures ip < |src| && src[ip] / 16 == Nibble(ll) && src[ip] % 16 == Nibble(code)
    ensures LitLength(src, ip) == Some(Length(ll, ip + |LitHead(ll, code)|))
    ensures ll < 15 ==> |LitHead(ll, code)| == 1
  {
    var token: seq<byte> := [(Nibble(ll) * 16 + Nibble(code)) as byte];
    var ext := if ll < 15 then [] else Ext(ll - 15);
    AtParts(src, ip, token, ext);
    assert src[ip + 0] == token[0];
    if ll >= 15 {
      ExtSize(ll - 15);
      ReadExt(src, ip + 1, ll - 15, |src| - 15);
    }
  }

  lemma {:induction false} ReadMatchTail(src: seq<byte>, ip: nat, offset: nat, code: nat)
    requires offset <= MAXDISTANCE && At(src, ip, MatchTail(offset, code))
    requires ip + |MatchTail(offset, code)| + 6 <= |src|
    ensures ip + 2 < |src| && ReadLE16(src, ip) == offset
    ensures MatchCode(src, ip + 2, Nibble(code)) == Some(Length(code, ip + |MatchTail(offset, code)|))
  {
    var ext := if code < 15 then [] else Ext(code - 15);
    AtParts(src, ip, LE16(offset), ext);
    ReadOffset(src, ip, offset);
    if code >= 15 { ReadExt(src, ip + 2, code - 15, |src| - LASTLITERALS + 1); }
  }

  /** The match part of a sequence is read back and copied. */
  lemma {:induction false} DecodeMatch(src: seq<byte>, ip: nat, x: seq<byte>, q: nat, offset: nat, ml: nat, short: bool)
    requires MatchAt(x, q, offset, ml) && At(src, ip, MatchTail(offset, ml - MINMATCH))
    requires ip + |MatchTail(offset, ml - MINMATCH)| + 6 <= |src|
    ensures Match(src, ip, Nibble(ml - MINMATCH), x[..q], |x|, short) ==
            Some(Step(x[..q + ml], ip + |MatchTail(offset, ml - MINMATCH)|))
  {
    hide Repeats;
    ReadMatchTail(src, ip, offset, ml - MINMATCH);
    assert Nibble(ml - MINMATCH) != 15 ==>
      |MatchTail(offset, ml - MINMATCH)| == 2 && Nibble(ml - MINMATCH) == ml - MINMATCH;
    CopyMatchExact(x, q, offset, ml);
    hide CopyMatch;
    hide At;
    hide MatchTail;
    hide MatchCode;
    hide ReadLE16;
  }

  /** One round of the decoding loop. */
  lemma {:induction false} DecodeRound(src: seq<byte>, ip: nat, out: seq<byte>, cap: nat, ll: Length, o: seq<byte>,
                                       i: nat, step: Step)
    requires ip < |src| && LitLength(src, ip) == Some(ll)
    requires var short := Short(src[ip] / 16, ip + 1, |out|, |src|, cap);
      && Literals(src, ll.next, ll.n, out, cap, short) == LitMore(o, i)
      && Match(src, i, src[ip] % 16, o, cap, short) == Some(step)
    ensures DecodeFrom(src, ip, out, cap) == DecodeFrom(src, step.ip, step.out, cap)
  {
    hide LitLength;
    hide Literals;
    hide Match;
    hide Short;
  }

  /** Where the parts of an encoded sequence lie in the input. */
  lemma {:induction false} SequenceParts(src: seq<byte>, ip: nat, s: Sequence)
    requires s.ml >= MINMATCH && At(src, ip, EncodeSequence(s))
    ensures var code := s.ml - MINMATCH;
      var i1 := ip + |LitHead(|s.lits|, code)|;
      && At(src, ip, LitHead(|s.lits|, code)) && At(src, i1, s.lits)
      && At(src, i1 + |s.lits|, MatchTail(s.offset, code))
      && ip + |EncodeSequence(s)| == i1 + |s.lits| + |MatchTail(s.offset, code)|
      && |MatchTail(s.offset, code)| >= 2
  {
    var code := s.ml - MINMATCH;
    assert |MatchTail(s.offset, code)| >= 2;
    var head, tail := LitHead(|s.lits|, code), MatchTail(s.offset, code);
    hide At;
    hide LitHead;
    hide MatchTail;
    AtParts(src, ip, head + s.lits, tail);
    AtParts(src, ip, head, s.lits);
  }

  /** The literals of a sequence that is not the last one. */
  lemma {:induction false} DecodeLits(src: seq<byte>, ip: nat, x: seq<byte>, a: nat, ll: nat, code: nat, short: bool)
    requires At(src, ip, LitHead(ll, code)) && a + ll + MFLIMIT <= |x|
    requires var i1 := ip + |LitHead(ll, code)|; At(src, i1, x[a..a + ll]) && i1 + ll + 8 <= |src|
    requires short == Short(Nibble(ll), ip + 1, a, |src|, |x|)
    ensures ip < |src| && src[ip] / 16 == Nibble(ll) && src[ip] % 16 == Nibble(code)
    ensures var i1 := ip + |LitHead(ll, code)|;
      && LitLength(src, ip) == Some(Length(ll, i1))
      && (short ==> ll < 15 && i1 + 16 < |src|)
      && Literals(src, i1, ll, x[..a], |x|, short) == LitMore(x[..a + ll], i1 + ll)
  {
    ReadLitLength(src, ip, ll, code);
    var i1 := ip + |LitHead(ll, code)|;
    AtSlice(src, i1, x[a..a + ll]);
    hide At;
    hide LitLength;
    hide LitHead;
    assert x[..a] + x[a..a + ll] == x[..a + ll];
  }

  lemma {:induction false} DecodeParts(src: seq<byte>, ip: nat, x: seq<byte>, a: nat, ll: nat, offset: nat, ml: nat,
                                       i1: nat, i3: nat)
    requires a + ll <= |x| && MatchAt(x, a + ll, offset, ml)
    requires i1 == ip + |LitHead(ll, ml - MINMATCH)| && i3 == i1 + ll + |MatchTail(offset, ml - MINMATCH)|
    requires At(src, ip, LitHead(ll, ml - MINMATCH)) && At(src, i1, x[a..a + ll])
    requires At(src, i1 + ll, MatchTail(offset, ml - MINMATCH)) && i1 + ll + 2 <= i3 && i3 + 6 <= |src|
    ensures DecodeFrom(src, ip, x[..a], |x|) == DecodeFrom(src, i3, x[..a + ll + ml], |x|)
  {
    hide *;
    MatchBounds(x, a + ll, offset, ml);
    var short := Short(Nibble(ll), ip + 1, a, |src|, |x|);
    DecodeLits(src, ip, x, a, ll, ml - MINMATCH, short);
    DecodeMatch(src, i1 + ll, x, a + ll, offset, ml, short);
    DecodeRound(src, ip, x[..a], |x|, Length(ll, i1), x[..a + ll], i1 + ll, Step(x[..a + ll + ml], i3));
  }

  /** One sequence of a parse is decoded and the decoder is ready for the next. */
  lemma {:induction false} DecodeSequence(src: seq<byte>, ip: nat, x: seq<byte>, a: nat, ll: nat, s: Sequence)
    requires a + ll <= |x| && s.lits == x[a..a + ll] && MatchAt(x, a + ll, s.offset, s.ml)
    requires At(src, ip, EncodeSequence(s)) && ip + |EncodeSequence(s)| + 6 <= |src|
    ensures DecodeFrom(src, ip, x[..a], |x|) == DecodeFrom(src, ip + |EncodeSequence(s)|, x[..a + ll + s.ml], |x|)
  {
    hide *;
    var lits := x[a..a + ll];
    assert |lits| == ll && s == Sequence(lits, s.offset, s.ml);
    MatchBounds(x, a + ll, s.offset, s.ml);
    SequenceParts(src, ip, Sequence(lits, s.offset, s.ml));
    DecodeParts(src, ip, x, a, ll, s.offset, s.ml, ip + |LitHead(ll, s.ml - MINMATCH)|, ip + |EncodeSequence(s)|);
  }

  /** The last literals end the block exactly. */
  lemma {:induction false} DecodeLast(src: seq<byte>, ip: nat, x: seq<byte>, a: nat)
    requires a <= |x| && At(src, ip, EncodeLast(x[a..])) && ip + |EncodeLast(x[a..])| == |src|
    ensures DecodeFrom(src, ip, x[..a], |x|) == Some(x)
  {
    var lits := x[a..];
    var head := LitHead(|lits|, 0);
    AtParts(src, ip, head, lits);
    ReadLitLength(src, ip, |lits|, 0);
    var i1 := ip + |head|;
    AtSlice(src, i1, lits);
    hide At;
    hide LitLength;
    hide LitHead;
    hide Match;
    assert x[..a] + lits == x;
    var short := Short(src[ip] / 16, ip + 1, a, |src|, |x|);
    assert !short;
    assert Literals(src, i1, |lits|, x[..a], |x|, short) == LitLast(x);
  }

  lemma {:induction false} EncodeSize(ss: seq<Sequence>, last: seq<byte>)
    requires forall i | 0 <= i < |ss| :: ss[i].ml >= MINMATCH
    ensures |Encode(ss, last)| >= 1 + |last|
    decreases |ss|
  {
    if ss != [] { EncodeSize(ss[1..], last); }
  }

  lemma {:induction false} DecodeParse(src: seq<byte>, ip: nat, x: seq<byte>, a: nat, ss: seq<Sequence>,
                                       last: seq<byte>)
    requires Parse(x, a, ss, last) && (forall i | 0 <= i < |ss| :: ss[i].ml >= MINMATCH)
    requires At(src, ip, Encode(ss, last)) && ip + |Encode(ss, last)| == |src| && ip < |src|
    ensures DecodeFrom(src, ip, x[..a], |x|) == Some(x)
    decreases |ss|
  {
    hide *;
    if ss == [] {
      ParseEnd(x, a, last);
      DecodeLast(src, ip, x, a);
    } else {
      ParseNext(x, a, ss, last);
      DecodeNext(src, ip, x, a, ss[0], Encode(ss[1..], last));
      DecodeParse(src, ip + |EncodeSequence(ss[0])|, x, a + |ss[0].lits| + ss[0].ml, ss[1..], last);
    }
  }

  lemma {:induction false} DecodeNext(src: seq<byte>, ip: nat, x: seq<byte>, a: nat, s: Sequence, rest: seq<byte>)
    requires var q := a + |s.lits|;
      q <= |x| && s.ml >= MINMATCH && s.lits == x[a..q] && MatchAt(x, q, s.offset, s.ml) && q + s.ml <= |x|
    requires At(src, ip, EncodeSequence(s) + rest) && ip + |EncodeSequence(s) + rest| == |src| && |rest| >= 6
    ensures At(src, ip + |EncodeSequence(s)|, rest)
    ensures DecodeFrom(src, ip, x[..a], |x|) ==
            DecodeFrom(src, ip + |EncodeSequence(s)|, x[..a + |s.lits| + s.ml], |x|)
  {
    hide *;
    AtParts(src, ip, EncodeSequence(s), rest);
    DecodeSequence(src, ip, x, a, |s.lits|, s);
  }

  lemma {:induction false} ParseEnd(x: seq<byte>, a: nat, last: seq<byte>)
    requires Parse(x, a, [], last)
    ensures a <= |x| && last == x[a..] && Encode([], last) == EncodeLast(last)
  {
  }

  lemma {:induction false} ParseNext(x: seq<byte>, a: nat, ss: seq<Sequence>, last: seq<byte>)
    requires Parse(x, a, ss, last) && ss != [] && forall i | 0 <= i < |ss| :: ss[i].ml >= MINMATCH
    ensures var q := a + |ss[0].lits|;
      && q + ss[0].ml <= |x| && MatchAt(x, q, ss[0].offset, ss[0].ml) && ss[0].lits == x[a..q]
      && Parse(x, q + ss[0].ml, ss[1..], last)
    ensures forall i | 0 <= i < |ss[1..]| :: ss[1..][i].ml >= MINMATCH
    ensures Encode(ss, last) == EncodeSequence(ss[0]) + Encode(ss[1..], last) && |Encode(ss[1..], last)| >= 6
  {
    hide Repeats; hide EncodeSequence; hide EncodeLast;
    ParseLens(x, a, ss, last);
    EncodeSize(ss[1..], last);
  }

  /** Every block written from a parse of x decodes to x, with output room for x and no more. */
  lemma {:induction false} RoundTrip(x: seq<byte>, ss: seq<Sequence>, last: seq<byte>)
    requires Parse(x, 0, ss, last) && forall i | 0 <= i < |ss| :: ss[i].ml >= MINMATCH
    ensures Decode(Encode(ss, last), |x|) == Some(x)
  {
    var src := Encode(ss, last);
    EncodeSize(ss, last);
    if x == [] {
      assert ss == [] && src == [0];
    } else {
      assert x[..0] == [];
      DecodeParse(src, 0, x, 0, ss, last);
    }
  }

  // ---------------------------------------------------------------- size bound

  /** Bytes covered by the literals of the sequences. */
  function LitTotal(ss: seq<Sequence>): nat {
    if ss == [] then 0 else |ss[0].lits| + LitTotal(ss[1..])
  }

  function Same(n: nat, v: byte): (r: seq<byte>)
    ensures |r| == n
  {
    seq(n, _ => v)
  }

  lemma {:induction false} ExtIs(k: nat, r: nat)
    requires r < 255
    ensures Ext(255 * k + r) == Same(k, 255) + [r as byte]
  {
    if k > 0 {
      ExtIs(k - 1, r);
      assert 255 * k + r - 255 == 255 * (k - 1) + r;
      assert Same(k, 255) == [255] + Same(k - 1, 255);
    }
  }

  lemma {:induction false} RunParses(v: byte, n: nat)
    requires n >= 25
    ensures Parse(Same(n, v), 0, [Sequence([v], 1, n - 6)], [v, v, v, v, v])
  {
    var x, s := Same(n, v), Sequence([v], 1, n - 6);
    assert x[0..1] == [v] && x[n - 5..] == [v, v, v, v, v];
    assert MatchAt(x, 1, 1, n - 6);
    assert [s][1..] == [] && Parse(x, n - 5, [], [v, v, v, v, v]);
  }

  lemma {:induction false} RunEncodes(v: byte, k: nat, r: nat)
    requires r < 255
    ensures EncodeSequence(Sequence([v], 1, 19 + 255 * k + r)) == [0x1F, v, 1, 0] + (Same(k, 255) + [r as byte])
    ensures EncodeLast([v, v, v, v, v]) == [0x50, v, v, v, v, v]
  {
    ExtIs(k, r);
    hide Ext; hide Same;
    var more := Same(k, 255) + [r as byte];
    assert LitHead(1, 15 + 255 * k + r) == [0x1F] + [] && LE16(1) == [1, 0];
    assert MatchTail(1, 15 + 255 * k + r) == [1, 0] + more;
    assert [0x1F] + [] + [v] + ([1, 0] + more) == [0x1F, v, 1, 0] + more;
    assert LitHead(5, 0) == [0x50] + [];
  }

  /** The format, byte by byte: a run of n bytes v is one literal, a match of n - 6 bytes at
      distance one, least significant byte first, and five last literals. */
  lemma {:induction false} RunDecodes(v: byte, k: nat, r: nat)
    requires r < 255
    ensures var n := 25 + 255 * k + r;
      Decode([0x1F, v, 1, 0] + (Same(k, 255) + [r as byte]) + [0x50, v, v, v, v, v], n) == Some(Same(n, v))
  {
    var n := 25 + 255 * k + r;
    var s, last := Sequence([v], 1, n - 6), [v, v, v, v, v];
    assert [s][1..] == [];
    assert Encode([s], last) == EncodeSequence(s) + EncodeLast(last);
    hide Decode; hide Encode; hide EncodeSequence; hide EncodeLast; hide Parse; hide Same;
    RunParses(v, n);
    RoundTrip(Same(n, v), [s], last);
    RunEncodes(v, k, r);
  }

  lemma {:induction false} SequenceSize(s: Sequence)
    requires s.ml >= MINMATCH
    ensures |EncodeSequence(s)| <= |s.lits| + s.ml + |s.lits| / 255
  {
    var ll, code := |s.lits|, s.ml - MINMATCH;
    if ll >= 15 { ExtSize(ll - 15); }
    if code >= 15 { ExtSize(code - 15); }
  }

  lemma {:induction false} ParseSize(x: seq<byte>, a: nat, ss: seq<Sequence>, last: seq<byte>)
    requires Parse(x, a, ss, last) && forall i | 0 <= i < |ss| :: ss[i].ml >= MINMATCH
    ensures a <= |x| && LitTotal(ss) + |last| <= |x| - a
    ensures |Encode(ss, last)| <= |x| - a + (LitTotal(ss) + |last|) / 255 + 2
    decreases |ss|
  {
    if ss == [] {
      if |last| >= 15 { ExtSize(|last| - 15); }
    } else {
      SequenceSize(ss[0]);
      ParseSize(x, a + |ss[0].lits| + ss[0].ml, ss[1..], last);
    }
  }

  /** LZ4_compressBound. */
  function CompressBound(n: nat): nat { n + n / 255 + 16 }

  /** No choice of matches makes the block longer than the bound. */
  lemma {:induction false} BlockSize(x: seq<byte>, ss: seq<Sequence>, last: seq<byte>)
    requires Parse(x, 0, ss, last) && forall i | 0 <= i < |ss| :: ss[i].ml >= MINMATCH
    ensures |Encode(ss, last)| <= CompressBound(|x|)
  {
    ParseSize(x, 0, ss, last);
  }

  // ---------------------------------------------------------------- parses built left to right

  /** ss is a parse of the first a bytes of x. */
  ghost predicate PrefixParse(x: seq<byte>, ss: seq<Sequence>, a: nat)
    decreases |ss|
  {
    if ss == [] then a == 0
    else
      var s := ss[|ss| - 1];
      && s.ml + |s.lits| <= a <= |x|
      && MatchAt(x, a - s.ml, s.offset, s.ml)
      && s.lits == x[a - s.ml - |s.lits|..a - s.ml]
      && PrefixParse(x, ss[..|ss| - 1], a - s.ml - |s.lits|)
  }

  lemma {:induction false} PrefixThenRest(x: seq<byte>, ss: seq<Sequence>, a: nat, tt: seq<Sequence>, last: seq<byte>)
    requires PrefixParse(x, ss, a) && Parse(x, a, tt, last)
    ensures Parse(x, 0, ss + tt, last)
    decreases |ss|
  {
    hide MatchAt;
    if ss == [] {
      assert ss + tt == tt;
    } else {
      var n := |ss| - 1;
      var s := ss[n];
      var uu := [s] + tt;
      assert uu[1..] == tt;
      assert Parse(x, a - s.ml - |s.lits|, uu, last);
      PrefixThenRest(x, ss[..n], a - s.ml - |s.lits|, uu, last);
      assert ss[..n] + uu == ss + tt;
    }
  }

  function EncodeAll(ss: seq<Sequence>): seq<byte>
    requires forall i | 0 <= i < |ss| :: ss[i].ml >= MINMATCH
  {
    if ss == [] then [] else EncodeAll(ss[..|ss| - 1]) + EncodeSequence(ss[|ss| - 1])
  }

  lemma {:induction false} EncodeAllThenRest(ss: seq<Sequence>, tt: seq<Sequence>, last: seq<byte>)
    requires forall i | 0 <= i < |ss| :: ss[i].ml >= MINMATCH
    requires forall i | 0 <= i < |tt| :: tt[i].ml >= MINMATCH
    ensures Encode(ss + tt, last) == EncodeAll(ss) + Encode(tt, last)
    decreases |ss|
  {
    if ss == [] {
      assert ss + tt == tt;
    } else {
      var n := |ss| - 1;
      var uu := [ss[n]] + tt;
      assert uu[1..] == tt;
      EncodeAllThenRest(ss[..n], uu, last);
      assert ss[..n] + uu == ss + tt;
      var a, b, c := EncodeAll(ss[..n]), EncodeSequence(ss[n]), Encode(tt, last);
      assert a + (b + c) == (a + b) + c;
    }
  }
}
