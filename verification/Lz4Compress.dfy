/** The LZ4 block compressor, for any hash function: a greedy search through a hash table of
    earlier positions. */
module Lz4Compress {
  import opened Bytes
  import opened Options
  import opened Lz4Format

  const MAXINPUT := 0x7E000000
  const U16LIMIT := 65547   // below this size positions fit the 16-bit table
  const SKIPTRIGGER := 64   // 1 << LZ4_skipTrigger

  predicate Same4(src: seq<byte>, a: nat, b: nat)
    requires a + 4 <= |src| && b + 4 <= |src|
  {
    src[a] == src[b] && src[a + 1] == src[b + 1] && src[a + 2] == src[b + 2] && src[a + 3] == src[b + 3]
  }

  // ---------------------------------------------------------------- counting

  lemma {:induction false} RepeatsMore(x: seq<byte>, q: nat, offset: nat, n: nat)
    requires Repeats(x, q, offset, n) && q + n < |x| && x[q + n] == x[q + n - offset]
    ensures Repeats(x, q, offset, n + 1)
  {
  }

  /** How many of the next k bytes agree, on top of n that do. */
  method CountStep(src: seq<byte>, p: nat, m: nat, n: nat, k: nat) returns (c: nat)
    requires m < p && p + n + k <= |src| && Repeats(src, p, p - m, n)
    ensures c <= k && Repeats(src, p, p - m, n + c)
    ensures c < k ==> src[p + n + c] != src[m + n + c]
  {
    c := 0;
    while c < k && src[p + n + c] == src[m + n + c]
      invariant c <= k && Repeats(src, p, p - m, n + c)
    {
      RepeatsMore(src, p, p - m, n + c);
      c := c + 1;
    }
  }

  /** LZ4_count: how far the bytes at p and at m agree, up to limit. Eight bytes at a time,
      then four, two and one. */
  method CountMatch(src: seq<byte>, p: nat, m: nat, limit: nat) returns (n: nat)
    requires m < p <= limit <= |src|
    ensures p + n <= limit && Repeats(src, p, p - m, n)
    ensures p + n == limit || src[p + n] != src[m + n]
  {
    n := 0;
    while p + n + 7 < limit
      invariant p + n <= limit && Repeats(src, p, p - m, n)
      decreases limit - n
    {
      var k := CountStep(src, p, m, n, 8);
      n := n + k;
      if k < 8 {
        return;
      }
    }
    hide Repeats;
    if p + n + 3 < limit {
      var k := CountStep(src, p, m, n, 4);
      if k == 4 { n := n + 4; }
    }
    if p + n + 1 < limit {
      var k := CountStep(src, p, m, n, 2);
      if k == 2 { n := n + 2; }
    }
    if p + n < limit {
      var k := CountStep(src, p, m, n, 1);
      n := n + k;
    }
  }

  // ---------------------------------------------------------------- searching

  /** Every position stored in the table, and the initial 0, lies before pos. */
  ghost predicate Before(table: map<nat, nat>, pos: nat) {
    0 < pos && forall h | h in table :: table[h] < pos
  }

  function Get(table: map<nat, nat>, h: nat): nat { if h in table then table[h] else 0 }

  /** A candidate that passed the checks: an earlier position, within reach, same four bytes. */
  ghost predicate Candidate(src: seq<byte>, p: nat, m: nat) {
    m < p && p - m <= MAXDISTANCE && p + MFLIMIT <= |src| && Repeats(src, p, p - m, MINMATCH)
  }

  lemma {:induction false} Same4Repeats(src: seq<byte>, p: nat, m: nat)
    requires m < p && p + 4 <= |src| && Same4(src, m, p)
    ensures Repeats(src, p, p - m, 4)
    ensures p - m <= MAXDISTANCE && p + MFLIMIT <= |src| ==> Candidate(src, p, m)
  {
    RepeatsMore(src, p, p - m, 0);
    RepeatsMore(src, p, p - m, 1);
    RepeatsMore(src, p, p - m, 2);
    RepeatsMore(src, p, p - m, 3);
  }

  /** How far probe k is from the next one. */
  function Jump(acceleration: nat, k: nat): nat {
    if k == 0 then 1 else (acceleration * SKIPTRIGGER + k - 1) / SKIPTRIGGER
  }

  /** Where probe k is. */
  function Probe(start: nat, acceleration: nat, k: nat): nat {
    if k == 0 then start else Probe(start, acceleration, k - 1) + Jump(acceleration, k - 1)
  }

  /** The table after the first k probes, each of which is entered. */
  function Entered(table: map<nat, nat>, hash: nat -> nat, start: nat, acceleration: nat, k: nat): map<nat, nat> {
    if k == 0 then table
    else
      var p := Probe(start, acceleration, k - 1);
      Entered(table, hash, start, acceleration, k - 1)[hash(p) := p]
  }

  /** The position that the table gives for probe k. */
  function Guess(table: map<nat, nat>, hash: nat -> nat, start: nat, acceleration: nat, k: nat): nat {
    Get(Entered(table, hash, start, acceleration, k), hash(Probe(start, acceleration, k)))
  }

  /** The position given for probe k is near enough and has the same four bytes. */
  predicate Passes(src: seq<byte>, hash: nat -> nat, table: map<nat, nat>, start: nat, acceleration: nat, k: nat) {
    var p, m := Probe(start, acceleration, k), Guess(table, hash, start, acceleration, k);
    (|src| < U16LIMIT || p <= m + MAXDISTANCE) && m + 4 <= |src| && p + 4 <= |src| && Same4(src, m, p)
  }

  ghost predicate NonePass(src: seq<byte>, hash: nat -> nat, table: map<nat, nat>, start: nat, acceleration: nat,
                           n: nat)
  {
    forall k: nat | k < n :: !Passes(src, hash, table, start, acceleration, k)
  }

  /** What probe k finds, and what it means for those before. */
  lemma {:induction false} Probed(src: seq<byte>, hash: nat -> nat, table: map<nat, nat>, start: nat, acceleration: nat,
                                  k: nat, p: nat, m: nat)
    requires p == Probe(start, acceleration, k) && p + 4 <= |src| && m < p
    requires m == Get(Entered(table, hash, start, acceleration, k), hash(p))
    ensures m == Guess(table, hash, start, acceleration, k)
    ensures Passes(src, hash, table, start, acceleration, k) <==>
            (|src| < U16LIMIT || p <= m + MAXDISTANCE) && Same4(src, m, p)
    ensures NonePass(src, hash, table, start, acceleration, k) && !Passes(src, hash, table, start, acceleration, k) ==>
      NonePass(src, hash, table, start, acceleration, k + 1)
  {
  }

  lemma {:induction false} BeforeNext(table: map<nat, nat>, h: nat, p: nat, next: nat)
    requires Before(table, p) && p < next
    ensures Get(table, h) < p && Before(table[h := p], p + 1) && Before(table[h := p], next)
  {
  }

  lemma {:induction false} NextProbe(table: map<nat, nat>, hash: nat -> nat, start: nat, acceleration: nat, k: nat)
    ensures Probe(start, acceleration, k + 1) == Probe(start, acceleration, k) + Jump(acceleration, k)
    ensures Jump(acceleration, k + 1) == (acceleration * SKIPTRIGGER + k) / SKIPTRIGGER >= acceleration
    ensures Entered(table, hash, start, acceleration, k + 1) ==
            var p := Probe(start, acceleration, k); Entered(table, hash, start, acceleration, k)[hash(p) := p]
  {
  }

  /** The match search: probe forward with growing steps until a candidate passes or the
      match limit is crossed. Small inputs skip the distance check. If nothing was found, no probe
      before the last, n, passes, and the next one would cross the limit; otherwise n is the first
      that passes. */
  method FindMatch(src: seq<byte>, hash: nat -> nat, table0: map<nat, nat>, start: nat, acceleration: nat)
    returns (found: bool, ip: nat, m: nat, table: map<nat, nat>, ghost n: nat)
    requires |src| > MFLIMIT && 1 <= acceleration && start + 11 <= |src| && Before(table0, start)
    ensures found ==> start <= ip && Candidate(src, ip, m) && Before(table, ip + 1)
    ensures ip == Probe(start, acceleration, n) && m == Guess(table0, hash, start, acceleration, n)
    ensures table == Entered(table0, hash, start, acceleration, if found then n + 1 else n)
    ensures NonePass(src, hash, table0, start, acceleration, n)
    ensures found ==> Passes(src, hash, table0, start, acceleration, n)
    ensures found <==> Probe(start, acceleration, n + 1) + 11 <= |src|
  {
    hide Candidate;
    n := 0;
    assert Probe(start, acceleration, 0) == start && Jump(acceleration, 0) == 1;
    assert Entered(table0, hash, start, acceleration, 0) == table0;
    assert NonePass(src, hash, table0, start, acceleration, 0);
    hide Probe; hide Entered; hide Jump; hide Before; hide Get; hide Same4; hide Passes; hide NonePass; hide Guess;
    var u16 := |src| < U16LIMIT;
    var forwardIp := start;
    var step := 1;
    var searchMatchNb := acceleration * SKIPTRIGGER;
    var forwardH := hash(forwardIp);
    table, ip, m := table0, start, 0;
    while true
      invariant start <= forwardIp && forwardIp + 11 <= |src| && step >= 1
      invariant Before(table, forwardIp)
      invariant forwardIp == Probe(start, acceleration, n) && forwardH == hash(forwardIp)
      invariant step == Jump(acceleration, n) && searchMatchNb == acceleration * SKIPTRIGGER + n
      invariant table == Entered(table0, hash, start, acceleration, n)
      invariant NonePass(src, hash, table0, start, acceleration, n)
      decreases |src| - forwardIp
    {
      NextProbe(table0, hash, start, acceleration, n);
      BeforeNext(table, forwardH, forwardIp, forwardIp + step);
      var h := forwardH;
      var current := forwardIp;
      m := Get(table, h);
      Probed(src, hash, table0, start, acceleration, n, current, m);
      ip := forwardIp;
      forwardIp := forwardIp + step;
      step := searchMatchNb / SKIPTRIGGER;
      searchMatchNb := searchMatchNb + 1;
      if forwardIp + 11 > |src| {
        return false, ip, m, table, n;
      }
      forwardH := hash(forwardIp);
      assert u16 ==> current < 0x10000;
      table := table[h := current];
      if !u16 && m + MAXDISTANCE < current {
        n := n + 1;
        continue;
      }
      if Same4(src, m, ip) {
        Same4Repeats(src, ip, m);
        return true, ip, m, table, n;
      }
      n := n + 1;
    }
  }

  lemma {:induction false} RepeatsBack(x: seq<byte>, q: nat, offset: nat, n: nat)
    requires 1 <= offset < q && Repeats(x, q, offset, n) && x[q - 1] == x[q - 1 - offset]
    ensures Repeats(x, q - 1, offset, n + 1)
  {
  }

  /** Catch up: extend the match backwards over equal literals. */
  method CatchUp(src: seq<byte>, anchor: nat, ip0: nat, m0: nat) returns (ip: nat, m: nat)
    requires anchor <= ip0 && m0 < ip0 && ip0 + MFLIMIT <= |src| && Repeats(src, ip0, ip0 - m0, MINMATCH)
    ensures anchor <= ip <= ip0 && m < ip && ip - m == ip0 - m0
    ensures Repeats(src, ip, ip - m, ip0 - ip + MINMATCH)
    ensures ip == anchor || m == 0 || src[ip - 1] != src[m - 1]
  {
    ip, m := ip0, m0;
    while ip > anchor && m > 0 && src[ip - 1] == src[m - 1]
      invariant anchor <= ip <= ip0 && m < ip && ip - m == ip0 - m0
      invariant Repeats(src, ip, ip - m, ip0 - ip + MINMATCH)
    {
      RepeatsBack(src, ip, ip - m, ip0 - ip + MINMATCH);
      ip, m := ip - 1, m - 1;
    }
  }

  // ---------------------------------------------------------------- emitting

  /** The 255-run of a literal length. */
  method PutLength(out0: seq<byte>, len0: nat) returns (out: seq<byte>)
    ensures out == out0 + Ext(len0)
  {
    out := out0;
    var len := len0;
    while len >= 255
      invariant out + Ext(len) == out0 + Ext(len0)
    {
      assert out + ([255] + Ext(len - 255)) == out + [255] + Ext(len - 255);
      out := out + [255];
      len := len - 255;
    }
    out := out + [len as byte];
  }

  /** The 255-run of a match length: four bytes of 255 at a time, the rest at once. */
  method PutMatchLength(out0: seq<byte>, code0: nat) returns (out: seq<byte>)
    ensures out == out0 + Ext(code0)
  {
    out := out0;
    var code := code0;
    while code >= 4 * 255
      invariant out + Ext(code) == out0 + Ext(code0)
    {
      Ext4(code);
      assert out + ([255, 255, 255, 255] + Ext(code - 1020)) == out + [255, 255, 255, 255] + Ext(code - 1020);
      out := out + [255, 255, 255, 255];
      code := code - 4 * 255;
    }
    ExtSmall(code);
    out := out + seq(code / 255, _ => 255) + [(code % 255) as byte];
  }

  lemma {:induction false} Ext4(m: nat)
    requires m >= 1020
    ensures Ext(m) == [255, 255, 255, 255] + Ext(m - 1020)
  {
    var a := Ext(m - 1020);
    assert Ext(m - 765) == [255] + a;
    assert Ext(m - 510) == [255] + ([255] + a);
    assert Ext(m - 255) == [255] + ([255] + ([255] + a));
    assert Ext(m) == [255] + ([255] + ([255] + ([255] + a)));
  }

  lemma {:induction false} ExtSmall(m: nat)
    ensures Ext(m) == seq(m / 255, _ => 255) + [(m % 255) as byte]
    decreases m
  {
    if m >= 255 {
      ExtSmall(m - 255);
      assert [255] + seq(m / 255 - 1, _ => 255 as byte) == seq(m / 255, _ => 255 as byte);
    }
  }

  /** Where the last store of a wild copy of n bytes to position op ends. */
  function WildEnd(op: nat, n: nat): (e: nat)
    ensures op + n <= e && (n > 0 ==> e <= op + n + 7) && (n == 0 ==> e == op + 8)
  {
    if n == 0 then op + 8 else op + (n + 7) / 8 * 8
  }

  function Max(a: nat, b: nat): nat { if a < b then b else a }

  /** Room for more bytes after op, when the output is limited. */
  predicate Fits(op: int, limit: Option<nat>) { limit.Some? ==> op <= limit.value }

  /** The literals before a match. The token is left with an empty match nibble; reach is
      the end of the furthest store so far. */
  method EncodeLiterals(out0: seq<byte>, src: seq<byte>, anchor: nat, ip: nat, limit: Option<nat>, ghost reach0: nat)
    returns (ok: bool, out: seq<byte>, ghost reach: nat)
    requires anchor <= ip && ip + MFLIMIT <= |src| && Fits(reach0, limit)
    ensures Fits(reach, limit)
    ensures ok ==> out == out0 + EncodeLast(src[anchor..ip]) && Fits(|out| + 7, limit)
    ensures ok ==> reach <= Max(reach0, |out| + 8) && ip + 8 <= |src|
    ensures ok ==> var ll := ip - anchor; |out| >= ll && reach == Max(reach0, WildEnd(|out| - ll, ll))
    ensures !ok ==> limit.Some?
  {
    var ll := ip - anchor;
    var op := |out0| + 1;
    reach := reach0;
    if limit.Some? && op + ll + 8 + ll / 255 > limit.value {
      return false, out0, reach;
    }
    if ll >= 15 {
      out := out0 + [240];
      out := PutLength(out, ll - 15);
      ExtSize(ll - 15);
    } else {
      out := out0 + [(ll * 16) as byte];
    }
    assert out == out0 + LitHead(ll, 0);
    reach := Max(reach, WildEnd(|out|, ll));
    var lits := src[anchor..ip];
    assert out0 + LitHead(ll, 0) + lits == out0 + (LitHead(ll, 0) + lits);
    out := out + lits;
    ok := true;
  }

  lemma {:induction false} PatchAt(base: seq<byte>, t: byte, rest: seq<byte>, u: byte)
    ensures |base| < |base + [t] + rest| && (base + [t] + rest)[|base|] == t
    ensures (base + [t] + rest)[|base| := u] == base + [u] + rest
  {
  }

  function Token(ll: nat, code: nat): byte { (Nibble(ll) * 16 + Nibble(code)) as byte }

  function LitRest(lits: seq<byte>): seq<byte> { (if |lits| < 15 then [] else Ext(|lits| - 15)) + lits }

  lemma {:induction false} SequenceToken(lits: seq<byte>, offset: nat, code: nat)
    ensures EncodeLast(lits) == [Token(|lits|, 0)] + LitRest(lits)
    ensures EncodeSequence(Sequence(lits, offset, code + MINMATCH)) ==
            [Token(|lits|, code)] + (LitRest(lits) + MatchTail(offset, code))
    ensures Token(|lits|, 0) as int + Nibble(code) == Token(|lits|, code) as int
  {
    var ext := if |lits| < 15 then [] else Ext(|lits| - 15);
    hide Ext;
    hide MatchTail;
    assert [Token(|lits|, 0)] + ext + lits == [Token(|lits|, 0)] + (ext + lits);
    assert [Token(|lits|, code)] + ext + lits + MatchTail(offset, code) ==
           [Token(|lits|, code)] + ((ext + lits) + MatchTail(offset, code));
  }

  /** Filling in the token's match nibble and appending offset and length completes the
      sequence. */
  lemma {:induction false} CompleteSequence(base: seq<byte>, lits: seq<byte>, offset: nat, code: nat)
    ensures var open := base + EncodeLast(lits) + MatchTail(offset, code);
      && |base| < |open| && open[|base|] as int + Nibble(code) < 256
      && open[|base| := (open[|base|] as int + Nibble(code)) as byte] ==
         base + EncodeSequence(Sequence(lits, offset, code + MINMATCH))
  {
    hide *;
    SequenceToken(lits, offset, code);
    var t, u, rest := Token(|lits|, 0), Token(|lits|, code), LitRest(lits) + MatchTail(offset, code);
    assert base + ([t] + LitRest(lits)) + MatchTail(offset, code) == base + [t] + rest;
    assert base + ([u] + rest) == base + [u] + rest;
    PatchAt(base, t, rest, u);
  }

  /** The match: offset, then as many bytes as agree. */
  method EncodeMatch(out0: seq<byte>, token: nat, src: seq<byte>, ip0: nat, m: nat, limit: Option<nat>,
                     ghost base: seq<byte>, ghost lits: seq<byte>, ghost k: nat, ghost reach0: nat)
    returns (ok: bool, out: seq<byte>, ip: nat, ghost ml: nat, ghost reach: nat)
    requires m < ip0 && ip0 - m <= MAXDISTANCE && ip0 + MFLIMIT <= |src|
    requires MINMATCH <= k && ip0 + k + LASTLITERALS <= |src| && Repeats(src, ip0, ip0 - m, k)
    requires out0 == base + EncodeLast(lits) && token == |base|
    requires Fits(reach0, limit) && Fits(|out0| + 2, limit) && reach0 <= |out0| + 8
    ensures Fits(reach, limit)
    ensures ok ==> ip == ip0 + ml && ml >= k && MatchAt(src, ip0, ip0 - m, ml)
    ensures ok ==> out == base + EncodeSequence(Sequence(lits, ip0 - m, ml))
    ensures ok ==> Fits(|out| + 6, limit) && reach <= |out| + 6 && reach >= Max(reach0, |out0| + 2)
    ensures ok && ml >= MINMATCH + 15 ==> reach >= |out0| + 2 + (ml - MINMATCH - 15) / 1020 * 4 + 4
    ensures !ok ==> limit.Some?
  {
    out := out0 + LE16(ip0 - m);
    reach := Max(reach0, |out|);
    assert Repeats(src, ip0, ip0 - m, MINMATCH);
    var code := CountMatch(src, ip0 + MINMATCH, m + MINMATCH, |src| - LASTLITERALS);
    ml := code + MINMATCH;
    ip := ip0 + code + MINMATCH;
    CountedMatch(src, ip0, m, k, code);
    if limit.Some? && |out| + 1 + LASTLITERALS + (code + 240) / 255 > limit.value {
      return false, out, ip, ml, reach;
    }
    var nibble := 15;
    if code >= 15 {
      reach := Max(reach, |out| + (code - 15) / 1020 * 4 + 4);
      ExtSize(code - 15);
      assert out0 + LE16(ip0 - m) + Ext(code - 15) == out0 + MatchTail(ip0 - m, code);
      out := PutMatchLength(out, code - 15);
    } else {
      nibble := code;
      assert MatchTail(ip0 - m, code) == LE16(ip0 - m);
    }
    CompleteSequence(base, lits, ip0 - m, code);
    out := out[token := (out[token] as int + nibble) as byte];
    ok := true;
  }

  /** The counted length covers the k bytes known to repeat and makes a legal match. */
  lemma {:induction false} CountedMatch(src: seq<byte>, ip: nat, m: nat, k: nat, code: nat)
    requires m < ip && ip - m <= MAXDISTANCE && ip + MFLIMIT <= |src|
    requires MINMATCH <= k && ip + k + LASTLITERALS <= |src| && Repeats(src, ip, ip - m, k)
    requires ip + MINMATCH + code + LASTLITERALS <= |src| && Repeats(src, ip + MINMATCH, ip - m, code)
    requires ip + MINMATCH + code + LASTLITERALS == |src| || src[ip + MINMATCH + code] != src[m + MINMATCH + code]
    ensures code + MINMATCH >= k && MatchAt(src, ip, ip - m, code + MINMATCH)
  {
    assert Repeats(src, ip, ip - m, code + MINMATCH);
  }

  /** The literals after the last match. */
  method LastLiterals(out0: seq<byte>, src: seq<byte>, anchor: nat, limit: Option<nat>, ghost reach0: nat)
    returns (ok: bool, out: seq<byte>, ghost reach: nat)
    requires anchor <= |src| && Fits(reach0, limit)
    ensures Fits(reach, limit)
    ensures ok ==> out == out0 + EncodeLast(src[anchor..]) && reach == Max(reach0, |out|)
    ensures !ok ==> limit.Some?
  {
    var lastRun := |src| - anchor;
    reach := reach0;
    if limit.Some? && |out0| + lastRun + 1 + (lastRun + 255 - 15) / 255 > limit.value {
      return false, out0, reach;
    }
    if lastRun >= 15 {
      out := PutLength(out0 + [240], lastRun - 15);
      ExtSize(lastRun - 15);
    } else {
      out := out0 + [(lastRun * 16) as byte];
    }
    assert out == out0 + LitHead(lastRun, 0);
    var lits := src[anchor..];
    assert out0 + LitHead(lastRun, 0) + lits == out0 + (LitHead(lastRun, 0) + lits);
    out := out + lits;
    reach := Max(reach0, |out|);
    ok := true;
  }

  // ---------------------------------------------------------------- the main loop

  /** The output so far encodes a parse of the input so far. */
  ghost predicate Encoded(src: seq<byte>, ss: seq<Sequence>, a: nat, out: seq<byte>) {
    && PrefixParse(src, ss, a) && (forall i | 0 <= i < |ss| :: ss[i].ml >= MINMATCH)
    && out == EncodeAll(ss) && a <= |src| && (ss != [] ==> a + LASTLITERALS <= |src|)
  }

  lemma {:induction false} EncodedNext(src: seq<byte>, ss: seq<Sequence>, a: nat, out: seq<byte>, s: Sequence)
    requires Encoded(src, ss, a, out) && a + |s.lits| <= |src|
    requires s.lits == src[a..a + |s.lits|] && MatchAt(src, a + |s.lits|, s.offset, s.ml)
    ensures Encoded(src, ss + [s], a + |s.lits| + s.ml, out + EncodeSequence(s))
  {
    var tt := ss + [s];
    assert tt[..|tt| - 1] == ss && tt[|tt| - 1] == s;
    hide Repeats;
  }

  lemma {:induction false} NoLiterals(src: seq<byte>, ip: nat)
    requires ip <= |src|
    ensures EncodeLast(src[ip..ip]) == [0]
  {
    assert src[ip..ip] == [];
  }

  /** The matches that follow each other without literals in between, starting with the one
      whose literals have just been written. */
  method NextMatches(out0: seq<byte>, token0: nat, src: seq<byte>, hash: nat -> nat, table0: map<nat, nat>, ip0: nat,
                     m0: nat, limit: Option<nat>, ghost base0: seq<byte>, ghost anchor0: nat, ghost k0: nat,
                     ghost reach0: nat, ghost ss0: seq<Sequence>)
    returns (ok: bool, more: bool, out: seq<byte>, ip: nat, table: map<nat, nat>, ghost reach: nat,
      ghost ss: seq<Sequence>)
    requires Encoded(src, ss0, anchor0, base0) && anchor0 <= ip0 <= |src|
    requires out0 == base0 + EncodeLast(src[anchor0..ip0]) && token0 == |base0|
    requires m0 < ip0 && ip0 - m0 <= MAXDISTANCE && ip0 + MFLIMIT <= |src|
    requires MINMATCH <= k0 && ip0 + k0 + LASTLITERALS <= |src| && Repeats(src, ip0, ip0 - m0, k0)
    requires Before(table0, ip0 + k0)
    requires Fits(reach0, limit) && Fits(|out0| + 2, limit) && reach0 <= |out0| + 8
    ensures Fits(reach, limit)
    ensures ok ==> Encoded(src, ss, ip, out) && ss != [] && ip > anchor0 && reach <= |out| + 6
    ensures ok && more ==> ip + MFLIMIT <= |src| && Before(table, ip + 1)
    ensures !ok ==> limit.Some?
  {
    hide Encoded; hide Repeats; hide EncodeLast; hide EncodeSequence; hide MatchAt;
    var u16 := |src| < U16LIMIT;
    var token: nat, m: nat := token0, m0;
    out, ip, table, reach, ss := out0, ip0, table0, reach0, ss0;
    ghost var base, k := base0, k0;
    ghost var anchor: nat := anchor0;
    while true
      invariant Encoded(src, ss, anchor, base) && anchor0 <= anchor <= ip <= |src|
      invariant out == base + EncodeLast(src[anchor..ip]) && token == |base|
      invariant m < ip && ip - m <= MAXDISTANCE && ip + MFLIMIT <= |src|
      invariant MINMATCH <= k && ip + k + LASTLITERALS <= |src| && Repeats(src, ip, ip - m, k)
      invariant Before(table, ip + k)
      invariant Fits(reach, limit) && Fits(|out| + 2, limit) && reach <= |out| + 8
      decreases |src| - ip
    {
      ghost var lits := src[anchor..ip];
      ghost var start := ip;
      ghost var ml;
      ok, out, ip, ml, reach := EncodeMatch(out, token, src, ip, m, limit, base, lits, k, reach);
      if !ok {
        return false, false, out, ip, table, reach, ss;
      }
      ghost var s := Sequence(lits, start - m, ml);
      EncodedNext(src, ss, anchor, base, s);
      ss := ss + [s];
      anchor, base := ip, out;
      if ip + 11 >= |src| {
        return true, false, out, ip, table, reach, ss;
      }
      assert u16 ==> ip < 0x10000;
      table := table[hash(ip - 2) := ip - 2];
      var h := hash(ip);
      var matchIndex := Get(table, h);
      table := table[h := ip];
      if (u16 || matchIndex + MAXDISTANCE >= ip) && Same4(src, matchIndex, ip) {
        token := |out|;
        out := out + [0];
        m := matchIndex;
        Same4Repeats(src, ip, m);
        k := MINMATCH;
        NoLiterals(src, ip);
        reach := Max(reach, |out|);
      } else {
        return true, true, out, ip, table, reach, ss;
      }
    }
  }

  /** LZ4_compress_generic_validated without dictionary. Whatever the hash function, a block
      that is produced encodes a parse of the input, and no store, not even one of the wild
      copies, goes past the block or past the limit. */
  method CompressGeneric(src: seq<byte>, hash: nat -> nat, acceleration: nat, limit: Option<nat>)
    returns (r: Option<seq<byte>>, ghost ss: seq<Sequence>, ghost last: seq<byte>, ghost reach: nat)
    requires 0 < |src| && acceleration >= 1
    ensures Fits(reach, limit)
    ensures r.Some? ==> Parse(src, 0, ss, last) && (forall i | 0 <= i < |ss| :: ss[i].ml >= MINMATCH)
    ensures r.Some? ==> r.value == Encode(ss, last) && reach == |r.value|
    ensures r.None? ==> limit.Some?
  {
    hide Probe; hide Entered; hide Guess; hide Passes; hide NonePass;
    var out: seq<byte> := [];
    var anchor := 0;
    ss, last, reach := [], [], 0;
    if |src| > MFLIMIT {
      var table: map<nat, nat> := map[hash(0) := 0];
      var ip := 1;
      var more := true;
      while more
        invariant Encoded(src, ss, anchor, out) && Fits(reach, limit)
        invariant if ss == [] then reach == 0 else reach <= |out| + 6
        invariant more ==> anchor < ip && ip + 11 <= |src| && Before(table, ip)
        decreases |src| - anchor, more
      {
        var found, m;
        ghost var probes;
        found, ip, m, table, probes := FindMatch(src, hash, table, ip, acceleration);
        if !found {
          break;
        }
        ghost var filled := ip;
        ip, m := CatchUp(src, anchor, ip, m);
        var token := |out|;
        ghost var base := out;
        var ok;
        ok, out, reach := EncodeLiterals(out, src, anchor, ip, limit, reach);
        if !ok {
          return None, ss, last, reach;
        }
        ok, more, out, ip, table, reach, ss :=
          NextMatches(out, token, src, hash, table, ip, m, limit, base, anchor, filled - ip + MINMATCH, reach, ss);
        if !ok {
          return None, ss, last, reach;
        }
        anchor := ip;
        ip := ip + 1;
      }
    }
    ghost var base := out;
    var ok;
    ok, out, reach := LastLiterals(out, src, anchor, limit, reach);
    if !ok {
      return None, ss, last, reach;
    }
    last := src[anchor..];
    ParseDone(src, ss, anchor, base);
    r := Some(out);
  }

  lemma {:induction false} ParseDone(src: seq<byte>, ss: seq<Sequence>, a: nat, out: seq<byte>)
    requires Encoded(src, ss, a, out)
    ensures Parse(src, 0, ss, src[a..]) && Encode(ss, src[a..]) == out + EncodeLast(src[a..])
  {
    assert ss + [] == ss;
    PrefixThenRest(src, ss, a, [], src[a..]);
    EncodeAllThenRest(ss, [], src[a..]);
  }

  datatype Result = Block(bytes: seq<byte>) | Failed

  /** LZ4_compress_fast_extState: unlimited output when the buffer is at least the bound.
      The result fits the buffer and decodes to the input; failure happens only for a buffer
      below the bound or an oversized input. */
  method CompressFast(src: seq<byte>, hash: nat -> nat, maxOutput: nat, acceleration0: int)
    returns (r: Result, ghost reach: nat)
    ensures reach <= maxOutput
    ensures r.Block? ==>
      |r.bytes| <= reach && |r.bytes| <= CompressBound(|src|) && Decode(r.bytes, |src|) == Some(src)
    ensures r.Failed? ==> |src| > MAXINPUT || maxOutput < CompressBound(|src|)
  {
    var acceleration := if acceleration0 < 1 then 1 else if acceleration0 > 65537 then 65537 else acceleration0;
    reach := 0;
    if |src| > MAXINPUT {
      return Failed, 0;
    }
    var limit := if maxOutput >= CompressBound(|src|) then None else Some(maxOutput);
    if |src| == 0 {
      if limit.Some? && maxOutput <= 0 {
        return Failed, 0;
      }
      return Block([0]), 1;
    }
    var block, ss, last, end := CompressGeneric(src, hash, acceleration, limit);
    reach := end;
    if block.Some? {
      RoundTrip(src, ss, last);
      BlockSize(src, ss, last);
      r := Block(block.value);
    } else {
      r := Failed;
    }
  }
}
