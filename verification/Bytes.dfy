module Options {
  datatype Option<+T> = None | Some(value: T)
}

/** Bytes, byte files and the arithmetic they need. */
module Bytes {

  type byte = x: int | 0 <= x < 256 witness 0

  function Zeros(n: nat): (z: seq<byte>)
    ensures |z| == n && forall i | 0 <= i < n :: z[i] == 0
  {
    seq(n, _ => 0)
  }

  /** File.WriteAt: bytes beyond the end of the file are filled with zeros first. */
  function WriteAt(f: seq<byte>, off: nat, data: seq<byte>): (g: seq<byte>)
    ensures |g| == if data != [] && off + |data| > |f| then off + |data| else |f|
    ensures forall p | 0 <= p < |g| ::
              g[p] == if off <= p < off + |data| then data[p - off] else if p < |f| then f[p] else 0
  {
    if data == [] then f
    else
      var h := if |f| < off + |data| then f + Zeros(off + |data| - |f|) else f;
      h[..off] + data + h[off + |data|..]
  }

  /** The bytes of b at p begin with a. */
  ghost predicate At(b: seq<byte>, p: nat, a: seq<byte>) {
    p + |a| <= |b| && forall k | 0 <= k < |a| :: b[p + k] == a[k]
  }

  lemma {:induction false} AtParts(b: seq<byte>, p: nat, x: seq<byte>, y: seq<byte>)
    ensures At(b, p, x + y) <==> At(b, p, x) && At(b, p + |x|, y)
  {
    if At(b, p, x + y) {
      forall k | 0 <= k < |x| ensures b[p + k] == x[k] { assert (x + y)[k] == x[k]; }
      forall k | 0 <= k < |y| ensures b[p + |x| + k] == y[k] {
        assert b[p + (|x| + k)] == (x + y)[|x| + k] == y[k];
      }
    }
    if At(b, p, x) && At(b, p + |x|, y) {
      forall k | 0 <= k < |x + y| ensures b[p + k] == (x + y)[k] {
        if k >= |x| { assert b[p + |x| + (k - |x|)] == y[k - |x|]; }
      }
    }
  }

  lemma {:induction false} AtSlice(b: seq<byte>, p: nat, a: seq<byte>)
    requires At(b, p, a)
    ensures b[p..p + |a|] == a
  {
    var c := b[p..p + |a|];
    assert forall k | 0 <= k < |a| :: c[k] == a[k];
  }

  lemma {:induction false} Assoc(a: seq<byte>, b: seq<byte>, c: seq<byte>)
    ensures a + (b + c) == a + b + c
  {
  }

  function Min(a: nat, b: nat): nat { if a < b then a else b }

  function Max(a: nat, b: nat): nat { if a > b then a else b }

  lemma {:induction false} MulLe(a: nat, b: nat, c: nat)
    requires a <= b
    ensures a * c <= b * c
  {
  }

  lemma {:induction false} Distribute(a: nat, b: nat, c: nat)
    ensures (a + b) * c == a * c + b * c
  {
  }

  /** Byte p lies in blocks [lo, hi) exactly when its block does. */
  lemma {:induction false} BlockOfByte(bs: nat, p: nat, lo: nat, hi: nat)
    requires bs > 0
    ensures lo * bs <= p < hi * bs <==> lo <= p / bs < hi
  {
    var q := p / bs;
    assert q * bs <= p < (q + 1) * bs;
    if lo <= q { MulLe(lo, q, bs); } else { MulLe(q + 1, lo, bs); }
    if q < hi { MulLe(q + 1, hi, bs); } else { MulLe(hi, q, bs); }
  }

  lemma {:induction false} DivUnique(a: nat, b: nat, q: nat, r: nat)
    requires b > 0 && r < b && a == q * b + r
    ensures a / b == q && a % b == r
  {
    var q' := a / b;
    assert a == q' * b + a % b;
    if q' < q { MulLe(q' + 1, q, b); }
    if q < q' { MulLe(q + 1, q', b); }
  }

  lemma {:induction false} MulDivMod(n: nat, bs: nat)
    requires bs > 0
    ensures n * bs / bs == n && n * bs % bs == 0
    ensures n > 0 ==> n * bs > 0
  {
    DivUnique(n * bs, bs, n, 0);
  }
}
