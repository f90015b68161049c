/** Big-endian integers, and tables of 64-bit ones, as the image format stores them. */
module BigEndian {
  import opened Bytes

  const TWO32: nat := 0x1_0000_0000
  const TWO62: nat := 0x4000_0000_0000_0000
  const TWO63: nat := 0x8000_0000_0000_0000
  const TWO64: nat := 0x1_0000_0000_0000_0000

  function Pow256(n: nat): nat {
    if n == 0 then 1 else 256 * Pow256(n - 1)
  }

  /** The n low bytes of x, most significant first. */
  function BE(n: nat, x: nat): (r: seq<byte>)
    ensures |r| == n
  {
    if n == 0 then [] else BE(n - 1, x / 256) + [(x % 256) as byte]
  }

  function UnBE(s: seq<byte>): nat {
    if s == [] then 0 else 256 * UnBE(s[..|s| - 1]) + s[|s| - 1] as int
  }

  lemma {:induction false} DivDiv(x: nat, d: nat)
    requires d > 0
    ensures x / 256 / d == x / (256 * d)
  {
    var q, r := x / 256, x % 256;
    var s, t := q / d, q % d;
    assert x == 256 * q + r && q == d * s + t;
    assert s * (256 * d) == 256 * (d * s);
    DivUnique(x, 256 * d, s, 256 * t + r);
  }

  /** Byte k of n has weight 256 to the power of n - 1 - k. */
  lemma {:induction false} BEAt(n: nat, x: nat, k: nat)
    requires k < n
    ensures Pow256(n - 1 - k) > 0 && BE(n, x)[k] as int == x / Pow256(n - 1 - k) % 256
    decreases n
  {
    if k < n - 1 {
      BEAt(n - 1, x / 256, k);
      DivDiv(x, Pow256(n - 2 - k));
    }
  }

  lemma {:induction false} UnBEBE(n: nat, x: nat)
    requires x < Pow256(n)
    ensures UnBE(BE(n, x)) == x
    decreases n
  {
    if n > 0 {
      UnBEBE(n - 1, x / 256);
      assert BE(n, x)[..n - 1] == BE(n - 1, x / 256);
    }
  }

  lemma {:induction false} Powers()
    ensures Pow256(4) == TWO32 && Pow256(8) == TWO64
  {
    assert Pow256(2) == 65536;
    assert Pow256(4) == TWO32;
    assert Pow256(6) == 0x1_0000_0000_0000;
  }

  lemma {:induction false} UnBE4(x: nat)
    requires x < TWO32
    ensures UnBE(BE(4, x)) == x
  {
    Powers();
    UnBEBE(4, x);
  }

  lemma {:induction false} UnBE8(x: nat)
    requires x < TWO64
    ensures UnBE(BE(8, x)) == x
  {
    Powers();
    UnBEBE(8, x);
  }

  /** A table of 64-bit entries. */
  function Table64(t: seq<nat>): (r: seq<byte>)
    ensures |r| == 8 * |t|
  {
    if t == [] then [] else Table64(t[..|t| - 1]) + BE(8, t[|t| - 1])
  }

  lemma {:induction false} Table64At(t: seq<nat>, j: nat)
    requires j < |t|
    ensures Table64(t)[8 * j..8 * j + 8] == BE(8, t[j])
    decreases |t|
  {
    var u := t[..|t| - 1];
    if j < |u| {
      Table64At(u, j);
      assert Table64(t)[8 * j..8 * j + 8] == Table64(u)[8 * j..8 * j + 8];
    }
  }

  lemma {:induction false} BEZero(n: nat)
    ensures BE(n, 0) == Zeros(n)
  {
    if n > 0 { BEZero(n - 1); }
  }

  lemma {:induction false} Table64Zero(n: nat)
    ensures Table64(seq(n, _ => 0)) == Zeros(8 * n)
  {
    if n > 0 {
      var t := seq(n, _ => 0);
      assert t[..n - 1] == seq(n - 1, _ => 0);
      Table64Zero(n - 1);
      BEZero(8);
    }
  }
}
