/** The comparison of a segment's utilization with the threshold, in floating point. */
module Utilization {
  import opened Bytes
  import opened Gc

  const TWO53: nat := 0x20_0000_0000_0000

  /** What rounding to a double does to numbers that are not negative: it keeps the order, is off by
      at most one part in 2^53, and leaves numbers alone that have at most 53 significant bits. */
  ghost predicate Rounds(round: real -> real) {
    && (forall x, y | 0.0 <= x <= y :: round(x) <= round(y))
    && (forall x | 0.0 <= x :: x - x / (TWO53 as real) <= round(x) <= x + x / (TWO53 as real))
    && (forall n: nat | n <= TWO53 :: Exact(round, n))
    && forall n: nat | n <= TWO53 :: Exact(round, 4096 * n)
  }

  /** The number is converted to a double without rounding. */
  ghost predicate Exact(round: real -> real, n: nat) { round(n as real) == n as real }

  /** Counts of whole blocks of 4096 bytes are converted exactly, up to 2^65 bytes. */
  lemma {:induction false} BlockCounts(round: real -> real, n: nat)
    requires Rounds(round) && n % 4096 == 0 && n / 4096 <= TWO53
    ensures Exact(round, n)
  {
    assert Exact(round, 4096 * (n / 4096));
  }

  lemma {:induction false} RoundedPositive(round: real -> real, n: nat)
    requires Rounds(round) && n > 0
    ensures round(n as real) > 0.0
  {
    assert round(1 as real) <= round(n as real);
    assert Exact(round, 1);
  }

  /** The comparison that RunGC makes: both byte counts, their quotient, the threshold and its
      hundredth part are all rounded. */
  ghost predicate RoundedBelow(round: real -> real, s: SegmentStats, threshold: nat)
    requires Rounds(round) && s.totalWriteBytes > 0
  {
    RoundedPositive(round, s.totalWriteBytes);
    round(round(s.liveWriteBytes as real) / round(s.totalWriteBytes as real)) <
    round(round(threshold as real) / 100.0)
  }

  /** It retires every segment below the threshold and no other as long as the numbers are not too
      large for the difference to show. Beyond that it still retires no other one, if the
      counts are converted exactly. */
  lemma {:induction false} RoundedChoice(round: real -> real, s: SegmentStats, threshold: nat)
    requires Rounds(round) && s.totalWriteBytes > 0
    ensures var below := s.liveWriteBytes * 100 < threshold * s.totalWriteBytes;
      && (threshold * s.totalWriteBytes < TWO53 / 2 ==> (RoundedBelow(round, s, threshold) <==> below))
      && (Exact(round, s.liveWriteBytes) && Exact(round, s.totalWriteBytes) && Exact(round, threshold) ==>
            (RoundedBelow(round, s, threshold) ==> below))
  {
    var live, total := s.liveWriteBytes, s.totalWriteBytes;
    RoundedPositive(round, total);
    if Exact(round, live) && Exact(round, total) && Exact(round, threshold) {
      ExactChoice(round, live, total, threshold);
    }
    if threshold * total < TWO53 / 2 { SmallChoice(round, live, total, threshold); }
  }

  lemma {:induction false} ExactChoice(round: real -> real, live: nat, total: nat, threshold: nat)
    requires Rounds(round) && total > 0
    ensures var x, y := live as real / total as real, threshold as real / 100.0;
      && (round(x) < round(y) ==> live * 100 < threshold * total)
      && (live * 100 < threshold * total < TWO53 / 2 ==> round(x) < round(y))
  {
    var x, y := live as real / total as real, threshold as real / 100.0;
    assert x * total as real == live as real;
    assert threshold as real * total as real == (threshold * total) as real;
    Separated(x, y, total as real, live as real * 100.0, threshold as real * total as real);
  }

  lemma {:induction false} SmallChoice(round: real -> real, live: nat, total: nat, threshold: nat)
    requires Rounds(round) && total > 0 && threshold * total < TWO53 / 2 && round(total as real) > 0.0
    ensures round(round(live as real) / round(total as real)) < round(round(threshold as real) / 100.0) <==>
            live * 100 < threshold * total
  {
    hide Rounds;
    if threshold == 0 {
      NeverBelowZero(round, live, total);
    } else {
      Factors(threshold, total, TWO53 / 2);
      SmallExact(round, threshold);
      SmallExact(round, total);
      if live <= TWO53 {
        SmallExact(round, live);
        ExactChoice(round, live, total, threshold);
      } else {
        LargeLive(round, live, total, threshold);
      }
    }
  }

  lemma {:induction false} SmallExact(round: real -> real, n: nat)
    requires Rounds(round) && n <= TWO53
    ensures Exact(round, n)
  {
  }

  lemma {:induction false} Factors(a: nat, b: nat, bound: nat)
    requires a > 0 && b > 0 && a * b < bound
    ensures a < bound && b < bound
  {
    MulLe(1, a, b);
    MulLe(1, b, a);
  }

  lemma {:induction false} NeverBelowZero(round: real -> real, live: nat, total: nat)
    requires Rounds(round) && round(total as real) > 0.0
    ensures !(round(round(live as real) / round(total as real)) < round(round(0 as real) / 100.0))
  {
    assert Exact(round, 0);
    assert round(0.0) <= round(live as real);
    Quotients(0.0, round(live as real), round(total as real));
    assert round(0.0) <= round(round(live as real) / round(total as real));
  }

  lemma {:induction false} LargeLive(round: real -> real, live: nat, total: nat, threshold: nat)
    requires Rounds(round) && total > 0 && threshold * total < TWO53 / 2 && live > TWO53
    requires Exact(round, total) && Exact(round, threshold)
    ensures !(round(round(live as real) / round(total as real)) < round(round(threshold as real) / 100.0))
    ensures !(live * 100 < threshold * total)
  {
    assert Exact(round, TWO53);
    assert round(TWO53 as real) <= round(live as real);
    Quotients(TWO53 as real, round(live as real), total as real);
    assert round(TWO53 as real / total as real) <= round(round(live as real) / total as real);
    hide Rounds;
    ExactChoice(round, TWO53, total, threshold);
  }

  lemma {:induction false} Quotients(a: real, b: real, c: real)
    requires 0.0 <= a <= b && c > 0.0
    ensures 0.0 <= a / c <= b / c
  {
  }

  lemma {:induction false} Separated(x: real, y: real, total: real, a: real, b: real)
    requires 0.0 <= x && 0.0 <= y && 0.0 < total && x * total * 100.0 == a && y * total * 100.0 == b
    ensures a < b <==> x < y
    ensures a + 1.0 <= b && b + b < TWO53 as real ==> x + x / (TWO53 as real) < y - y / (TWO53 as real)
  {
    var scale := total * 100.0;
    assert x * scale == a && y * scale == b;
  }
}
