/**
 JavaScript's `Math.round((num / den) * 100)`, evaluated exactly on rationals.
 `Math.round` rounds half-way values up, so the result is floor(100 * num / den + 1/2).
 */
module Rounding {
  import opened Wrappers

  /** The rounded percentage: the integer r with r <= 100*num/den + 1/2 < r + 1. */
  function RoundPercent(num: int, den: int): (r: int)
    requires den > 0
    ensures 2 * den * r <= 200 * num + den < 2 * den * (r + 1)
  {
    var q := (200 * num + den) / (2 * den);
    assert (200 * num + den) == q * (2 * den) + (200 * num + den) % (2 * den);
    q
  }

  /**
   The whole expression for any integers, evaluated on exact rationals: a zero
   denominator gives NaN or an infinity, which is not a number of per cent (`None`);
   any other denominator, negative ones included, rounds 100 * num / den half up.
   At an exact half-way value the double-precision product can fall just below
   .5 and JavaScript then rounds down; `HalfwayRoundsUp` shows one such input.
   */
  function PercentOf(num: int, den: int): (r: Option<int>)
    ensures r.Some? <==> den != 0
    ensures den != 0 ==>
      (r.value as real) <= 100.0 * ((num as real) / (den as real)) + 0.5 < (r.value as real) + 1.0
  {
    if den == 0 then None
    else
      var n := if den > 0 then num else -num;
      var d := if den > 0 then den else -den;
      var q := RoundPercent(n, d);
      assert (num as real) / (den as real) == (n as real) / (d as real);
      RoundedIsHalfUp(n, d, q);
      Some(q)
  }

  /** Dividing both sides of an inequality by a positive real. */
  lemma RealCancel(m: real, a: real, b: real)
    requires m > 0.0
    requires a * m <= b * m
    ensures a <= b
  {
  }

  /** Dividing both sides of a strict inequality by a positive real. */
  lemma RealCancelStrict(m: real, a: real, b: real)
    requires m > 0.0
    requires a * m < b * m
    ensures a < b
  {
  }

  /** The integer bounds of `RoundPercent`, read as rationals: q is 100 * n / d rounded half up. */
  lemma RoundedIsHalfUp(n: int, d: int, q: int)
    requires d > 0
    requires q == RoundPercent(n, d)
    ensures (q as real) <= 100.0 * ((n as real) / (d as real)) + 0.5 < (q as real) + 1.0
  {
    var m := 2.0 * (d as real);
    var ratio := (n as real) / (d as real);
    var x := 100.0 * ratio + 0.5;
    assert ratio * (d as real) == n as real;
    assert x * m == 200.0 * (ratio * (d as real)) + (d as real);
    assert x * m == ((200 * n + d) as real);
    assert (q as real) * m == (2 * d * q) as real;
    assert ((q + 1) as real) * m == (2 * d * (q + 1)) as real;
    assert 2 * d * q <= 200 * n + d < 2 * d * (q + 1);
    assert (q as real) * m <= x * m;
    assert x * m < ((q + 1) as real) * m;
    RealCancel(m, q as real, x);
    RealCancelStrict(m, x, (q + 1) as real);
  }

  /** Cancelling a positive factor from a strict inequality of products. */
  lemma CancelFactor(m: int, x: int, y: int)
    requires m > 0
    requires m * x < m * y
    ensures x < y
  {
  }

  /** A part of a whole rounds to a percentage between 0 and 100. */
  lemma PercentInRange(num: int, den: int)
    requires den > 0
    requires 0 <= num <= den
    ensures 0 <= RoundPercent(num, den) <= 100
  {
    var r := RoundPercent(num, den);
    var m := 2 * den;
    assert m * 0 < m * (r + 1);
    CancelFactor(m, 0, r + 1);
    assert m * r < m * 101;
    CancelFactor(m, r, 101);
  }

  /** Nothing is 0 per cent and the whole is 100 per cent. */
  lemma PercentEnds(den: int)
    requires den > 0
    ensures RoundPercent(0, den) == 0
    ensures RoundPercent(den, den) == 100
  {
    var m := 2 * den;
    var r0 := RoundPercent(0, den);
    assert m * r0 < m * 1;
    CancelFactor(m, r0, 1);
    assert m * (-1) < m * (r0 + 1) - m;
    CancelFactor(m, -1, r0);
    var r := RoundPercent(den, den);
    assert m * r < m * 101;
    CancelFactor(m, r, 101);
    assert m * 99 < m * (r + 1) - m;
    CancelFactor(m, 99, r);
  }

  /**
   23 of 40 is exactly 57.5 per cent, which the exact model rounds up to 58. In
   doubles, `(23 / 40) * 100` is 57.49999999999999, so JavaScript shows 57.
   */
  lemma HalfwayRoundsUp()
    ensures PercentOf(23, 40) == Some(58)
  {
  }

  /** A larger part never rounds to a smaller percentage. */
  lemma PercentMonotone(a: int, b: int, den: int)
    requires den > 0
    requires a <= b
    ensures RoundPercent(a, den) <= RoundPercent(b, den)
  {
    var m := 2 * den;
    var ra, rb := RoundPercent(a, den), RoundPercent(b, den);
    assert m * ra < m * (rb + 1);
    CancelFactor(m, ra, rb + 1);
  }
}
