/** Exact integer model of `Math.round(p / q)`: the nearest integer, halves rounded upward. */
module Rounding {

  /** `Math.round(num / den)` for a positive denominator, without floating point. */
  function RoundDiv(num: int, den: int): (r: int)
    requires den > 0
    ensures 2 * den * r <= 2 * num + den < 2 * den * (r + 1)
  {
    (2 * num + den) / (2 * den)
  }

  /** Multiplying both sides of a strict inequality by a positive factor can be undone. */
  lemma CancelPositiveFactor(d: int, a: int, b: int)
    requires d > 0
    requires d * a < d * b
    ensures a < b
  {
    assert d * (b - a) > 0;
  }

  /** A quotient lying between `lo` and `hi` rounds to a value between them. */
  lemma RoundDivWithin(num: int, den: int, lo: int, hi: int)
    requires den > 0
    requires lo * den <= num <= hi * den
    ensures lo <= RoundDiv(num, den) <= hi
  {
    var r := RoundDiv(num, den);
    assert 2 * den * r < 2 * den * (hi + 1) by {
      assert 2 * den * r <= 2 * num + den;
      assert 2 * num + den <= 2 * (hi * den) + den;
      assert 2 * (hi * den) + den < 2 * den * (hi + 1);
    }
    CancelPositiveFactor(2 * den, r, hi + 1);
    assert 2 * den * (lo - 1) < 2 * den * (r + 1) by {
      assert 2 * den * (lo - 1) < 2 * (lo * den) + den;
      assert 2 * (lo * den) + den <= 2 * num + den;
    }
    CancelPositiveFactor(2 * den, lo - 1, r + 1);
  }

  /** An exact quotient is returned unchanged. */
  lemma RoundDivExact(k: int, den: int)
    requires den > 0
    ensures RoundDiv(k * den, den) == k
  {
    RoundDivWithin(k * den, den, k, k);
  }

  /** Rounding is monotone in the numerator. */
  lemma RoundDivMonotone(n1: int, n2: int, den: int)
    requires den > 0
    requires n1 <= n2
    ensures RoundDiv(n1, den) <= RoundDiv(n2, den)
  {
    var r1, r2 := RoundDiv(n1, den), RoundDiv(n2, den);
    assert 2 * den * r1 < 2 * den * (r2 + 1) by {
      assert 2 * den * r1 <= 2 * n1 + den <= 2 * n2 + den;
    }
    CancelPositiveFactor(2 * den, r1, r2 + 1);
  }
}
