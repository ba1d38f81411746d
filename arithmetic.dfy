/** Facts about multiplication and floor division by a positive number that the
    solver does not find on its own. */
module Arithmetic {
  lemma MulMonotone(d: int, x: int, y: int)
    requires d > 0 && x <= y
    ensures d * x <= d * y
  {
  }

  /** Floor division by a positive number is monotone. */
  lemma DivMonotone(a: int, b: int, d: int)
    requires 0 <= a <= b && d > 0
    ensures 0 <= a / d <= b / d
  {
    if a / d > b / d {
      assert d * (a / d) >= d * (b / d + 1) by {
        MulMonotone(d, b / d + 1, a / d);
      }
    }
  }

  /** The quotient reaches `k` exactly when the dividend reaches `k` times the divisor. */
  lemma DivAtLeast(x: int, d: int, k: int)
    requires x >= 0 && d > 0
    ensures x / d >= k <==> x >= k * d
  {
    var q := x / d;
    assert x == d * q + x % d;
    if q >= k {
      MulMonotone(d, k, q);
    } else {
      MulMonotone(d, q + 1, k);
    }
  }

  /** A product of a positive factor and a factor of at least one is at least the
      positive factor. */
  lemma MulAtLeast(m: int, d: int)
    requires m >= 1 && d > 0
    ensures m * d >= d
  {
    assert (m - 1) * d >= 0;
    assert m * d == (m - 1) * d + d;
  }

  /** Twice an integer is never odd. */
  lemma EvenNotOdd(x: int, d: int)
    requires d % 2 == 1
    ensures 2 * x != d
  {
  }

  /** A quotient by a positive number is bounded as the dividend is. */
  lemma QuotientBound(t: real, n: real, b: real)
    requires n > 0.0 && 0.0 <= t <= n * b
    ensures 0.0 <= t / n <= b
  {
  }

  /** Converting a product to a real converts each factor. */
  lemma MulAsReal(x: int, y: int)
    ensures (x * y) as real == x as real * y as real
  {
  }
}
