/** Facts about multiplication and Euclidean division by a positive step. */
module Arith {

  lemma MulStep(x: int, d: int)
    ensures (x + 1) * d == x * d + d
  {
  }

  lemma {:induction false} MulAtLeast(x: int, d: int)
    requires x >= 1 && d >= 1
    ensures x * d >= d
    decreases x
  {
    if x > 1 {
      MulAtLeast(x - 1, d);
      MulStep(x - 1, d);
    }
  }

  /** Multiples of a positive step are at least one step apart. */
  lemma MulMonotone(x: int, y: int, d: int)
    requires d >= 1 && x < y
    ensures x * d + d <= y * d
  {
    assert (y - x) * d == y * d - x * d;
    MulAtLeast(y - x, d);
  }

  /** Quotient and remainder are determined by `n == q * d + r` with `0 <= r < d`. */
  lemma DivUnique(n: int, d: int, q: int, r: int)
    requires d >= 1 && 0 <= r < d && n == q * d + r
    ensures n / d == q && n % d == r
  {
    var q', r' := n / d, n % d;
    assert n == q' * d + r';
    if q > q' {
      MulMonotone(q', q, d);
    } else if q < q' {
      MulMonotone(q, q', d);
    }
  }

  lemma DivMonotone(a: int, b: int, d: int)
    requires d >= 1 && a <= b
    ensures a / d <= b / d
  {
    var qa, qb := a / d, b / d;
    assert a == qa * d + a % d;
    assert b == qb * d + b % d;
    if qa > qb {
      MulMonotone(qb, qa, d);
    }
  }

  /** A whole number of steps is a non-negative multiple with no remainder. */
  lemma MulMultiple(k: int, d: int)
    requires k >= 0 && d >= 1
    ensures k * d >= 0 && (k * d) / d == k && (k * d) % d == 0
  {
    if k > 0 {
      MulAtLeast(k, d);
    }
    DivUnique(k * d, d, k, 0);
  }

  /** Euclidean division of a non-negative number by a positive step. */
  lemma DivSplit(n: int, d: int)
    requires n >= 0 && d >= 1
    ensures n / d >= 0 && 0 <= n % d < d && n == (n / d) * d + n % d
  {
  }
}
