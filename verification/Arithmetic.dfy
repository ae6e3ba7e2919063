/** Integers: the larger and the smaller, shares in basis points, and facts about floor division that
    the solver needs spelled out. */
module Arithmetic {

  /** The denominator of every share. */
  const BASIS_POINTS := 10_000

  function Max(a: int, b: int): int {
    if a < b then b else a
  }

  function Min(a: int, b: int): int {
    if a < b then a else b
  }

  lemma MultiplyMonotone(a: int, b: int, d: int)
    requires a <= b && d >= 0
    ensures a * d <= b * d
  {
    assert (b - a) * d >= 0;
  }

  lemma ProductWithin(a: int, b: int, c: int, d: int)
    requires 0 <= a <= b && 0 <= c <= d
    ensures 0 <= a * c <= b * d
  {
    MultiplyMonotone(0, a, c);
    MultiplyMonotone(a, b, c);
    MultiplyMonotone(c, d, b);
  }

  /** `q` is the quotient exactly when `x` lies in its slot. */
  lemma DivideIs(x: int, d: int, q: int)
    requires d > 0 && q * d <= x < q * d + d
    ensures x / d == q
  {
    var p := x / d;
    assert x == p * d + x % d;
    if p < q {
      MultiplyMonotone(p + 1, q, d);
    } else if p > q {
      MultiplyMonotone(q + 1, p, d);
    }
  }

  lemma DivideMonotone(x: int, y: int, d: int)
    requires x <= y && d > 0
    ensures x / d <= y / d
  {
    var p, q := x / d, y / d;
    assert x == p * d + x % d && y == q * d + y % d;
    if q < p {
      MultiplyMonotone(q + 1, p, d);
    }
  }

  /** Whole quotients lie in their slots, and only they. */
  lemma QuotientIs(x: int, d: int, q: int)
    requires d > 0
    ensures x / d == q <==> q * d <= x < (q + 1) * d
  {
    assert (q + 1) * d == q * d + d;
    if q * d <= x < q * d + d { DivideIs(x, d, q); }
    assert x == x / d * d + x % d;
  }
}
