/** Facts about products, quotients and remainders that the solver does not find
    by itself when the divisor is a variable. */
module Arith {
  function Min(a: int, b: int): int { if a < b then a else b }

  lemma MulMonotone(a: int, b: int, n: nat)
    requires a <= b
    ensures a * n <= b * n && n * a <= n * b
  {
  }

  lemma MulGrows(a: int, b: int, n: int)
    requires a < b && n >= 0
    ensures a * n + n <= b * n
  {
    var d := b - a - 1;
    assert d * n >= 0;
    assert b * n == (a + 1 + d) * n == a * n + n + d * n;
  }

  /** Quotient and remainder are determined by `x == q * n + r`. */
  lemma DivModUnique(x: int, q: int, r: int, n: int)
    requires 0 <= r < n && x == q * n + r
    ensures x / n == q && x % n == r
  {
    var q' := x / n;
    assert x == q' * n + x % n;
    if q' < q {
      MulGrows(q', q, n);
      assert false;
    } else if q < q' {
      MulGrows(q, q', n);
      assert false;
    }
  }

  lemma Regroup(i: int, a: int, j: int, w: int)
    ensures i * (a * w) + j * w == (i * a + j) * w
  {
    assert i * (a * w) == (i * a) * w;
  }
}
