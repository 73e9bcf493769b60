/** Facts about Euclidean division by a positive divisor, which coincides with Python's
    floor division `//` and `%` for such divisors. */
module Arithmetic {

  lemma {:induction false} MulAtLeast(a: int, k: int)
    requires a >= 1 && k > 0
    ensures a * k >= k
    decreases a
  {
    if a > 1 {
      MulAtLeast(a - 1, k);
      assert a * k == (a - 1) * k + k;
    }
  }

  /** A quotient and remainder that rebuild `n` are the ones division computes. */
  lemma DivUnique(n: int, k: int, q: int, r: int)
    requires k > 0 && 0 <= r < k && n == q * k + r
    ensures n / k == q && n % k == r
  {
    var q', r' := n / k, n % k;
    assert n == q' * k + r';
    assert (q - q') * k == r' - r;
    if q > q' {
      MulAtLeast(q - q', k);
    } else if q < q' {
      MulAtLeast(q' - q, k);
    }
  }

  /** Adding the divisor adds one to the quotient and keeps the remainder. */
  lemma DivShift(x: int, k: int)
    requires k > 0
    ensures (x + k) / k == x / k + 1 && (x + k) % k == x % k
  {
    var q, r := x / k, x % k;
    assert x + k == (q + 1) * k + r;
    DivUnique(x + k, k, q + 1, r);
  }
}
