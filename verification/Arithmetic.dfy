/** Facts about products, division and set sizes that the solver needs spelled out. */
module Arithmetic {

  lemma MulNonNegative(a: int, b: int)
    requires a >= 0 && b >= 0
    ensures a * b >= 0
  {
  }

  lemma MulAtLeast(n: int, d: int)
    requires n > 0 && d >= 1
    ensures n * d >= n
  {
    assert n * d == n + n * (d - 1);
    MulNonNegative(n, d - 1);
  }

  // Quotient and remainder are determined
  lemma DivUnique(x: int, n: int, k: int, r: int)
    requires n > 0 && 0 <= r < n && x == n * k + r
    ensures x % n == r && x / n == k
  {
    var q, m := x / n, x % n;
    assert x == n * q + m && 0 <= m < n;
    assert n * (k - q) == m - r by { assert n * (k - q) == n * k - n * q; }
    if k > q {
      MulAtLeast(n, k - q);
    } else if q > k {
      assert n * (q - k) == r - m by { assert n * (q - k) == n * q - n * k; }
      MulAtLeast(n, q - k);
    }
  }

  lemma SubsetSize<T>(a: set<T>, b: set<T>)
    requires a <= b
    ensures |a| <= |b|
  {
    assert b == a + (b - a);
  }
}
