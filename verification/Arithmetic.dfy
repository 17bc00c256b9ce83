/** Division and remainder by a variable divisor, the only non-linear facts the project needs. */
module Arithmetic {
  lemma AtLeastOneMultiple(k: int, n: nat)
    requires 0 < k
    ensures n <= k * n
  {
    assert k * n == n + (k - 1) * n;
  }

  /** Euclidean division is unique. */
  lemma DivModUnique(x: nat, n: nat, q: int, r: int)
    requires 0 < n && 0 <= r < n
    requires x == q * n + r
    ensures x / n == q && x % n == r
  {
    var d := q - x / n;
    assert d * n == x % n - r by {
      assert x == (x / n) * n + x % n;
      assert d * n == q * n - (x / n) * n;
    }
    if d > 0 {
      AtLeastOneMultiple(d, n);
    } else if d < 0 {
      AtLeastOneMultiple(-d, n);
    }
  }

  lemma DivMonotone(x: nat, y: nat, n: nat)
    requires 0 < n && x <= y
    ensures x / n <= y / n
  {
    var d := x / n - y / n;
    assert d * n == (x / n) * n - (y / n) * n;
    if d > 0 {
      AtLeastOneMultiple(d, n);
    }
  }
}
