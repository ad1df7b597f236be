/** Facts about division with remainder that the other modules use. */
module Modular {

  lemma DivModUnique(x: int, q: int, r: int, n: int)
    requires 0 <= r < n && x == q * n + r
    ensures x / n == q && x % n == r
  {
    var q' := x / n;
    assert x == q' * n + x % n;
    assert (q' - q) * n == q' * n - q * n;
    assert (q - q') * n == q * n - q' * n;
    if q' > q {
      MulAtLeast(q' - q, n);
    } else if q' < q {
      MulAtLeast(q - q', n);
    }
  }

  lemma MulAtLeast(k: int, n: int)
    requires k >= 1 && n >= 0
    ensures k * n >= n
  {
    assert k * n == (k - 1) * n + n;
    MulNonNegative(k - 1, n);
  }

  lemma MulNonNegative(k: int, n: int)
    requires k >= 0 && n >= 0
    ensures k * n >= 0
  {
  }

  /** Adding a multiple of n does not change the remainder. */
  lemma AddMultiple(x: int, k: int, n: int)
    requires n > 0
    ensures (x + k * n) % n == x % n && (x + k * n) / n == x / n + k
  {
    assert x + k * n == (x / n + k) * n + x % n;
    DivModUnique(x + k * n, x / n + k, x % n, n);
  }

  /** Only the remainder of an addend matters. */
  lemma AddMod(x: int, y: int, n: int)
    requires n > 0
    ensures (x % n + y) % n == (x + y) % n
  {
    assert x + y == (x % n + y) + (x / n) * n;
    AddMultiple(x % n + y, x / n, n);
  }

  lemma MulMonotone(x: int, y: int, n: int)
    requires x <= y && n >= 0
    ensures x * n <= y * n
  {
    MulNonNegative(y - x, n);
    assert (y - x) * n == y * n - x * n;
  }

  lemma DivMonotone(x: int, y: int, n: int)
    requires n > 0 && x <= y
    ensures x / n <= y / n
  {
    var p, q := x / n, y / n;
    assert x == p * n + x % n && y == q * n + y % n;
    assert (p - q) * n == p * n - q * n;
    if p > q {
      MulAtLeast(p - q, n);
    }
  }
}
