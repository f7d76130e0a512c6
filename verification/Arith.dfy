/** Small non-linear facts, kept apart so that no larger proof needs non-linear reasoning. */
module Arith {

  lemma MulDistrib(a: int, b: int, c: int)
    ensures (a + b) * c == a * c + b * c
    ensures (a - b) * c == a * c - b * c
  {
  }

  lemma MulAssoc(a: int, b: int, c: int)
    ensures (a * b) * c == a * (b * c)
  {
  }

  lemma SwapFactors(a: int, b: int, c: int)
    ensures (a * b) * c == (a * c) * b
  {
  }

  /** A product with a factor of at least 1 is at least the other, non-negative, factor. */
  lemma MulAtLeast(a: int, n: int)
    requires a >= 1 && n >= 0
    ensures a * n >= n
  {
    MulDistrib(a - 1, 1, n);
    MulNonneg(a - 1, n);
  }

  lemma MulNonneg(a: int, n: int)
    requires a >= 0 && n >= 0
    ensures a * n >= 0
  {
  }

  lemma MulMonotone(a: int, b: int, n: int)
    requires a <= b && n >= 0
    ensures a * n <= b * n
  {
    MulNonneg(b - a, n);
    MulDistrib(b, a, n);
  }

  lemma DivMod(x: int, n: int)
    requires n > 0
    ensures x == (x / n) * n + x % n && 0 <= x % n < n
  {
  }

  lemma ModUnique(x: int, q: int, r: int, n: int)
    requires n > 0 && 0 <= r < n && x == q * n + r
    ensures x % n == r && x / n == q
  {
    var q', r' := x / n, x % n;
    DivMod(x, n);
    MulDistrib(q, q', n);
    MulDistrib(q', q, n);
    if q > q' { MulAtLeast(q - q', n); }
    if q < q' { MulAtLeast(q' - q, n); }
  }

  lemma ModMultiple(x: int, k: int, n: int)
    requires n > 0
    ensures (x + k * n) % n == x % n
  {
    var r, q := x % n, x / n;
    DivMod(x, n);
    MulDistrib(q, k, n);
    ModUnique(x + k * n, q + k, r, n);
  }

  /** The remainder of the next number: one more, or zero again. */
  lemma NextMod(p: nat, n: nat)
    requires n > 0
    ensures (p + 1) % n == if p % n + 1 >= n then 0 else p % n + 1
  {
    DivMod(p, n);
    if p % n + 1 < n {
      ModUnique(p + 1, p / n, p % n + 1, n);
    } else {
      MulDistrib(p / n, 1, n);
      ModUnique(p + 1, p / n + 1, 0, n);
    }
  }
}
