/** Facts about products, quotients and remainders that the proofs use one at a time. */
module Arith {

  lemma MulCommutes(x: int, y: int)
    ensures x * y == y * x
  {
  }

  lemma MulNonNegative(x: int, y: int)
    requires x >= 0 && y >= 0
    ensures x * y >= 0
  {
  }

  lemma MulPositive(x: int, y: int)
    requires x > 0 && y > 0
    ensures x * y > 0
  {
  }

  lemma MulSucc(x: int, d: int)
    ensures (x + 1) * d == x * d + d
  {
  }

  lemma MulAdd(x: int, y: int, d: int)
    ensures (x + y) * d == x * d + y * d
  {
  }

  lemma MulGap(a: int, q: int, d: int)
    requires d > 0
    ensures a < q ==> a * d + d <= q * d
  {
    if a < q {
      MulNonNegative(q - a - 1, d);
      assert (q - a - 1) * d == q * d - a * d - d;
    }
  }

  lemma DivModUnique(x: int, d: int, q: int, r: int)
    requires d > 0 && x == q * d + r && 0 <= r < d
    ensures x / d == q && x % d == r
  {
    var a, b := x / d, x % d;
    assert a * d + b == x;
    MulGap(a, q, d);
    MulGap(q, a, d);
  }

  lemma ModHalf(i: int, p: int)
    requires p > 0
    ensures i % p == if i % (2 * p) < p then i % (2 * p) else i % (2 * p) - p
  {
    var q, r := i / (2 * p), i % (2 * p);
    assert i == q * (2 * p) + r;
    if r < p { DivModUnique(i, p, 2 * q, r); } else { DivModUnique(i, p, 2 * q + 1, r - p); }
  }

  lemma ModPlus(i: int, p: int, d: int)
    requires 0 <= p < d
    ensures (i + p) % d == if i % d + p < d then i % d + p else i % d + p - d
  {
    var q, r := i / d, i % d;
    assert i == q * d + r;
    if r + p < d { DivModUnique(i + p, d, q, r + p); } else { DivModUnique(i + p, d, q + 1, r + p - d); }
  }

  lemma ModMinus(i: int, p: int, d: int)
    requires 0 <= p < d
    ensures (i - p) % d == if i % d >= p then i % d - p else i % d - p + d
  {
    var q, r := i / d, i % d;
    assert i == q * d + r;
    if r >= p { DivModUnique(i - p, d, q, r - p); } else { DivModUnique(i - p, d, q - 1, r - p + d); }
  }

  /** The block of `p` indices that holds `i` ends within `n` blocks. */
  lemma BlockBound(n: int, p: int, i: int)
    requires p > 0 && 0 <= i < n * p
    ensures 0 <= i - i % p <= n * p - p
  {
    var q := i / p;
    assert i - i % p == q * p;
    MulGap(n - 1, q, p);
    MulGap(q, n, p);
    MulGap(q, 0, p);
    assert (n - 1) * p == n * p - p;
  }
}
