/**
  Facts about products and quotients that the proofs use by name.
 */
module Arithmetic {

  lemma ProductMonotone(a: nat, b: nat, n: nat)
    requires a <= b
    ensures a * n <= b * n
  {}

  lemma QuotientAtMost(a: nat, n: nat, q: nat)
    requires n > 0 && a < (q + 1) * n
    ensures a / n <= q
  {
    if a / n > q { ProductMonotone(q + 1, a / n, n); }
  }

  lemma QuotientMonotone(a: nat, b: nat, n: nat)
    requires a <= b && n > 0
    ensures a / n <= b / n
  {
    QuotientAtMost(a, n, b / n);
  }

  lemma QuotientLess(a: nat, n: nat)
    requires n > 0 && a >= n
    ensures (a - n) / n < a / n
  {
    var q := a / n;
    assert a < (q + 1) * n;
    assert (q - 1 + 1) * n == (q + 1) * n - n;
    QuotientAtMost(a - n, n, q - 1);
  }

  lemma MultipleOf(q: nat, n: nat)
    requires n > 0
    ensures q * n % n == 0 && q * n / n == q
  {
    var d, r := q * n / n, q * n % n;
    assert q * n == d * n + r;
    if q > d { ProductMonotone(d + 1, q, n); }
    if q < d { ProductMonotone(q + 1, d, n); }
  }

  /** Lengths in whole cipher blocks add up to whole cipher blocks. */
  lemma SumOfBlocks(a: nat, b: nat)
    requires a % 16 == 0 && b % 16 == 0
    ensures (a + b) % 16 == 0
  {}
}
