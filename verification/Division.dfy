/** Facts about quotients and remainders that the solver does not find alone. */
module Division {

  lemma SmallMultiple(d: int, n: nat)
    requires n > 0 && 0 - n < d * n < n
    ensures d == 0
  {
  }

  /** Quotient and remainder are unique. */
  lemma Quotient(x: nat, n: nat, q: nat, r: nat)
    requires r < n && x == q * n + r
    ensures x / n == q && x % n == r
  {
    assert (x / n - q) * n == r - x % n;
    SmallMultiple(x / n - q, n);
  }

  lemma RemainderStep(x: nat, n: nat)
    requires 0 < n <= x
    ensures x % n == (x - n) % n
  {
    var q, r := (x - n) / n, (x - n) % n;
    assert x - n == q * n + r;
    assert x == (q + 1) * n + r;
    Quotient(x, n, q + 1, r);
  }
}
