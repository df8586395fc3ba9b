/** Division and multiples. */
module Arithmetic {

  lemma Spread(j: nat, k: nat, n: nat)
    requires j < k
    ensures k * n >= j * n + n
  {
    assert k * n == j * n + (k - j) * n;
    assert (k - j) * n == n + (k - j - 1) * n;
  }

  /** The quotient and remainder of x by n are the q and r with x == q * n + r and r < n. */
  lemma Quotient(x: nat, n: nat, q: nat, r: nat)
    requires r < n && x == q * n + r
    ensures x / n == q && x % n == r
  {
    var q', r' := x / n, x % n;
    assert x == q' * n + r' by { assert n * q' == q' * n; }
    if q > q' { Spread(q', q, n); }
    if q < q' { Spread(q, q', n); }
  }
}
