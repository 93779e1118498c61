/** Division by a positive divisor. */
module Division {

  lemma AtLeast(k: nat, n: int)
    requires n > 0
    ensures k * n >= k
  {
  }

  /** Quotient and remainder are unique. */
  lemma Quotient(p: nat, k: nat, q: nat, r: nat)
    requires r < k && p == k * q + r
    ensures p / k == q && p % k == r
  {
    var q', r' := p / k, p % k;
    assert p == k * q' + r';
    assert k * (q - q') == k * q - k * q';
    assert k * (q' - q) == k * q' - k * q;
    if q > q' {
      AtLeast(k, q - q');
    } else if q < q' {
      AtLeast(k, q' - q);
    }
  }
}
