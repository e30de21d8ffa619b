/** Quotients and remainders, identified by their defining equation. */
module Division {
  lemma Scaled(d: nat, a: int, b: int)
    requires a <= b
    ensures d * a <= d * b
  {
  }

  lemma Quotient(n: int, d: nat, q: int, r: nat)
    requires n == d * q + r && r < d
    ensures n / d == q && n % d == r
  {
    var p := n / d;
    assert n == d * p + n % d;
    if p < q {
      Scaled(d, p + 1, q);
    } else if q < p {
      Scaled(d, q + 1, p);
    }
  }
}
