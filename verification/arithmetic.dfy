/** Facts about multiplication, division and remainder on naturals, shared by the address and octet arithmetic. */
module Arithmetic {

  lemma MulMono(a: nat, b: nat, p: nat)
    requires a <= b
    ensures a * p <= b * p
  {
  }

  lemma DivBelow(v: nat, p: nat, k: nat)
    requires p >= 1 && v < k * p
    ensures v / p < k
  {
    assert v == (v / p) * p + v % p;
  }

  /** Quotient and remainder are the only pair with `x == q * p + r` and `r < p`. */
  lemma DivModUnique(q: nat, r: nat, p: nat)
    requires r < p
    ensures (q * p + r) / p == q && (q * p + r) % p == r
  {
    var x := q * p + r;
    var d, m := x / p, x % p;
    assert x == d * p + m;
    if d > q {
      MulMono(q + 1, d, p);
      assert false;
    } else if d < q {
      MulMono(d + 1, q, p);
      assert false;
    }
  }
}
