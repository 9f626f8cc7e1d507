/** Facts about products and quotients that several drivers' arithmetic rests on. */
module Arithmetic {

  lemma Monotone(a: nat, b: nat, c: nat)
    requires a <= b
    ensures a * c <= b * c
  {
  }

  lemma StrictlyMore(a: nat, b: nat, c: nat)
    requires a < b
    ensures a * c + c <= b * c
  {
    Monotone(a + 1, b, c);
    assert (a + 1) * c == a * c + c;
  }

  /** The quotient is the only number of whole divisors that fits. */
  lemma DivUnique(v: nat, d: nat, q: nat)
    requires d > 0 && q * d <= v < q * d + d
    ensures v / d == q
  {
    var k := v / d;
    assert v == k * d + v % d;
    if k < q { StrictlyMore(k, q, d); }
    if q < k { StrictlyMore(q, k, d); }
  }
}
