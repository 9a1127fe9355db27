/** Facts about products, quotients and remainders that the solver needs spelled out. */
module Arithmetic {

  lemma QuotientBounds(a: nat, d: nat)
    requires d > 0
    ensures 0 <= a / d && a / d * d <= a < a / d * d + d
  {
  }

  lemma DivModUnique(a: nat, d: nat, q: nat, r: nat)
    requires a == q * d + r && r < d
    ensures a / d == q && a % d == r
  {
    var q' := a / d;
    QuotientBounds(a, d);
    assert q' > q ==> q' * d >= (q + 1) * d;
    assert q' < q ==> (q' + 1) * d <= q * d;
  }

  lemma QuotientMonotone(a: nat, b: nat, d: nat)
    requires a <= b && d > 0
    ensures a / d <= b / d
  {
    var p, q := a / d, b / d;
    QuotientBounds(a, d);
    QuotientBounds(b, d);
    assert p > q ==> p * d >= (q + 1) * d;
  }

  lemma ProductMonotone(a: nat, b: nat, c: nat)
    requires a <= b
    ensures c * a <= c * b
  {
  }

  /** A quotient falls short of `size` whenever its numerator falls short of size * d. */
  lemma QuotientBelow(a: nat, size: nat, d: nat)
    requires d > 0 && a < size * d
    ensures a / d < size
  {
    var q := a / d;
    QuotientBounds(a, d);
    assert q >= size ==> q * d >= size * d;
  }

  lemma ProductLess(a: nat, b: nat, c: nat)
    requires a < b && c > 0
    ensures a * c < b * c
  {
  }
}
