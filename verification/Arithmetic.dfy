/** Division with a remainder, for divisors that are not constants. */
module Arithmetic {
  lemma MultipleIsLarge(q: int, d: int)
    requires q > 0 && d != 0
    ensures q * d >= q || q * d <= 0 - q
  {
  }

  lemma NonNegative(a: int, b: int)
    requires a >= 0 && b >= 0
    ensures a * b >= 0
  {
  }

  /** A number between 0 and q has one way to be q times something off another. */
  lemma ResidueIs(x: int, r: int, q: nat, k: int)
    requires 0 <= r < q && x == r + q * k
    ensures x % q == r
  {
    var d := x / q - k;
    assert q * d == q * (x / q) - q * k;
    if d != 0 {
      MultipleIsLarge(q, d);
    }
  }

  lemma DividesThrough(a: nat, b: nat, x: nat)
    requires a > 0 && b > 0 && b % a == 0 && x % b == 0
    ensures x % a == 0
  {
    var k, l := b / a, x / b;
    assert x == l * (a * k) == a * (l * k);
    ResidueIs(x, 0, a, l * k);
  }
}
