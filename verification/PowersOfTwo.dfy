/** Powers of two, and rounding up to one. */
module PowersOfTwo {
  import opened Arithmetic

  predicate PowerOfTwo(n: nat) {
    n == 1 || (n > 1 && n % 2 == 0 && PowerOfTwo(n / 2))
  }

  /** The least power of two that is at least `n` and at least `from`. */
  function NextPowerOfTwo(n: nat, from: nat := 1): (p: nat)
    requires PowerOfTwo(from) && (from == 1 || from / 2 < n)
    ensures PowerOfTwo(p) && from <= p && n <= p && (p == 1 || p / 2 < n)
    decreases n - from
  {
    if n <= from then from else NextPowerOfTwo(n, 2 * from)
  }

  /** Of two powers of two, twice the smaller divides the larger. */
  lemma {:induction false} SmallerDivides(a: nat, b: nat)
    requires PowerOfTwo(a) && PowerOfTwo(b) && a < b
    ensures 2 * a <= b && b % (2 * a) == 0
  {
    if a > 1 {
      SmallerDivides(a / 2, b / 2);
      var k := b / 2 / a;
      assert b / 2 == a * k && b == (2 * a) * k;
      ResidueIs(b, 0, 2 * a, k);
    }
  }

  lemma Divides(a: nat, b: nat, x: nat)
    requires PowerOfTwo(a) && PowerOfTwo(b) && a <= b && x % b == 0
    ensures x % a == 0
  {
    assert a > 0;
    hide PowerOfTwo;
    if a < b {
      SmallerDivides(a, b);
      ResidueIs(2 * a, 0, a, 2);
      DividesThrough(a, 2 * a, b);
      DividesThrough(a, b, x);
    }
  }
}
