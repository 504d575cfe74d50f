/** Polynomials modulo x^n + 1 with integer coefficients. */
module Ring {
  type Poly = seq<int>

  function Zero(n: nat): Poly {
    seq(n, i => 0)
  }

  function Add(p: Poly, q: Poly): (r: Poly)
    requires |p| == |q|
    ensures |r| == |p|
  {
    seq(|p|, i requires 0 <= i < |p| => p[i] + q[i])
  }

  function Sub(p: Poly, q: Poly): (r: Poly)
    requires |p| == |q|
    ensures |r| == |p|
  {
    seq(|p|, i requires 0 <= i < |p| => p[i] - q[i])
  }

  function Scale(c: int, p: Poly): (r: Poly)
    ensures |r| == |p|
  {
    seq(|p|, i requires 0 <= i < |p| => c * p[i])
  }

  /** Multiplication by x: the top coefficient wraps around with its sign flipped. */
  function Shift(p: Poly): (r: Poly)
    ensures |r| == |p|
  {
    if p == [] then [] else [-p[|p| - 1]] + p[..|p| - 1]
  }

  /** The product, by Horner's rule on the first factor. */
  function Mul(c: Poly, p: Poly): (r: Poly)
    ensures |r| == |p|
  {
    if c == [] then Zero(|p|) else Add(Scale(c[0], p), Shift(Mul(c[1..], p)))
  }

  function One(n: nat): Poly
    requires n > 0
  {
    [1] + Zero(n - 1)
  }

  // ---- algebra ----

  lemma AddShuffle(a: Poly, b: Poly, c: Poly, d: Poly)
    requires |a| == |b| == |c| == |d|
    ensures Add(Add(a, b), Add(c, d)) == Add(Add(a, c), Add(b, d))
  {
  }

  lemma ShiftAdd(p: Poly, q: Poly)
    requires |p| == |q|
    ensures Shift(Add(p, q)) == Add(Shift(p), Shift(q))
  {
    if p != [] {
      var top := |p| - 1;
      assert Add(p, q)[..top] == Add(p[..top], q[..top]) && Add(p, q)[top] == p[top] + q[top];
      assert Add(Shift(p), Shift(q)) == [-p[top] - q[top]] + Add(p[..top], q[..top]);
    }
  }

  lemma ShiftScale(c: int, p: Poly)
    ensures Shift(Scale(c, p)) == Scale(c, Shift(p))
  {
  }

  lemma ScaleAdd(c: int, p: Poly, q: Poly)
    requires |p| == |q|
    ensures Scale(c, Add(p, q)) == Add(Scale(c, p), Scale(c, q))
  {
    forall i | 0 <= i < |p| ensures c * (p[i] + q[i]) == c * p[i] + c * q[i] {
    }
  }

  lemma ScaleScale(c: int, d: int, p: Poly)
    ensures Scale(c, Scale(d, p)) == Scale(d, Scale(c, p))
  {
  }

  lemma {:induction false} MulShift(c: Poly, p: Poly)
    ensures Mul(c, Shift(p)) == Shift(Mul(c, p))
  {
    if c == [] {
      assert Shift(Zero(|p|)) == Zero(|p|);
    } else {
      MulShift(c[1..], p);
      ShiftAdd(Scale(c[0], p), Shift(Mul(c[1..], p)));
      ShiftScale(c[0], p);
    }
  }

  lemma {:induction false} MulAdd(c: Poly, p: Poly, q: Poly)
    requires |p| == |q|
    ensures Mul(c, Add(p, q)) == Add(Mul(c, p), Mul(c, q))
  {
    if c == [] {
      assert Add(Zero(|p|), Zero(|p|)) == Zero(|p|);
    } else {
      MulAdd(c[1..], p, q);
      ScaleAdd(c[0], p, q);
      ShiftAdd(Mul(c[1..], p), Mul(c[1..], q));
      AddShuffle(Scale(c[0], p), Scale(c[0], q), Shift(Mul(c[1..], p)), Shift(Mul(c[1..], q)));
    }
  }

  lemma {:induction false} MulScale(c: Poly, k: int, p: Poly)
    ensures Mul(c, Scale(k, p)) == Scale(k, Mul(c, p))
  {
    if c == [] {
      assert Scale(k, Zero(|p|)) == Zero(|p|);
    } else {
      MulScale(c[1..], k, p);
      ScaleScale(c[0], k, p);
      ShiftScale(k, Mul(c[1..], p));
      ScaleAdd(k, Scale(c[0], p), Shift(Mul(c[1..], p)));
    }
  }

  /** Multiplications by two polynomials commute as operators. */
  lemma {:induction false} MulMul(a: Poly, b: Poly, p: Poly)
    ensures Mul(a, Mul(b, p)) == Mul(b, Mul(a, p))
  {
    if a == [] {
      MulZero(b, |p|);
    } else {
      var rest := Mul(a[1..], p);
      MulMul(a[1..], b, p);
      MulAdd(b, Scale(a[0], p), Shift(rest));
      MulScale(b, a[0], p);
      MulShift(b, rest);
    }
  }

  lemma {:induction false} MulZero(c: Poly, n: nat)
    ensures Mul(c, Zero(n)) == Zero(n)
  {
    if c != [] {
      MulZero(c[1..], n);
      assert Add(Scale(c[0], Zero(n)), Shift(Zero(n))) == Zero(n);
    }
  }

  lemma {:induction false} MulOne(c: Poly, n: nat)
    requires 0 < n && |c| <= n
    ensures Mul(c, One(n)) == c + Zero(n - |c|)
  {
    if c == [] {
      assert Zero(n) == [] + Zero(n);
    } else {
      MulOne(c[1..], n);
      MulOneStep(c[0], c[1..], n);
      assert [c[0]] + c[1..] == c;
    }
  }

  lemma MulOneStep(c0: int, rest: Poly, n: nat)
    requires |rest| < n
    ensures Add(Scale(c0, One(n)), Shift(rest + Zero(n - |rest|))) == [c0] + rest + Zero(n - |rest| - 1)
  {
  }

  lemma MulCommutes(a: Poly, b: Poly)
    requires |a| == |b|
    ensures Mul(a, b) == Mul(b, a)
  {
    if |a| > 0 {
      MulOne(a, |a|);
      MulOne(b, |b|);
      MulMul(a, b, One(|a|));
      assert a + Zero(0) == a && b + Zero(0) == b;
    }
  }

  lemma MulAssociates(a: Poly, b: Poly, c: Poly)
    requires |a| == |b| == |c|
    ensures Mul(Mul(a, b), c) == Mul(a, Mul(b, c))
  {
    MulCommutes(Mul(a, b), c);
    MulMul(c, a, b);
    MulCommutes(c, b);
  }

  lemma MulAddLeft(a: Poly, b: Poly, p: Poly)
    requires |a| == |b| == |p|
    ensures Mul(Add(a, b), p) == Add(Mul(a, p), Mul(b, p))
  {
    MulCommutes(Add(a, b), p);
    MulAdd(p, a, b);
    MulCommutes(p, a);
    MulCommutes(p, b);
  }

  // ---- coefficients ----

  /** Coefficient `i` of `p`, read past the bottom end with the sign flipped. */
  function At(p: Poly, i: int): int
    requires -|p| <= i < |p|
  {
    if i >= 0 then p[i] else -p[|p| + i]
  }

  /** The first `m` terms of the convolution sum for coefficient `k`. */
  function Convolve(c: Poly, p: Poly, k: int, m: nat): int
    requires m <= |c| && k < |p| && (m > 0 ==> -|p| <= k - (m - 1))
  {
    if m == 0 then 0 else Convolve(c, p, k, m - 1) + c[m - 1] * At(p, k - (m - 1))
  }

  lemma {:induction false} ConvolveFront(c: Poly, p: Poly, k: int, m: nat)
    requires 0 < m <= |c| && k < |p| && -|p| <= k - (m - 1)
    ensures Convolve(c, p, k, m) == c[0] * At(p, k) + Convolve(c[1..], p, k - 1, m - 1)
  {
    if m > 1 {
      ConvolveFront(c, p, k, m - 1);
    } else {
      assert Convolve(c, p, k, 1) == Convolve(c, p, k, 0) + c[0] * At(p, k);
    }
  }

  /** One step of Horner's rule, at one coefficient. */
  lemma AtHorner(c: int, p: Poly, rest: Poly, k: int)
    requires |p| == |rest| && -|p| <= k < |p| && (k > -|p| || rest == Zero(|p|))
    ensures At(Add(Scale(c, p), Shift(rest)), k) == c * At(p, k) + if k > -|p| then At(rest, k - 1) else 0
  {
    AtLinear(c, p, Shift(rest), k);
    AtShift(rest, k);
    hide Add, Scale, Shift;
  }

  lemma AtLinear(c: int, p: Poly, q: Poly, k: int)
    requires |p| == |q| && -|p| <= k < |p|
    ensures At(Add(Scale(c, p), q), k) == c * At(p, k) + At(q, k)
  {
    var i := if k >= 0 then k else |p| + k;
    assert Add(Scale(c, p), q)[i] == c * p[i] + q[i];
    assert -(c * p[i]) == c * -p[i];
  }

  lemma AtShift(p: Poly, k: int)
    requires -|p| <= k < |p| && (k > -|p| || p == Zero(|p|))
    ensures At(Shift(p), k) == if k > -|p| then At(p, k - 1) else 0
  {
    if k == -|p| {
      assert Shift(p)[0] == -p[|p| - 1] == 0;
    }
  }

  lemma MulAtStep(c: Poly, p: Poly, k: int)
    requires c != [] && -|p| <= k < |p| && -|p| <= k - |c| + 1
    requires k > -|p| ==> At(Mul(c[1..], p), k - 1) == Convolve(c[1..], p, k - 1, |c| - 1)
    ensures At(Mul(c, p), k) == Convolve(c, p, k, |c|)
  {
    hide Add, Scale, Shift, Zero, At;
    ConvolveFront(c, p, k, |c|);
    AtHorner(c[0], p, Mul(c[1..], p), k);
  }

  /** Horner's rule computes the negacyclic convolution, coefficient by coefficient. */
  lemma {:induction false} MulAt(c: Poly, p: Poly, k: int)
    requires -|p| <= k < |p| && -|p| <= k - |c| + 1
    ensures At(Mul(c, p), k) == Convolve(c, p, k, |c|)
  {
    hide At;
    if c == [] {
      AtZero(|p|, k);
    } else {
      if k > -|p| {
        MulAt(c[1..], p, k - 1);
      }
      MulAtStep(c, p, k);
    }
  }

  lemma AtZero(n: nat, k: int)
    requires 0 - n <= k < n
    ensures At(Zero(n), k) == 0
  {
  }

  lemma MulCoefficient(c: Poly, p: Poly, k: nat)
    requires |c| == |p| && k < |p|
    ensures Mul(c, p)[k] == Convolve(c, p, k, |c|)
  {
    MulAt(c, p, k);
  }

  /** The gather sum over `c` and the scatter sum over `p` are the same coefficient. */
  lemma GatherIsScatter(c: Poly, p: Poly, k: nat)
    requires |c| == |p| && k < |p|
    ensures Convolve(c, p, k, |c|) == Convolve(p, c, k, |p|)
  {
    MulCoefficient(c, p, k);
    MulCoefficient(p, c, k);
    MulCommutes(c, p);
  }

  // ---- sizes ----

  function Abs(x: int): nat {
    if x < 0 then -x else x
  }

  /** Sum of the absolute values of the coefficients. */
  function Weight(c: Poly): nat {
    if c == [] then 0 else Abs(c[0]) + Weight(c[1..])
  }

  ghost predicate Within(p: Poly, bound: nat) {
    forall i :: 0 <= i < |p| ==> Abs(p[i]) <= bound
  }

  lemma Distribute(a: nat, b: nat, c: nat)
    ensures (a + b) * c == a * c + b * c
  {
  }

  lemma ScaleWithin(c: int, p: Poly, bound: nat)
    requires Within(p, bound)
    ensures Within(Scale(c, p), Abs(c) * bound)
  {
    hide Abs;
    forall i | 0 <= i < |p| ensures Abs(Scale(c, p)[i]) <= Abs(c) * bound {
      AbsOfProduct(c, p[i], bound);
    }
  }

  lemma AbsOfProduct(x: int, y: int, bound: nat)
    requires Abs(y) <= bound
    ensures Abs(x * y) <= Abs(x) * bound
  {
    assert x * -y == -(x * y) && -x * y == -(x * y);
    if x < 0 {
      assert -x * Abs(y) <= -x * bound;
    } else {
      assert x * Abs(y) <= x * bound;
    }
  }

  lemma ShiftWithin(p: Poly, bound: nat)
    requires Within(p, bound)
    ensures Within(Shift(p), bound)
  {
  }

  lemma AddWithin(p: Poly, q: Poly, a: nat, b: nat)
    requires |p| == |q| && Within(p, a) && Within(q, b)
    ensures Within(Add(p, q), a + b)
  {
  }

  lemma NoProduct(p: Poly, bound: nat)
    ensures Within(Mul([], p), Weight([]) * bound)
  {
  }

  lemma FrontWithin(c: int, rest: Poly, p: Poly, weight: nat, total: nat, bound: nat)
    requires |rest| == |p| && Within(p, bound) && Within(rest, weight * bound) && total == Abs(c) + weight
    ensures Within(Add(Scale(c, p), Shift(rest)), total * bound)
  {
    hide Within, Scale, Add, Shift, Abs;
    ScaleWithin(c, p, bound);
    ShiftWithin(rest, weight * bound);
    AddWithin(Scale(c, p), Shift(rest), Abs(c) * bound, weight * bound);
    Distribute(Abs(c), weight, bound);
  }

  /** A product is bounded by the weight of one factor times the bound of the other. */
  lemma {:induction false} MulWithin(c: Poly, p: Poly, bound: nat)
    requires Within(p, bound)
    ensures Within(Mul(c, p), Weight(c) * bound)
  {
    if c == [] {
      NoProduct(p, bound);
    } else {
      hide Within;
      MulWithin(c[1..], p, bound);
      FrontWithin(c[0], Mul(c[1..], p), p, Weight(c[1..]), Weight(c), bound);
      hide Scale, Add, Shift, Abs;
    }
  }

  /** x^i. */
  function Monomial(n: nat, i: nat): (p: Poly)
    requires i < n
    ensures |p| == n
  {
    Zero(n)[i := 1]
  }

  lemma {:induction false} ConvolveMonomial(n: nat, i: nat, p: Poly, k: nat, m: nat)
    requires i < n == |p| && m <= n && k < n
    ensures Convolve(Monomial(n, i), p, k, m) == if i < m then At(p, k - i) else 0
  {
    hide At;
    if m > 0 {
      ConvolveMonomial(n, i, p, k, m - 1);
      assert Monomial(n, i)[m - 1] == if m - 1 == i then 1 else 0;
    }
  }

  /** x^i * x^j is x^(i + j), and past the top x^n is -1. */
  lemma MonomialsMultiply(n: nat, i: nat, j: nat)
    requires i < n && j < n
    ensures Mul(Monomial(n, i), Monomial(n, j))
         == if i + j < n then Monomial(n, i + j) else Scale(-1, Monomial(n, i + j - n))
  {
    hide Mul, Convolve;
    var want := if i + j < n then Monomial(n, i + j) else Scale(-1, Monomial(n, i + j - n));
    forall k: nat | k < n ensures Mul(Monomial(n, i), Monomial(n, j))[k] == want[k] {
      MulCoefficient(Monomial(n, i), Monomial(n, j), k);
      ConvolveMonomial(n, i, Monomial(n, j), k, n);
    }
  }
}
