/** Residues modulo q, and congruence of polynomials coefficient by coefficient. */
module Residue {
  import opened Arithmetic
  import opened Ring

  /** Remainder of truncating division, as the machine computes it. */
  function TruncRem(x: int, q: nat): int
    requires q > 0
  {
    if x >= 0 then x % q else -(-x % q)
  }

  /** The residue in [0, q), also for a negative argument. */
  function ModQ(x: int, q: nat): nat
    requires q > 0
  {
    var r := TruncRem(x, q);
    if r < 0 then r + q else r
  }

  lemma ModQIs(x: int, q: nat)
    requires q > 0
    ensures ModQ(x, q) == x % q && ModQ(x, q) < q
  {
    EuclidFromTrunc(x, q);
  }

  lemma SameResidue(x: int, y: int, q: nat, k: int)
    requires q > 0 && x == y + q * k
    ensures x % q == y % q
  {
    assert q * (y / q + k) == q * (y / q) + q * k;
    ResidueIs(x, y % q, q, y / q + k);
  }

  lemma EuclidFromTrunc(x: int, q: nat)
    requires q > 0
    ensures x % q == if TruncRem(x, q) < 0 then TruncRem(x, q) + q else TruncRem(x, q)
  {
    if x < 0 {
      NegatedResidue(x, -x / q, -x % q, q);
    }
  }

  lemma NegatedResidue(x: int, d: int, r: int, q: nat)
    requires 0 <= r < q && -x == d * q + r
    ensures x % q == if r == 0 then 0 else q - r
  {
    if r == 0 {
      assert x == q * -d;
      ResidueIs(x, 0, q, -d);
    } else {
      assert q * (-d - 1) == -(d * q) - q;
      ResidueIs(x, q - r, q, -d - 1);
    }
  }

  /** The representative in (-q/2, q/2]. */
  function CenterLift(u: int, q: nat): int {
    if u > q / 2 then u - q else u
  }

  /** `k` is the witness that `p` and `r` are congruent. */
  ghost predicate CongruentBy(p: Poly, r: Poly, q: nat, k: Poly) {
    |p| == |r| == |k| && forall i :: 0 <= i < |p| ==> p[i] == r[i] + q * k[i]
  }

  ghost predicate Congruent(p: Poly, r: Poly, q: nat) {
    exists k: Poly :: CongruentBy(p, r, q, k)
  }

  function ModAll(p: Poly, q: nat): Poly
    requires q > 0
  {
    seq(|p|, i requires 0 <= i < |p| => ModQ(p[i], q))
  }

  function CenterAll(p: Poly, q: nat): Poly {
    seq(|p|, i requires 0 <= i < |p| => CenterLift(p[i], q))
  }

  lemma CongruentAt(p: Poly, r: Poly, q: nat, i: nat) returns (k: int)
    requires Congruent(p, r, q) && i < |p|
    ensures |p| == |r| && p[i] == r[i] + q * k
  {
    var m :| CongruentBy(p, r, q, m);
    k := m[i];
  }

  lemma CongruentTrans(a: Poly, b: Poly, c: Poly, q: nat)
    requires Congruent(a, b, q) && Congruent(b, c, q)
    ensures Congruent(a, c, q)
  {
    var k :| CongruentBy(a, b, q, k);
    var m :| CongruentBy(b, c, q, m);
    forall i | 0 <= i < |a| ensures a[i] == c[i] + q * Add(k, m)[i] {
      assert q * (k[i] + m[i]) == q * k[i] + q * m[i];
    }
    assert CongruentBy(a, c, q, Add(k, m));
  }

  lemma ModAllCongruent(p: Poly, q: nat)
    requires q > 0
    ensures Congruent(ModAll(p, q), p, q)
  {
    var k: Poly := seq(|p|, i requires 0 <= i < |p| => -(p[i] / q));
    forall i | 0 <= i < |p| ensures ModAll(p, q)[i] == p[i] + q * k[i] {
      ModQIs(p[i], q);
      assert q * -(p[i] / q) == -(q * (p[i] / q));
    }
    assert CongruentBy(ModAll(p, q), p, q, k);
  }

  lemma CenterCongruent(p: Poly, q: nat)
    ensures Congruent(CenterAll(p, q), p, q)
  {
    var k: Poly := seq(|p|, i requires 0 <= i < |p| => if p[i] > q / 2 then -1 else 0);
    assert CongruentBy(CenterAll(p, q), p, q, k);
  }

  lemma CongruentAdd(a: Poly, b: Poly, c: Poly, q: nat)
    requires Congruent(a, b, q) && |a| == |c|
    ensures |b| == |c| && Congruent(Add(a, c), Add(b, c), q)
  {
    var k :| CongruentBy(a, b, q, k);
    assert CongruentBy(Add(a, c), Add(b, c), q, k);
  }

  lemma CongruentSub(a: Poly, b: Poly, c: Poly, d: Poly, q: nat)
    requires Congruent(a, b, q) && Congruent(c, d, q) && |a| == |c|
    ensures |b| == |d| && Congruent(Sub(a, c), Sub(b, d), q)
  {
    var k :| CongruentBy(a, b, q, k);
    var m :| CongruentBy(c, d, q, m);
    forall i | 0 <= i < |a| ensures Sub(a, c)[i] == Sub(b, d)[i] + q * Sub(k, m)[i] {
      assert q * (k[i] - m[i]) == q * k[i] - q * m[i];
    }
    assert CongruentBy(Sub(a, c), Sub(b, d), q, Sub(k, m));
  }

  lemma CongruentMul(c: Poly, a: Poly, b: Poly, q: nat)
    requires Congruent(a, b, q)
    ensures Congruent(Mul(c, a), Mul(c, b), q)
  {
    var k :| CongruentBy(a, b, q, k);
    assert a == Add(b, Scale(q, k));
    MulAdd(c, b, Scale(q, k));
    MulScale(c, q, k);
    assert CongruentBy(Mul(c, a), Mul(c, b), q, Mul(c, k));
  }

  lemma CongruentMulLeft(a: Poly, b: Poly, c: Poly, q: nat)
    requires Congruent(a, b, q) && |a| == |c|
    ensures |b| == |c| && Congruent(Mul(a, c), Mul(b, c), q)
  {
    var k :| CongruentBy(a, b, q, k);
    CongruentMul(c, a, b, q);
    MulCommutes(a, c);
    MulCommutes(b, c);
  }

  /** Congruent coefficients have the same residue. */
  lemma CongruentResidue(a: Poly, b: Poly, q: nat, i: nat)
    requires q > 0 && Congruent(a, b, q) && i < |a|
    ensures i < |b| && ModQ(a[i], q) == ModQ(b[i], q)
  {
    var k := CongruentAt(a, b, q, i);
    SameResidue(a[i], b[i], q, k);
    ModQIs(a[i], q);
    ModQIs(b[i], q);
  }
}
