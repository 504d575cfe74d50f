/** Clue encryption under a ring-LWE public key: keys, fresh encryptions of zero, and the noise a
    recipient is left with. */
module Clue {
  import opened Arithmetic
  import opened Ring
  import opened Residue

  const CLUE_N: nat := 1024
  const CLUE_Q: nat := 1_032_193
  const CLUE_H: nat := 80
  const ERROR_TAIL: nat := 4

  datatype PublicKey = PublicKey(a: Poly, b: Poly)

  datatype Ciphertext = Ciphertext(a: Poly, b: Poly)

  /** 32-bit draws of the generator, in order; errors are cut at `ERROR_TAIL`. */
  type Draws = nat -> nat
  type Errors = nat -> int

  // ---- the product, by the scatter double loop ----

  /** Row `i` of the scatter loop contributes `a[i] * At(s, k - i)` to coefficient `k`. */
  method PolyMulMod(a: Poly, s: Poly, q: nat) returns (product: Poly)
    requires |a| == |s| && q > 0
    ensures product == ModAll(Mul(a, s), q)
  {
    hide Mul, ModQ, At;
    var n := |a|;
    var out := new int[n](i => 0);
    var i := 0;
    while i < n
      invariant i <= n
      invariant forall k :: 0 <= k < n ==> out[k] == Convolve(a, s, k, i)
    {
      if a[i] != 0 {
        AddRow(out, a, s, i);
      } else {
        ZeroRow(a, s, i);
      }
      i := i + 1;
    }
    forall k | 0 <= k < n ensures out[k] == Mul(a, s)[k] {
      MulCoefficient(a, s, k);
    }
    product := seq(n, k requires 0 <= k < n reads out => ModQ(out[k], q));
  }

  lemma ZeroRow(a: Poly, s: Poly, i: nat)
    requires |a| == |s| && i < |a| && a[i] == 0
    ensures forall k :: 0 <= k < |a| ==> Convolve(a, s, k, i + 1) == Convolve(a, s, k, i)
  {
    assert forall k :: 0 <= k < |a| ==> Convolve(a, s, k, i + 1) == Convolve(a, s, k, i) + 0 * At(s, k - i);
  }

  /** Scatter `a[i]` times every coefficient of `s`; what runs past the top wraps with a minus. */
  method AddRow(out: array<int>, a: Poly, s: Poly, i: nat)
    requires |a| == |s| == out.Length && i < |a|
    requires forall k :: 0 <= k < |a| ==> out[k] == Convolve(a, s, k, i)
    modifies out
    ensures forall k :: 0 <= k < |a| ==> out[k] == Convolve(a, s, k, i + 1)
  {
    var n := |a|;
    var j := 0;
    while j < n
      invariant j <= n
      invariant forall k :: 0 <= k < n ==>
        out[k] == Convolve(a, s, k, i) + if Touched(n, i, j, k) then a[i] * At(s, k - i) else 0
    {
      if s[j] != 0 {
        var exp := i + j;
        var term := a[i] * s[j];
        if exp < n {
          out[exp] := out[exp] + term;
        } else {
          assert a[i] * -s[j] == -term;
          out[exp - n] := out[exp - n] - term;
        }
      } else {
        assert a[i] * s[j] == 0 && a[i] * -s[j] == 0;
      }
      j := j + 1;
    }
  }

  /** After `j` inner steps of row `i`, coefficient `k` has received its term. */
  predicate Touched(n: nat, i: nat, j: nat, k: nat) {
    if k >= i then k - i < j else n + k - i < j
  }

  // ---- sparse ternary polynomials, by a partial shuffle ----

  function NonZeros(c: Poly): nat {
    if c == [] then 0 else (if c[0] != 0 then 1 else 0) + NonZeros(c[1..])
  }

  ghost predicate Ternary(c: Poly) {
    forall i :: 0 <= i < |c| ==> c[i] == -1 || c[i] == 0 || c[i] == 1
  }

  lemma {:induction false} NonZerosUpdate(c: Poly, k: nat, v: int)
    requires k < |c| && c[k] == 0 && v != 0
    ensures NonZeros(c[k := v]) == NonZeros(c) + 1
  {
    if k > 0 {
      NonZerosUpdate(c[1..], k - 1, v);
      assert c[k := v][1..] == c[1..][k - 1 := v];
    }
  }

  lemma TernaryZero(n: nat)
    ensures Ternary(Zero(n))
  {
  }

  lemma TernaryUpdate(c: Poly, k: nat, v: int)
    requires Ternary(c) && k < |c| && (v == 1 || v == -1)
    ensures Ternary(c[k := v])
  {
  }

  lemma {:induction false} NonZerosOfZero(n: nat)
    ensures NonZeros(Zero(n)) == 0
  {
    if n > 0 {
      NonZerosOfZero(n - 1);
      assert Zero(n)[1..] == Zero(n - 1);
    }
  }

  lemma {:induction false} TernaryWeight(c: Poly)
    requires Ternary(c)
    ensures Weight(c) == NonZeros(c)
  {
    if c != [] {
      TernaryWeight(c[1..]);
    }
  }

  function Below(draw: nat, m: nat): (r: nat)
    requires m > 0
    ensures r < m
  {
    draw % m
  }

  function Swapped(v: seq<nat>, i: nat, j: nat): seq<nat>
    requires i < |v| && j < |v|
  {
    v[i := v[j]][j := v[i]]
  }

  /** The index array after `i` steps of the partial shuffle; step `k` uses draws start + 2k and the next. */
  function Shuffled(n: nat, draws: Draws, start: nat, i: nat): (v: seq<nat>)
    requires i <= n
    ensures |v| == n
  {
    if i == 0 then seq(n, k => k)
    else Swapped(Shuffled(n, draws, start, i - 1), i - 1, i - 1 + Below(draws(start + 2 * (i - 1)), n - (i - 1)))
  }

  function Sign(draw: nat): int {
    if draw % 2 == 0 then 1 else -1
  }

  /** Every index once. */
  ghost predicate Permutes(v: seq<nat>) {
    && (forall k :: 0 <= k < |v| ==> v[k] < |v|)
    && (forall k, m :: 0 <= k < m < |v| ==> v[k] != v[m])
    && (forall m: nat :: m < |v| ==> m in v)
  }

  lemma SwapPermutes(v: seq<nat>, i: nat, j: nat)
    requires Permutes(v) && i < |v| && j < |v|
    ensures Permutes(Swapped(v, i, j))
  {
    var w := Swapped(v, i, j);
    forall m: nat | m < |v| ensures m in w {
      assert m in v;
      var k :| 0 <= k < |v| && v[k] == m;
      assert w[if k == i then j else if k == j then i else k] == m;
    }
  }

  lemma {:induction false} ShufflePermutes(n: nat, draws: Draws, start: nat, i: nat)
    requires i <= n
    ensures Permutes(Shuffled(n, draws, start, i))
  {
    hide Permutes, Below, Swapped;
    if i == 0 {
      IdentityPermutes(n);
    } else {
      ShufflePermutes(n, draws, start, i - 1);
      SwapPermutes(Shuffled(n, draws, start, i - 1), i - 1, i - 1 + Below(draws(start + 2 * (i - 1)), n - (i - 1)));
    }
  }

  lemma IdentityPermutes(n: nat)
    ensures Permutes(seq(n, k => k))
  {
    var v: seq<nat> := seq(n, k => k);
    forall m: nat | m < n ensures m in v {
      assert v[m] == m;
    }
  }

  /** Later steps leave the indices chosen so far where they are. */
  lemma ShuffleKeeps(n: nat, draws: Draws, start: nat, i: nat, k: nat)
    requires k < i < n
    ensures Shuffled(n, draws, start, i + 1)[k] == Shuffled(n, draws, start, i)[k]
  {
    hide Below;
  }

  /** `c` has, at the `k`th of these indices, the sign of the `k`th sign draw, and 0 everywhere else. */
  ghost predicate Signs(c: Poly, chosen: seq<nat>, draws: Draws, start: nat) {
    && (forall k :: 0 <= k < |chosen| ==> chosen[k] < |c| && c[chosen[k]] == Sign(draws(start + 2 * k + 1)))
    && (forall m :: 0 <= m < |c| && m !in chosen ==> c[m] == 0)
  }

  /** The indices that `h` steps choose. */
  function Chosen(n: nat, draws: Draws, start: nat, h: nat): (v: seq<nat>)
    requires h <= n
    ensures |v| == h
  {
    Shuffled(n, draws, start, h)[..h]
  }

  lemma SignNext(c: Poly, chosen: seq<nat>, at: nat, draws: Draws, start: nat)
    requires Signs(c, chosen, draws, start) && at < |c| && at !in chosen
    ensures c[at] == 0 && Signs(c[at := Sign(draws(start + 2 * |chosen| + 1))], chosen + [at], draws, start)
  {
    hide Sign;
  }

  lemma SignIsUnit(draw: nat)
    ensures Sign(draw) == 1 || Sign(draw) == -1
  {
  }

  /** Each step chooses an index that was not chosen before. */
  lemma ChosenNext(n: nat, draws: Draws, start: nat, i: nat)
    requires i < n
    ensures var at := Shuffled(n, draws, start, i + 1)[i];
            at < n && at !in Chosen(n, draws, start, i)
            && Chosen(n, draws, start, i + 1) == Chosen(n, draws, start, i) + [at]
  {
    var before, after := Shuffled(n, draws, start, i), Shuffled(n, draws, start, i + 1);
    hide Shuffled;
    ShufflePermutes(n, draws, start, i + 1);
    forall k | 0 <= k < i ensures after[k] == before[k] {
      ShuffleKeeps(n, draws, start, i, k);
    }
    assert before[..i] == after[..i];
    assert after[..i + 1] == after[..i] + [after[i]];
  }

  /** After `i` steps. */
  ghost predicate DrawnSoFar(c: Poly, n: nat, i: nat, draws: Draws, start: nat)
    requires i <= n
  {
    |c| == n && Signs(c, Chosen(n, draws, start, i), draws, start) && Ternary(c) && NonZeros(c) == i
  }

  lemma NothingDrawn(n: nat, draws: Draws, start: nat)
    ensures DrawnSoFar(Zero(n), n, 0, draws, start) && Shuffled(n, draws, start, 0) == seq(n, k => k)
  {
    NonZerosOfZero(n);
    TernaryZero(n);
  }

  lemma DrawOn(c: Poly, n: nat, i: nat, draws: Draws, start: nat, at: nat, unit: int)
    requires i < n && DrawnSoFar(c, n, i, draws, start)
    requires at == Shuffled(n, draws, start, i + 1)[i] && unit == Sign(draws(start + 2 * i + 1))
    ensures at < n == |c| && DrawnSoFar(c[at := unit], n, i + 1, draws, start)
  {
    hide Shuffled, Sign, Ternary, NonZeros, Signs, Chosen;
    ChosenNext(n, draws, start, i);
    SignNext(c, Chosen(n, draws, start, i), at, draws, start);
    SignIsUnit(draws(start + 2 * i + 1));
    NonZerosUpdate(c, at, unit);
    TernaryUpdate(c, at, unit);
  }

  method SwapIn(idxs: array<nat>, i: nat, j: nat)
    requires i < idxs.Length && j < idxs.Length
    modifies idxs
    ensures idxs[..] == Swapped(old(idxs[..]), i, j)
  {
    idxs[i], idxs[j] := idxs[j], idxs[i];
  }

  /** Step `i` of the shuffle: swap an index in. */
  method ShuffleStep(idxs: array<nat>, ghost n: nat, i: nat, draws: Draws, ghost start: nat, next: nat)
    requires i < n == idxs.Length && next == start + 2 * i && idxs[..] == Shuffled(n, draws, start, i)
    modifies idxs
    ensures idxs[..] == Shuffled(n, draws, start, i + 1)
  {
    hide Shuffled, Swapped, Below;
    NextShuffled(n, draws, start, i);
    SwapIn(idxs, i, i + Below(draws(next), idxs.Length - i));
  }

  lemma NextShuffled(n: nat, draws: Draws, start: nat, i: nat)
    requires i < n
    ensures Shuffled(n, draws, start, i + 1)
         == Swapped(Shuffled(n, draws, start, i), i, i + Below(draws(start + 2 * i), n - i))
  {
  }

  /** Exactly `h` coefficients in {-1, 1}, whatever the draws: signs at the indices that the shuffle chooses. */
  method SparseTernary(n: nat, h: nat, draws: Draws, start: nat) returns (c: Poly, next: nat)
    requires h <= n
    ensures |c| == n && Ternary(c) && NonZeros(c) == h && Weight(c) == h
    ensures Signs(c, Chosen(n, draws, start, h), draws, start)
    ensures next == start + 2 * h
  {
    var idxs := new nat[n](i => i);
    c := Zero(n);
    next := start;
    NothingDrawn(n, draws, start);
    assert idxs[..] == Shuffled(n, draws, start, 0);
    hide Shuffled, DrawnSoFar, Sign;
    var i := 0;
    while i < h
      invariant i <= h && next == start + 2 * i
      invariant idxs[..] == Shuffled(n, draws, start, i) && DrawnSoFar(c, n, i, draws, start)
    {
      ShuffleStep(idxs, n, i, draws, start, next);
      var at, unit := idxs[i], Sign(draws(next + 1));
      assert at == idxs[..][i];
      DrawOn(c, n, i, draws, start, at, unit);
      c := c[at := unit];
      next := next + 2;
      i := i + 1;
    }
    DrawnToTheEnd(c, n, h, draws, start);
  }

  lemma DrawnToTheEnd(c: Poly, n: nat, h: nat, draws: Draws, start: nat)
    requires h <= n && DrawnSoFar(c, n, h, draws, start)
    ensures |c| == n && Signs(c, Chosen(n, draws, start, h), draws, start)
    ensures Ternary(c) && NonZeros(c) == h && Weight(c) == h
  {
    TernaryWeight(c);
  }

  // ---- keys, encryption, decryption ----

  /** `e` added to a residue vector, the way every coefficient is perturbed. */
  function Perturb(v: Poly, e: Poly, q: nat): Poly
    requires |v| == |e| && q > 0
  {
    ModAll(Add(CenterAll(v, q), e), q)
  }

  /** The public key of secret `s` with mask `a` and error `e`. */
  function KeyOf(s: Poly, a: Poly, e: Poly, q: nat): (pk: PublicKey)
    requires |a| == |s| == |e| && q > 0
    ensures pk.a == a && |pk.b| == |s|
  {
    PublicKey(a, Perturb(ModAll(Mul(a, s), q), e, q))
  }

  /** An encryption of zero under `pk` with ephemeral `u`. */
  function ZeroUnder(pk: PublicKey, u: Poly, e1: Poly, e2: Poly, q: nat): (ct: Ciphertext)
    requires |pk.a| == |pk.b| == |u| == |e1| == |e2| && q > 0
    ensures |ct.a| == |ct.b| == |u|
  {
    Ciphertext(Perturb(ModAll(Mul(pk.a, u), q), e2, q), Perturb(ModAll(Mul(pk.b, u), q), e1, q))
  }

  /** What decryption reads: the difference of two centred residues, not reduced again. */
  function DecryptError(s: Poly, ct: Ciphertext, q: nat): (error: Poly)
    requires |ct.a| == |ct.b| == |s| && q > 0
    ensures |error| == |s|
  {
    Sub(CenterAll(ct.b, q), CenterAll(ModAll(Mul(ct.a, s), q), q))
  }

  ghost predicate Residues(v: Poly, q: nat) {
    forall i :: 0 <= i < |v| ==> 0 <= v[i] < q
  }

  /** `e` is the stretch of the stream that begins at `start`. */
  ghost predicate Sampled(e: Poly, errors: Errors, start: nat) {
    forall i :: 0 <= i < |e| ==> e[i] == errors(start + i)
  }

  method SampleErrors(n: nat, errors: Errors, start: nat) returns (e: Poly)
    requires forall i: nat :: Abs(errors(i)) <= ERROR_TAIL
    ensures |e| == n && Within(e, ERROR_TAIL) && Sampled(e, errors, start)
  {
    e := seq(n, i requires 0 <= i => errors(start + i));
  }

  method FromSecret(s: Poly, q: nat, draws: Draws, errors: Errors) returns (pk: PublicKey, ghost e: Poly)
    requires q > 0 && forall i: nat :: Abs(errors(i)) <= ERROR_TAIL
    ensures |pk.a| == |s| == |e| && Within(e, ERROR_TAIL) && Residues(pk.a, q) && pk == KeyOf(s, pk.a, e, q)
    ensures Sampled(e, errors, 0) && forall i :: 0 <= i < |s| ==> pk.a[i] == draws(i) % q
  {
    var a: Poly := seq(|s|, i requires 0 <= i => draws(i) % q);
    var errs := SampleErrors(|s|, errors, 0);
    var product := PolyMulMod(a, s, q);
    pk := PublicKey(a, Perturb(product, errs, q));
    e := errs;
  }

  /** `ct` encrypts zero with ephemeral `u` of weight h / 2 and errors `e1`, `e2` within the tail. */
  ghost predicate FreshZero(pk: PublicKey, h: nat, q: nat, ct: Ciphertext, u: Poly, e1: Poly, e2: Poly)
    requires q > 0
  {
    && |u| == |e1| == |e2| == |pk.a| == |pk.b|
    && Ternary(u) && NonZeros(u) == Weight(u) == h / 2 && Within(e1, ERROR_TAIL) && Within(e2, ERROR_TAIL)
    && ct == ZeroUnder(pk, u, e1, e2, q)
  }

  /** The ephemeral comes from the draws, the two errors are the first and the second `n` of the stream. */
  ghost predicate EncryptsFrom(pk: PublicKey, h: nat, q: nat, ct: Ciphertext, draws: Draws, errors: Errors,
                               u: Poly, e1: Poly, e2: Poly)
    requires q > 0 && h / 2 <= |pk.a|
  {
    && FreshZero(pk, h, q, ct, u, e1, e2) && Signs(u, Chosen(|pk.a|, draws, 0, h / 2), draws, 0)
    && Sampled(e1, errors, 0) && Sampled(e2, errors, |pk.a|)
  }

  method EncryptZeros(pk: PublicKey, h: nat, q: nat, draws: Draws, errors: Errors) returns (ct: Ciphertext)
    requires |pk.a| == |pk.b| && h / 2 <= |pk.a| && q > 0 && forall i: nat :: Abs(errors(i)) <= ERROR_TAIL
    ensures exists u, e1, e2 :: EncryptsFrom(pk, h, q, ct, draws, errors, u, e1, e2)
  {
    var n := |pk.a|;
    var u, next := SparseTernary(n, h / 2, draws, 0);
    var e1 := SampleErrors(n, errors, 0);
    var e2 := SampleErrors(n, errors, n);
    var bu := PolyMulMod(pk.b, u, q);
    var au := PolyMulMod(pk.a, u, q);
    ct := Ciphertext(Perturb(au, e2, q), Perturb(bu, e1, q));
    assert EncryptsFrom(pk, h, q, ct, draws, errors, u, e1, e2);
  }

  method Decrypt(s: Poly, ct: Ciphertext, q: nat) returns (error: Poly)
    requires |ct.a| == |ct.b| == |s| && q > 0
    ensures error == DecryptError(s, ct, q)
  {
    var product := PolyMulMod(ct.a, s, q);
    error := Sub(CenterAll(ct.b, q), CenterAll(product, q));
  }

  // ---- the noise of a fresh encryption of zero ----

  /** e * u + e1 - e2 * s */
  function Noise(s: Poly, e: Poly, u: Poly, e1: Poly, e2: Poly): Poly
    requires |s| == |e| == |u| == |e1| == |e2|
  {
    Sub(Add(Mul(e, u), e1), Mul(e2, s))
  }

  lemma PerturbCongruent(v: Poly, e: Poly, q: nat)
    requires |v| == |e| && q > 0
    ensures Congruent(Perturb(v, e, q), Add(v, e), q)
  {
    ModAllCongruent(Add(CenterAll(v, q), e), q);
    CenterCongruent(v, q);
    CongruentAdd(CenterAll(v, q), v, e, q);
    CongruentTrans(Perturb(v, e, q), Add(CenterAll(v, q), e), Add(v, e), q);
  }

  /** A perturbed product is the product plus the error, up to multiples of q. */
  lemma PerturbedProduct(a: Poly, s: Poly, e: Poly, q: nat)
    requires |a| == |s| == |e| && q > 0
    ensures Congruent(Perturb(ModAll(Mul(a, s), q), e, q), Add(Mul(a, s), e), q)
  {
    var v := ModAll(Mul(a, s), q);
    hide Congruent, Perturb;
    PerturbCongruent(v, e, q);
    ModAllCongruent(Mul(a, s), q);
    CongruentAdd(v, Mul(a, s), e, q);
    CongruentTrans(Perturb(v, e, q), Add(v, e), Add(Mul(a, s), e), q);
  }

  /** (a * s) * u is (a * u) * s: products commute and associate. */
  lemma MaskCancels(a: Poly, s: Poly, u: Poly)
    requires |a| == |s| == |u|
    ensures Mul(Mul(a, s), u) == Mul(Mul(a, u), s)
  {
    MulAssociates(a, s, u);
    MulCommutes(s, u);
    MulAssociates(a, u, s);
  }

  lemma CipherB(s: Poly, a: Poly, e: Poly, u: Poly, e1: Poly, e2: Poly, q: nat)
    requires |s| == |a| == |e| == |u| == |e1| == |e2| && q > 0
    ensures Congruent(ZeroUnder(KeyOf(s, a, e, q), u, e1, e2, q).b, Add(Add(Mul(Mul(a, s), u), Mul(e, u)), e1), q)
  {
    var b := KeyOf(s, a, e, q).b;
    PerturbedProduct(b, u, e1, q);
    PerturbedProduct(a, s, e, q);
    hide Congruent, Perturb;
    CongruentMulLeft(b, Add(Mul(a, s), e), u, q);
    MulAddLeft(Mul(a, s), e, u);
    CongruentAdd(Mul(b, u), Mul(Add(Mul(a, s), e), u), e1, q);
    CongruentTrans(ZeroUnder(KeyOf(s, a, e, q), u, e1, e2, q).b, Add(Mul(b, u), e1),
                   Add(Add(Mul(Mul(a, s), u), Mul(e, u)), e1), q);
  }

  lemma CipherATimesSecret(s: Poly, a: Poly, e: Poly, u: Poly, e1: Poly, e2: Poly, q: nat)
    requires |s| == |a| == |e| == |u| == |e1| == |e2| && q > 0
    ensures Congruent(Mul(ZeroUnder(KeyOf(s, a, e, q), u, e1, e2, q).a, s), Add(Mul(Mul(a, s), u), Mul(e2, s)), q)
  {
    var ca := ZeroUnder(KeyOf(s, a, e, q), u, e1, e2, q).a;
    PerturbedProduct(a, u, e2, q);
    hide Congruent, Perturb;
    CongruentMulLeft(ca, Add(Mul(a, u), e2), s, q);
    MulAddLeft(Mul(a, u), e2, s);
    MaskCancels(a, s, u);
  }

  lemma DecryptIsDifference(s: Poly, ct: Ciphertext, q: nat)
    requires |ct.a| == |ct.b| == |s| && q > 0
    ensures Congruent(DecryptError(s, ct, q), Sub(ct.b, Mul(ct.a, s)), q)
  {
    var product := ModAll(Mul(ct.a, s), q);
    CenterCongruent(ct.b, q);
    CenterCongruent(product, q);
    ModAllCongruent(Mul(ct.a, s), q);
    hide Congruent;
    CongruentTrans(CenterAll(product, q), product, Mul(ct.a, s), q);
    CongruentSub(CenterAll(ct.b, q), ct.b, CenterAll(product, q), Mul(ct.a, s), q);
  }

  lemma MaskedDifference(masked: Poly, x: Poly, y: Poly, z: Poly)
    requires |masked| == |x| == |y| == |z|
    ensures Sub(Add(Add(masked, x), y), Add(masked, z)) == Sub(Add(x, y), z)
  {
  }

  /** Decrypting a fresh encryption of zero leaves e * u + e1 - e2 * s, modulo q. */
  lemma FreshZeroDecryptsToNoise(s: Poly, a: Poly, e: Poly, u: Poly, e1: Poly, e2: Poly, q: nat)
    requires |s| == |a| == |e| == |u| == |e1| == |e2| && q > 0
    ensures var ct := ZeroUnder(KeyOf(s, a, e, q), u, e1, e2, q);
            && Congruent(Sub(ct.b, Mul(ct.a, s)), Noise(s, e, u, e1, e2), q)
            && Congruent(DecryptError(s, ct, q), Noise(s, e, u, e1, e2), q)
  {
    var ct := ZeroUnder(KeyOf(s, a, e, q), u, e1, e2, q);
    var masked := Mul(Mul(a, s), u);
    CipherB(s, a, e, u, e1, e2, q);
    CipherATimesSecret(s, a, e, u, e1, e2, q);
    DecryptIsDifference(s, ct, q);
    hide Congruent, Mul, Add, Sub, ZeroUnder, KeyOf, DecryptError;
    CongruentSub(ct.b, Add(Add(masked, Mul(e, u)), e1), Mul(ct.a, s), Add(masked, Mul(e2, s)), q);
    MaskedDifference(masked, Mul(e, u), e1, Mul(e2, s));
    CongruentTrans(DecryptError(s, ct, q), Sub(ct.b, Mul(ct.a, s)), Noise(s, e, u, e1, e2), q);
  }

  lemma SubWithin(p: Poly, r: Poly, x: nat, y: nat)
    requires |p| == |r| && Within(p, x) && Within(r, y)
    ensures Within(Sub(p, r), x + y)
  {
  }

  /** Every coefficient of the noise is at most tail * (h/2) + tail + tail * h. */
  lemma NoiseWithin(s: Poly, e: Poly, u: Poly, e1: Poly, e2: Poly, h: nat)
    requires |s| == |e| == |u| == |e1| == |e2| && Weight(s) == h && Weight(u) == h / 2
    requires Within(e, ERROR_TAIL) && Within(e1, ERROR_TAIL) && Within(e2, ERROR_TAIL)
    ensures Within(Noise(s, e, u, e1, e2), h / 2 * ERROR_TAIL + ERROR_TAIL + h * ERROR_TAIL)
  {
    hide Within, Mul, Add, Sub, Weight;
    MulCommutes(e, u);
    MulWithin(u, e, ERROR_TAIL);
    MulCommutes(e2, s);
    MulWithin(s, e2, ERROR_TAIL);
    AddWithin(Mul(e, u), e1, h / 2 * ERROR_TAIL, ERROR_TAIL);
    SubWithin(Add(Mul(e, u), e1), Mul(e2, s), h / 2 * ERROR_TAIL + ERROR_TAIL, h * ERROR_TAIL);
  }

  /** With the deployed weights the noise never exceeds 484. */
  lemma DeployedNoiseWithin(s: Poly, e: Poly, u: Poly, e1: Poly, e2: Poly)
    requires |s| == |e| == |u| == |e1| == |e2| && Weight(s) == CLUE_H && Weight(u) == CLUE_H / 2
    requires Within(e, ERROR_TAIL) && Within(e1, ERROR_TAIL) && Within(e2, ERROR_TAIL)
    ensures Within(Noise(s, e, u, e1, e2), 484)
  {
    hide Within, Noise, Weight;
    NoiseWithin(s, e, u, e1, e2, CLUE_H);
  }

  /** `error` is, modulo the deployed q, the noise of one fresh encryption for `s`, at most 484. */
  ghost predicate FreshError(s: Poly, error: Poly, e: Poly, u: Poly, e1: Poly, e2: Poly) {
    && |s| == |e| == |u| == |e1| == |e2| && Ternary(s) && Weight(s) == CLUE_H && Weight(u) == CLUE_H / 2
    && Congruent(error, Noise(s, e, u, e1, e2), CLUE_Q) && Within(Noise(s, e, u, e1, e2), 484)
  }

  /** The secret, the ephemeral and the three errors are those of the streams. */
  ghost predicate FromStreams(s: Poly, e: Poly, u: Poly, e1: Poly, e2: Poly, draws: seq<Draws>, errors: seq<Errors>)
    requires |draws| == 3 && |errors| == 2
  {
    && Signs(s, Chosen(CLUE_N, draws[0], 0, CLUE_H), draws[0], 0)
    && Signs(u, Chosen(CLUE_N, draws[2], 0, CLUE_H / 2), draws[2], 0)
    && Sampled(e, errors[0], 0) && Sampled(e1, errors[1], 0) && Sampled(e2, errors[1], CLUE_N)
  }

  /** A secret, its public key, a fresh encryption of zero and its decryption, for every stream of
      draws and every stream of errors within the tail. */
  method EncryptThenDecrypt(draws: seq<Draws>, errors: seq<Errors>) returns (s: Poly, error: Poly)
    requires |draws| == 3 && |errors| == 2
    requires forall k, i: nat :: 0 <= k < 2 ==> Abs(errors[k](i)) <= ERROR_TAIL
    ensures |s| == |error| == CLUE_N
    ensures exists e, u, e1, e2 ::
      FreshError(s, error, e, u, e1, e2) && FromStreams(s, e, u, e1, e2, draws, errors)
  {
    hide Within, Ternary, Weight, NonZeros, KeyOf, ZeroUnder, Noise, DecryptError, Congruent, Residues;
    hide Signs, Chosen, Sampled;
    var next: nat;
    s, next := SparseTernary(CLUE_N, CLUE_H, draws[0], 0);
    var pk, e := FromSecret(s, CLUE_Q, draws[1], errors[0]);
    var ct := EncryptZeros(pk, CLUE_H, CLUE_Q, draws[2], errors[1]);
    ghost var u, e1, e2 :| EncryptsFrom(pk, CLUE_H, CLUE_Q, ct, draws[2], errors[1], u, e1, e2);
    FreshZeroDecryptsToNoise(s, pk.a, e, u, e1, e2, CLUE_Q);
    DeployedNoiseWithin(s, e, u, e1, e2);
    error := Decrypt(s, ct, CLUE_Q);
    assert FreshError(s, error, e, u, e1, e2) && FromStreams(s, e, u, e1, e2, draws, errors);
  }

  // ---- when the decrypted error is the noise itself ----

  lemma CenterRange(u: int, q: nat)
    requires 0 <= u < q && q % 2 == 1
    ensures -(q as int / 2) <= CenterLift(u, q) <= q / 2
  {
  }

  /** The decrypted error is not reduced again after the subtraction, so it is the noise, or the
      noise plus or minus q: exactly the noise when adding the noise to the centred product does
      not leave the centred range. */
  lemma DecryptErrorIsNoiseExactlyWhen(s: Poly, ct: Ciphertext, noise: Poly, q: nat, i: nat) returns (product: int)
    requires |ct.a| == |ct.b| == |s| == |noise| && q > 0 && q % 2 == 1 && i < |s| && 0 <= ct.b[i] < q
    requires Congruent(DecryptError(s, ct, q), noise, q) && Abs(noise[i]) <= q / 2
    ensures product == CenterLift(ModAll(Mul(ct.a, s), q)[i], q)
    ensures DecryptError(s, ct, q)[i] == noise[i] <==> Abs(product + noise[i]) <= q / 2
    ensures Abs(DecryptError(s, ct, q)[i] - noise[i]) == 0 || Abs(DecryptError(s, ct, q)[i] - noise[i]) == q
  {
    product := CenterLift(ModAll(Mul(ct.a, s), q)[i], q);
    CenterRange(ct.b[i], q);
    ModQIs(Mul(ct.a, s)[i], q);
    CenterRange(ModAll(Mul(ct.a, s), q)[i], q);
    DecryptErrorAt(s, ct, q, i);
    hide CenterLift, Mul, ModQ, ModAll, DecryptError, Congruent;
    var k := CongruentAt(DecryptError(s, ct, q), noise, q, i);
    WrapsOnce(CenterLift(ct.b[i], q), product, noise[i], q, k);
  }

  /** For every secret that starts with 1 and every odd q there is a ciphertext whose true noise is 1
      in the first coefficient and whose decrypted error is 1 - q there. */
  lemma DecryptErrorOffByQ(s: Poly, q: nat) returns (ct: Ciphertext, noise: Poly)
    requires s != [] && s[0] == 1 && q > 2 && q % 2 == 1
    ensures |ct.a| == |ct.b| == |s| && Residues(ct.a, q) && Residues(ct.b, q)
    ensures Congruent(DecryptError(s, ct, q), noise, q) && noise == One(|s|)
    ensures DecryptError(s, ct, q)[0] == noise[0] - q
  {
    var n, x := |s|, q / 2;
    var product := ModAll(Scale(x, s), q);
    ct, noise := Ciphertext(Scale(x, One(n)), product[0 := x + 1]), One(n);
    MulScaledOne(s, x);
    ProductResidues(s, x, q);
    hide Mul, ModQ, ModAll, DecryptError, Residues, Congruent, Scale;
    forall i | 0 <= i < n ensures DecryptError(s, ct, q)[i] == if i == 0 then 1 - q else 0 {
      OffByQAt(s, ct, q, product, i);
    }
    OnlyFirstOff(DecryptError(s, ct, q), q);
    assert Residues(ct.a, q) && Residues(ct.b, q) by { OffByQResidues(s, ct, q, product); }
  }

  lemma OffByQAt(s: Poly, ct: Ciphertext, q: nat, product: Poly, i: nat)
    requires |ct.a| == |ct.b| == |s| == |product| && q > 2 && q % 2 == 1 && i < |s|
    requires product == ModAll(Mul(ct.a, s), q) && product[0] == q / 2 && ct.b == product[0 := q / 2 + 1]
    ensures DecryptError(s, ct, q)[i] == if i == 0 then 1 - q else 0
  {
    hide Mul, ModAll, DecryptError;
    DecryptErrorAt(s, ct, q, i);
  }

  lemma OffByQResidues(s: Poly, ct: Ciphertext, q: nat, product: Poly)
    requires s != [] && |s| == |product| && q > 2 && Residues(product, q)
    requires ct == Ciphertext(Scale(q / 2, One(|s|)), product[0 := q / 2 + 1])
    ensures Residues(ct.a, q) && Residues(ct.b, q)
  {
    assert forall i :: 0 <= i < |s| ==> One(|s|)[i] == 0 || One(|s|)[i] == 1;
  }

  lemma OnlyFirstOff(error: Poly, q: nat)
    requires error != [] && forall i :: 0 <= i < |error| ==> error[i] == if i == 0 then 1 - q else 0
    ensures Congruent(error, One(|error|), q)
  {
    assert CongruentBy(error, One(|error|), q, [-1] + Zero(|error| - 1));
  }

  lemma MulScaledOne(s: Poly, x: int)
    requires s != []
    ensures Mul(Scale(x, One(|s|)), s) == Scale(x, s)
  {
    MulCommutes(Scale(x, One(|s|)), s);
    MulScale(s, x, One(|s|));
    MulOne(s, |s|);
    assert s + Zero(0) == s;
  }

  lemma ProductResidues(s: Poly, x: nat, q: nat)
    requires s != [] && s[0] == 1 && x < q
    ensures Residues(ModAll(Scale(x, s), q), q) && ModAll(Scale(x, s), q)[0] == x
  {
    forall i | 0 <= i < |s| ensures 0 <= ModAll(Scale(x, s), q)[i] < q {
      ModQIs(Scale(x, s)[i], q);
    }
    ResidueIs(x, x, q, 0);
    ModQIs(x, q);
  }

  lemma DecryptErrorAt(s: Poly, ct: Ciphertext, q: nat, i: nat)
    requires |ct.a| == |ct.b| == |s| && q > 0 && i < |s|
    ensures DecryptError(s, ct, q)[i] == CenterLift(ct.b[i], q) - CenterLift(ModAll(Mul(ct.a, s), q)[i], q)
  {
  }

  /** `b` is centred and congruent to `product + noise`. */
  lemma WrapsOnce(b: int, product: int, noise: int, q: int, k: int)
    requires q > 0 && q % 2 == 1 && Abs(b) <= q / 2 && Abs(product) <= q / 2 && Abs(noise) <= q / 2
    requires b - product == noise + q * k
    ensures b - product == noise <==> Abs(product + noise) <= q / 2
    ensures b - product - noise == -q || b - product - noise == 0 || b - product - noise == q
  {
    FewMultiples(b - product - noise, q, k);
  }

  lemma FewMultiples(x: int, q: int, k: int)
    requires q > 0 && x == q * k && -2 * q < x < 2 * q
    ensures x == -q || x == 0 || x == q
  {
  }
}
