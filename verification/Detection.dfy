/** Detection under an ideal homomorphic scheme: a ciphertext is its vector of plaintext slots,
    with arithmetic modulo t. */
module Detection {
  import opened Arithmetic
  import opened Ring
  import opened Residue
  import opened Clue
  import opened Outcome

  /** Bits evaluated per clue, and the client's range-check radius. */
  const BITS: nat := 2
  const R_PRIME: nat := 149
  const MAX_OMR_MESSAGES: nat := 262_144

  datatype DetectionKey = DetectionKey(network: nat, cts: seq<Slots>)

  datatype SlotClue = Packed(ct: Ciphertext) | Impertinent

  // ---- slot arithmetic ----

  function AddSlots(x: Slots, y: Slots, t: nat): Slots
    requires |x| == |y| && t > 0
  {
    seq(|x|, i requires 0 <= i < |x| => (x[i] + y[i]) % t)
  }

  function SubSlots(x: Slots, y: Slots, t: nat): Slots
    requires |x| == |y| && t > 0
  {
    seq(|x|, i requires 0 <= i < |x| => ModQ(x[i] as int - y[i], t))
  }

  function MulSlots(x: Slots, y: Slots, t: nat): Slots
    requires |x| == |y| && t > 0
  {
    seq(|x|, i requires 0 <= i < |x| => x[i] * y[i] % t)
  }

  lemma AddResidues(x: int, y: int, t: nat)
    requires t > 0
    ensures (x % t + y) % t == (x + y) % t && (x + y % t) % t == (x + y) % t
  {
    SameResidue(x % t + y, x + y, t, -(x / t));
    SameResidue(x + y % t, x + y, t, -(y / t));
  }

  lemma MulResidues(x: int, y: int, t: nat)
    requires t > 0
    ensures (x % t) * (y % t) % t == x * y % t
  {
    var a, b := x / t, y / t;
    assert x == t * a + x % t && y == t * b + y % t;
    var k := -(a * y) - b * (x % t);
    assert (x % t) * (y % t) == x * y + t * k by {
      assert x * y == t * a * y + (x % t) * (t * b + y % t);
      assert t * k == -(t * a * y) - t * b * (x % t);
    }
    SameResidue((x % t) * (y % t), x * y, t, k);
  }

  /** Multiplying by t - 1 negates. */
  lemma NegResidue(x: int, t: nat)
    requires t > 0
    ensures (x % t) * (t - 1) % t == -x % t
  {
    var r := x % t;
    assert r * (t - 1) == -x + t * (r + x / t) by {
      assert x == t * (x / t) + r;
      assert t * (r + x / t) == t * r + t * (x / t);
    }
    SameResidue(r * (t - 1), -x, t, r + x / t);
  }

  // ---- the detection key ----

  /** {-1, 0, 1} as a plaintext residue. */
  function KeySlot(coeff: int, t: nat): nat
    requires t > 1 && -1 <= coeff <= 1
  {
    if coeff < 0 then t - (-coeff % t) else coeff % t
  }

  lemma KeySlotIs(coeff: int, t: nat)
    requires t > 1 && -1 <= coeff <= 1
    ensures KeySlot(coeff, t) == coeff % t
  {
    if coeff < 0 {
      ResidueIs(1, 1, t, 0);
      ResidueIs(-1, t - 1, t, -1);
    }
  }

  function KeyFor(s: Poly, network: nat, degree: nat, t: nat): DetectionKey
    requires Ternary(s) && t > 1
  {
    DetectionKey(network, seq(|s|, j requires 0 <= j < |s| => seq(degree, i => KeySlot(s[j], t))))
  }

  method BuildDetectionKey(s: Poly, network: nat, degree: nat, t: nat) returns (key: DetectionKey)
    requires Ternary(s) && t > 1
    ensures key == KeyFor(s, network, degree, t)
  {
    var cts: seq<Slots> := [];
    var j := 0;
    while j < |s|
      invariant j <= |s| && |cts| == j
      invariant forall m :: 0 <= m < j ==> cts[m] == seq(degree, i => KeySlot(s[m], t))
    {
      var coeff := s[j];
      var v := if coeff < 0 then t - (-coeff % t) else coeff % t;
      assert v == KeySlot(coeff, t);
      cts := cts + [seq(degree, i => v)];
      j := j + 1;
    }
    key := DetectionKey(network, cts);
  }

  // ---- partial decryption: the gather form of the product ----

  ghost predicate Shaped(ct: Ciphertext, n: nat) {
    |ct.a| == |ct.b| == n
  }

  /** What the range check is to see in a slot: coefficient `bit` of b - a * s. */
  function SlotValue(c: SlotClue, s: Poly, bit: nat, t: nat): nat
    requires t > 0 && bit < |s| && (c.Packed? ==> Shaped(c.ct, |s|))
  {
    match c
    case Packed(ct) => ModQ(ct.b[bit] - Mul(ct.a, s)[bit], t)
    case Impertinent => ModQ(t / 2, t)
  }

  /** The mask coefficient that secret coefficient `j` multiplies, negated past the wrap. */
  function MaskSlot(c: SlotClue, n: nat, j: nat, bit: nat, t: nat): nat
    requires t > 0 && j < n && bit < n && (c.Packed? ==> Shaped(c.ct, n))
  {
    match c
    case Packed(ct) => if j <= bit then ct.a[bit - j] % t else (t - ct.a[n + bit - j] % t) % t
    case Impertinent => 0
  }

  lemma MaskSlotIs(c: SlotClue, n: nat, j: nat, bit: nat, t: nat)
    requires t > 0 && j < n && bit < n && c.Packed? && Shaped(c.ct, n)
    ensures MaskSlot(c, n, j, bit, t) == At(c.ct.a, bit - j) % t
  {
    if j > bit {
      var v: int := c.ct.a[n + bit - j];
      assert t - v % t == -v + t * (1 + v / t) by {
        assert t * (1 + v / t) == t + t * (v / t);
      }
      SameResidue(t - v % t, -v, t, 1 + v / t);
    }
  }

  /** Partial sum of the gather form, for one slot. */
  function Gathered(c: SlotClue, s: Poly, bit: nat, j: nat): int
    requires bit < |s| && j <= |s| && (c.Packed? ==> Shaped(c.ct, |s|))
  {
    match c
    case Packed(ct) => Convolve(s, ct.a, bit, j)
    case Impertinent => 0
  }

  /** Homomorphic b - a * s at coefficient `bit`, one clue a slot: the gather sum over the secret
      equals the scatter product for every clue. */
  method PartialDecryptSimd(key: seq<Slots>, ghost s: Poly, clues: seq<SlotClue>, degree: nat, t: nat, bit: nat)
    returns (out: Slots)
    requires Ternary(s) && t > 1 && bit < |s| && |clues| == degree
    requires key == KeyFor(s, 0, degree, t).cts
    requires forall i :: 0 <= i < degree && clues[i].Packed? ==> Shaped(clues[i].ct, |s|)
    ensures out == seq(degree, i requires 0 <= i < degree => SlotValue(clues[i], s, bit, t))
  {
    var n := |key|;
    var acc: Slots := seq(degree, i => 0);
    var j := 0;
    while j < n
      invariant j <= n && |acc| == degree
      invariant forall i :: 0 <= i < degree ==> acc[i] == Gathered(clues[i], s, bit, j) % t
    {
      var masks: Slots := seq(degree, i requires 0 <= i < degree => MaskSlot(clues[i], n, j, bit, t));
      var term := MulSlots(key[j], masks, t);
      var next := AddSlots(acc, term, t);
      forall i | 0 <= i < degree ensures next[i] == Gathered(clues[i], s, bit, j + 1) % t {
        GatherStep(clues[i], s, bit, j, t);
      }
      acc := next;
      j := j + 1;
    }
    var bs: Slots := seq(degree, i requires 0 <= i < degree =>
      if clues[i].Packed? then clues[i].ct.b[bit] % t else t / 2 % t);
    var diff := SubSlots(acc, bs, t);
    out := MulSlots(diff, seq(degree, i => t - 1), t);
    forall i | 0 <= i < degree ensures out[i] == SlotValue(clues[i], s, bit, t) {
      GatherEnd(clues[i], s, bit, t);
    }
  }

  lemma GatherStep(c: SlotClue, s: Poly, bit: nat, j: nat, t: nat)
    requires Ternary(s) && t > 1 && bit < |s| && j < |s| && (c.Packed? ==> Shaped(c.ct, |s|))
    ensures (Gathered(c, s, bit, j) % t + KeySlot(s[j], t) * MaskSlot(c, |s|, j, bit, t) % t) % t
         == Gathered(c, s, bit, j + 1) % t
  {
    match c
    case Packed(ct) => GatherStepPacked(ct, s, bit, j, t);
    case Impertinent => assert KeySlot(s[j], t) * 0 == 0;
  }

  lemma GatherStepPacked(ct: Ciphertext, s: Poly, bit: nat, j: nat, t: nat)
    requires Ternary(s) && t > 1 && bit < |s| && j < |s| && Shaped(ct, |s|)
    ensures (Convolve(s, ct.a, bit, j) % t + KeySlot(s[j], t) * MaskSlot(Packed(ct), |s|, j, bit, t) % t) % t
         == Convolve(s, ct.a, bit, j + 1) % t
  {
    KeySlotIs(s[j], t);
    MaskSlotIs(Packed(ct), |s|, j, bit, t);
    hide MaskSlot, KeySlot;
    AddProduct(Convolve(s, ct.a, bit, j), KeySlot(s[j], t), MaskSlot(Packed(ct), |s|, j, bit, t), s[j],
               At(ct.a, bit - j), t);
  }

  lemma AddProduct(g: int, k: int, m: int, x: int, y: int, t: nat)
    requires t > 0 && k == x % t && m == y % t
    ensures (g % t + k * m % t) % t == (g + x * y) % t
  {
    MulResidues(x, y, t);
    AddResidues(g, x * y % t, t);
    AddResidues(g, x * y, t);
  }

  /** Subtract b, negate: b minus the product. */
  lemma GatherEnd(c: SlotClue, s: Poly, bit: nat, t: nat)
    requires t > 1 && bit < |s| && (c.Packed? ==> Shaped(c.ct, |s|))
    ensures var b := if c.Packed? then c.ct.b[bit] % t else t / 2 % t;
            ModQ(Gathered(c, s, bit, |s|) % t - b, t) * (t - 1) % t == SlotValue(c, s, bit, t)
  {
    match c
    case Packed(ct) =>
      MulCoefficient(s, ct.a, bit);
      MulCommutes(s, ct.a);
      DifferenceIs(Convolve(s, ct.a, bit, |s|), ct.b[bit], t);
    case Impertinent =>
      DifferenceIs(0, t / 2, t);
  }

  lemma DifferenceIs(g: int, b: int, t: nat)
    requires t > 1
    ensures ModQ(g % t - b % t, t) * (t - 1) % t == ModQ(b - g, t)
  {
    ModQIs(b - g, t);
    hide ModQ;
    NegatedDifference(g, b, t);
  }

  lemma NegatedDifference(g: int, b: int, t: nat)
    requires t > 1
    ensures ModQ(g % t - b % t, t) * (t - 1) % t == (b - g) % t
  {
    ModQIs(g % t - b % t, t);
    assert (g % t - b % t) % t == (g - b) % t by {
      SameResidue(g % t - b % t, g - b, t, b / t - g / t);
    }
    NegResidue(g - b, t);
  }

  // ---- the digest frame ----

  function DivCeil(x: nat, y: nat): (r: nat)
    requires y > 0
    ensures r * y >= x && (x == 0 ==> r == 0) && (x > 0 ==> r > 0 && (r - 1) * y < x)
  {
    (x + y - 1) / y
  }

  /** The clue in message slot `k`; slots past the last message are padding. */
  function ClueAt(messages: seq<Ciphertext>, k: nat): SlotClue {
    if k < |messages| then Packed(messages[k]) else Impertinent
  }

  ghost predicate AllShaped(messages: seq<Ciphertext>, n: nat) {
    forall k :: 0 <= k < |messages| ==> Shaped(messages[k], n)
  }

  /** Slots of one ciphertext of the frame: chunk `chunk`, bit `bit`. */
  function ChunkSlots(messages: seq<Ciphertext>, s: Poly, chunk: nat, degree: nat, t: nat, bit: nat): (r: Slots)
    requires t > 0 && bit < |s| && AllShaped(messages, |s|)
    ensures |r| == degree
  {
    seq<nat>(degree, i requires 0 <= i < degree => SlotValue(ClueAt(messages, chunk * degree + i), s, bit, t))
  }

  lemma ChunkSlotAt(messages: seq<Ciphertext>, s: Poly, chunk: nat, degree: nat, t: nat, bit: nat, i: nat)
    requires t > 0 && bit < |s| && AllShaped(messages, |s|) && i < degree
    ensures ChunkSlots(messages, s, chunk, degree, t, bit)[i]
            == SlotValue(ClueAt(messages, chunk * degree + i), s, bit, t)
  {
  }

  /** The frame of `chunks` chunks. */
  function Frame(messages: seq<Ciphertext>, s: Poly, chunks: nat, degree: nat, t: nat): seq<Slots>
    requires t > 0 && BITS <= |s| && AllShaped(messages, |s|)
  {
    if chunks == 0 then []
    else Frame(messages, s, chunks - 1, degree, t)
         + [ChunkSlots(messages, s, chunks - 1, degree, t, 0), ChunkSlots(messages, s, chunks - 1, degree, t, 1)]
  }

  lemma {:induction false} FrameAt(messages: seq<Ciphertext>, s: Poly, chunks: nat, degree: nat, t: nat, c: nat,
                                   bit: nat)
    requires t > 0 && BITS <= |s| && AllShaped(messages, |s|) && bit < BITS
    ensures |Frame(messages, s, chunks, degree, t)| == BITS * chunks
    ensures c < chunks ==>
              Frame(messages, s, chunks, degree, t)[BITS * c + bit] == ChunkSlots(messages, s, c, degree, t, bit)
  {
    if chunks > 0 {
      FrameAt(messages, s, chunks - 1, degree, t, c, bit);
    }
  }

  // ---- the client ----

  predicate InRange(raw: nat, t: nat) {
    (if raw > t / 2 then t as int - raw else raw) <= R_PRIME
  }

  /** Both coefficients of a slot pass. */
  predicate SlotMatches(cts: seq<Slots>, c: nat, i: nat, t: nat)
    requires BITS * c + 1 < |cts| && i < |cts[BITS * c]| && i < |cts[BITS * c + 1]|
  {
    InRange(cts[BITS * c][i], t) && InRange(cts[BITS * c + 1][i], t)
  }

  ghost predicate FullSlots(cts: seq<Slots>, degree: nat) {
    forall m :: 0 <= m < |cts| ==> |cts[m]| >= degree
  }

  function FlagsUpto(cts: seq<Slots>, chunks: nat, degree: nat, t: nat): seq<nat>
    requires BITS * chunks <= |cts| && FullSlots(cts, degree)
  {
    if chunks == 0 then []
    else FlagsUpto(cts, chunks - 1, degree, t)
         + seq(degree, i requires 0 <= i < degree => if SlotMatches(cts, chunks - 1, i, t) then 0 else t / 2)
  }

  lemma {:induction false} FlagsAt(cts: seq<Slots>, chunks: nat, degree: nat, t: nat, c: nat, i: nat)
    requires BITS * chunks <= |cts| && FullSlots(cts, degree) && i < degree
    ensures |FlagsUpto(cts, chunks, degree, t)| == chunks * degree
    ensures c < chunks ==>
      c * degree + i < chunks * degree
      && FlagsUpto(cts, chunks, degree, t)[c * degree + i] == if SlotMatches(cts, c, i, t) then 0 else t / 2
  {
    if chunks > 0 {
      FlagsAt(cts, chunks - 1, degree, t, c, i);
      assert chunks * degree == (chunks - 1) * degree + degree;
    }
  }

  /** Strictly ascending heights with the elements of `hs`: what sorting and deduplicating gives. */
  function SortedDistinct(hs: seq<nat>): (r: seq<nat>)
    ensures Ascending(r) && forall h :: h in r <==> h in hs
  {
    if hs == [] then [] else InsertSorted(SortedDistinct(hs[1..]), hs[0])
  }

  ghost predicate Ascending(hs: seq<nat>) {
    forall i, j :: 0 <= i < j < |hs| ==> hs[i] < hs[j]
  }

  function InsertSorted(sorted: seq<nat>, h: nat): (r: seq<nat>)
    requires Ascending(sorted)
    ensures Ascending(r) && forall x :: x in r <==> x == h || x in sorted
  {
    if sorted == [] then [h]
    else if h < sorted[0] then [h] + sorted
    else if h == sorted[0] then sorted
    else
      var rest := InsertSorted(sorted[1..], h);
      AscendingCons(sorted[0], rest, sorted, h);
      [sorted[0]] + rest
  }

  lemma AscendingCons(first: nat, rest: seq<nat>, sorted: seq<nat>, h: nat)
    requires sorted != [] && Ascending(sorted) && Ascending(rest) && first == sorted[0] < h
    requires forall x :: x in rest <==> x == h || x in sorted[1..]
    ensures Ascending([first] + rest) && forall x :: x in [first] + rest <==> x == h || x in sorted
  {
    assert forall i :: 0 <= i < |rest| ==> rest[i] in rest;
    assert forall x :: x in sorted[1..] ==> x > first;
    assert sorted == [first] + sorted[1..];
  }

  /** Heights whose slot passes the range check. */
  method RangeCheckMatches(slots: seq<nat>, slotHeights: seq<nat>, t: nat) returns (out: seq<nat>)
    ensures Ascending(out)
    ensures forall h :: h in out <==>
      exists k :: 0 <= k < |slotHeights| && k < |slots| && slotHeights[k] == h && InRange(slots[k], t)
  {
    var found: seq<nat> := [];
    var i := 0;
    while i < |slotHeights| && i < |slots|
      invariant i <= |slotHeights| && i <= |slots|
      invariant forall h :: h in found <==> exists k :: 0 <= k < i && slotHeights[k] == h && InRange(slots[k], t)
    {
      if InRange(slots[i], t) {
        found := found + [slotHeights[i]];
      }
      i := i + 1;
    }
    out := SortedDistinct(found);
  }
}
