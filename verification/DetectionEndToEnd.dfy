/** Encode, decrypt, range check: which heights a recipient is told about. */
module DetectionEndToEnd {
  import opened Arithmetic
  import opened Ring
  import opened Residue
  import opened Clue
  import opened Detection
  import opened DigestFrame
  import opened Outcome
  import opened Words

  /** `x` is within the range-check radius of a multiple of t. */
  predicate NearZero(x: int, t: nat)
    requires t > 0
  {
    ModQ(x, t) <= R_PRIME || t as int - ModQ(x, t) <= R_PRIME
  }

  /** b - a * s */
  function Residual(ct: Ciphertext, s: Poly): (d: Poly)
    requires |ct.a| == |ct.b| == |s|
    ensures |d| == |s|
  {
    Sub(ct.b, Mul(ct.a, s))
  }

  /** The first coefficients of b - a * s are all near zero. */
  predicate Pertinent(ct: Ciphertext, s: Poly, t: nat)
    requires t > 0 && BITS <= |s| && |ct.a| == |ct.b| == |s|
  {
    NearZero(Residual(ct, s)[0], t) && NearZero(Residual(ct, s)[1], t)
  }

  /** A message slot matches exactly when its clue is pertinent; a padding slot never does. */
  lemma SlotMatchesExactlyWhen(messages: seq<Ciphertext>, s: Poly, chunks: nat, degree: nat, t: nat, c: nat, i: nat)
    requires t > 2 * R_PRIME + 1 && BITS <= |s| && AllShaped(messages, |s|) && c < chunks && i < degree
    ensures var cts := Frame(messages, s, chunks, degree, t);
            && BITS * c + 1 < |cts| && i < |cts[BITS * c]| && i < |cts[BITS * c + 1]|
            && (SlotMatches(cts, c, i, t)
                <==> c * degree + i < |messages| && Pertinent(messages[c * degree + i], s, t))
  {
    hide Frame, ModQ, NearZero, InRange, SlotValue, ChunkSlots, Residual;
    var k := c * degree + i;
    FrameAt(messages, s, chunks, degree, t, c, 0);
    FrameAt(messages, s, chunks, degree, t, c, 1);
    ChunkSlotAt(messages, s, c, degree, t, 0, i);
    ChunkSlotAt(messages, s, c, degree, t, 1, i);
    SlotValueInRange(ClueAt(messages, k), s, 0, t);
    SlotValueInRange(ClueAt(messages, k), s, 1, t);
  }

  lemma SlotValueInRange(c: SlotClue, s: Poly, bit: nat, t: nat)
    requires t > 2 * R_PRIME + 1 && bit < |s| && (c.Packed? ==> Shaped(c.ct, |s|))
    ensures InRange(SlotValue(c, s, bit, t), t) <==> c.Packed? && NearZero(Residual(c.ct, s)[bit], t)
  {
    hide Mul, ModQ, NearZero, InRange;
    match c
    case Packed(ct) =>
      ResidualAt(ct, s, bit);
      hide Residual;
      InRangeIsNear(Residual(ct, s)[bit], t);
    case Impertinent =>
      PaddingIsFar(t);
  }

  lemma InRangeIsNear(x: int, t: nat)
    requires t > 2 * R_PRIME + 1
    ensures InRange(ModQ(x, t), t) <==> NearZero(x, t)
  {
    ModQIs(x, t);
    hide ModQ;
  }

  lemma ResidualAt(ct: Ciphertext, s: Poly, bit: nat)
    requires |ct.a| == |ct.b| == |s| && bit < |s|
    ensures Residual(ct, s)[bit] == ct.b[bit] - Mul(ct.a, s)[bit]
  {
    hide Mul;
  }

  lemma PaddingIsFar(t: nat)
    requires t > 2 * R_PRIME + 1
    ensures !InRange(ModQ(t / 2, t), t)
  {
    ModQIs(t / 2, t);
    ResidueIs(t / 2, t / 2, t, 0);
    hide ModQ;
  }

  lemma FrameIsFull(messages: seq<Ciphertext>, s: Poly, chunks: nat, degree: nat, t: nat)
    requires t > 0 && BITS <= |s| && AllShaped(messages, |s|)
    ensures |Frame(messages, s, chunks, degree, t)| == BITS * chunks
    ensures FullSlots(Frame(messages, s, chunks, degree, t), degree)
  {
  }

  lemma {:induction false} FrameIsVectors(messages: seq<Ciphertext>, s: Poly, chunks: nat, degree: nat, t: nat)
    requires t > 0 && BITS <= |s| && AllShaped(messages, |s|)
    ensures Vectors(Frame(messages, s, chunks, degree, t), degree, t)
  {
    hide ChunkSlots, Vector, AllShaped;
    if chunks > 0 {
      FrameIsVectors(messages, s, chunks - 1, degree, t);
      ChunkIsVector(messages, s, chunks - 1, degree, t, 0);
      ChunkIsVector(messages, s, chunks - 1, degree, t, 1);
    }
  }

  lemma ChunkIsVector(messages: seq<Ciphertext>, s: Poly, c: nat, degree: nat, t: nat, bit: nat)
    requires t > 0 && bit < |s| && AllShaped(messages, |s|)
    ensures Vector(ChunkSlots(messages, s, c, degree, t, bit), degree, t)
  {
    hide SlotValue;
    forall i | 0 <= i < degree ensures ChunkSlots(messages, s, c, degree, t, bit)[i] < t {
      SlotValueIsResidue(ClueAt(messages, c * degree + i), s, bit, t);
    }
  }

  lemma SlotValueIsResidue(c: SlotClue, s: Poly, bit: nat, t: nat)
    requires t > 0 && bit < |s| && (c.Packed? ==> Shaped(c.ct, |s|))
    ensures SlotValue(c, s, bit, t) < t
  {
    hide ModQ, Mul;
    match c
    case Packed(ct) => ModQIs(ct.b[bit] - Mul(ct.a, s)[bit], t);
    case Impertinent => ModQIs(t / 2, t);
  }

  lemma FlagOfSlot(messages: seq<Ciphertext>, s: Poly, chunks: nat, degree: nat, t: nat, c: nat, i: nat, k: nat)
    requires t > 2 * R_PRIME + 1 && BITS <= |s| && AllShaped(messages, |s|)
    requires c < chunks && i < degree && k == c * degree + i < |messages|
    requires BITS * chunks <= |Frame(messages, s, chunks, degree, t)|
    requires FullSlots(Frame(messages, s, chunks, degree, t), degree)
    ensures var flags := FlagsUpto(Frame(messages, s, chunks, degree, t), chunks, degree, t);
            k < |flags| && (InRange(flags[k], t) <==> Pertinent(messages[k], s, t))
  {
    hide Frame, Pertinent, FlagsUpto, SlotMatches, FullSlots, AllShaped;
    SlotMatchesExactlyWhen(messages, s, chunks, degree, t, c, i);
    FlagsAt(Frame(messages, s, chunks, degree, t), chunks, degree, t, c, i);
  }

  /** Flag `k` of a decrypted frame is in range exactly when message `k` is pertinent. */
  lemma FlagSaysPertinent(messages: seq<Ciphertext>, s: Poly, degree: nat, t: nat, k: nat)
    requires t > 2 * R_PRIME + 1 && degree > 0 && BITS <= |s| && AllShaped(messages, |s|) && k < |messages|
    requires var chunks := DivCeil(|messages|, degree);
             var cts := Frame(messages, s, chunks, degree, t);
             BITS * chunks <= |cts| && FullSlots(cts, degree)
    ensures var chunks := DivCeil(|messages|, degree);
            var flags := FlagsUpto(Frame(messages, s, chunks, degree, t), chunks, degree, t);
            k < |flags| && (InRange(flags[k], t) <==> Pertinent(messages[k], s, t))
  {
    hide Frame, Pertinent, FlagsUpto, DivCeil, FullSlots, AllShaped;
    ChunkOf(k, |messages|, degree);
    FlagOfSlot(messages, s, DivCeil(|messages|, degree), degree, t, k / degree, k % degree, k);
  }

  lemma ChunkOf(k: nat, m: nat, degree: nat)
    requires k < m && degree > 0
    ensures k / degree < DivCeil(m, degree) && k / degree * degree + k % degree == k
  {
    var c, chunks := k / degree, DivCeil(m, degree);
    assert c * degree + k % degree == k;
    assert (c - chunks) * degree == c * degree - chunks * degree;
    if c >= chunks {
      NonNegative(c - chunks, degree);
    }
  }

  /** One detection round: the server encodes the window for the client's key, the client decrypts
      the frame and range-checks it against the slot heights. It is told exactly the heights that
      have a pertinent clue, ascending and once each; a window of more chunks than the client
      accepts is refused as a whole. */
  method Detect(codec: Codec, network: nat, s: Poly, messages: seq<Ciphertext>, slotHeights: seq<nat>, degree: nat,
                t: nat) returns (r: Result<seq<nat>, Error>)
    requires Ternary(s) && t > 2 * R_PRIME + 1 && degree > 0 && BITS <= |s| && AllShaped(messages, |s|)
    requires |slotHeights| == |messages| && Faithful(codec, degree, t)
    ensures r.Ok? <==> DivCeil(|messages|, degree) <= DivCeil(MAX_OMR_MESSAGES, degree)
    ensures r.Err? && DivCeil(|messages|, degree) <= U32_MAX ==> r == Err(TooManyChunks)
    ensures r.Ok? ==>
      && Ascending(r.value)
      && (forall h :: h in r.value <==>
            exists k :: 0 <= k < |messages| && slotHeights[k] == h && Pertinent(messages[k], s, t))
  {
    hide Frame, DigestBytes, ParseDigest, Pertinent, Ternary, KeyFor, Faithful, Vectors, FlagsUpto;
    var key := BuildDetectionKey(s, network, degree, t);
    assert key.network == network by { KeyNetwork(s, network, degree, t); }
    var digest := EncodeMessages(codec, network, key, s, messages, degree, t);
    ghost var chunks := DivCeil(|messages|, degree);
    FrameIsFull(messages, s, chunks, degree, t);
    FewChunks(MAX_OMR_MESSAGES, degree);
    FrameIsVectors(messages, s, chunks, degree, t);
    if chunks <= U32_MAX {
      DigestRoundTrip(codec, chunks, Frame(messages, s, chunks, degree, t), degree, t);
    } else {
      WrappedIsRefused(codec, chunks, Frame(messages, s, chunks, degree, t), degree, t);
    }
    var flags := DecryptDigestSlots(codec, digest.value, degree, t);
    if flags.Err? {
      return Err(flags.error);
    }
    var out := RangeCheckMatches(flags.value, slotHeights, t);
    forall k | 0 <= k < |messages| && chunks <= DivCeil(MAX_OMR_MESSAGES, degree)
      ensures k < |flags.value| && (InRange(flags.value[k], t) <==> Pertinent(messages[k], s, t))
    {
      FlagSaysPertinent(messages, s, degree, t, k);
    }
    r := Ok(out);
  }

  lemma KeyNetwork(s: Poly, network: nat, degree: nat, t: nat)
    requires Ternary(s) && t > 1
    ensures KeyFor(s, network, degree, t).network == network
    ensures KeyFor(s, network, degree, t).cts == KeyFor(s, 0, degree, t).cts
  {
  }

  lemma FewChunks(m: nat, degree: nat)
    requires degree > 0
    ensures DivCeil(m, degree) <= m
  {
    var r := DivCeil(m, degree);
    if r > 0 {
      NonNegative(r - 1, degree - 1);
      assert (r - 1) * (degree - 1) == (r - 1) * degree - (r - 1);
    }
  }

  lemma FewerChunks(m: nat, n: nat, degree: nat)
    requires degree > 0 && m <= n
    ensures DivCeil(m, degree) <= DivCeil(n, degree)
  {
    var a, b := DivCeil(m, degree), DivCeil(n, degree);
    if a > b {
      assert (a - 1 - b) * degree == (a - 1) * degree - b * degree;
      NonNegative(a - 1 - b, degree);
    }
  }

  /** Any window within the message cap is within the chunk cap. */
  lemma CapFits(m: nat, degree: nat)
    requires degree > 0 && m <= MAX_OMR_MESSAGES
    ensures DivCeil(m, degree) <= DivCeil(MAX_OMR_MESSAGES, degree)
  {
    FewerChunks(m, MAX_OMR_MESSAGES, degree);
  }

  // ---- a clue made for the recipient ----

  /** The recipient of a fresh clue is told about it exactly when the noise of its first
      coefficients stays within the radius. */
  lemma FreshClueIsFoundExactlyWhen(s: Poly, a: seq<nat>, e: Poly, u: Poly, e1: Poly, e2: Poly, q: nat)
    requires |s| == |a| == |e| == |u| == |e1| == |e2| && BITS <= |s| && q > 2 * 484
    requires Within(Noise(s, e, u, e1, e2), 484)
    ensures Pertinent(ZeroUnder(KeyOf(s, a, e, q), u, e1, e2, q), s, q)
            <==> Abs(Noise(s, e, u, e1, e2)[0]) <= R_PRIME && Abs(Noise(s, e, u, e1, e2)[1]) <= R_PRIME
  {
    FreshZeroDecryptsToNoise(s, a, e, u, e1, e2, q);
    hide ZeroUnder, KeyOf, Noise, Mul, Congruent, Within;
    CongruentToNoiseIsPertinent(ZeroUnder(KeyOf(s, a, e, q), u, e1, e2, q), s, Noise(s, e, u, e1, e2), q);
  }

  lemma CongruentToNoiseIsPertinent(ct: Ciphertext, s: Poly, noise: Poly, q: nat)
    requires BITS <= |s| && |ct.a| == |ct.b| == |s| == |noise| && q > 2 * 484 && Within(noise, 484)
    requires Congruent(Residual(ct, s), noise, q)
    ensures Pertinent(ct, s, q) <==> Abs(noise[0]) <= R_PRIME && Abs(noise[1]) <= R_PRIME
  {
    hide Residual, Congruent, Within, NearZero;
    NearAtBit(Residual(ct, s), noise, q, 0);
    NearAtBit(Residual(ct, s), noise, q, 1);
  }

  lemma NearAtBit(d: Poly, noise: Poly, q: nat, bit: nat)
    requires bit < |noise| && q > 2 * 484 && Within(noise, 484) && Congruent(d, noise, q)
    ensures |d| == |noise| && (NearZero(d[bit], q) <==> Abs(noise[bit]) <= R_PRIME)
  {
    CongruentResidue(d, noise, q, bit);
    SameResidueNear(d[bit], noise[bit], q);
    SmallIsNear(noise[bit], q);
  }

  lemma SameResidueNear(x: int, y: int, t: nat)
    requires t > 0 && ModQ(x, t) == ModQ(y, t)
    ensures NearZero(x, t) <==> NearZero(y, t)
  {
  }

  lemma SmallIsNear(x: int, q: nat)
    requires q > 2 * 484 && Abs(x) <= 484
    ensures NearZero(x, q) <==> Abs(x) <= R_PRIME
  {
    ModQIs(x, q);
    hide ModQ;
    if x < 0 {
      ResidueIs(x, x + q, q, -1);
    } else {
      ResidueIs(x, x, q, 0);
    }
  }
}
