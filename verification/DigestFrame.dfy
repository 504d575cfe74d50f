/** The digest on the wire: version, chunk count, then every ciphertext with its length. */
module DigestFrame {
  import opened Clue
  import opened Detection
  import opened HintCodec
  import opened Outcome
  import opened Ring
  import opened Words
  import opened Chain

  const DIGEST_VERSION: Byte := 1
  /** Least bytes of a chunk: one length field a ciphertext. */
  const MIN_CHUNK_BYTES: nat := BITS * 4

  datatype Error =
    | WrongNetwork
    | Empty
    | BadVersion
    | TooManyChunks
    | Truncated
    | BadCiphertext
    | ShortSlots
    | Trailing

  /** A ciphertext's bytes, and what bytes decrypt to. */
  datatype Codec = Codec(bytes: Slots -> seq<Byte>, slots: seq<Byte> -> Option<Slots>)

  /** One residue modulo t a slot. */
  ghost predicate Vector(x: Slots, degree: nat, t: nat) {
    |x| == degree && forall i :: 0 <= i < |x| ==> x[i] < t
  }

  /** Decryption gives back every vector that was encrypted, and lengths fit their field. */
  ghost predicate Faithful(codec: Codec, degree: nat, t: nat) {
    forall x :: Vector(x, degree, t) ==> codec.slots(codec.bytes(x)) == Some(x) && |codec.bytes(x)| <= U32_MAX
  }

  ghost predicate Vectors(cts: seq<Slots>, degree: nat, t: nat) {
    forall m :: 0 <= m < |cts| ==> Vector(cts[m], degree, t)
  }

  // ---- encoding ----

  function CtBytes(codec: Codec, ct: Slots): seq<Byte> {
    Le32(|codec.bytes(ct)| % (U32_MAX + 1)) + codec.bytes(ct)
  }

  function AllBytes(codec: Codec, cts: seq<Slots>): seq<Byte> {
    if cts == [] then [] else AllBytes(codec, cts[..|cts| - 1]) + CtBytes(codec, cts[|cts| - 1])
  }

  function DigestBytes(codec: Codec, chunks: nat, cts: seq<Slots>): seq<Byte> {
    [DIGEST_VERSION] + Le32(chunks % (U32_MAX + 1)) + AllBytes(codec, cts)
  }

  lemma AllBytesSnoc(codec: Codec, cts: seq<Slots>, ct: Slots)
    ensures AllBytes(codec, cts + [ct]) == AllBytes(codec, cts) + CtBytes(codec, ct)
  {
    assert (cts + [ct])[..|cts|] == cts;
  }

  /** Encode the messages of a window for one detection key. */
  method EncodeMessages(codec: Codec, network: nat, key: DetectionKey, ghost s: Poly, messages: seq<Ciphertext>,
                        degree: nat, t: nat) returns (r: Result<seq<Byte>, Error>)
    requires Ternary(s) && t > 1 && degree > 0 && BITS <= |s| && AllShaped(messages, |s|)
    requires key == KeyFor(s, key.network, degree, t)
    ensures key.network != network ==> r == Err(WrongNetwork)
    ensures key.network == network ==>
      var chunks := DivCeil(|messages|, degree);
      r == Ok(DigestBytes(codec, chunks, Frame(messages, s, chunks, degree, t)))
  {
    if key.network != network {
      return Err(WrongNetwork);
    }
    var chunkCount := DivCeil(|messages|, degree);
    var header := [DIGEST_VERSION] + Le32(chunkCount % (U32_MAX + 1));
    var body: seq<Byte> := [];
    hide ChunkSlots, Le32, CtBytes, AllBytes, Frame, KeyFor, AllShaped, Ternary;
    FrameOfNone(codec, messages, s, degree, t);
    var c := 0;
    while c < chunkCount
      invariant c <= chunkCount && body == AllBytes(codec, Frame(messages, s, c, degree, t))
    {
      var first := EncodeBit(key.cts, s, messages, c, degree, t, 0);
      var second := EncodeBit(key.cts, s, messages, c, degree, t, 1);
      FrameBytes(codec, messages, s, c, degree, t);
      body := body + CtBytes(codec, first) + CtBytes(codec, second);
      c := c + 1;
    }
    r := Ok(header + body);
  }

  lemma FrameOfNone(codec: Codec, messages: seq<Ciphertext>, s: Poly, degree: nat, t: nat)
    requires t > 0 && BITS <= |s| && AllShaped(messages, |s|)
    ensures AllBytes(codec, Frame(messages, s, 0, degree, t)) == []
  {
  }

  lemma FrameBytes(codec: Codec, messages: seq<Ciphertext>, s: Poly, c: nat, degree: nat, t: nat)
    requires t > 0 && BITS <= |s| && AllShaped(messages, |s|)
    ensures AllBytes(codec, Frame(messages, s, c + 1, degree, t))
         == AllBytes(codec, Frame(messages, s, c, degree, t))
            + CtBytes(codec, ChunkSlots(messages, s, c, degree, t, 0))
            + CtBytes(codec, ChunkSlots(messages, s, c, degree, t, 1))
  {
    var frame := Frame(messages, s, c, degree, t);
    var x, y := ChunkSlots(messages, s, c, degree, t, 0), ChunkSlots(messages, s, c, degree, t, 1);
    hide CtBytes, ChunkSlots, AllBytes;
    assert Frame(messages, s, c + 1, degree, t) == frame + [x] + [y];
    AllBytesSnoc(codec, frame, x);
    AllBytesSnoc(codec, frame + [x], y);
  }

  method EncodeBit(key: seq<Slots>, ghost s: Poly, messages: seq<Ciphertext>, c: nat, degree: nat, t: nat, bit: nat)
    returns (slots: Slots)
    requires Ternary(s) && t > 1 && BITS <= |s| && AllShaped(messages, |s|) && bit < BITS
    requires key == KeyFor(s, 0, degree, t).cts
    ensures slots == ChunkSlots(messages, s, c, degree, t, bit)
  {
    var clues := seq(degree, i requires 0 <= i => ClueAt(messages, c * degree + i));
    assert forall i :: 0 <= i < degree ==> clues[i] == ClueAt(messages, c * degree + i);
    slots := PartialDecryptSimd(key, s, clues, degree, t, bit);
  }

  // ---- decoding ----

  /** The ciphertext at the front of `rest` and its length on the wire. */
  function TakeOne(codec: Codec, rest: seq<Byte>, degree: nat): (r: Result<(Slots, nat), Error>)
    ensures r.Ok? ==> 4 <= r.value.1 <= |rest| && |r.value.0| >= degree
  {
    if |rest| < 4 then Err(Truncated)
    else
      var len: nat := FromLe32(rest);
      if |rest| < 4 + len then Err(Truncated)
      else
        match codec.slots(rest[4..4 + len])
        case None => Err(BadCiphertext)
        case Some(slots) => if |slots| < degree then Err(ShortSlots) else Ok((slots, 4 + len))
  }

  /** Exactly `n` ciphertexts and nothing after them. */
  function TakeAll(codec: Codec, rest: seq<Byte>, n: nat, degree: nat): (r: Result<seq<Slots>, Error>)
    ensures r.Ok? ==> |r.value| == n && FullSlots(r.value, degree)
    decreases n
  {
    if n == 0 then (if rest == [] then Ok([]) else Err(Trailing))
    else
      match TakeOne(codec, rest, degree)
      case Err(e) => Err(e)
      case Ok(one) =>
        match TakeAll(codec, rest[one.1..], n - 1, degree)
        case Err(e) => Err(e)
        case Ok(more) => Ok([one.0] + more)
  }

  function ChunkCount(digest: seq<Byte>): nat
    requires |digest| >= 5
  {
    FromLe32(digest[1..])
  }

  /** The ciphertexts of a digest, or why it is refused. */
  function ParseDigest(codec: Codec, digest: seq<Byte>, degree: nat): (r: Result<seq<Slots>, Error>)
    requires degree > 0
    ensures r.Ok? ==> |digest| >= 5 && |r.value| == BITS * ChunkCount(digest) && FullSlots(r.value, degree)
  {
    if |digest| < 5 then Err(Empty)
    else if digest[0] != DIGEST_VERSION then Err(BadVersion)
    else if ChunkCount(digest) > DivCeil(MAX_OMR_MESSAGES, degree) then Err(TooManyChunks)
    else if ChunkCount(digest) * MIN_CHUNK_BYTES > |digest| - 5 then Err(TooManyChunks)
    else TakeAll(codec, digest[5..], BITS * ChunkCount(digest), degree)
  }

  /** Ciphertexts already read in front of what is still to come. */
  function Prepend(read: seq<Slots>, r: Result<seq<Slots>, Error>): Result<seq<Slots>, Error> {
    if r.Ok? then Ok(read + r.value) else r
  }

  lemma PrependTwice(a: seq<Slots>, b: seq<Slots>, r: Result<seq<Slots>, Error>)
    ensures Prepend(a, Prepend(b, r)) == Prepend(a + b, r) && Prepend([], r) == r
  {
    if r.Ok? {
      assert a + (b + r.value) == a + b + r.value && [] + r.value == r.value;
    }
  }

  method ReadOne(codec: Codec, digest: seq<Byte>, start: nat, degree: nat) returns (r: Result<Slots, Error>, off: nat)
    requires start <= |digest|
    ensures start <= off <= |digest|
    ensures var one := TakeOne(codec, digest[start..], degree);
            if one.Err? then r == Err(one.error) else r == Ok(one.value.0) && off == start + one.value.1
  {
    off := start;
    if off + 4 > |digest| {
      return Err(Truncated), off;
    }
    var len: nat := FromLe32(digest[off..]);
    off := off + 4;
    if off + len > |digest| {
      return Err(Truncated), off;
    }
    assert digest[start..][4..4 + len] == digest[off..off + len];
    var slots := codec.slots(digest[off..off + len]);
    off := off + len;
    if slots.None? {
      return Err(BadCiphertext), off;
    }
    if |slots.value| < degree {
      return Err(ShortSlots), off;
    }
    r := Ok(slots.value);
  }

  /** Two ciphertexts, of `n` that are expected. */
  method ReadChunk(codec: Codec, digest: seq<Byte>, start: nat, degree: nat, ghost n: nat)
    returns (r: Result<(Slots, Slots), Error>, off: nat)
    requires start <= |digest| && n >= BITS
    ensures start <= off <= |digest|
    ensures r.Err? ==> TakeAll(codec, digest[start..], n, degree) == Err(r.error)
    ensures r.Ok? ==>
      && |r.value.0| >= degree && |r.value.1| >= degree
      && TakeAll(codec, digest[start..], n, degree)
         == Prepend([r.value.0] + [r.value.1], TakeAll(codec, digest[off..], n - BITS, degree))
  {
    hide TakeOne, TakeAll;
    TakeStep(codec, digest[start..], n, degree);
    var first, mid := ReadOne(codec, digest, start, degree);
    off := mid;
    if first.Err? {
      return Err(first.error), off;
    }
    assert digest[start..][mid - start..] == digest[mid..];
    TakeStep(codec, digest[mid..], n - 1, degree);
    var second, end := ReadOne(codec, digest, mid, degree);
    off := end;
    if second.Err? {
      return Err(second.error), off;
    }
    assert digest[mid..][end - mid..] == digest[end..];
    PrependTwice([first.value], [second.value], TakeAll(codec, digest[end..], n - BITS, degree));
    r := Ok((first.value, second.value));
  }

  lemma TakeNone(codec: Codec, rest: seq<Byte>, degree: nat)
    ensures TakeAll(codec, rest, 0, degree) == if rest == [] then Ok([]) else Err(Trailing)
  {
  }

  /** All chunks of a digest, read in place. */
  method ReadChunks(codec: Codec, digest: seq<Byte>, start: nat, chunkCount: nat, degree: nat, t: nat)
    returns (r: Result<seq<nat>, Error>)
    requires start <= |digest|
    ensures var all := TakeAll(codec, digest[start..], BITS * chunkCount, degree);
            r == if all.Err? then Err(all.error) else Ok(FlagsUpto(all.value, chunkCount, degree, t))
  {
    hide TakeOne, SlotMatches, FlagsUpto, PairFlags, TakeAll;
    ghost var want := TakeAll(codec, digest[start..], BITS * chunkCount, degree);
    ghost var read: seq<Slots> := [];
    var flags: seq<nat> := [];
    var off := start;
    PrependTwice([], [], want);
    FlagsNone(read, degree, t);
    var c := 0;
    while c < chunkCount
      invariant c <= chunkCount && off <= |digest|
      invariant |read| == BITS * c && FullSlots(read, degree) && flags == FlagsUpto(read, c, degree, t)
      invariant want == Prepend(read, TakeAll(codec, digest[off..], BITS * (chunkCount - c), degree))
    {
      var pair, next := ReadChunk(codec, digest, off, degree, BITS * (chunkCount - c));
      if pair.Err? {
        return Err(pair.error);
      }
      var (first, second) := pair.value;
      PrependTwice(read, [first] + [second], TakeAll(codec, digest[next..], BITS * (chunkCount - c - 1), degree));
      FlagsSnoc(read, c, degree, t, first, second);
      flags := flags + PairFlags(first, second, degree, t);
      off := next;
      read := read + ([first] + [second]);
      c := c + 1;
    }
    TakeNone(codec, digest[off..], degree);
    if off != |digest| {
      return Err(Trailing);
    }
    assert read + [] == read;
    r := Ok(flags);
  }

  /** Collapse a digest to one flag per slot: 0 for a match, t / 2 otherwise. */
  method DecryptDigestSlots(codec: Codec, digest: seq<Byte>, degree: nat, t: nat) returns (r: Result<seq<nat>, Error>)
    requires degree > 0
    ensures var frame := ParseDigest(codec, digest, degree);
            r == if frame.Err? then Err(frame.error) else Ok(FlagsUpto(frame.value, ChunkCount(digest), degree, t))
  {
    if |digest| < 5 {
      return Err(Empty);
    }
    if digest[0] != DIGEST_VERSION {
      return Err(BadVersion);
    }
    var chunkCount := ChunkCount(digest);
    if chunkCount > DivCeil(MAX_OMR_MESSAGES, degree) || chunkCount * MIN_CHUNK_BYTES > |digest| - 5 {
      return Err(TooManyChunks);
    }
    hide TakeAll, FlagsUpto, ChunkCount;
    r := ReadChunks(codec, digest, 5, chunkCount, degree, t);
  }

  /** Flags of one chunk from its two slot vectors. */
  function PairFlags(x: Slots, y: Slots, degree: nat, t: nat): seq<nat>
    requires |x| >= degree && |y| >= degree
  {
    seq(degree, i requires 0 <= i < degree => if InRange(x[i], t) && InRange(y[i], t) then 0 else t / 2)
  }

  lemma FlagsNone(read: seq<Slots>, degree: nat, t: nat)
    requires FullSlots(read, degree)
    ensures FlagsUpto(read, 0, degree, t) == []
  {
  }

  lemma FlagsSnoc(read: seq<Slots>, c: nat, degree: nat, t: nat, x: Slots, y: Slots)
    requires |read| == BITS * c && FullSlots(read, degree) && |x| >= degree && |y| >= degree
    ensures FullSlots(read + ([x] + [y]), degree)
    ensures FlagsUpto(read + ([x] + [y]), c + 1, degree, t)
            == FlagsUpto(read, c, degree, t) + PairFlags(x, y, degree, t)
  {
    FlagsOfPrefix(read, read + ([x] + [y]), c, degree, t);
  }

  lemma {:induction false} FlagsOfPrefix(a: seq<Slots>, b: seq<Slots>, c: nat, degree: nat, t: nat)
    requires a <= b && BITS * c <= |a| && FullSlots(a, degree) && FullSlots(b, degree)
    ensures FlagsUpto(b, c, degree, t) == FlagsUpto(a, c, degree, t)
  {
    if c > 0 {
      FlagsOfPrefix(a, b, c - 1, degree, t);
    }
  }

  lemma TakeStep(codec: Codec, rest: seq<Byte>, n: nat, degree: nat)
    requires n > 0
    ensures match TakeOne(codec, rest, degree)
            case Err(e) => TakeAll(codec, rest, n, degree) == Err(e)
            case Ok(one) =>
              TakeAll(codec, rest, n, degree) == Prepend([one.0], TakeAll(codec, rest[one.1..], n - 1, degree))
  {
  }

  // ---- decoding inverts encoding ----

  lemma OneRoundTrip(codec: Codec, ct: Slots, tail: seq<Byte>, degree: nat, t: nat)
    requires Faithful(codec, degree, t) && Vector(ct, degree, t)
    ensures var rest := CtBytes(codec, ct) + tail;
            TakeOne(codec, rest, degree) == Ok((ct, |CtBytes(codec, ct)|)) && rest[|CtBytes(codec, ct)|..] == tail
  {
    var bytes := codec.bytes(ct);
    assert codec.slots(bytes) == Some(ct) && |bytes| <= U32_MAX;
    Le32RoundTrip(|bytes|, bytes + tail);
    hide FromLe32, Le32;
    assert CtBytes(codec, ct) + tail == Le32(|bytes|) + (bytes + tail);
    assert (CtBytes(codec, ct) + tail)[4..4 + |bytes|] == bytes;
  }

  lemma {:induction false} AllBytesFront(codec: Codec, cts: seq<Slots>)
    requires cts != []
    ensures AllBytes(codec, cts) == CtBytes(codec, cts[0]) + AllBytes(codec, cts[1..])
    ensures |AllBytes(codec, cts)| >= 4 * |cts|
  {
    hide CtBytes;
    assert |CtBytes(codec, cts[|cts| - 1])| >= 4 by { CtBytesLength(codec, cts[|cts| - 1]); }
    if |cts| > 1 {
      AllBytesFront(codec, cts[..|cts| - 1]);
      assert cts[..|cts| - 1][1..] == cts[1..][..|cts| - 2];
    } else {
      assert cts[..0] == [] && cts[1..] == [];
    }
  }

  lemma CtBytesLength(codec: Codec, ct: Slots)
    ensures |CtBytes(codec, ct)| >= 4
  {
  }

  lemma {:induction false} AllRoundTrip(codec: Codec, cts: seq<Slots>, degree: nat, t: nat)
    requires Faithful(codec, degree, t) && Vectors(cts, degree, t)
    ensures TakeAll(codec, AllBytes(codec, cts), |cts|, degree) == Ok(cts)
    decreases |cts|
  {
    hide Faithful, CtBytes, TakeOne, Vector;
    if cts != [] {
      AllBytesFront(codec, cts);
      AllRoundTrip(codec, cts[1..], degree, t);
      OneRoundTrip(codec, cts[0], AllBytes(codec, cts[1..]), degree, t);
      assert [cts[0]] + cts[1..] == cts;
    }
  }

  lemma HeaderRoundTrip(codec: Codec, chunks: nat, cts: seq<Slots>)
    ensures var digest := DigestBytes(codec, chunks, cts);
            && |digest| >= 5 && digest[0] == DIGEST_VERSION && ChunkCount(digest) == chunks % (U32_MAX + 1)
            && digest[5..] == AllBytes(codec, cts)
  {
    hide AllBytes, FromLe32;
    var digest, count := DigestBytes(codec, chunks, cts), chunks % (U32_MAX + 1);
    assert digest[1..] == Le32(count) + AllBytes(codec, cts) && digest[5..] == AllBytes(codec, cts);
    Le32RoundTrip(count, AllBytes(codec, cts));
  }

  lemma {:induction false} OthersTrail(codec: Codec, cts: seq<Slots>, n: nat, degree: nat, t: nat)
    requires Faithful(codec, degree, t) && Vectors(cts, degree, t) && n < |cts|
    ensures TakeAll(codec, AllBytes(codec, cts), n, degree) == Err(Trailing)
    decreases |cts|
  {
    hide Faithful, CtBytes, TakeOne, Vector;
    AllBytesFront(codec, cts);
    if n > 0 {
      OthersTrail(codec, cts[1..], n - 1, degree, t);
      OneRoundTrip(codec, cts[0], AllBytes(codec, cts[1..]), degree, t);
    }
  }

  /** A chunk count that does not fit its field is refused too, by what is left over. */
  lemma WrappedIsRefused(codec: Codec, chunks: nat, cts: seq<Slots>, degree: nat, t: nat)
    requires Faithful(codec, degree, t) && degree > 0 && Vectors(cts, degree, t)
    requires |cts| == BITS * chunks && chunks > U32_MAX
    ensures ParseDigest(codec, DigestBytes(codec, chunks, cts), degree).Err?
  {
    hide TakeAll, Faithful, Vectors, AllBytes, FromLe32, Le32, DigestBytes, DivCeil;
    HeaderRoundTrip(codec, chunks, cts);
    OthersTrail(codec, cts, BITS * (chunks % (U32_MAX + 1)), degree, t);
  }

  /** A digest within the chunk cap decodes to the frame it was made of. */
  lemma DigestRoundTrip(codec: Codec, chunks: nat, cts: seq<Slots>, degree: nat, t: nat)
    requires Faithful(codec, degree, t) && degree > 0 && Vectors(cts, degree, t)
    requires |cts| == BITS * chunks && chunks <= U32_MAX
    ensures var digest := DigestBytes(codec, chunks, cts);
            && |digest| >= 5 && ChunkCount(digest) == chunks
            && ParseDigest(codec, digest, degree)
               == if chunks > DivCeil(MAX_OMR_MESSAGES, degree) then Err(TooManyChunks) else Ok(cts)
  {
    hide TakeAll, Faithful, Vectors, AllBytes, FromLe32, Le32, DigestBytes;
    HeaderRoundTrip(codec, chunks, cts);
    AllRoundTrip(codec, cts, degree, t);
    if cts != [] {
      AllBytesFront(codec, cts);
    }
  }
}
