/** The client accepts a digest exactly when it is a frame: nothing malformed gets through, and nothing
    well-formed is refused. */
module DigestAccept {
  import opened Chain
  import opened Detection
  import opened DigestFrame
  import opened HintCodec
  import opened Outcome
  import opened Words

  /** Every part with its length in front. */
  function Framed(parts: seq<seq<Byte>>): seq<Byte> {
    if parts == [] then [] else Le32(|parts[0]| % (U32_MAX + 1)) + parts[0] + Framed(parts[1..])
  }

  /** The parts decrypt to these ciphertexts, none too short and no part too long for its length field. */
  ghost predicate Reads(codec: Codec, parts: seq<seq<Byte>>, cts: seq<Slots>, degree: nat) {
    && |parts| == |cts|
    && forall m :: 0 <= m < |parts| ==>
      |parts[m]| <= U32_MAX && codec.slots(parts[m]) == Some(cts[m]) && |cts[m]| >= degree
  }

  /** Version, the number of chunks, two parts a chunk, and no more chunks than the cap. */
  ghost predicate IsFrame(codec: Codec, digest: seq<Byte>, count: U32, parts: seq<seq<Byte>>, cts: seq<Slots>,
                          degree: nat)
    requires degree > 0
  {
    && digest == [DIGEST_VERSION] + Le32(count) + Framed(parts)
    && |parts| == BITS * count && count <= DivCeil(MAX_OMR_MESSAGES, degree) && Reads(codec, parts, cts, degree)
  }

  lemma Le32OfBytes(b: seq<Byte>)
    requires |b| >= 4
    ensures Le32(FromLe32(b)) == b[..4]
  {
    var b0: int, b1: int, b2: int, b3: int := b[0], b[1], b[2], b[3];
    var n: int := b0 + 256 * b1 + 65536 * b2 + 16777216 * b3;
    assert n % 256 == b0 && n / 256 == b1 + 256 * b2 + 65536 * b3;
    assert n / 65536 == b2 + 256 * b3 && n / 16777216 == b3;
    assert (b1 + 256 * b2 + 65536 * b3) % 256 == b1 && (b2 + 256 * b3) % 256 == b2;
  }

  /** What one step of the parser took off the front. */
  lemma TakenPart(codec: Codec, rest: seq<Byte>, degree: nat) returns (part: seq<Byte>)
    requires TakeOne(codec, rest, degree).Ok?
    ensures var one := TakeOne(codec, rest, degree).value;
            && |part| <= U32_MAX && codec.slots(part) == Some(one.0) && |one.0| >= degree
            && rest == Le32(|part|) + part + rest[one.1..]
  {
    var len: nat := FromLe32(rest);
    part := rest[4..4 + len];
    Le32OfBytes(rest);
    hide Le32, FromLe32;
    assert rest == rest[..4] + part + rest[4 + len..];
  }

  lemma {:induction false} AcceptedIsFramed(codec: Codec, rest: seq<Byte>, n: nat, degree: nat, cts: seq<Slots>)
      returns (parts: seq<seq<Byte>>)
    requires TakeAll(codec, rest, n, degree) == Ok(cts)
    ensures |parts| == n && rest == Framed(parts) && Reads(codec, parts, cts, degree)
    decreases n
  {
    hide TakeOne, Le32;
    if n == 0 {
      parts := [];
    } else {
      var one := TakeOne(codec, rest, degree).value;
      var part := TakenPart(codec, rest, degree);
      var more := AcceptedIsFramed(codec, rest[one.1..], n - 1, degree, cts[1..]);
      parts := [part] + more;
      assert parts[1..] == more;
    }
  }

  lemma FrontIsTaken(codec: Codec, part: seq<Byte>, tail: seq<Byte>, ct: Slots, degree: nat)
    requires |part| <= U32_MAX && codec.slots(part) == Some(ct) && |ct| >= degree
    ensures var rest := Le32(|part|) + part + tail;
            TakeOne(codec, rest, degree) == Ok((ct, 4 + |part|)) && rest[4 + |part|..] == tail
  {
    Le32RoundTrip(|part|, part + tail);
    hide Le32, FromLe32;
    assert Le32(|part|) + part + tail == Le32(|part|) + (part + tail);
    assert (Le32(|part|) + part + tail)[4..4 + |part|] == part;
  }

  lemma {:induction false} FramedIsAccepted(codec: Codec, parts: seq<seq<Byte>>, cts: seq<Slots>, degree: nat)
    requires Reads(codec, parts, cts, degree)
    ensures TakeAll(codec, Framed(parts), |parts|, degree) == Ok(cts) && |Framed(parts)| >= 4 * |parts|
    decreases |parts|
  {
    hide TakeOne, Le32;
    if parts != [] {
      FramedIsAccepted(codec, parts[1..], cts[1..], degree);
      FrontIsTaken(codec, parts[0], Framed(parts[1..]), cts[0], degree);
      assert [cts[0]] + cts[1..] == cts;
    }
  }

  lemma FrameHeader(count: U32, tail: seq<Byte>)
    ensures var digest := [DIGEST_VERSION] + Le32(count) + tail;
            |digest| >= 5 && digest[0] == DIGEST_VERSION && ChunkCount(digest) == count && digest[5..] == tail
  {
    hide FromLe32;
    assert ([DIGEST_VERSION] + Le32(count) + tail)[1..] == Le32(count) + tail;
    Le32RoundTrip(count, tail);
  }

  /** For every byte string: it parses to these ciphertexts exactly when it is a frame of parts that decrypt
      to them. */
  lemma AcceptsExactlyFrames(codec: Codec, digest: seq<Byte>, degree: nat, cts: seq<Slots>)
    requires degree > 0
    ensures ParseDigest(codec, digest, degree) == Ok(cts)
            <==> exists count: U32, parts: seq<seq<Byte>> :: IsFrame(codec, digest, count, parts, cts, degree)
  {
    hide TakeAll, Framed, Reads, Le32, DivCeil;
    if ParseDigest(codec, digest, degree) == Ok(cts) {
      var count: U32 := ChunkCount(digest);
      var parts := AcceptedIsFramed(codec, digest[5..], BITS * count, degree, cts);
      Le32OfBytes(digest[1..]);
      assert digest == [digest[0]] + digest[1..][..4] + digest[5..];
      assert IsFrame(codec, digest, count, parts, cts, degree);
    }
    if count: U32, parts: seq<seq<Byte>> :| IsFrame(codec, digest, count, parts, cts, degree) {
      FrameHeader(count, Framed(parts));
      FramedIsAccepted(codec, parts, cts, degree);
    }
  }
}
