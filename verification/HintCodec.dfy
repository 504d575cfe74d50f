/** The stored form of a transaction's clue hints: a tagged, length-prefixed list. */
module HintCodec {
  import opened Chain
  import opened Words

  /** A clue and the output it is for; no index means the first output without a clue. */
  datatype Hint = Hint(index: Option<U32>, clue: seq<Byte>)

  const MAGIC: seq<Byte> := [77, 67, 76, 49]

  function Le32(n: U32): (r: seq<Byte>)
    ensures |r| == 4
  {
    [n % 256, n / 256 % 256, n / 65536 % 256, n / 16777216]
  }

  function FromLe32(b: seq<Byte>): U32
    requires |b| >= 4
  {
    var b0: int, b1: int, b2: int, b3: int := b[0], b[1], b[2], b[3];
    b0 + 256 * b1 + 65536 * b2 + 16777216 * b3
  }

  /** The length field saturates, and no more bytes than it says are written. */
  function ClueLength(clue: seq<Byte>): U32 {
    if |clue| <= U32_MAX then |clue| else U32_MAX
  }

  function EncodeHint(h: Hint): seq<Byte> {
    Le32(if h.index.Some? then h.index.value else U32_MAX) + Le32(ClueLength(h.clue)) + h.clue[..ClueLength(h.clue)]
  }

  function EncodeBody(hints: seq<Hint>): seq<Byte> {
    if hints == [] then [] else EncodeHint(hints[0]) + EncodeBody(hints[1..])
  }

  function Encode(hints: seq<Hint>): seq<Byte> {
    MAGIC + EncodeBody(hints)
  }

  /** One entry is at the front of `rest`. */
  predicate HasEntry(rest: seq<Byte>) {
    |rest| >= 8 && |rest| >= 8 + FromLe32(rest[4..])
  }

  function EntryAt(rest: seq<Byte>): Hint
    requires HasEntry(rest)
  {
    var index := FromLe32(rest);
    Hint(if index == U32_MAX then None else Some(index), rest[8..8 + FromLe32(rest[4..])])
  }

  function DecodeBody(rest: seq<Byte>): seq<Hint>
    decreases |rest|
  {
    if HasEntry(rest) then [EntryAt(rest)] + DecodeBody(rest[8 + FromLe32(rest[4..])..]) else []
  }

  function Decode(stored: seq<Byte>): seq<Hint> {
    if MAGIC <= stored then DecodeBody(stored[4..]) else []
  }

  method DecodeHints(stored: seq<Byte>) returns (hints: seq<Hint>)
    ensures hints == Decode(stored)
  {
    if !(MAGIC <= stored) {
      return [];
    }
    var rest := stored[4..];
    hints := [];
    while |rest| >= 8
      invariant hints + DecodeBody(rest) == Decode(stored)
      decreases |rest|
    {
      var len: nat := FromLe32(rest[4..]);
      if |rest| < 8 + len {
        break;
      }
      assert DecodeBody(rest) == [EntryAt(rest)] + DecodeBody(rest[8 + len..]);
      hide FromLe32;
      var index := FromLe32(rest);
      hints := hints + [Hint(if index == U32_MAX then None else Some(index), rest[8..8 + len])];
      rest := rest[8 + len..];
    }
  }

  /** What survives storage: the largest index reads back as no index, and clues are cut at the
      largest length. */
  function Canonical(h: Hint): Hint {
    Hint(if h.index == Some(U32_MAX) then None else h.index, h.clue[..ClueLength(h.clue)])
  }

  function CanonicalAll(hints: seq<Hint>): seq<Hint> {
    seq(|hints|, i requires 0 <= i < |hints| => Canonical(hints[i]))
  }

  lemma Digits(n: int)
    requires n >= 0
    ensures n == n % 256 + 256 * (n / 256 % 256) + 65536 * (n / 65536 % 256) + 16777216 * (n / 16777216)
  {
    assert n / 65536 == n / 256 / 256 && n / 16777216 == n / 65536 / 256;
  }

  lemma Le32RoundTrip(n: U32, tail: seq<Byte>)
    ensures FromLe32(Le32(n) + tail) == n
  {
    Digits(n);
    var b := Le32(n) + tail;
    assert b[0] == n % 256 && b[1] == n / 256 % 256 && b[2] == n / 65536 % 256 && b[3] == n / 16777216;
  }

  lemma EntryRoundTrip(h: Hint, tail: seq<Byte>)
    ensures var b := EncodeHint(h) + tail;
            HasEntry(b) && EntryAt(b) == Canonical(h) && b[8 + FromLe32(b[4..])..] == tail
  {
    hide FromLe32, Le32;
    var b, len := EncodeHint(h) + tail, ClueLength(h.clue);
    var index: U32 := if h.index.Some? then h.index.value else U32_MAX;
    assert b == Le32(index) + (Le32(len) + h.clue[..len] + tail);
    Le32RoundTrip(index, Le32(len) + h.clue[..len] + tail);
    assert b[4..] == Le32(len) + (h.clue[..len] + tail);
    Le32RoundTrip(len, h.clue[..len] + tail);
    assert b[8..8 + len] == h.clue[..len];
  }

  lemma DecodeStep(h: Hint, rest: seq<Byte>)
    ensures DecodeBody(EncodeHint(h) + rest) == [Canonical(h)] + DecodeBody(rest)
  {
    EntryRoundTrip(h, rest);
    hide EncodeHint, HasEntry, EntryAt, FromLe32, Canonical;
  }

  lemma {:induction false} BodyRoundTrip(hints: seq<Hint>, tail: seq<Byte>)
    requires !HasEntry(tail)
    ensures DecodeBody(EncodeBody(hints) + tail) == CanonicalAll(hints)
  {
    hide EncodeHint, HasEntry, EntryAt, FromLe32, Canonical;
    if hints != [] {
      var rest := EncodeBody(hints[1..]) + tail;
      BodyRoundTrip(hints[1..], tail);
      DecodeStep(hints[0], rest);
      hide DecodeBody;
      assert EncodeBody(hints) + tail == EncodeHint(hints[0]) + rest;
      assert CanonicalAll(hints) == [Canonical(hints[0])] + CanonicalAll(hints[1..]);
    } else {
      assert EncodeBody(hints) + tail == tail;
    }
  }

  /** What follows the last whole entry is ignored. */
  lemma CutTailIsIgnored(hints: seq<Hint>, tail: seq<Byte>)
    requires !HasEntry(tail)
    ensures Decode(Encode(hints) + tail) == CanonicalAll(hints)
  {
    assert (Encode(hints) + tail)[4..] == EncodeBody(hints) + tail;
    BodyRoundTrip(hints, tail);
  }

  lemma DecodeEncode(hints: seq<Hint>)
    ensures Decode(Encode(hints)) == CanonicalAll(hints)
  {
    CutTailIsIgnored(hints, []);
    assert Encode(hints) + [] == Encode(hints);
  }

  /** Decoding gives back what was stored exactly when no index is the largest one and no clue is
      longer than a length field can say. */
  lemma RoundTripsExactlyWhen(hints: seq<Hint>)
    ensures Decode(Encode(hints)) == hints
            <==> forall h :: h in hints ==> h.index != Some(U32_MAX) && |h.clue| <= U32_MAX
  {
    DecodeEncode(hints);
    if Decode(Encode(hints)) == hints {
      forall h | h in hints ensures h.index != Some(U32_MAX) && |h.clue| <= U32_MAX {
        var i :| 0 <= i < |hints| && hints[i] == h;
        assert CanonicalAll(hints)[i] == h;
      }
    } else {
      var i :| 0 <= i < |hints| && Canonical(hints[i]) != hints[i];
      assert hints[i] in hints;
    }
  }

  /** The value of the four bytes, low byte first. */
  lemma LowByteFirst(n: U32)
    ensures var b0: int, b1: int, b2: int, b3: int := Le32(n)[0], Le32(n)[1], Le32(n)[2], Le32(n)[3];
            n == b0 + 256 * b1 + 65536 * b2 + 16777216 * b3
  {
    Digits(n);
  }

  /** An entry on disk: index, length, clue, after the tag. */
  lemma EntryLayout(index: Option<U32>, clue: seq<Byte>)
    requires |clue| <= U32_MAX
    ensures var stored := Encode([Hint(index, clue)]);
            && |stored| == 12 + |clue| && stored[..4] == MAGIC && stored[12..] == clue
            && FromLe32(stored[4..]) == (if index.Some? then index.value else U32_MAX)
            && FromLe32(stored[8..]) == |clue|
  {
    hide FromLe32, Le32;
    var n: U32, len: U32 := if index.Some? then index.value else U32_MAX, |clue|;
    var stored := Encode([Hint(index, clue)]);
    assert EncodeBody([Hint(index, clue)][1..]) == [];
    assert stored == MAGIC + (Le32(n) + Le32(len) + clue);
    assert stored[4..] == Le32(n) + (Le32(len) + clue) && stored[8..] == Le32(len) + clue;
    Le32RoundTrip(n, Le32(len) + clue);
    Le32RoundTrip(len, clue);
  }
}
