/** The wire form of one PIR payload: a length limb, then the bytes two to a limb. */
module PirLimbs {
  import opened PowersOfTwo
  import opened Words

  const MAX_PIR_LIMBS: nat := 4096
  const PIR_LIMB_BYTES: nat := 2
  const MAX_PIR_PAYLOAD_BYTES: nat := (MAX_PIR_LIMBS - 1) * PIR_LIMB_BYTES
  /** The BFV plaintext modulus: every slot holds a value below it. */
  const PLAIN_MODULUS: nat := 1_032_193

  type Payload = seq<Byte>

  datatype Need = Rejected | Columns(count: nat)

  // ---- sizes ----

  /** Round up to a bucket: a power of two between 8 and the cap, and the least such that fits. */
  function PaddedLimbCount(needed: nat): (count: nat)
    ensures PowerOfTwo(count) && 8 <= count <= MAX_PIR_LIMBS
    ensures needed <= MAX_PIR_LIMBS ==> needed <= count
    ensures count == 8 || count / 2 < needed
  {
    var floored := if needed < 8 then 8 else needed;
    var n := if floored < MAX_PIR_LIMBS then floored else MAX_PIR_LIMBS;
    CapIsPowerOfTwo();
    var p := NextPowerOfTwo(n);
    assert p > 8 ==> p >= 16 by { if p > 8 { SmallerDivides(8, p); } }
    if p < MAX_PIR_LIMBS then p else MAX_PIR_LIMBS
  }

  lemma CapIsPowerOfTwo()
    ensures PowerOfTwo(8) && PowerOfTwo(MAX_PIR_LIMBS)
  {
    assert PowerOfTwo(4) && PowerOfTwo(8) && PowerOfTwo(16) && PowerOfTwo(32) && PowerOfTwo(64);
    assert PowerOfTwo(128) && PowerOfTwo(256) && PowerOfTwo(512) && PowerOfTwo(1024) && PowerOfTwo(2048);
  }

  function CeilHalf(len: nat): nat {
    (len + 1) / 2
  }

  /** How many columns a reader must fetch for the length in the first limb. */
  function PayloadLimbCount(lengthLimb: nat): Need {
    if lengthLimb == 0 || lengthLimb > MAX_PIR_PAYLOAD_BYTES then Rejected
    else Columns(1 + CeilHalf(lengthLimb))
  }

  // ---- limbs of one payload ----

  /** Two bytes, low one first; a missing byte is zero. */
  function ChunkToLimb(chunk: Payload): (limb: nat)
    requires |chunk| <= PIR_LIMB_BYTES
    ensures limb < 0x1_0000
  {
    var low: nat := if |chunk| > 0 then chunk[0] else 0;
    var high: nat := if |chunk| > 1 then chunk[1] else 0;
    low + 256 * high
  }

  function ChunkAt(data: Payload, k: nat): Payload
    requires 2 * k < |data|
  {
    data[2 * k..if 2 * k + 2 < |data| then 2 * k + 2 else |data|]
  }

  /** All limbs of a payload, the length first. */
  function Limbs(data: Payload): seq<nat> {
    [|data|] + seq(CeilHalf(|data|), k requires 0 <= k < CeilHalf(|data|) => ChunkToLimb(ChunkAt(data, k)))
  }

  method BytesToLimbs(data: Payload) returns (out: seq<nat>)
    ensures out == Limbs(data)
  {
    out := [|data|];
    var off := 0;
    while off < |data|
      invariant off % 2 == 0 && |out| == 1 + off / 2
      invariant off <= |data| + 1
      invariant out == Limbs(data)[..1 + off / 2]
    {
      assert CeilHalf(|data|) > off / 2;
      out := out + [ChunkToLimb(data[off..if off + 2 < |data| then off + 2 else |data|])];
      off := off + 2;
    }
    assert off / 2 == CeilHalf(|data|);
  }

  /** One limb on demand, with the length limb held just above the cap for oversized payloads. */
  function PayloadLimb(data: Payload, limbIndex: nat): nat {
    if limbIndex == 0 then if |data| < MAX_PIR_PAYLOAD_BYTES + 1 then |data| else MAX_PIR_PAYLOAD_BYTES + 1
    else
      var off := (limbIndex - 1) * PIR_LIMB_BYTES;
      if off < |data| then ChunkToLimb(data[off..if off + 2 < |data| then off + 2 else |data|]) else 0
  }

  function LimbColumn(payloads: seq<Payload>, limbIndex: nat): seq<nat> {
    seq(|payloads|, g requires 0 <= g < |payloads| => PayloadLimb(payloads[g], limbIndex))
  }

  /** On demand and materialised agree at every index, except for the length limb of a payload
      past the cap; every limb on demand fits a slot. */
  lemma OnDemandIsMaterialised(data: Payload, j: nat)
    ensures PayloadLimb(data, j) < PLAIN_MODULUS
    ensures PayloadLimb(data, j) == (if j < |Limbs(data)| then Limbs(data)[j] else 0)
            <==> j > 0 || |data| <= MAX_PIR_PAYLOAD_BYTES + 1
  {
  }

  // ---- back to bytes ----

  function Low(limb: nat): Byte {
    limb % 0x1_0000 % 256
  }

  function High(limb: nat): Byte {
    limb % 0x1_0000 / 256
  }

  /** The bytes of the limbs, each cut to 16 bits. */
  function Bytes(limbs: seq<nat>): (bytes: Payload)
    ensures |bytes| == 2 * |limbs|
  {
    seq(2 * |limbs|, i requires 0 <= i < 2 * |limbs| => if i % 2 == 0 then Low(limbs[i / 2]) else High(limbs[i / 2]))
  }

  method LimbsToBytes(limbs: seq<nat>, len: nat) returns (out: Payload)
    ensures out == Bytes(limbs)[..if len < 2 * |limbs| then len else 2 * |limbs|]
  {
    out := [];
    var k := 0;
    while k < |limbs|
      invariant k <= |limbs| && out == Bytes(limbs)[..2 * k]
    {
      assert Bytes(limbs)[2 * k] == Low(limbs[k]) && Bytes(limbs)[2 * k + 1] == High(limbs[k]);
      out := out + [Low(limbs[k]), High(limbs[k])];
      k := k + 1;
    }
    if len < |out| {
      out := out[..len];
    }
  }

  /** What a reader takes from a list of limbs: nothing unless the length is acceptable and
      there are limbs enough for it. */
  function Decoded(limbs: seq<nat>): Payload {
    if limbs == [] || PayloadLimbCount(limbs[0]).Rejected? || |limbs| < PayloadLimbCount(limbs[0]).count then []
    else Bytes(limbs[1..PayloadLimbCount(limbs[0]).count])[..limbs[0]]
  }

  method DecodeLengthPrefixedLimbs(limbs: seq<nat>) returns (out: Payload)
    ensures out == Decoded(limbs)
  {
    if limbs == [] || PayloadLimbCount(limbs[0]).Rejected? {
      return [];
    }
    var need := PayloadLimbCount(limbs[0]).count;
    if |limbs| < need {
      return [];
    }
    out := LimbsToBytes(limbs[1..need], limbs[0]);
  }

  /** The limbs a reader has when the request for limb `j` found the payload `datas[j]`. */
  function Spread(datas: seq<Payload>): seq<nat> {
    seq(|datas|, j requires 0 <= j < |datas| => PayloadLimb(datas[j], j))
  }

  function ByteAt(data: Payload, i: nat): Byte {
    if i < |data| then data[i] else 0
  }

  /** Limb 0 carries an acceptable length and there is a column for every limb it asks for. */
  predicate Readable(datas: seq<Payload>) {
    && datas != [] && 0 < |datas[0]| <= MAX_PIR_PAYLOAD_BYTES
    && 1 + CeilHalf(|datas[0]|) <= |datas|
  }

  /** Nothing, or as many bytes as the first request's payload has, each from the payload of its own
      limb's request and zero past that one's end. */
  ghost predicate Pieced(got: Payload, datas: seq<Payload>) {
    if !Readable(datas) then got == []
    else |got| == |datas[0]| && forall i :: 0 <= i < |got| ==> got[i] == ByteAt(datas[1 + i / 2], i)
  }

  lemma LimbHasByte(data: Payload, i: nat)
    ensures var limb := PayloadLimb(data, 1 + i / 2);
            ByteAt(data, i) == if i % 2 == 0 then Low(limb) else High(limb)
  {
    if 2 * (i / 2) < |data| {
      var chunk := ChunkAt(data, i / 2);
      assert PayloadLimb(data, 1 + i / 2) == ChunkToLimb(chunk);
      assert chunk[0] == data[2 * (i / 2)] && (|chunk| > 1 <==> 2 * (i / 2) + 1 < |data|);
      assert |chunk| > 1 ==> chunk[1] == data[2 * (i / 2) + 1];
      hide PayloadLimb, ChunkAt;
      ChunkBytes(chunk);
    }
  }

  lemma ChunkBytes(chunk: Payload)
    requires 0 < |chunk| <= PIR_LIMB_BYTES
    ensures Low(ChunkToLimb(chunk)) == chunk[0]
    ensures High(ChunkToLimb(chunk)) == if |chunk| > 1 then chunk[1] else 0
  {
  }

  /** Limb 1 + k is bytes 2k and 2k + 1 of the payload, the first one low; bytes past the end are zero. */
  lemma LimbIsTwoBytes(data: Payload, k: nat)
    ensures PayloadLimb(data, 1 + k) == ByteAt(data, 2 * k) as int + 256 * ByteAt(data, 2 * k + 1)
    ensures |Limbs(data)| == 1 + CeilHalf(|data|) && Limbs(data)[0] == |data|
    ensures k < CeilHalf(|data|) ==> Limbs(data)[1 + k] == PayloadLimb(data, 1 + k)
  {
    if 2 * k < |data| {
      var chunk := ChunkAt(data, k);
      assert PayloadLimb(data, 1 + k) == ChunkToLimb(chunk);
      assert chunk[0] == data[2 * k] && (|chunk| > 1 <==> 2 * k + 1 < |data|);
      assert |chunk| > 1 ==> chunk[1] == data[2 * k + 1];
    }
  }

  /** What is decoded from limbs of several loads, whatever they loaded. */
  lemma SpreadDecodes(datas: seq<Payload>)
    ensures Pieced(Decoded(Spread(datas)), datas)
  {
    if Readable(datas) {
      var first := datas[0];
      var limbs := Spread(datas)[1..1 + CeilHalf(|first|)];
      forall i | 0 <= i < |first| ensures i < 2 * |limbs| && Bytes(limbs)[i] == ByteAt(datas[1 + i / 2], i) {
        assert limbs[i / 2] == PayloadLimb(datas[1 + i / 2], 1 + i / 2);
        hide Spread, CeilHalf, PayloadLimb;
        LimbHasByte(datas[1 + i / 2], i);
      }
    }
  }

  /** The first request's payload comes back exactly when it is empty, or readable and every later
      request found the same two bytes at its place. */
  lemma FirstComesBackExactlyWhen(got: Payload, datas: seq<Payload>)
    requires Pieced(got, datas) && datas != []
    ensures got == datas[0] <==>
      || datas[0] == []
      || (Readable(datas) && forall i :: 0 <= i < |datas[0]| ==> ByteAt(datas[1 + i / 2], i) == datas[0][i])
  {
  }

  /** The limbs a reader has after fetching `columns` columns of one payload. */
  function Fetched(data: Payload, columns: nat): seq<nat> {
    seq(columns, j requires 0 <= j < columns => PayloadLimb(data, j))
  }

  lemma OneLoadPieced(got: Payload, data: Payload, datas: seq<Payload>)
    requires Pieced(got, datas) && forall j :: 0 <= j < |datas| ==> datas[j] == data
    ensures var whole := data == [] || (|data| <= MAX_PIR_PAYLOAD_BYTES && 1 + CeilHalf(|data|) <= |datas|);
            got == if whole then data else []
  {
  }

  /** A payload comes back byte for byte exactly when it is empty, or within the cap and all its
      columns were fetched; in every other case the reader gets nothing. */
  lemma FetchedDecodes(data: Payload, columns: nat)
    ensures var whole := data == [] || (|data| <= MAX_PIR_PAYLOAD_BYTES && 1 + CeilHalf(|data|) <= columns);
            Decoded(Fetched(data, columns)) == (if whole then data else [])
  {
    var datas := seq(columns, j => data);
    assert Spread(datas) == Fetched(data, columns);
    SpreadDecodes(datas);
    hide Decoded, Fetched, Spread;
    OneLoadPieced(Decoded(Fetched(data, columns)), data, datas);
  }

  /** Two loads of different payloads can be read as a third one. */
  lemma MixedRead()
    ensures var datas: seq<Payload> := [[1, 2, 3, 4], [1, 2, 3, 4], [7, 8, 9, 10]];
            Decoded(Spread(datas)) == [1, 2, 9, 10]
  {
    var datas: seq<Payload> := [[1, 2, 3, 4], [1, 2, 3, 4], [7, 8, 9, 10]];
    SpreadDecodes(datas);
    hide Decoded, Spread;
    var got: Payload := Decoded(Spread(datas));
    assert CeilHalf(4) == 2 && Readable(datas) && |got| == 4;
    assert got[0] == ByteAt(datas[1 + 0 / 2], 0) && got[1] == ByteAt(datas[1 + 1 / 2], 1);
    assert got[2] == ByteAt(datas[1 + 2 / 2], 2) && got[3] == ByteAt(datas[1 + 3 / 2], 3);
  }

  /** The materialised list decodes to the payload exactly when that is not over the cap. */
  lemma DecodeInvertsEncode(data: Payload)
    ensures Decoded(Limbs(data)) == (if |data| <= MAX_PIR_PAYLOAD_BYTES then data else [])
  {
    if |data| <= MAX_PIR_PAYLOAD_BYTES {
      forall j | 0 <= j < |Limbs(data)| ensures Limbs(data)[j] == PayloadLimb(data, j) {
        OnDemandIsMaterialised(data, j);
      }
      assert Limbs(data) == Fetched(data, |Limbs(data)|);
      FetchedDecodes(data, |Limbs(data)|);
    }
  }
}
