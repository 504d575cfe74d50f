/** Padded block ranges: the bucket a client asks for instead of the range it wants, and the
    server's test that a range is such a bucket. */
module Ranges {
  import opened PowersOfTwo
  import opened Words

  const MIN_PADDED_RANGE_SPAN: nat := 1024
  const MAX_BUCKET: nat := 8192
  const MAX_PADDED_TIP_LAG: nat := 64
  const MAX_BLOCKS_PER_REQUEST: nat := 10_000

  type Height = U32

  datatype Rejection = Inverted | PastTip | TooLarge | Unaligned | NotAtTip

  datatype Verdict = Accepted | Refused(why: Rejection)

  // ---- the server's test ----

  /** The boundary a range cut short at the tip has to start on. */
  function Alignment(span: nat): nat {
    Max(NextPowerOfTwo(Max(span, MIN_PADDED_RANGE_SPAN)) / 2, MIN_PADDED_RANGE_SPAN)
  }

  function Check(start: Height, end: Height, tip: Height, maxRange: nat): Verdict {
    if start > end then Refused(Inverted)
    else if end > tip then Refused(PastTip)
    else
      var span := end - start + 1;
      if span > maxRange then Refused(TooLarge)
      else if span >= MIN_PADDED_RANGE_SPAN && PowerOfTwo(span) then Accepted
      else if start % Alignment(span) != 0 then Refused(Unaligned)
      else if end + MAX_PADDED_TIP_LAG < tip then Refused(NotAtTip)
      else Accepted
  }

  lemma MinIsPowerOfTwo()
    ensures PowerOfTwo(512) && PowerOfTwo(MIN_PADDED_RANGE_SPAN)
    ensures PowerOfTwo(2048) && PowerOfTwo(4096) && PowerOfTwo(MAX_BUCKET) && PowerOfTwo(16384)
  {
    assert PowerOfTwo(4) && PowerOfTwo(8) && PowerOfTwo(16) && PowerOfTwo(32) && PowerOfTwo(64);
    assert PowerOfTwo(128) && PowerOfTwo(256) && PowerOfTwo(512) && PowerOfTwo(1024) && PowerOfTwo(2048);
  }

  /** The boundary is the least power of two, from 1024 up, that is at least half the span. */
  lemma AlignmentIsLeast(span: nat)
    ensures var a := Alignment(span);
            PowerOfTwo(a) && a >= MIN_PADDED_RANGE_SPAN && span <= 2 * a
    ensures forall b: nat :: PowerOfTwo(b) && b >= MIN_PADDED_RANGE_SPAN && span <= 2 * b ==> Alignment(span) <= b
  {
    var full := NextPowerOfTwo(Max(span, MIN_PADDED_RANGE_SPAN));
    MinIsPowerOfTwo();
    forall b: nat | PowerOfTwo(b) && b >= MIN_PADDED_RANGE_SPAN && span <= 2 * b ensures Alignment(span) <= b {
      if b < full / 2 {
        SmallerDivides(b, full / 2);
      }
    }
  }

  /** A range cut short at the tip: it starts on a boundary and spans at most two buckets of it. */
  ghost predicate CutAtTip(start: nat, end: nat, tip: nat) {
    && end + MAX_PADDED_TIP_LAG >= tip
    && exists a: nat :: OnBoundary(start, end, a)
  }

  ghost predicate OnBoundary(start: nat, end: nat, a: nat) {
    PowerOfTwo(a) && a >= MIN_PADDED_RANGE_SPAN && start % a == 0 && end - start + 1 <= 2 * a
  }

  /** A range is on some boundary exactly when its start is on the one of its span. */
  lemma BoundaryExactlyWhen(start: nat, end: nat)
    requires start <= end
    ensures (exists a: nat :: OnBoundary(start, end, a)) <==> start % Alignment(end - start + 1) == 0
  {
    var span := end - start + 1;
    AlignmentIsLeast(span);
    hide PowerOfTwo;
    if start % Alignment(span) == 0 {
      assert OnBoundary(start, end, Alignment(span));
    }
    forall a: nat | OnBoundary(start, end, a) ensures start % Alignment(span) == 0 {
      Divides(Alignment(span), a, start);
    }
  }

  /** Exactly the ranges within the tip and the cap that are a full bucket, or a bucket or two cut
      short at the tip. */
  lemma AcceptedExactlyWhen(start: Height, end: Height, tip: Height, maxRange: nat)
    ensures Check(start, end, tip, maxRange) == Accepted <==>
      && start <= end <= tip && end - start + 1 <= maxRange
      && ((PowerOfTwo(end - start + 1) && end - start + 1 >= MIN_PADDED_RANGE_SPAN) || CutAtTip(start, end, tip))
  {
    hide PowerOfTwo, OnBoundary, Alignment;
    if start <= end {
      BoundaryExactlyWhen(start, end);
    }
  }

  /** Which reason a refused range gets: the first one that applies. */
  lemma RefusedBecause(start: Height, end: Height, tip: Height, maxRange: nat)
    ensures var v, span := Check(start, end, tip, maxRange), end as int - start + 1;
            && (v == Refused(Inverted) <==> span < 1)
            && (v == Refused(PastTip) <==> span >= 1 && end > tip)
            && (v == Refused(TooLarge) <==> span > maxRange && span >= 1 && end <= tip)
            && (v == Refused(NotAtTip) ==> tip - end > 64 && exists a: nat :: OnBoundary(start, end, a))
            && (v == Refused(Unaligned) ==> !exists a: nat :: OnBoundary(start, end, a))
  {
    hide PowerOfTwo, OnBoundary, Alignment;
    if start <= end {
      BoundaryExactlyWhen(start, end);
    }
  }

  /** Past the full buckets, only a start on the boundary gets through. */
  lemma AcceptedNeeds(start: Height, end: Height, tip: Height, maxRange: nat)
    requires start <= end && !PowerOfTwo(end - start + 1) && start % Alignment(end - start + 1) != 0
    ensures Check(start, end, tip, maxRange).Refused?
  {
  }

  // ---- the client's bucket ----

  /** The bucket size for `raw` blocks when `room` heights exist. */
  ghost predicate BucketFor(span: nat, raw: nat, room: nat) {
    && PowerOfTwo(span) && span <= room && span <= MAX_BUCKET
    && (raw <= span || Min(room, MAX_BUCKET) < 2 * span)
    && (span <= MIN_PADDED_RANGE_SPAN || span / 2 < raw)
  }

  function SaturatingNext(h: Height): Height {
    SaturatingAdd(h, 1, U32_MAX)
  }

  /** A full bucket that ends at `e`, or the first bucket when `e` lies inside it. */
  ghost predicate Bucket(span: nat, e: Height, raw: nat, tip: Height, lo: nat, hi: nat) {
    && span >= MIN_PADDED_RANGE_SPAN && BucketFor(span, raw, tip + 1)
    && if e + 1 >= span then lo + span == SaturatingNext(e) && hi == e else lo == 0 && hi == span - 1
  }

  ghost predicate FullBucket(e: Height, raw: nat, tip: Height, lo: nat, hi: nat) {
    exists span: nat :: Bucket(span, e, raw, tip, lo, hi)
  }

  /** What is asked for instead of start..end. */
  ghost predicate Padded(start: Height, end: Height, tip: Height, lo: nat, hi: nat) {
    var e := Min(end, tip);
    if tip + 1 < MIN_PADDED_RANGE_SPAN then lo == 0 && hi == e
    else FullBucket(e, e - Min(start, e) + 1, tip, lo, hi)
  }

  /** Round up, cap, and halve until the bucket fits below the tip. */
  method ChooseSpan(raw: nat, room: nat) returns (span: nat)
    requires raw > 0 && room > 0
    ensures BucketFor(span, raw, room)
    ensures span >= MIN_PADDED_RANGE_SPAN <==> room >= MIN_PADDED_RANGE_SPAN
  {
    MinIsPowerOfTwo();
    span := NextPowerOfTwo(Max(raw, MIN_PADDED_RANGE_SPAN));
    if span > MIN_PADDED_RANGE_SPAN {
      SmallerDivides(MIN_PADDED_RANGE_SPAN, span);
    }
    if span > MAX_BUCKET {
      SmallerDivides(MAX_BUCKET, span);
      span := MAX_BUCKET;
    }
    ghost var first := span;
    while span > room && span > 1
      invariant PowerOfTwo(span) && span <= first
      invariant span == first || room < 2 * span
      invariant room >= MIN_PADDED_RANGE_SPAN ==> span >= MIN_PADDED_RANGE_SPAN
    {
      if span > MIN_PADDED_RANGE_SPAN {
        SmallerDivides(MIN_PADDED_RANGE_SPAN, span);
      }
      span := span / 2;
    }
  }

  method PadBlockRange(start: Height, end: Height, tip: Height) returns (lo: nat, hi: nat)
    ensures Padded(start, end, tip, lo, hi)
  {
    var e := Min(end, tip);
    var s := Min(start, e);
    var span := ChooseSpan(e - s + 1, tip + 1);
    if span < MIN_PADDED_RANGE_SPAN {
      return 0, e;
    }
    if e + 1 >= span {
      lo, hi := SaturatingSub(SaturatingNext(e), span), e;
    } else {
      lo, hi := 0, span - 1;
    }
    assert Bucket(span, e, e - s + 1, tip, lo, hi);
    assert FullBucket(e, e - s + 1, tip, lo, hi);
  }

  // ---- what the bucket is good for ----

  /** A bucket always holds the last height asked for, and stays within the tip. */
  lemma PaddedHoldsTheEnd(start: Height, end: Height, tip: Height, lo: nat, hi: nat)
    requires Padded(start, end, tip, lo, hi)
    ensures lo <= Min(end, tip) <= hi <= tip
    ensures hi - lo + 1 <= MAX_BUCKET + 1
  {
  }

  /** It ends where the request does exactly when there is no full bucket at all, or the bucket the
      request rounds up to has room before that height, or is too long for the chain or the cap. */
  lemma PaddedEndsAtRequestExactlyWhen(start: Height, end: Height, tip: Height, lo: nat, hi: nat)
    requires Padded(start, end, tip, lo, hi)
    ensures var e := Min(end, tip);
            var rounded := NextPowerOfTwo(Max(e - Min(start, e) + 1, MIN_PADDED_RANGE_SPAN));
            hi == e <==>
              tip + 1 < MIN_PADDED_RANGE_SPAN || rounded <= e + 1 || rounded > Min(tip + 1, MAX_BUCKET)
  {
    var e := Min(end, tip);
    var raw := e - Min(start, e) + 1;
    var rounded := NextPowerOfTwo(Max(raw, MIN_PADDED_RANGE_SPAN));
    MinIsPowerOfTwo();
    if tip + 1 >= MIN_PADDED_RANGE_SPAN {
      var span: nat :| Bucket(span, e, raw, tip, lo, hi);
      BucketIsRounded(span, rounded, raw, tip + 1);
    }
  }

  /** The chosen bucket is the rounded request when that fits, and shorter than the request if not. */
  lemma BucketIsRounded(span: nat, rounded: nat, raw: nat, room: nat)
    requires BucketFor(span, raw, room) && span >= MIN_PADDED_RANGE_SPAN
    requires rounded == NextPowerOfTwo(Max(raw, MIN_PADDED_RANGE_SPAN))
    ensures if rounded <= Min(room, MAX_BUCKET) then span == rounded else span < raw
  {
    MinIsPowerOfTwo();
    if span < rounded {
      SmallerDivides(span, rounded);
    } else if rounded < span {
      SmallerDivides(rounded, span);
    }
  }

  /** 1400 blocks that end at height 1499 round up to 2048: the window asked for is 0..2047. */
  lemma PaddedEndsPastRequest(lo: nat, hi: nat)
    requires Padded(100, 1499, 5000, lo, hi)
    ensures lo == 0 && hi == 2047
  {
    PaddedEndsAtRequestExactlyWhen(100, 1499, 5000, lo, hi);
    var span: nat :| Bucket(span, 1499, 1400, 5000, lo, hi);
    BucketSizes(span);
    BucketIsRounded(span, NextPowerOfTwo(1400), 1400, 5001);
  }

  ghost predicate Fits(bucket: nat, raw: nat, room: nat) {
    PowerOfTwo(bucket) && raw <= bucket && bucket <= room && bucket <= MAX_BUCKET
  }

  /** It holds the whole request exactly when some bucket that fits the chain is long enough. */
  lemma PaddedCoversExactlyWhen(start: Height, end: Height, tip: Height, lo: nat, hi: nat)
    requires Padded(start, end, tip, lo, hi) && tip + 1 >= MIN_PADDED_RANGE_SPAN && Min(end, tip) < U32_MAX
    ensures var raw, room := Min(end, tip) - Min(start, Min(end, tip)) + 1, tip + 1;
            lo <= Min(start, Min(end, tip)) <==> exists bucket: nat :: Fits(bucket, raw, room)
  {
    var e, room := Min(end, tip), tip + 1;
    var raw := e - Min(start, e) + 1;
    var span: nat :| Bucket(span, e, raw, tip, lo, hi);
    assert lo <= Min(start, e) <==> raw <= span;
    assert raw <= span <==> Fits(span, raw, room);
    forall bucket: nat | Fits(bucket, raw, room) ensures raw <= span {
      if span < bucket {
        SmallerDivides(span, bucket);
      }
    }
  }

  lemma BucketSizes(span: nat)
    requires PowerOfTwo(span) && MIN_PADDED_RANGE_SPAN <= span <= MAX_BUCKET
    ensures span == 1024 || span == 2048 || span == 4096 || span == 8192
    ensures span % 2 == 0 && (U32_MAX - span) % MIN_PADDED_RANGE_SPAN == MIN_PADDED_RANGE_SPAN - 1
  {
    MinIsPowerOfTwo();
    if 1024 < span {
      SmallerDivides(1024, span);
    }
    if 2048 < span {
      SmallerDivides(2048, span);
    }
    if 4096 < span {
      SmallerDivides(4096, span);
    }
  }

  /** At the very last height the start saturates one short, and the bucket is one block too long. */
  lemma LastHeightIsRefused(span: nat)
    requires PowerOfTwo(span) && MIN_PADDED_RANGE_SPAN <= span <= MAX_BUCKET
    ensures Check(U32_MAX - span, U32_MAX, U32_MAX, MAX_BLOCKS_PER_REQUEST).Refused?
  {
    hide PowerOfTwo, Check, Alignment;
    BucketSizes(span);
    AlignmentIsLeast(span + 1);
    OddIsNotPower(span + 1);
    LastStart(U32_MAX - span, Alignment(span + 1));
    AcceptedNeeds(U32_MAX - span, U32_MAX, U32_MAX, MAX_BLOCKS_PER_REQUEST);
  }

  lemma LastStart(lo: nat, a: nat)
    requires PowerOfTwo(a) && a >= MIN_PADDED_RANGE_SPAN
    requires lo % MIN_PADDED_RANGE_SPAN == MIN_PADDED_RANGE_SPAN - 1
    ensures lo % a != 0
  {
    hide PowerOfTwo;
    MinIsPowerOfTwo();
    if lo % a == 0 {
      Divides(MIN_PADDED_RANGE_SPAN, a, lo);
    }
  }

  lemma OddIsNotPower(n: nat)
    requires n > 1 && n % 2 == 1
    ensures !PowerOfTwo(n)
  {
  }

  /** The server accepts the client's bucket exactly when the chain holds a full one and the last
      height is not the very last there is, or when the request ends near the tip. */
  lemma PaddedIsAcceptedExactlyWhen(start: Height, end: Height, tip: Height, lo: Height, hi: Height)
    requires Padded(start, end, tip, lo, hi)
    ensures Check(lo, hi, tip, MAX_BLOCKS_PER_REQUEST) == Accepted <==>
      if tip + 1 < MIN_PADDED_RANGE_SPAN then Min(end, tip) + MAX_PADDED_TIP_LAG >= tip else Min(end, tip) < U32_MAX
  {
    hide PowerOfTwo, CutAtTip, Check;
    MinIsPowerOfTwo();
    AcceptedExactlyWhen(lo, hi, tip, MAX_BLOCKS_PER_REQUEST);
    if tip + 1 < MIN_PADDED_RANGE_SPAN {
      ShortChain(hi, tip);
    } else {
      var e := Min(end, tip);
      var raw := e - Min(start, e) + 1;
      var span: nat :| Bucket(span, e, raw, tip, lo, hi);
      if e == U32_MAX {
        LastHeightIsRefused(span);
      }
    }
  }

  lemma ShortChain(end: Height, tip: Height)
    requires end < MIN_PADDED_RANGE_SPAN - 1
    ensures CutAtTip(0, end, tip) <==> end + MAX_PADDED_TIP_LAG >= tip
    ensures end + 1 < MIN_PADDED_RANGE_SPAN
  {
    MinIsPowerOfTwo();
    assert OnBoundary(0, end, MIN_PADDED_RANGE_SPAN);
  }
}
