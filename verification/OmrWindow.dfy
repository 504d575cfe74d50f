/** Which clues of a window one digest covers, and how a client walks a window that does not fit. */
module OmrWindow {
  import opened Chain
  import opened CacheStore
  import opened Words

  /** What the clue bytes of a note turn out to be. */
  datatype RawClue<+T> = Missing | Malformed | Parsed(clue: T)

  /** Notes of every height, in output order. */
  type Notes<+T> = nat -> seq<RawClue<T>>

  /** A clue and the height it is at. */
  type Message<+T> = (nat, T)

  function Valid<T>(h: nat, raw: seq<RawClue<T>>): seq<Message<T>> {
    if raw == [] then []
    else Valid(h, raw[..|raw| - 1])
         + match raw[|raw| - 1] { case Parsed(c) => [(h, c)] case _ => [] }
  }

  /** The valid clues of heights start, ..., end, in packing order. */
  function Flat<T>(notes: Notes<T>, start: nat, end: int): seq<Message<T>>
    decreases end - start
  {
    if end < start then [] else Flat(notes, start, end - 1) + Valid(end, notes(end))
  }

  function Heights<T>(ms: seq<Message<T>>): seq<nat> {
    seq(|ms|, i requires 0 <= i < |ms| => ms[i].0)
  }

  function Clues<T>(ms: seq<Message<T>>): seq<T> {
    seq(|ms|, i requires 0 <= i < |ms| => ms[i].1)
  }

  ghost predicate Sorted(hs: seq<nat>) {
    forall i, j :: 0 <= i <= j < |hs| ==> hs[i] <= hs[j]
  }

  lemma Unzip<T>(a: seq<Message<T>>, b: seq<Message<T>>)
    ensures Clues(a + b) == Clues(a) + Clues(b) && Heights(a + b) == Heights(a) + Heights(b)
  {
  }

  /** The valid clues of one height; empty and malformed ones are skipped. */
  method FlattenHeight<T>(h: nat, raw: seq<RawClue<T>>) returns (clues: seq<T>, heights: seq<nat>)
    ensures clues == Clues(Valid(h, raw)) && heights == Heights(Valid(h, raw))
  {
    clues, heights := [], [];
    var i := 0;
    while i < |raw|
      invariant i <= |raw| && clues == Clues(Valid(h, raw[..i])) && heights == Heights(Valid(h, raw[..i]))
    {
      assert raw[..i + 1][..i] == raw[..i];
      if raw[i].Parsed? {
        Unzip(Valid(h, raw[..i]), [(h, raw[i].clue)]);
        clues, heights := clues + [raw[i].clue], heights + [h];
      }
      i := i + 1;
    }
    assert raw[..|raw|] == raw;
  }

  method FlattenMessages<T>(notes: Notes<T>, start: nat, end: int) returns (messages: seq<T>, slotHeights: seq<nat>)
    requires start - 1 <= end
    ensures messages == Clues(Flat(notes, start, end)) && slotHeights == Heights(Flat(notes, start, end))
  {
    messages, slotHeights := [], [];
    var h := start;
    while h <= end
      invariant start <= h <= end + 1
      invariant messages == Clues(Flat(notes, start, h - 1)) && slotHeights == Heights(Flat(notes, start, h - 1))
    {
      var clues, heights := FlattenHeight(h, notes(h));
      Unzip(Flat(notes, start, h - 1), Valid(h, notes(h)));
      messages, slotHeights := messages + clues, slotHeights + heights;
      h := h + 1;
    }
  }

  lemma {:induction false} ValidAt<T>(h: nat, raw: seq<RawClue<T>>)
    ensures forall m :: m in Valid(h, raw) ==> m.0 == h
  {
    if raw != [] {
      ValidAt(h, raw[..|raw| - 1]);
    }
  }

  lemma {:induction false} FlatWithin<T>(notes: Notes<T>, start: nat, end: int)
    ensures forall m :: m in Flat(notes, start, end) ==> start <= m.0 <= end
    decreases end - start
  {
    if start <= end {
      FlatWithin(notes, start, end - 1);
      ValidAt(end, notes(end));
    }
  }

  ghost predicate Ordered<T>(ms: seq<Message<T>>) {
    forall i, j :: 0 <= i <= j < |ms| ==> ms[i].0 <= ms[j].0
  }

  lemma OrderedJoin<T>(below: seq<Message<T>>, last: seq<Message<T>>, h: nat)
    requires Ordered(below) && (forall m :: m in below ==> m.0 <= h) && (forall m :: m in last ==> m.0 == h)
    ensures Ordered(below + last)
  {
    assert forall i :: 0 <= i < |below| ==> below[i] in below;
    assert forall i :: 0 <= i < |last| ==> last[i] in last;
  }

  lemma {:induction false} FlatOrdered<T>(notes: Notes<T>, start: nat, end: int)
    ensures Ordered(Flat(notes, start, end))
    decreases end - start
  {
    if start <= end {
      FlatOrdered(notes, start, end - 1);
      FlatWithin(notes, start, end - 1);
      ValidAt(end, notes(end));
      hide Ordered, Valid;
      OrderedJoin(Flat(notes, start, end - 1), Valid(end, notes(end)), end);
    }
  }

  lemma FlatSorted<T>(notes: Notes<T>, start: nat, end: int)
    ensures Sorted(Heights(Flat(notes, start, end)))
  {
    FlatOrdered(notes, start, end);
    hide Flat;
  }

  lemma {:induction false} FlatSplit<T>(notes: Notes<T>, start: nat, mid: int, end: int)
    requires start - 1 <= mid <= end
    ensures Flat(notes, start, end) == Flat(notes, start, mid) + Flat(notes, mid + 1, end)
    decreases end - mid
  {
    if mid < end {
      FlatSplit(notes, start, mid, end - 1);
    }
  }

  // ---- where a clue is ----

  /** Clues among the first `k` that parse. */
  function ParsedBefore<T>(raw: seq<RawClue<T>>, k: nat): nat
    requires k <= |raw|
  {
    if k == 0 then 0 else ParsedBefore(raw, k - 1) + if raw[k - 1].Parsed? then 1 else 0
  }

  lemma {:induction false} ParsedBeforeTake<T>(raw: seq<RawClue<T>>, n: nat, k: nat)
    requires k <= n <= |raw|
    ensures ParsedBefore(raw[..n], k) == ParsedBefore(raw, k)
  {
    if k > 0 {
      ParsedBeforeTake(raw, n, k - 1);
    }
  }

  /** Every clue that parses is there once, after those before it, and nothing else is. */
  lemma {:induction false} ValidPlace<T>(h: nat, raw: seq<RawClue<T>>, k: nat)
    ensures |Valid(h, raw)| == ParsedBefore(raw, |raw|)
    ensures k < |raw| && raw[k].Parsed? ==>
      ParsedBefore(raw, k) < |Valid(h, raw)| && Valid(h, raw)[ParsedBefore(raw, k)] == (h, raw[k].clue)
  {
    if raw != [] {
      var n := |raw| - 1;
      ValidPlace(h, raw[..n], k);
      ParsedBeforeTake(raw, n, n);
      if k < n {
        ParsedBeforeTake(raw, n, k);
      }
    }
  }

  /** Clues of heights start, ..., h - 1 that parse. */
  function ParsedBelow<T>(notes: Notes<T>, start: nat, h: nat): nat {
    if h <= start then 0 else ParsedBelow(notes, start, h - 1) + ParsedBefore(notes(h - 1), |notes(h - 1)|)
  }

  lemma {:induction false} FlatPlace<T>(notes: Notes<T>, start: nat, end: int, h: nat, k: nat)
    requires start - 1 <= end
    ensures |Flat(notes, start, end)| == ParsedBelow(notes, start, end + 1)
    ensures start <= h <= end && k < |notes(h)| && notes(h)[k].Parsed? ==>
      var n := ParsedBelow(notes, start, h) + ParsedBefore(notes(h), k);
      n < |Flat(notes, start, end)| && Flat(notes, start, end)[n] == (h, notes(h)[k].clue)
    decreases end - start + 1
  {
    if start <= end {
      FlatPlace(notes, start, end - 1, h, k);
      ValidPlace(end, notes(end), k);
      assert Flat(notes, start, end) == Flat(notes, start, end - 1) + Valid(end, notes(end));
      assert ParsedBelow(notes, start, end + 1)
          == ParsedBelow(notes, start, end) + ParsedBefore(notes(end), |notes(end)|);
      hide Flat, Valid, ParsedBefore, ParsedBelow;
    }
  }

  // ---- truncation ----

  /** Cut to whole heights. With more messages than `cap`, everything at the height of message
      number `cap` goes, unless that is the first height, which then is all that stays. */
  method CapMessagesToWholeHeights<T>(messages: seq<T>, slotHeights: seq<nat>, cap: nat)
    returns (kept: seq<T>, keptHeights: seq<nat>, truncated: bool)
    requires |messages| == |slotHeights| && Sorted(slotHeights) && cap > 0
    ensures truncated <==> |messages| > cap
    ensures |kept| == |keptHeights| <= |messages| && kept == messages[..|kept|] && keptHeights == slotHeights[..|kept|]
    ensures !truncated ==> |kept| == |messages|
    ensures messages != [] ==> kept != []
    ensures forall i, j :: 0 <= i < |kept| <= j < |messages| ==> slotHeights[i] < slotHeights[j]
    ensures truncated && slotHeights[0] != slotHeights[cap - 1] ==>
              |kept| < cap && slotHeights[|kept|] == slotHeights[cap - 1]
    ensures truncated && slotHeights[0] == slotHeights[cap - 1] ==>
      forall i :: 0 <= i < |kept| ==> keptHeights[i] == slotHeights[0]
  {
    if |messages| <= cap {
      return messages, slotHeights, false;
    }
    var boundary := slotHeights[cap - 1];
    var cut := cap;
    while cut > 0 && slotHeights[cut - 1] == boundary
      invariant cut <= cap && forall i :: cut <= i < cap ==> slotHeights[i] == boundary
    {
      cut := cut - 1;
    }
    if cut == 0 {
      cut := cap;
      while cut < |slotHeights| && slotHeights[cut] == boundary
        invariant cap <= cut <= |slotHeights| && forall i :: 0 <= i < cut ==> slotHeights[i] == boundary
      {
        cut := cut + 1;
      }
    }
    return messages[..cut], slotHeights[..cut], true;
  }

  /** A prefix below everything it leaves out is all of a window up to its last height. */
  lemma KeptIsWholeHeights<T>(notes: Notes<T>, start: nat, end: int, n: nat)
    requires var all := Flat(notes, start, end);
             0 < n <= |all| && forall j :: n <= j < |all| ==> all[n - 1].0 < all[j].0
    ensures var all := Flat(notes, start, end);
            start <= all[n - 1].0 <= end && Flat(notes, start, all[n - 1].0) == all[..n]
            && Flat(notes, all[n - 1].0 + 1, end) == all[n..]
  {
    hide Flat;
    var all := Flat(notes, start, end);
    var last := all[n - 1].0;
    FlatWithin(notes, start, end);
    assert all[n - 1] in all;
    FlatSplit(notes, start, last, end);
    FlatWithin(notes, start, last);
    FlatWithin(notes, last + 1, end);
    SplitPoint(Flat(notes, start, last), Flat(notes, last + 1, end), n, last);
  }

  lemma SplitPoint<T>(low: seq<Message<T>>, high: seq<Message<T>>, n: nat, last: nat)
    requires var all := low + high;
             0 < n <= |all| && all[n - 1].0 == last && forall j :: n <= j < |all| ==> last < all[j].0
    requires (forall m :: m in low ==> m.0 <= last) && (forall m :: m in high ==> last < m.0)
    ensures (low + high)[..n] == low && (low + high)[n..] == high
  {
    var all := low + high;
    assert forall j :: 0 <= j < |low| ==> all[j] == low[j] && low[j] in low;
    assert forall j :: |low| <= j < |all| ==> all[j] == high[j - |low|] && high[j - |low|] in high;
    assert n < |all| ==> last < all[n].0;
  }

  lemma Gather<T>(notes: Notes<T>, start: nat, from: nat, last: int)
    requires start <= from <= last + 1
    ensures Clues(Flat(notes, start, last)) == Clues(Flat(notes, start, from - 1)) + Clues(Flat(notes, from, last))
    ensures Heights(Flat(notes, start, last))
            == Heights(Flat(notes, start, from - 1)) + Heights(Flat(notes, from, last))
  {
    FlatSplit(notes, start, from - 1, last);
    Unzip(Flat(notes, start, from - 1), Flat(notes, from, last));
  }

  // ---- what part of a window a digest may cover ----

  /** Every height of [start, end] has its row. */
  ghost predicate Cached(i: Index, start: nat, end: int) {
    forall h: nat :: start <= h <= end ==> h in i.hashes
  }

  function TipOf(i: Index): nat {
    if i.tip.Some? then i.tip.value.0 else 0
  }

  /** The last height before the first hole, up to `limit`; `start - 1` when there is none. */
  function Reach(i: Index, start: nat, limit: int): (last: int)
    ensures start - 1 <= last && (start <= last ==> last <= limit) && Cached(i, start, last)
    decreases limit - start
  {
    if start > limit || start !in i.hashes then start - 1 else Reach(i, start + 1, limit)
  }

  /** The last height of start..end that a digest may cover. */
  function EvaluableEnd(i: Index, start: nat, end: nat): (last: int)
    ensures start - 1 <= last && (start <= last ==> last <= end)
  {
    Reach(i, start, Min(end, TipOf(i)))
  }

  lemma {:induction false} ReachIs(i: Index, start: nat, limit: int, last: int)
    requires start - 1 <= last && (start <= last ==> last <= limit) && Cached(i, start, last)
    requires last >= limit || last + 1 !in i.hashes
    ensures Reach(i, start, limit) == last
    decreases last - start
  {
    if start <= last {
      ReachIs(i, start + 1, limit, last);
    }
  }

  /** A height is covered exactly when it is at or below the tip and no row from `start` to it is missing. */
  lemma EvaluableExactlyWhen(i: Index, start: nat, end: nat, h: nat)
    requires start <= h <= end
    ensures h <= EvaluableEnd(i, start, end)
            <==> h <= (if i.tip.Some? then i.tip.value.0 else 0) && forall k: nat :: start <= k <= h ==> k in i.hashes
  {
    ReachExactlyWhen(i, start, Min(end, TipOf(i)), h);
    hide Reach;
  }

  lemma {:induction false} ReachExactlyWhen(i: Index, start: nat, limit: int, h: nat)
    requires start <= h
    ensures h <= Reach(i, start, limit) <==> h <= limit && forall k: nat :: start <= k <= h ==> k in i.hashes
    decreases h - start
  {
    if start < h {
      ReachExactlyWhen(i, start + 1, limit, h);
    }
  }

  /** Asking on from inside the covered part does not move its end. */
  lemma {:induction false} ReachFrom(i: Index, start: nat, from: nat, limit: int)
    requires start <= from <= Reach(i, start, limit) + 1
    ensures Reach(i, from, limit) == Reach(i, start, limit)
    decreases from - start
  {
    if start < from {
      ReachFrom(i, start + 1, from, limit);
    }
  }

  /** Stop at the tip and before the first hole. */
  method DigestEvaluableEnd(i: Index, start: nat, end: nat) returns (last: Option<nat>, complete: bool)
    ensures var e := EvaluableEnd(i, start, end);
            && last == (if e < start then None else Some(e))
            && (complete <==> start <= end && e == end)
    ensures complete <==> start <= end <= TipOf(i) && Cached(i, start, end)
  {
    var tip := TipOf(i);
    var limit := Min(end, tip);
    if start > limit {
      return None, false;
    }
    var h := start;
    while h <= limit
      invariant start <= h <= limit + 1 && Cached(i, start, h - 1)
    {
      if h !in i.hashes {
        ReachIs(i, start, limit, h - 1);
        return (if h > start then Some(h - 1) else None), false;
      }
      h := h + 1;
    }
    ReachIs(i, start, limit, limit);
    return Some(limit), tip >= end;
  }

  /** Asking on from inside the covered part. */
  method EvaluableFrom(i: Index, start: nat, from: nat, end: nat) returns (last: Option<nat>, covered: bool)
    requires start <= from <= end && from <= EvaluableEnd(i, start, end) + 1
    ensures var e := EvaluableEnd(i, start, end);
            last == (if e < from then None else Some(e)) && (covered <==> e == end) && e <= end
  {
    ReachFrom(i, start, from, Min(end, TipOf(i)));
    last, covered := DigestEvaluableEnd(i, from, end);
  }

  // ---- the client's walk ----

  /** The clues cached at a height, in output order. */
  function TxClues<T>(txs: seq<Tx>, parse: Bytes -> RawClue<T>): seq<RawClue<T>> {
    if txs == [] then []
    else
      var outputs := txs[0].outputs;
      seq(|outputs|, j requires 0 <= j < |outputs| => parse(outputs[j].clue)) + TxClues(txs[1..], parse)
  }

  /** Every output of a block is read, each at its own place. */
  lemma {:induction false} ClueAtPlace<T>(txs: seq<Tx>, parse: Bytes -> RawClue<T>, a: nat, b: nat)
    ensures |TxClues(txs, parse)| == OutputsBefore(txs, |txs|)
    ensures a < |txs| && b < |txs[a].outputs| ==>
      && OutputsBefore(txs, a) + b < |TxClues(txs, parse)|
      && TxClues(txs, parse)[OutputsBefore(txs, a) + b] == parse(txs[a].outputs[b].clue)
  {
    if txs != [] {
      var rest, outputs := txs[1..], txs[0].outputs;
      ClueAtPlace(rest, parse, if a > 0 then a - 1 else 0, b);
      var here := seq(|outputs|, j requires 0 <= j < |outputs| => parse(outputs[j].clue));
      assert TxClues(txs, parse) == here + TxClues(rest, parse);
      OutputsBeforeFront(txs, |txs|);
      hide TxClues;
      if 0 < a < |txs| {
        OutputsBeforeFront(txs, a);
        assert txs[a] == rest[a - 1];
        hide OutputsBefore;
      }
    }
  }

  function NotesOf<T>(i: Index, parse: Bytes -> RawClue<T>): Notes<T> {
    h => if h in i.blocks then TxClues(i.blocks[h].txs, parse) else []
  }

  /** What a reply for from..end holds: whole heights, all up to the last one it names. */
  ghost predicate WholeHeights<T>(notes: Notes<T>, from: nat, end: nat, clues: seq<T>, heights: seq<nat>) {
    heights != [] ==>
      && from <= heights[|heights| - 1] <= end
      && clues == Clues(Flat(notes, from, heights[|heights| - 1]))
      && heights == Heights(Flat(notes, from, heights[|heights| - 1]))
  }

  /** Place of the clue of output `b` of transaction `a` at height `h`, among all that parse from `start` on. */
  function Place<T>(i: Index, parse: Bytes -> RawClue<T>, start: nat, h: nat, a: nat, b: nat): nat
    requires h in i.blocks && a < |i.blocks[h].txs| && b < |i.blocks[h].txs[a].outputs|
  {
    var notes := NotesOf(i, parse);
    ClueAtPlace(i.blocks[h].txs, parse, a, b);
    ParsedBelow(notes, start, h) + ParsedBefore(notes(h), OutputsBefore(i.blocks[h].txs, a) + b)
  }

  /** The clue of one output arrived at its place. */
  predicate Arrived<T(==)>(got: seq<T>, gotHeights: seq<nat>, n: nat, h: nat, clue: T) {
    n < |got| == |gotHeights| && got[n] == clue && gotHeights[n] == h
  }

  /** Every clue of start..last that parses arrived, each at its place, and nothing else did. */
  ghost predicate AllArrived<T>(i: Index, parse: Bytes -> RawClue<T>, start: nat, last: int, got: seq<T>,
                                gotHeights: seq<nat>)
    requires start - 1 <= last
  {
    && |got| == ParsedBelow(NotesOf(i, parse), start, last + 1)
    && forall h: nat, a: nat, b: nat ::
      start <= h <= last && h in i.blocks && a < |i.blocks[h].txs| && b < |i.blocks[h].txs[a].outputs|
      && parse(i.blocks[h].txs[a].outputs[b].clue).Parsed? ==>
        Arrived(got, gotHeights, Place(i, parse, start, h, a, b), h, parse(i.blocks[h].txs[a].outputs[b].clue).clue)
  }

  lemma ClueArrives<T>(i: Index, parse: Bytes -> RawClue<T>, start: nat, last: int, h: nat, a: nat, b: nat)
    requires start <= h <= last && h in i.blocks && a < |i.blocks[h].txs| && b < |i.blocks[h].txs[a].outputs|
    requires parse(i.blocks[h].txs[a].outputs[b].clue).Parsed?
    ensures var flat := Flat(NotesOf(i, parse), start, last);
            Arrived(Clues(flat), Heights(flat), Place(i, parse, start, h, a, b), h,
                    parse(i.blocks[h].txs[a].outputs[b].clue).clue)
  {
    hide Flat, ParsedBefore, ParsedBelow, TxClues, OutputsBefore;
    ClueAtPlace(i.blocks[h].txs, parse, a, b);
    FlatPlace(NotesOf(i, parse), start, last, h, OutputsBefore(i.blocks[h].txs, a) + b);
  }

  lemma FlatArrived<T>(i: Index, parse: Bytes -> RawClue<T>, start: nat, last: int)
    requires start - 1 <= last
    ensures var flat := Flat(NotesOf(i, parse), start, last);
            AllArrived(i, parse, start, last, Clues(flat), Heights(flat))
  {
    var notes := NotesOf(i, parse);
    var flat := Flat(notes, start, last);
    FlatPlace(notes, start, last, 0, 0);
    hide Flat, ParsedBefore, ParsedBelow, OutputsBefore, NotesOf, Arrived, Place;
    forall h: nat, a: nat, b: nat |
      start <= h <= last && h in i.blocks && a < |i.blocks[h].txs| && b < |i.blocks[h].txs[a].outputs|
      && parse(i.blocks[h].txs[a].outputs[b].clue).Parsed?
      ensures Arrived(Clues(flat), Heights(flat), Place(i, parse, start, h, a, b), h,
                      parse(i.blocks[h].txs[a].outputs[b].clue).clue)
    {
      ClueArrives(i, parse, start, last, h, a, b);
    }
  }

  method NextReply<T>(notes: Notes<T>, from: nat, end: nat, cap: nat)
    returns (clues: seq<T>, heights: seq<nat>, truncated: bool)
    requires from <= end && cap > 0
    ensures WholeHeights(notes, from, end, clues, heights)
    ensures !truncated ==>
      && clues == Clues(Flat(notes, from, end)) && heights == Heights(Flat(notes, from, end))
      && |Valid(end, notes(end))| <= cap
    ensures truncated ==> heights != [] && (heights[|heights| - 1] == end ==> |Valid(end, notes(end))| > cap)
    ensures |clues| == |heights| && (|clues| > cap ==> heights[0] == heights[|heights| - 1])
  {
    var all, allHeights := FlattenMessages(notes, from, end);
    FlatSorted(notes, from, end);
    TailWithin(notes, from, end);
    hide Flat, Valid, Clues, Heights, Sorted, WholeHeights;
    clues, heights, truncated := CapMessagesToWholeHeights(all, allHeights, cap);
    CutIsWhole(notes, from, end, |clues|);
    SameLength(Flat(notes, from, end));
    if truncated && heights[|heights| - 1] == end {
      OversizedLast(notes, from, end, cap, |clues|);
    }
  }

  lemma HeightAt<T>(all: seq<Message<T>>)
    ensures |Heights(all)| == |all| && forall j :: 0 <= j < |all| ==> all[j].0 == Heights(all)[j]
  {
  }

  lemma SameLength<T>(all: seq<Message<T>>)
    ensures |Clues(all)| == |Heights(all)| == |all|
    ensures Clues(all)[..|all|] == Clues(all) && Heights(all)[..|all|] == Heights(all)
  {
  }

  /** A cut that leaves only greater heights out is a reply of whole heights. */
  lemma CutIsWhole<T>(notes: Notes<T>, from: nat, end: nat, n: nat)
    requires from <= end
    requires var hs := Heights(Flat(notes, from, end));
             n <= |hs| && forall i, j :: 0 <= i < n <= j < |hs| ==> hs[i] < hs[j]
    ensures var flat := Flat(notes, from, end);
            |Clues(flat)| == |Heights(flat)| && WholeHeights(notes, from, end, Clues(flat)[..n], Heights(flat)[..n])
  {
    hide Flat;
    var flat := Flat(notes, from, end);
    SameLength(flat);
    HeightAt(flat);
    hide Clues, Heights;
    if n > 0 {
      KeptIsWholeHeights(notes, from, end, n);
      KeptPrefix(flat, n);
    }
  }

  lemma KeptPrefix<T>(all: seq<Message<T>>, n: nat)
    requires n <= |all|
    ensures Clues(all[..n]) == Clues(all)[..n] && Heights(all[..n]) == Heights(all)[..n]
  {
  }

  lemma TailWithin<T>(notes: Notes<T>, from: nat, end: nat)
    requires from <= end
    ensures |Valid(end, notes(end))| <= |Flat(notes, from, end)|
  {
  }

  /** A cut reply that still reaches the last height is that height alone, and more than a reply holds. */
  lemma OversizedLast<T>(notes: Notes<T>, from: nat, end: nat, cap: nat, n: nat)
    requires from <= end && 0 < cap < |Flat(notes, from, end)| && 0 < n <= |Flat(notes, from, end)|
    requires var hs := Heights(Flat(notes, from, end));
             && hs[n - 1] == end
             && (forall i, j :: 0 <= i < n <= j < |hs| ==> hs[i] < hs[j])
             && (hs[0] != hs[cap - 1] ==> n < cap)
             && (hs[0] == hs[cap - 1] ==> forall i :: 0 <= i < n ==> hs[i] == hs[0])
    ensures |Valid(end, notes(end))| > cap
  {
    hide Flat, Valid;
    var flat := Flat(notes, from, end);
    HeightAt(flat);
    FlatOrdered(notes, from, end);
    FlatWithin(notes, from, end);
    hide Heights, Ordered;
    assert flat[|flat| - 1] in flat && flat[|flat| - 1].0 <= end;
    var kept, top := flat[n - 1].0, flat[|flat| - 1].0;
    assert n < |flat| ==> kept < top;
    LastHeightAlone(notes, from, end);
  }

  /** Clues that are all at `end` are the clues of `end`. */
  lemma LastHeightAlone<T>(notes: Notes<T>, from: nat, end: nat)
    requires from <= end
    ensures var flat := Flat(notes, from, end);
            flat != [] && flat[0].0 == end ==> flat == Valid(end, notes(end))
  {
    FlatWithin(notes, from, end - 1);
    var below := Flat(notes, from, end - 1);
    if below != [] {
      assert below[0] in below && Flat(notes, from, end)[0] == below[0];
    }
  }

  method EmptyWindow<T>(notes: Notes<T>, start: nat) returns (got: seq<T>, gotHeights: seq<nat>)
    ensures got == Clues(Flat(notes, start, start - 1)) == []
    ensures gotHeights == Heights(Flat(notes, start, start - 1)) == []
  {
    got, gotHeights := [], [];
  }

  /** Ask, keep, ask again from the height after the last one kept, until a reply is complete or empty.
      Every clue of the evaluable part of the window arrives exactly once, in order, and the last reply
      is complete exactly when that part is the whole window and its last height fits a reply. */
  method WalkWindow<T>(i: Index, parse: Bytes -> RawClue<T>, start: nat, end: nat, cap: nat)
    returns (got: seq<T>, gotHeights: seq<nat>, complete: bool)
    requires start <= end && cap > 0
    ensures var notes, last := NotesOf(i, parse), EvaluableEnd(i, start, end);
            && got == Clues(Flat(notes, start, last)) && gotHeights == Heights(Flat(notes, start, last))
            && AllArrived(i, parse, start, last, got, gotHeights)
            && (complete <==> last == end && |Valid(end, notes(end))| <= cap)
  {
    var notes := NotesOf(i, parse);
    ghost var reach := EvaluableEnd(i, start, end);
    FlatArrived(i, parse, start, reach);
    hide Clues, Heights, NotesOf, Valid, Flat, EvaluableEnd, AllArrived;
    got, gotHeights := EmptyWindow(notes, start);
    complete := false;
    var from := start;
    while from <= end
      invariant start <= from <= reach + 1 && (from > end ==> |Valid(end, notes(end))| > cap)
      invariant got == Clues(Flat(notes, start, from - 1)) && gotHeights == Heights(Flat(notes, start, from - 1))
      invariant !complete
      decreases end + 1 - from
    {
      var last, covered := EvaluableFrom(i, start, from, end);
      if last.None? {
        return;
      }
      var clues, heights, truncated := NextReply(notes, from, last.value, cap);
      complete := covered && !truncated;
      var kept := if complete || heights == [] then last.value else heights[|heights| - 1];
      Gather(notes, start, from, kept);
      got, gotHeights := got + clues, gotHeights + heights;
      if complete || heights == [] {
        return;
      }
      from := kept + 1;
    }
  }
}
