/** A recipient that walks a window digest by digest: which heights it is told of, and where a height
    with too many clues stops it. */
module DetectionWalk {
  import opened Chain
  import opened CacheStore
  import opened Clue
  import opened Detection
  import opened DetectionEndToEnd
  import opened DigestFrame
  import opened OmrWindow
  import opened Outcome
  import opened Ring

  /** Every clue that parses has the dimension of the secret. */
  ghost predicate ParsesTo(parse: Bytes -> RawClue<Ciphertext>, n: nat) {
    forall b :: parse(b).Parsed? ==> Shaped(parse(b).clue, n)
  }

  ghost predicate NotesShaped(notes: Notes<Ciphertext>, n: nat) {
    forall h: nat, m :: m in Valid(h, notes(h)) ==> Shaped(m.1, n)
  }

  /** The clues of one height alone fill more chunks than a client accepts. */
  predicate Overfull(notes: Notes<Ciphertext>, degree: nat, h: nat)
    requires degree > 0
  {
    DivCeil(|Valid(h, notes(h))|, degree) > DivCeil(MAX_OMR_MESSAGES, degree)
  }

  ghost predicate NoneOverfull(notes: Notes<Ciphertext>, degree: nat, from: nat, end: int)
    requires degree > 0
  {
    forall h: nat :: from <= h <= end ==> !Overfull(notes, degree, h)
  }

  /** Some clue at height `h` is the recipient's. */
  ghost predicate HasPertinent(notes: Notes<Ciphertext>, s: Poly, t: nat, h: nat)
    requires t > 0 && BITS <= |s|
  {
    exists m :: m in Valid(h, notes(h)) && Shaped(m.1, |s|) && Pertinent(m.1, s, t)
  }

  /** `found` is the heights of from..end with a clue of the recipient, ascending and once each. */
  ghost predicate ToldOf(found: seq<nat>, notes: Notes<Ciphertext>, s: Poly, t: nat, from: nat, end: int)
    requires t > 0 && BITS <= |s|
  {
    Ascending(found) && forall h: nat :: h in found <==> from <= h <= end && HasPertinent(notes, s, t, h)
  }

  // ---- from the index to the slots ----

  lemma {:induction false} TxCluesShaped(txs: seq<Tx>, parse: Bytes -> RawClue<Ciphertext>, n: nat)
    requires ParsesTo(parse, n)
    ensures forall raw :: raw in TxClues(txs, parse) && raw.Parsed? ==> Shaped(raw.clue, n)
  {
    if txs != [] {
      hide Shaped;
      TxCluesShaped(txs[1..], parse, n);
      var here := |txs[0].outputs|;
      assert TxClues(txs, parse)[here..] == TxClues(txs[1..], parse);
      forall k | 0 <= k < |TxClues(txs, parse)| && TxClues(txs, parse)[k].Parsed?
        ensures Shaped(TxClues(txs, parse)[k].clue, n)
      {
        if k < here {
          assert TxClues(txs, parse)[k] == parse(txs[0].outputs[k].clue);
        } else {
          assert TxClues(txs, parse)[k] in TxClues(txs[1..], parse);
        }
      }
    }
  }

  lemma {:induction false} ValidShaped(h: nat, raw: seq<RawClue<Ciphertext>>, n: nat)
    requires forall x :: x in raw && x.Parsed? ==> Shaped(x.clue, n)
    ensures forall m :: m in Valid(h, raw) ==> Shaped(m.1, n)
  {
    if raw != [] {
      assert raw[|raw| - 1] in raw;
      ValidShaped(h, raw[..|raw| - 1], n);
    }
  }

  lemma NotesOfShaped(i: Index, parse: Bytes -> RawClue<Ciphertext>, n: nat)
    requires ParsesTo(parse, n)
    ensures NotesShaped(NotesOf(i, parse), n)
  {
    hide ParsesTo, Shaped;
    var notes := NotesOf(i, parse);
    forall h: nat, m | m in Valid(h, notes(h)) ensures Shaped(m.1, n) {
      if h in i.blocks {
        TxCluesShaped(i.blocks[h].txs, parse, n);
      }
      ValidShaped(h, notes(h), n);
    }
  }

  lemma {:induction false} InFlat(notes: Notes<Ciphertext>, from: nat, end: int, m: Message<Ciphertext>)
    ensures m in Flat(notes, from, end) <==> from <= m.0 <= end && m in Valid(m.0, notes(m.0))
    decreases end - from
  {
    if from <= end {
      InFlat(notes, from, end - 1, m);
      ValidAt(end, notes(end));
    }
  }

  lemma FlatShaped(notes: Notes<Ciphertext>, from: nat, end: int, n: nat)
    requires NotesShaped(notes, n)
    ensures AllShaped(Clues(Flat(notes, from, end)), n)
  {
    var flat := Flat(notes, from, end);
    hide Flat, Valid;
    forall k | 0 <= k < |flat| ensures Shaped(flat[k].1, n) {
      InFlat(notes, from, end, flat[k]);
    }
  }

  /** A slot of the height that is pertinent, and a clue of the height that is, are one and the same. */
  lemma ClueHasSlot(notes: Notes<Ciphertext>, s: Poly, t: nat, from: nat, end: int, h: nat) returns (k: nat)
    requires t > 0 && BITS <= |s| && from <= h <= end && HasPertinent(notes, s, t, h)
    ensures var flat := Flat(notes, from, end);
            k < |flat| && flat[k].0 == h && Shaped(Clues(flat)[k], |s|) && Pertinent(Clues(flat)[k], s, t)
  {
    hide Flat, Valid, Pertinent;
    var m :| m in Valid(h, notes(h)) && Shaped(m.1, |s|) && Pertinent(m.1, s, t);
    ValidAt(h, notes(h));
    InFlat(notes, from, end, m);
    k :| 0 <= k < |Flat(notes, from, end)| && Flat(notes, from, end)[k] == m;
  }

  lemma SlotsAreClues(notes: Notes<Ciphertext>, s: Poly, t: nat, from: nat, end: int, h: nat)
    requires t > 0 && BITS <= |s| && NotesShaped(notes, |s|)
    ensures var flat := Flat(notes, from, end);
            && AllShaped(Clues(flat), |s|)
            && ((exists k :: 0 <= k < |flat| && flat[k].0 == h && Pertinent(Clues(flat)[k], s, t))
                <==> from <= h <= end && HasPertinent(notes, s, t, h))
  {
    var flat := Flat(notes, from, end);
    FlatShaped(notes, from, end, |s|);
    hide Flat, Valid, Pertinent, NotesShaped, Shaped;
    if k :| 0 <= k < |flat| && flat[k].0 == h && Pertinent(Clues(flat)[k], s, t) {
      InFlat(notes, from, end, flat[k]);
    }
    if from <= h <= end && HasPertinent(notes, s, t, h) {
      var k := ClueHasSlot(notes, s, t, from, end, h);
    }
  }

  lemma ToldJoin(a: seq<nat>, b: seq<nat>, notes: Notes<Ciphertext>, s: Poly, t: nat, start: nat, from: nat, end: int)
    requires t > 0 && BITS <= |s| && start <= from <= end + 1
    requires ToldOf(a, notes, s, t, start, from - 1) && ToldOf(b, notes, s, t, from, end)
    ensures ToldOf(a + b, notes, s, t, start, end)
  {
    hide HasPertinent;
    forall i, j | 0 <= i < j < |a + b| ensures (a + b)[i] < (a + b)[j] {
      assert i < |a| ==> a[i] in a;
      assert j >= |a| ==> b[j - |a|] in b;
    }
  }

  lemma ToldOfNothing(notes: Notes<Ciphertext>, s: Poly, t: nat, from: nat, end: int)
    requires t > 0 && BITS <= |s| && Flat(notes, from, end) == []
    ensures ToldOf([], notes, s, t, from, end)
  {
    hide Pertinent;
    forall h: nat | from <= h <= end ensures !HasPertinent(notes, s, t, h) {
      forall m | m in Valid(h, notes(h)) ensures false {
        ValidAt(h, notes(h));
        InFlat(notes, from, end, m);
      }
    }
  }

  // ---- heights with many clues ----

  lemma {:induction false} PartIsNoLonger(notes: Notes<Ciphertext>, from: nat, end: int, h: nat)
    requires from <= h <= end
    ensures |Valid(h, notes(h))| <= |Flat(notes, from, end)|
    decreases end - h
  {
    if h < end {
      PartIsNoLonger(notes, from, end - 1, h);
    }
  }

  lemma ShortHasNoneOverfull(notes: Notes<Ciphertext>, degree: nat, from: nat, end: int)
    requires degree > 0 && DivCeil(|Flat(notes, from, end)|, degree) <= DivCeil(MAX_OMR_MESSAGES, degree)
    ensures NoneOverfull(notes, degree, from, end)
  {
    hide DivCeil, Flat, Valid;
    forall h: nat | from <= h <= end ensures !Overfull(notes, degree, h) {
      PartIsNoLonger(notes, from, end, h);
      FewerChunks(|Valid(h, notes(h))|, |Flat(notes, from, end)|, degree);
    }
  }

  lemma EmptyHasNoneOverfull(notes: Notes<Ciphertext>, degree: nat, from: nat, end: int)
    requires degree > 0 && Flat(notes, from, end) == []
    ensures NoneOverfull(notes, degree, from, end)
  {
    FewerChunks(0, MAX_OMR_MESSAGES, degree);
    hide DivCeil;
    ShortHasNoneOverfull(notes, degree, from, end);
  }

  /** Clues that all sit at the last height leave nothing below it. */
  lemma LastHeightOnly(notes: Notes<Ciphertext>, from: nat, last: nat)
    requires from <= last
    requires var hs := Heights(Flat(notes, from, last)); hs != [] && hs[0] == last
    ensures Flat(notes, from, last - 1) == [] && Flat(notes, from, last) == Valid(last, notes(last))
  {
    LastHeightAlone(notes, from, last);
    assert |Flat(notes, from, last)| == |Flat(notes, from, last - 1)| + |Valid(last, notes(last))|;
  }

  // ---- one digest ----

  /** `clues` and `heights` are all of from..end. */
  ghost predicate AllOf(notes: Notes<Ciphertext>, from: nat, end: int, clues: seq<Ciphertext>, heights: seq<nat>) {
    clues == Clues(Flat(notes, from, end)) && heights == Heights(Flat(notes, from, end))
  }

  /** What a digest over from..end tells its recipient. */
  ghost predicate Tells(found: seq<nat>, notes: Notes<Ciphertext>, s: Poly, t: nat, degree: nat, from: nat, end: int)
    requires t > 0 && BITS <= |s| && degree > 0
  {
    ToldOf(found, notes, s, t, from, end) && NoneOverfull(notes, degree, from, end)
  }

  lemma ToldAll(notes: Notes<Ciphertext>, s: Poly, t: nat, degree: nat, from: nat, end: int, clues: seq<Ciphertext>,
                heights: seq<nat>, found: seq<nat>)
    requires t > 0 && BITS <= |s| && degree > 0 && NotesShaped(notes, |s|) && AllOf(notes, from, end, clues, heights)
    requires DivCeil(|clues|, degree) <= DivCeil(MAX_OMR_MESSAGES, degree)
    requires |clues| == |heights| && AllShaped(clues, |s|) && Ascending(found)
    requires forall h :: h in found <==>
      exists k :: 0 <= k < |clues| && heights[k] == h && Pertinent(clues[k], s, t)
    ensures Tells(found, notes, s, t, degree, from, end)
  {
    var flat := Flat(notes, from, end);
    hide Flat, Valid, Pertinent, DivCeil, NotesShaped, HasPertinent, Shaped;
    assert |clues| == |flat| && forall k :: 0 <= k < |flat| ==> heights[k] == flat[k].0;
    ShortHasNoneOverfull(notes, degree, from, end);
    forall h: nat ensures h in found <==> from <= h <= end && HasPertinent(notes, s, t, h) {
      SlotsAreClues(notes, s, t, from, end, h);
    }
  }

  /** Only more clues than a digest may have at one height make a client refuse a reply. */
  lemma RefusedIsOverfull(notes: Notes<Ciphertext>, s: Poly, t: nat, degree: nat, from: nat, stop: nat,
                          clues: seq<Ciphertext>, heights: seq<nat>)
    requires t > 0 && BITS <= |s| && degree > 0 && from <= stop && AllOf(notes, from, stop, clues, heights)
    requires DivCeil(|clues|, degree) > DivCeil(MAX_OMR_MESSAGES, degree)
    requires heights != [] && heights[|heights| - 1] == stop && (|clues| > MAX_OMR_MESSAGES ==> heights[0] == stop)
    ensures Overfull(notes, degree, stop) && Tells([], notes, s, t, degree, from, stop - 1)
  {
    if |clues| <= MAX_OMR_MESSAGES {
      CapFits(|clues|, degree);
    }
    hide DivCeil, Flat, Valid;
    LastHeightOnly(notes, from, stop);
    ToldOfNothing(notes, s, t, from, stop - 1);
    EmptyHasNoneOverfull(notes, degree, from, stop - 1);
  }

  /** One digest of the clues of from..last, and what its recipient makes of it. */
  method DetectReply(codec: Codec, network: nat, s: Poly, notes: Notes<Ciphertext>, from: nat, last: nat, degree: nat,
                     t: nat)
    returns (told: Result<seq<nat>, Error>, heights: seq<nat>, truncated: bool)
    requires Ternary(s) && t > 2 * R_PRIME + 1 && degree > 0 && BITS <= |s| && Faithful(codec, degree, t)
    requires from <= last && NotesShaped(notes, |s|)
    ensures heights != [] ==> from <= heights[|heights| - 1] <= last
    ensures truncated ==>
      heights != [] && (heights[|heights| - 1] == last ==> |Valid(last, notes(last))| > MAX_OMR_MESSAGES)
    ensures !truncated ==> |Valid(last, notes(last))| <= MAX_OMR_MESSAGES
    ensures told.Ok? && !truncated ==> Tells(told.value, notes, s, t, degree, from, last)
    ensures told.Ok? && heights != [] ==> Tells(told.value, notes, s, t, degree, from, heights[|heights| - 1])
    ensures told.Err? ==>
      && heights != []
      && var stop: int := heights[|heights| - 1];
         Overfull(notes, degree, stop) && Tells([], notes, s, t, degree, from, stop - 1)
  {
    var clues;
    clues, heights, truncated := NextReply(notes, from, last, MAX_OMR_MESSAGES);
    hide NotesShaped, Valid, Flat, Clues, Heights, Tells, Pertinent, Ternary, Faithful, DivCeil;
    var end := if heights == [] then last else heights[|heights| - 1];
    assert AllOf(notes, from, end, clues, heights) && (!truncated ==> AllOf(notes, from, last, clues, heights));
    FlatShaped(notes, from, end, |s|);
    told := Detect(codec, network, s, clues, heights, degree, t);
    if told.Ok? {
      ToldAll(notes, s, t, degree, from, end, clues, heights, told.value);
      if !truncated {
        ToldAll(notes, s, t, degree, from, last, clues, heights, told.value);
      }
    } else {
      CapFits(0, degree);
      RefusedIsOverfull(notes, s, t, degree, from, end, clues, heights);
    }
  }

  // ---- told of outputs ----

  /** Some output of the block at `h` has a clue that is the recipient's. */
  ghost predicate HasOwnClue(i: Index, parse: Bytes -> RawClue<Ciphertext>, s: Poly, t: nat, h: nat)
    requires t > 0 && BITS <= |s|
  {
    h in i.blocks && exists a: nat, b: nat :: IsOwnClue(i.blocks[h].txs, parse, s, t, a, b)
  }

  /** The clue of output `b` of transaction `a` parses and is pertinent. */
  ghost predicate IsOwnClue(txs: seq<Tx>, parse: Bytes -> RawClue<Ciphertext>, s: Poly, t: nat, a: nat, b: nat)
    requires t > 0 && BITS <= |s|
  {
    && a < |txs| && b < |txs[a].outputs| && parse(txs[a].outputs[b].clue).Parsed?
    && Shaped(parse(txs[a].outputs[b].clue).clue, |s|) && Pertinent(parse(txs[a].outputs[b].clue).clue, s, t)
  }

  /** `found` is the heights of from..end at which some output has a clue of the recipient. */
  ghost predicate NamesOwn(found: seq<nat>, i: Index, parse: Bytes -> RawClue<Ciphertext>, s: Poly, t: nat,
                           from: nat, end: int)
    requires t > 0 && BITS <= |s|
  {
    Ascending(found) && forall h: nat :: h in found <==> from <= h <= end && HasOwnClue(i, parse, s, t, h)
  }

  lemma {:induction false} InValid(h: nat, raw: seq<RawClue<Ciphertext>>, m: Message<Ciphertext>)
    ensures m in Valid(h, raw) <==> m.0 == h && Parsed(m.1) in raw
  {
    if raw != [] {
      var n := |raw| - 1;
      InValid(h, raw[..n], m);
      assert raw == raw[..n] + [raw[n]];
    }
  }

  lemma InTxClues(txs: seq<Tx>, parse: Bytes -> RawClue<Ciphertext>, raw: RawClue<Ciphertext>)
    ensures raw in TxClues(txs, parse) <==>
      exists a, b :: 0 <= a < |txs| && 0 <= b < |txs[a].outputs| && parse(txs[a].outputs[b].clue) == raw
  {
    hide TxClues, OutputsBefore;
    ClueAtPlace(txs, parse, 0, 0);
    if raw in TxClues(txs, parse) {
      var k :| 0 <= k < |TxClues(txs, parse)| && TxClues(txs, parse)[k] == raw;
      var a, b := OutputAtPlace(txs, |txs|, k);
      ClueAtPlace(txs, parse, a, b);
    }
    forall a, b | 0 <= a < |txs| && 0 <= b < |txs[a].outputs| && parse(txs[a].outputs[b].clue) == raw
      ensures raw in TxClues(txs, parse)
    {
      ClueAtPlace(txs, parse, a, b);
    }
  }

  lemma PertinentIsOwn(i: Index, parse: Bytes -> RawClue<Ciphertext>, s: Poly, t: nat, h: nat)
    requires t > 0 && BITS <= |s|
    ensures HasPertinent(NotesOf(i, parse), s, t, h) <==> HasOwnClue(i, parse, s, t, h)
  {
    var raw := NotesOf(i, parse)(h);
    hide Valid, TxClues, Pertinent;
    if HasPertinent(NotesOf(i, parse), s, t, h) {
      var m :| m in Valid(h, raw) && Shaped(m.1, |s|) && Pertinent(m.1, s, t);
      InValid(h, raw, m);
      InTxClues(i.blocks[h].txs, parse, Parsed(m.1));
      var a: nat, b: nat :| a < |i.blocks[h].txs| && b < |i.blocks[h].txs[a].outputs|
                  && parse(i.blocks[h].txs[a].outputs[b].clue) == Parsed(m.1);
      assert IsOwnClue(i.blocks[h].txs, parse, s, t, a, b);
    }
    if HasOwnClue(i, parse, s, t, h) {
      var a: nat, b: nat :| IsOwnClue(i.blocks[h].txs, parse, s, t, a, b);
      var m := (h, parse(i.blocks[h].txs[a].outputs[b].clue).clue);
      InTxClues(i.blocks[h].txs, parse, Parsed(m.1));
      InValid(h, raw, m);
      assert m in Valid(h, NotesOf(i, parse)(h)) && Shaped(m.1, |s|) && Pertinent(m.1, s, t);
    }
  }

  lemma TellsIsNames(found: seq<nat>, i: Index, parse: Bytes -> RawClue<Ciphertext>, s: Poly, t: nat, degree: nat,
                     from: nat, end: int)
    requires t > 0 && BITS <= |s| && degree > 0 && Tells(found, NotesOf(i, parse), s, t, degree, from, end)
    ensures NamesOwn(found, i, parse, s, t, from, end)
  {
    hide HasPertinent, HasOwnClue, NoneOverfull;
    forall h: nat ensures h in found <==> from <= h <= end && HasOwnClue(i, parse, s, t, h) {
      PertinentIsOwn(i, parse, s, t, h);
    }
  }

  // ---- the walk ----

  lemma TellsJoin(a: seq<nat>, b: seq<nat>, notes: Notes<Ciphertext>, s: Poly, t: nat, degree: nat, start: nat,
                  from: nat, end: int)
    requires t > 0 && BITS <= |s| && degree > 0 && start <= from <= end + 1
    requires Tells(a, notes, s, t, degree, start, from - 1) && Tells(b, notes, s, t, degree, from, end)
    ensures Tells(a + b, notes, s, t, degree, start, end)
  {
    hide Overfull, ToldOf;
    ToldJoin(a, b, notes, s, t, start, from, end);
  }

  lemma TellsNothing(notes: Notes<Ciphertext>, s: Poly, t: nat, degree: nat, start: nat)
    requires t > 0 && BITS <= |s| && degree > 0
    ensures Tells([], notes, s, t, degree, start, start - 1)
  {
  }

  /** The recipient asks, detects, and asks again from the height after the last one kept, until a reply
      is complete, empty or refused. It is told of exactly the heights of the evaluable part that have a
      clue of its own, if no height there is overfull; otherwise of exactly those below the first that
      is, and that height stops it. */
  method DetectWindow(codec: Codec, network: nat, s: Poly, i: Index, parse: Bytes -> RawClue<Ciphertext>, start: nat,
                      end: nat, degree: nat, t: nat)
    returns (found: seq<nat>, complete: bool, refused: Option<nat>)
    requires Ternary(s) && t > 2 * R_PRIME + 1 && degree > 0 && BITS <= |s| && Faithful(codec, degree, t)
    requires start <= end && ParsesTo(parse, |s|)
    ensures var notes, last := NotesOf(i, parse), EvaluableEnd(i, start, end);
            && (refused.None? ==>
                  && NamesOwn(found, i, parse, s, t, start, last)
                  && Tells(found, notes, s, t, degree, start, last)
                  && (complete <==> last == end && |Valid(end, notes(end))| <= MAX_OMR_MESSAGES))
            && (refused.Some? ==>
                  && start <= refused.value <= last && Overfull(notes, degree, refused.value) && !complete
                  && NamesOwn(found, i, parse, s, t, start, refused.value - 1)
                  && Tells(found, notes, s, t, degree, start, refused.value - 1))
  {
    var notes := NotesOf(i, parse);
    ghost var reach := EvaluableEnd(i, start, end);
    NotesOfShaped(i, parse, |s|);
    hide NotesOf, Valid, Tells, Overfull, Ternary, Faithful, ParsesTo, NotesShaped, EvaluableEnd, NamesOwn;
    found, complete, refused := [], false, None;
    TellsNothing(notes, s, t, degree, start);
    var from := start;
    while from <= end
      invariant start <= from <= reach + 1 && (from > end ==> |Valid(end, notes(end))| > MAX_OMR_MESSAGES)
      invariant Tells(found, notes, s, t, degree, start, from - 1)
      invariant !complete && refused.None?
      decreases end + 1 - from
    {
      var last, covered := EvaluableFrom(i, start, from, end);
      if last.None? {
        TellsIsNames(found, i, parse, s, t, degree, start, reach);
        return;
      }
      var told, heights, truncated := DetectReply(codec, network, s, notes, from, last.value, degree, t);
      if told.Err? {
        refused := Some(heights[|heights| - 1]);
        TellsJoin(found, [], notes, s, t, degree, start, from, refused.value - 1);
        assert found + [] == found;
        TellsIsNames(found, i, parse, s, t, degree, start, refused.value - 1);
        return;
      }
      complete := covered && !truncated;
      var kept := if complete || heights == [] then last.value else heights[|heights| - 1];
      TellsJoin(found, told.value, notes, s, t, degree, start, from, kept);
      found := found + told.value;
      if complete || heights == [] {
        TellsIsNames(found, i, parse, s, t, degree, start, reach);
        return;
      }
      from := kept + 1;
    }
    TellsIsNames(found, i, parse, s, t, degree, start, reach);
  }
}
