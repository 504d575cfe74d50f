/** Striped batch PIR: multi-hot queries, one ciphertext per stripe of the window, evaluated
    slotwise against one limb column at a time and stitched back together. A ciphertext is its
    plaintext slot vector, with arithmetic modulo the plaintext modulus. */
module Pir {
  import opened Arithmetic
  import opened Outcome
  import opened PirLimbs

  const MAX_PIR_STRIPES: nat := 8

  datatype Error =
    | EmptyIndexSet
    | TooManyStripes(stripes: nat)
    | IndexOutOfWindow(index: nat)
    | WrongCount(expected: nat, got: nat)

  // ---- where a window index lives ----

  function StripeCount(window: nat, degree: nat): (count: nat)
    requires degree > 0
  {
    if window == 0 then 1 else (window + degree - 1) / degree
  }

  /** Window index of slot `i` in stripe `s`. */
  function Place(s: nat, i: nat, degree: nat): nat {
    s * degree + i
  }

  /** A slot is found by quotient and remainder, and in no other way. */
  lemma PlaceIsUnique(index: nat, s: nat, i: nat, degree: nat)
    requires i < degree
    ensures index == Place(s, i, degree) <==> index / degree == s && index % degree == i
  {
    var q: int := index / degree;
    assert index == degree * q + index % degree && s * degree == degree * s;
    if index == Place(s, i, degree) {
      ResidueIs(index, i, degree, s);
      assert degree * (q - s) == 0;
      if q != s {
        MultipleIsLarge(degree, q - s);
      }
    }
  }

  lemma Grows(a: nat, b: nat, degree: nat)
    requires a <= b
    ensures a * degree <= b * degree && (a + 1) * degree == a * degree + degree
  {
  }

  /** The stripes reach past the end of the window, and no stripe but the first is idle. */
  lemma StripesCover(window: nat, degree: nat)
    requires degree > 0
    ensures var n := StripeCount(window, degree);
            n > 0 && window <= Place(n, 0, degree) && (window > 0 ==> Place(n - 1, 0, degree) < window)
  {
  }

  // ---- queries ----

  function Selection(indices: seq<nat>, s: nat, degree: nat): Slots {
    seq(degree, i requires 0 <= i < degree => if Place(s, i, degree) in indices then 1 else 0)
  }

  method SelectStripe(indices: seq<nat>, s: nat, degree: nat) returns (selection: Slots)
    requires degree > 0
    ensures selection == Selection(indices, s, degree)
  {
    var slots := new nat[degree](i => 0);
    var k := 0;
    while k < |indices|
      invariant k <= |indices|
      invariant forall i :: 0 <= i < degree ==> slots[i] == if Place(s, i, degree) in indices[..k] then 1 else 0
    {
      assert indices[..k + 1] == indices[..k] + [indices[k]];
      forall i | 0 <= i < degree
        ensures indices[k] == Place(s, i, degree) <==> indices[k] / degree == s && indices[k] % degree == i
      {
        PlaceIsUnique(indices[k], s, i, degree);
      }
      hide Place;
      if indices[k] / degree == s {
        slots[indices[k] % degree] := 1;
      }
      k := k + 1;
    }
    assert indices[..|indices|] == indices;
    selection := slots[..];
  }

  ghost predicate Selects(queries: seq<Slots>, indices: seq<nat>, window: nat, degree: nat)
    requires degree > 0
  {
    && |queries| == StripeCount(window, degree)
    && forall s :: 0 <= s < |queries| ==> queries[s] == Selection(indices, s, degree)
  }

  /** One query a stripe, also for stripes nothing is selected in. */
  method GenerateQueries(indices: seq<nat>, window: nat, degree: nat) returns (r: Result<seq<Slots>, Error>)
    requires degree > 0
    ensures r.Ok? <==>
      && indices != [] && StripeCount(window, degree) <= MAX_PIR_STRIPES
      && forall k :: 0 <= k < |indices| ==> indices[k] < window
    ensures r.Ok? ==> Selects(r.value, indices, window, degree)
    ensures r.Err? ==>
      || (r.error == EmptyIndexSet && indices == [])
      || (r.error == TooManyStripes(StripeCount(window, degree)) && indices != [])
      || (r.error.IndexOutOfWindow? && r.error.index in indices && r.error.index >= window
          && StripeCount(window, degree) <= MAX_PIR_STRIPES)
  {
    if indices == [] {
      return Err(EmptyIndexSet);
    }
    var stripes := StripeCount(window, degree);
    if stripes > MAX_PIR_STRIPES {
      return Err(TooManyStripes(stripes));
    }
    var k := 0;
    while k < |indices|
      invariant k <= |indices| && forall j :: 0 <= j < k ==> indices[j] < window
    {
      if indices[k] >= window {
        return Err(IndexOutOfWindow(indices[k]));
      }
      k := k + 1;
    }
    var out := [];
    var s := 0;
    while s < stripes
      invariant s == |out| <= stripes
      invariant forall j :: 0 <= j < s ==> out[j] == Selection(indices, j, degree)
    {
      var selection := SelectStripe(indices, s, degree);
      out := out + [selection];
      s := s + 1;
    }
    r := Ok(out);
  }

  // ---- server ----

  /** A slot of the product of two encrypted or encoded slots. */
  function Times(a: nat, b: nat): nat {
    a * b % PLAIN_MODULUS
  }

  /** Entry of a column at a window index; zero past the window or the column. */
  function Entry(db: seq<nat>, window: nat, index: nat): nat {
    if index < window && index < |db| then db[index] else 0
  }

  function Answer(query: Slots, db: seq<nat>, window: nat, s: nat, degree: nat): Slots
    requires |query| == degree
  {
    seq(degree, i requires 0 <= i < degree => Times(query[i], Entry(db, window, Place(s, i, degree))))
  }

  method EvaluateLimb(query: Slots, db: seq<nat>) returns (answer: Slots)
    requires |db| <= |query|
    ensures |answer| == |query|
    ensures forall i :: 0 <= i < |query| ==> answer[i] == Times(query[i], if i < |db| then db[i] else 0)
  {
    var padded := db + seq(|query| - |db|, i => 0);
    answer := seq(|query|, i requires 0 <= i < |query| => Times(query[i], padded[i]));
  }

  /** One stripe of the column, or zeros beyond the window. */
  method EvaluateStripe(query: Slots, db: seq<nat>, window: nat, s: nat, degree: nat) returns (answer: Slots)
    requires |query| == degree
    ensures answer == Answer(query, db, window, s, degree)
  {
    var start := s * degree;
    assert start == Place(s, 0, degree);
    var stripe := [];
    if start < window {
      var end := start + degree;
      end := if window < end then window else end;
      end := if |db| < end then |db| else end;
      stripe := if start <= end then db[start..end] else [];
    }
    assert forall i :: 0 <= i < |stripe| ==> stripe[i] == Entry(db, window, Place(s, i, degree));
    assert forall i :: |stripe| <= i < degree ==> Entry(db, window, Place(s, i, degree)) == 0;
    hide Place, Entry, Times;
    answer := EvaluateLimb(query, stripe);
  }

  ghost predicate Answers(answers: seq<Slots>, queries: seq<Slots>, db: seq<nat>, window: nat, degree: nat)
    requires forall s :: 0 <= s < |queries| ==> |queries[s]| == degree
  {
    && |answers| == |queries|
    && forall s :: 0 <= s < |queries| ==> answers[s] == Answer(queries[s], db, window, s, degree)
  }

  method EvaluateStripes(queries: seq<Slots>, db: seq<nat>, window: nat, degree: nat)
    returns (r: Result<seq<Slots>, Error>)
    requires degree > 0 && forall s :: 0 <= s < |queries| ==> |queries[s]| == degree
    ensures r.Ok? <==> |queries| == StripeCount(window, degree)
    ensures r.Ok? ==> Answers(r.value, queries, db, window, degree)
  {
    var stripes := StripeCount(window, degree);
    if |queries| != stripes {
      return Err(WrongCount(stripes, |queries|));
    }
    var out := [];
    var s := 0;
    while s < |queries|
      invariant s == |out| <= |queries|
      invariant forall j :: 0 <= j < s ==> out[j] == Answer(queries[j], db, window, j, degree)
    {
      var answer := EvaluateStripe(queries[s], db, window, s, degree);
      out := out + [answer];
      s := s + 1;
    }
    r := Ok(out);
  }

  // ---- client ----

  function SlotAt(slots: Slots, i: nat): nat {
    if i < |slots| then slots[i] else 0
  }

  function StitchedAt(responses: seq<Slots>, g: nat, degree: nat): nat
    requires degree > 0
  {
    if g / degree < |responses| then SlotAt(responses[g / degree], g % degree) else 0
  }

  /** Copy one stripe into place, stopping at the end of the window. */
  method Stitch(out: array<nat>, slots: Slots, base: nat, degree: nat)
    modifies out
    ensures forall g :: 0 <= g < out.Length ==>
      out[g] == if base <= g < base + degree then SlotAt(slots, g - base) else old(out[g])
  {
    var i := 0;
    while i < degree
      invariant i <= degree
      invariant forall g :: 0 <= g < out.Length ==>
        out[g] == if base <= g < base + i then SlotAt(slots, g - base) else old(out[g])
    {
      var g := base + i;
      if g >= out.Length {
        break;
      }
      out[g] := SlotAt(slots, i);
      i := i + 1;
    }
  }

  /** Stripe answers as one flat column of the window. */
  method DecryptStripes(responses: seq<Slots>, window: nat, degree: nat) returns (r: Result<seq<nat>, Error>)
    requires degree > 0
    ensures r.Ok? <==> |responses| == StripeCount(window, degree)
    ensures r.Ok? ==>
      && |r.value| == window
      && forall g :: 0 <= g < window ==> r.value[g] == StitchedAt(responses, g, degree)
  {
    var stripes := StripeCount(window, degree);
    if |responses| != stripes {
      return Err(WrongCount(stripes, |responses|));
    }
    var out := new nat[window](g => 0);
    var s := 0;
    while s < |responses|
      invariant s <= |responses|
      invariant forall g :: 0 <= g < window && g < Place(s, 0, degree) ==> out[g] == StitchedAt(responses, g, degree)
    {
      StripeIs(responses, s, degree);
      Grows(s, s + 1, degree);
      Stitch(out, responses[s], s * degree, degree);
      s := s + 1;
    }
    StripesCover(window, degree);
    r := Ok(out[..]);
  }

  lemma StripeIs(responses: seq<Slots>, s: nat, degree: nat)
    requires degree > 0 && s < |responses|
    ensures forall g :: Place(s, 0, degree) <= g < Place(s, 0, degree) + degree ==>
      StitchedAt(responses, g, degree) == SlotAt(responses[s], g - Place(s, 0, degree))
  {
    forall g | Place(s, 0, degree) <= g < Place(s, 0, degree) + degree
      ensures StitchedAt(responses, g, degree) == SlotAt(responses[s], g - Place(s, 0, degree))
    {
      PlaceIsUnique(g, s, g - Place(s, 0, degree), degree);
    }
  }

  /** Row `index` of the columns; a column too short gives zero. */
  function RowOf(cols: seq<seq<nat>>, index: nat): seq<nat> {
    seq(|cols|, j requires 0 <= j < |cols| => if index < |cols[j]| then cols[j][index] else 0)
  }

  method GatherRow(cols: seq<seq<nat>>, index: nat) returns (limbs: seq<nat>)
    ensures limbs == RowOf(cols, index)
  {
    limbs := [];
    while |limbs| < |cols|
      invariant |limbs| <= |cols| && limbs == RowOf(cols, index)[..|limbs|]
    {
      var col := cols[|limbs|];
      limbs := limbs + [if index < |col| then col[index] else 0];
    }
  }

  method AssemblePayloads(indices: seq<nat>, cols: seq<seq<nat>>) returns (payloads: seq<Payload>)
    ensures |payloads| == |indices|
    ensures forall k :: 0 <= k < |indices| ==> payloads[k] == Decoded(RowOf(cols, indices[k]))
  {
    hide Decoded, RowOf;
    payloads := [];
    while |payloads| < |indices|
      invariant |payloads| <= |indices|
      invariant forall j :: 0 <= j < |payloads| ==> payloads[j] == Decoded(RowOf(cols, indices[j]))
    {
      var limbs := GatherRow(cols, indices[|payloads|]);
      var payload := DecodeLengthPrefixedLimbs(limbs);
      payloads := payloads + [payload];
    }
  }

  /** An answer too short for a slot reads as zero there, and every other slot as it is. */
  lemma ShortAnswerReadsZero(responses: seq<Slots>, s: nat, i: nat, degree: nat)
    requires s < |responses| && i < degree
    ensures StitchedAt(responses, Place(s, i, degree), degree)
            == if i < |responses[s]| then responses[s][i] else 0
  {
    PlaceIsUnique(Place(s, i, degree), s, i, degree);
  }

  /** A column too short for an index reads as zero: with the first one short the payload is empty, with a later
      one its two bytes are zero. */
  lemma ShortColumnReadsZero(cols: seq<seq<nat>>, index: nat, i: nat)
    ensures cols == [] || |cols[0]| <= index ==> Decoded(RowOf(cols, index)) == []
    ensures i < |Decoded(RowOf(cols, index))| ==>
      && 1 + i / 2 < |cols|
      && (|cols[1 + i / 2]| <= index ==> Decoded(RowOf(cols, index))[i] == 0)
  {
  }

  // ---- end to end ----

  /** One column through query, evaluation and stitching: selected entries survive, the rest are zero. */
  lemma ColumnComesBack(indices: seq<nat>, queries: seq<Slots>, answers: seq<Slots>, db: seq<nat>,
                        window: nat, degree: nat, g: nat)
    requires degree > 0 && g < window == |db| && db[g] < PLAIN_MODULUS
    requires Selects(queries, indices, window, degree) && Answers(answers, queries, db, window, degree)
    ensures StitchedAt(answers, g, degree) == if g in indices then db[g] else 0
  {
    var s, i := g / degree, g % degree;
    PlaceIsUnique(g, s, i, degree);
    StripesCover(window, degree);
    if s >= StripeCount(window, degree) {
      Grows(StripeCount(window, degree), s, degree);
      assert false;
    }
    assert answers[s][i] == Times(queries[s][i], Entry(db, window, Place(s, i, degree)));
  }

  /** What the requests for one window found at `g`, one payload a request. */
  function FoundAt(windows: seq<seq<Payload>>, g: nat): seq<Payload>
    requires forall j :: 0 <= j < |windows| ==> g < |windows[j]|
  {
    seq(|windows|, j requires 0 <= j < |windows| => windows[j][g])
  }

  /** What a wallet does: one set of queries, one request per limb, then assembly. Each request looks
      its window up anew, so `windows[j]` is what the one for limb `j` was answered from. Every selected
      payload is pieced together from the limbs of its own place, whatever the number of stripes. */
  method FetchPayloads(windows: seq<seq<Payload>>, indices: seq<nat>, window: nat, degree: nat)
    returns (r: Result<seq<Payload>, Error>)
    requires degree > 0 && forall j :: 0 <= j < |windows| ==> |windows[j]| == window
    ensures r.Ok? <==>
      && indices != [] && StripeCount(window, degree) <= MAX_PIR_STRIPES
      && forall k :: 0 <= k < |indices| ==> indices[k] < window
    ensures r.Ok? ==> |r.value| == |indices| && forall k :: 0 <= k < |indices| ==>
      Pieced(r.value[k], FoundAt(windows, indices[k]))
  {
    var queries := GenerateQueries(indices, window, degree);
    if queries.Err? {
      return Err(queries.error);
    }
    var cols: seq<seq<nat>> := [];
    while |cols| < |windows|
      invariant |cols| <= |windows|
      invariant forall j :: 0 <= j < |cols| ==> FetchedColumn(cols[j], windows[j], indices, j)
    {
      var col := FetchColumn(queries.value, windows[|cols|], indices, |cols|, degree);
      cols := cols + [col];
    }
    var got := AssemblePayloads(indices, cols);
    forall k | 0 <= k < |indices| ensures Pieced(got[k], FoundAt(windows, indices[k])) {
      RowIsSpread(cols, windows, indices, indices[k]);
      SpreadDecodes(FoundAt(windows, indices[k]));
    }
    r := Ok(got);
  }

  lemma RowIsSpread(cols: seq<seq<nat>>, windows: seq<seq<Payload>>, indices: seq<nat>, g: nat)
    requires |cols| == |windows| && g in indices && forall j :: 0 <= j < |windows| ==> g < |windows[j]|
    requires forall j :: 0 <= j < |cols| ==> FetchedColumn(cols[j], windows[j], indices, j)
    ensures RowOf(cols, g) == Spread(FoundAt(windows, g))
  {
    assert forall j :: 0 <= j < |cols| ==> FetchedColumn(cols[j], windows[j], indices, j);
  }

  /** The column a client ends up with for one limb. */
  ghost predicate FetchedColumn(col: seq<nat>, payloads: seq<Payload>, indices: seq<nat>, limbIndex: nat) {
    && |col| == |payloads|
    && forall g :: 0 <= g < |payloads| ==> col[g] == if g in indices then PayloadLimb(payloads[g], limbIndex) else 0
  }

  method FetchColumn(queries: seq<Slots>, payloads: seq<Payload>, indices: seq<nat>, limbIndex: nat, degree: nat)
    returns (col: seq<nat>)
    requires degree > 0 && Selects(queries, indices, |payloads|, degree)
    ensures FetchedColumn(col, payloads, indices, limbIndex)
  {
    var db := LimbColumn(payloads, limbIndex);
    var answers := EvaluateStripes(queries, db, |payloads|, degree);
    var flat := DecryptStripes(answers.value, |payloads|, degree);
    col := flat.value;
    forall g | 0 <= g < |payloads|
      ensures col[g] == if g in indices then PayloadLimb(payloads[g], limbIndex) else 0
    {
      OnDemandIsMaterialised(payloads[g], limbIndex);
      ColumnComesBack(indices, queries, answers.value, db, |payloads|, degree, g);
    }
  }

  /** The padded number of columns is enough for every payload a reader would accept. */
  lemma PaddedColumnsSuffice(data: Payload)
    requires 0 < |data| <= MAX_PIR_PAYLOAD_BYTES
    ensures PayloadLimbCount(PayloadLimb(data, 0)) == Columns(1 + CeilHalf(|data|))
    ensures 1 + CeilHalf(|data|) <= PaddedLimbCount(1 + CeilHalf(|data|)) <= MAX_PIR_LIMBS
    ensures Decoded(Fetched(data, PaddedLimbCount(1 + CeilHalf(|data|)))) == data
  {
    FetchedDecodes(data, PaddedLimbCount(1 + CeilHalf(|data|)));
  }
}
