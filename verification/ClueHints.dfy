/** Sender-supplied clues held for pending transactions, and their merge into a served block. */
module ClueHints {
  import opened Chain
  import opened HintCodec
  import opened Words

  const TTL: nat := 86_400
  const SWEEP_SECONDS: nat := 60
  const MAX_META: nat := 4096

  // ---- merging into the outputs of one transaction ----

  /** Index of the first output without a clue, or the number of outputs. */
  function FirstEmpty(outputs: seq<Output>): (i: nat)
    ensures i <= |outputs| && (i < |outputs| ==> outputs[i].clue == [])
    ensures forall j :: 0 <= j < i ==> outputs[j].clue != []
  {
    if outputs == [] || outputs[0].clue == [] then 0 else 1 + FirstEmpty(outputs[1..])
  }

  predicate Attached(outputs: seq<Output>, clue: Bytes) {
    exists i :: 0 <= i < |outputs| && outputs[i].clue == clue
  }

  function Target(outputs: seq<Output>, index: Option<U32>): nat {
    if index.Some? then index.value else FirstEmpty(outputs)
  }

  /** Put the clue on its output unless it is empty, already on some output, or the output is taken. */
  function Attach(outputs: seq<Output>, h: Hint): seq<Output> {
    var t := Target(outputs, h.index);
    if h.clue != [] && !Attached(outputs, h.clue) && t < |outputs| && outputs[t].clue == []
    then outputs[t := outputs[t].(clue := h.clue)] else outputs
  }

  function Merge(outputs: seq<Output>, hints: seq<Hint>): seq<Output>
    decreases |hints|
  {
    if hints == [] then outputs else Merge(Attach(outputs, hints[0]), hints[1..])
  }

  /** `after` is `before` with clues filled in where there were none, and nothing else changed. */
  ghost predicate OnlyFills(before: seq<Output>, after: seq<Output>) {
    && |after| == |before|
    && forall i :: 0 <= i < |before| ==>
      && after[i] == before[i].(clue := after[i].clue)
      && (before[i].clue != [] ==> after[i].clue == before[i].clue)
  }

  lemma {:induction false} MergeOnlyFills(outputs: seq<Output>, hints: seq<Hint>)
    ensures OnlyFills(outputs, Merge(outputs, hints))
    decreases |hints|
  {
    if hints != [] {
      MergeOnlyFills(Attach(outputs, hints[0]), hints[1..]);
    }
  }

  lemma {:induction false} MergeInTwo(outputs: seq<Output>, first: seq<Hint>, more: seq<Hint>)
    ensures Merge(outputs, first + more) == Merge(Merge(outputs, first), more)
    decreases |first|
  {
    if first == [] {
      assert first + more == more;
    } else {
      assert (first + more)[1..] == first[1..] + more;
      MergeInTwo(Attach(outputs, first[0]), first[1..], more);
    }
  }

  /** Hints added later never move or replace a clue that earlier ones placed. */
  lemma MoreHintsKeepClues(outputs: seq<Output>, first: seq<Hint>, all: seq<Hint>, i: nat)
    requires first <= all && i < |outputs|
    requires |Merge(outputs, first)| == |outputs| && Merge(outputs, first)[i].clue != []
    ensures |Merge(outputs, all)| == |outputs| && Merge(outputs, all)[i].clue == Merge(outputs, first)[i].clue
  {
    assert all == first + all[|first|..];
    MergeInTwo(outputs, first, all[|first|..]);
    MergeOnlyFills(Merge(outputs, first), all[|first|..]);
  }

  /** Attaching `h` again changes nothing. */
  ghost predicate Done(outputs: seq<Output>, h: Hint) {
    Attach(outputs, h) == outputs
  }

  lemma DoneIsKept(before: seq<Output>, after: seq<Output>, h: Hint)
    requires Done(before, h) && OnlyFills(before, after)
    ensures Done(after, h)
  {
  }

  lemma AttachedIsDone(outputs: seq<Output>, h: Hint)
    ensures Done(Attach(outputs, h), h)
  {
    var after := Attach(outputs, h);
    if after != outputs {
      assert after[Target(outputs, h.index)].clue == h.clue;
    }
  }

  lemma {:induction false} MergedIsDone(outputs: seq<Output>, hints: seq<Hint>, n: nat)
    requires n < |hints|
    ensures Done(Merge(outputs, hints), hints[n])
    decreases |hints|
  {
    var next := Attach(outputs, hints[0]);
    if n == 0 {
      AttachedIsDone(outputs, hints[0]);
      MergeOnlyFills(next, hints[1..]);
      DoneIsKept(next, Merge(outputs, hints), hints[0]);
    } else {
      MergedIsDone(next, hints[1..], n - 1);
    }
  }

  lemma {:induction false} MergeOfDone(outputs: seq<Output>, hints: seq<Hint>)
    requires forall n :: 0 <= n < |hints| ==> Done(outputs, hints[n])
    ensures Merge(outputs, hints) == outputs
    decreases |hints|
  {
    if hints != [] {
      MergeOfDone(outputs, hints[1..]);
    }
  }

  /** Merging twice is merging once. */
  lemma MergeIsIdempotent(outputs: seq<Output>, hints: seq<Hint>)
    ensures Merge(Merge(outputs, hints), hints) == Merge(outputs, hints)
  {
    forall n | 0 <= n < |hints| ensures Done(Merge(outputs, hints), hints[n]) {
      MergedIsDone(outputs, hints, n);
    }
    MergeOfDone(Merge(outputs, hints), hints);
  }

  // ---- the store ----

  datatype Hints = Hints(
    clues: map<nat, seq<Byte>>, storedAt: map<nat, nat>, lastSweep: nat, metas: map<nat, seq<Byte>>)

  predicate Expired(h: Hints, tx: nat, now: nat) {
    tx in h.storedAt && now > h.storedAt[tx] + TTL
  }

  function Forget(h: Hints, txs: set<nat>): Hints {
    h.(clues := h.clues - txs, storedAt := h.storedAt - txs)
  }

  /** The full scan runs at most once a minute. */
  function PruneExpired(h: Hints, now: nat): Hints {
    if h.lastSweep != 0 && now < h.lastSweep + SWEEP_SECONDS then h
    else Forget(h.(lastSweep := now), set tx | tx in h.storedAt && Expired(h, tx, now))
  }

  function DropIfExpired(h: Hints, tx: nat, now: nat): Hints {
    if Expired(h, tx, now) then Forget(h, {tx}) else h
  }

  /** What every entry point does before it looks at `tx`. */
  function Clean(h: Hints, tx: nat, now: nat): Hints {
    DropIfExpired(PruneExpired(h, now), tx, now)
  }

  /** The hints a reader at `now` is to see for `tx`. */
  function Listed(h: Hints, tx: nat, now: nat): seq<Hint> {
    if tx in h.clues && !Expired(h, tx, now) then Decode(h.clues[tx]) else []
  }

  predicate Taken(hints: seq<Hint>, index: Option<U32>) {
    exists i :: 0 <= i < |hints| && hints[i].index == index
  }

  function StoreHint(h0: Hints, tx: nat, clue: seq<Byte>, index: Option<U32>, now: nat): Hints {
    if clue == [] then h0
    else
      var h := Clean(h0, tx, now);
      var hints := if tx in h.clues then Decode(h.clues[tx]) else [];
      if Taken(hints, index) then h
      else h.(clues := h.clues[tx := Encode(hints + [Hint(index, clue)])], storedAt := h.storedAt[tx := now])
  }

  function RemoveHint(h: Hints, tx: nat): Hints {
    Forget(h, {tx})
  }

  function StoreMeta(h: Hints, tx: nat, data: seq<Byte>, index: Option<U32>): Hints {
    if data == [] || |data| > MAX_META then h
    else h.(metas := h.metas[tx := Le32(if index.Some? then index.value else U32_MAX) + data])
  }

  function ParseMeta(stored: seq<Byte>): Hint {
    if |stored| < 4 then Hint(None, [])
    else Hint(if FromLe32(stored) == U32_MAX then None else Some(FromLe32(stored)), stored[4..])
  }

  function FirstWithoutMeta(outputs: seq<Output>): nat {
    if outputs == [] || outputs[0].meta == [] then 0 else 1 + FirstWithoutMeta(outputs[1..])
  }

  function AttachMeta(outputs: seq<Output>, m: Hint): seq<Output> {
    var t := if m.index.Some? then m.index.value else FirstWithoutMeta(outputs);
    if m.clue != [] && t < |outputs| && outputs[t].meta == [] then outputs[t := outputs[t].(meta := m.clue)]
    else outputs
  }

  /** Hints stay for a later merge; metadata is used up. */
  function ApplyClues(h0: Hints, tx: Tx, now: nat): (Hints, Tx) {
    var h := DropIfExpired(h0, tx.id, now);
    if Expired(h0, tx.id, now) || tx.id !in h.clues then (h, tx)
    else
      var hints := Decode(h.clues[tx.id]);
      if forall i :: 0 <= i < |hints| ==> hints[i].clue == [] then (Forget(h, {tx.id}), tx)
      else (h, tx.(outputs := Merge(tx.outputs, hints)))
  }

  function ApplyMeta(h: Hints, tx: Tx): (Hints, Tx) {
    if tx.id in h.metas then
      (h.(metas := h.metas - {tx.id}), tx.(outputs := AttachMeta(tx.outputs, ParseMeta(h.metas[tx.id]))))
    else (h, tx)
  }

  function ApplyTx(h: Hints, tx: Tx, now: nat): (Hints, Tx) {
    var (h1, tx1) := ApplyClues(h, tx, now);
    ApplyMeta(h1, tx1)
  }

  function Apply(h: Hints, txs: seq<Tx>, now: nat): (Hints, seq<Tx>) {
    if txs == [] then (h, [])
    else
      var (h1, done) := Apply(h, txs[..|txs| - 1], now);
      var (h2, last) := ApplyTx(h1, txs[|txs| - 1], now);
      (h2, done + [last])
  }
}
