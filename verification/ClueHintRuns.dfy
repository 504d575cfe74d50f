/** What holds of stored hints over any run of store, merge, query and sweep operations. */
module ClueHintRuns {
  import opened Chain
  import opened HintCodec
  import opened ClueHints
  import opened Words

  /** A list that storage gives back as it is, at most one clue for an output index. */
  ghost predicate GoodList(hints: seq<Hint>) {
    && hints != []
    && (forall i :: 0 <= i < |hints| ==>
          hints[i].index != Some(U32_MAX) && hints[i].clue != [] && |hints[i].clue| <= U32_MAX)
    && (forall i, j :: 0 <= i < j < |hints| ==> hints[i].index != hints[j].index)
  }

  ghost predicate Stored(h: Hints) {
    && h.clues.Keys == h.storedAt.Keys
    && forall tx :: tx in h.clues ==> GoodList(Decode(h.clues[tx]))
  }

  datatype Op =
    | StoreOp(tx: nat, clue: seq<Byte>, index: Option<U32>)
    | StoreMetaOp(tx: nat, data: seq<Byte>, index: Option<U32>)
    | QueryOp(tx: nat)
    | MergeOp(txs: seq<Tx>)
    | RemoveOp(tx: nat)

  function Step(h: Hints, op: Op, now: nat): Hints {
    match op
    case StoreOp(tx, clue, index) => StoreHint(h, tx, clue, index, now)
    case StoreMetaOp(tx, data, index) => StoreMeta(h, tx, data, index)
    case QueryOp(tx) => Clean(h, tx, now)
    case MergeOp(txs) => Apply(h, txs, now).0
    case RemoveOp(tx) => RemoveHint(h, tx)
  }

  /** Indices and clues a client may legally send. */
  ghost predicate Legal(op: Op) {
    op.StoreOp? ==> op.index != Some(U32_MAX) && |op.clue| <= U32_MAX
  }

  // ---- sweeping is invisible ----

  lemma PruneIsInvisible(h: Hints, tx: nat, now: nat)
    requires Stored(h)
    ensures Listed(PruneExpired(h, now), tx, now) == Listed(h, tx, now) && Stored(PruneExpired(h, now))
  {
  }

  lemma DropIsInvisible(h: Hints, tx: nat, other: nat, now: nat)
    requires Stored(h)
    ensures Listed(DropIfExpired(h, other, now), tx, now) == Listed(h, tx, now) && Stored(DropIfExpired(h, other, now))
  {
  }

  // ---- the first clue for an index is never replaced ----

  lemma GoodListDecodes(hints: seq<Hint>)
    requires GoodList(hints)
    ensures Decode(Encode(hints)) == hints
  {
    RoundTripsExactlyWhen(hints);
  }

  lemma CleanIsInvisible(h: Hints, tx: nat, other: nat, now: nat)
    requires Stored(h)
    ensures var clean := Clean(h, tx, now);
            && Stored(clean) && Listed(clean, other, now) == Listed(h, other, now)
            && (tx in clean.clues ==> Decode(clean.clues[tx]) == Listed(h, tx, now) && !Expired(clean, tx, now))
            && (tx !in clean.clues ==> Listed(h, tx, now) == [])
  {
    hide Decode, GoodList, PruneExpired;
    PruneIsInvisible(h, other, now);
    PruneIsInvisible(h, tx, now);
    DropIsInvisible(PruneExpired(h, now), other, tx, now);
  }

  lemma GoodListGrows(hints: seq<Hint>, h: Hint)
    requires hints == [] || GoodList(hints)
    requires h.index != Some(U32_MAX) && h.clue != [] && |h.clue| <= U32_MAX && !Taken(hints, h.index)
    ensures GoodList(hints + [h])
  {
  }

  /** Storing appends the new clue unless its index is taken, and touches no other transaction. */
  lemma StoreAppends(h: Hints, tx: nat, clue: seq<Byte>, index: Option<U32>, now: nat, other: nat)
    requires Stored(h) && index != Some(U32_MAX) && |clue| <= U32_MAX
    ensures var after := StoreHint(h, tx, clue, index, now);
            && Stored(after)
            && Listed(after, other, now)
               == if other == tx && clue != [] && !Taken(Listed(h, tx, now), index)
                  then Listed(h, tx, now) + [Hint(index, clue)] else Listed(h, other, now)
  {
    hide Clean, Decode, Encode, GoodList, Taken;
    CleanIsInvisible(h, tx, other, now);
    var hints := Listed(h, tx, now);
    assert Clean(h, tx, now).clues.Keys == Clean(h, tx, now).storedAt.Keys;
    if clue != [] && !Taken(hints, index) {
      GoodListGrows(hints, Hint(index, clue));
      GoodListDecodes(hints + [Hint(index, clue)]);
    }
  }

  /** A merge leaves every list that has not expired, and forgets the metadata it used. */
  ghost predicate MergeKeeps(h: Hints, after: Hints, now: nat, other: nat) {
    && Stored(after) && Listed(after, other, now) == Listed(h, other, now)
    && (other in h.storedAt && !Expired(h, other, now)
        ==> other in after.clues && other in after.storedAt && after.storedAt[other] == h.storedAt[other])
    && after.metas.Keys <= h.metas.Keys
  }

  lemma MergeKeepsThrough(a: Hints, b: Hints, c: Hints, now: nat, other: nat)
    requires MergeKeeps(a, b, now, other) && MergeKeeps(b, c, now, other)
    ensures MergeKeeps(a, c, now, other)
  {
  }

  lemma ApplyTxKeeps(h: Hints, tx: Tx, now: nat, other: nat)
    requires Stored(h)
    ensures var (after, done) := ApplyTx(h, tx, now); MergeKeeps(h, after, now, other) && tx.id !in after.metas
  {
    hide Decode, GoodList;
    DropIsInvisible(h, other, tx.id, now);
    if tx.id in h.clues {
      NeverAllEmpty(h, tx.id);
    }
    var (h1, tx1) := ApplyClues(h, tx, now);
    assert h1 == DropIfExpired(h, tx.id, now);
  }

  lemma NeverAllEmpty(h: Hints, tx: nat)
    requires Stored(h) && tx in h.clues
    ensures var hints := Decode(h.clues[tx]); !forall i :: 0 <= i < |hints| ==> hints[i].clue == []
  {
    assert Decode(h.clues[tx])[0].clue != [];
  }

  lemma MergeKeepsStored(h: Hints, after: Hints, now: nat, other: nat)
    requires MergeKeeps(h, after, now, other)
    ensures Stored(after) && after.metas.Keys <= h.metas.Keys
  {
  }

  lemma {:induction false} ApplyKeeps(h: Hints, txs: seq<Tx>, now: nat, other: nat)
    requires Stored(h)
    ensures var (after, done) := Apply(h, txs, now);
            && MergeKeeps(h, after, now, other) && |done| == |txs|
            && (forall i :: 0 <= i < |txs| ==> txs[i].id !in after.metas)
  {
    hide ApplyTx, MergeKeeps, Stored;
    if txs != [] {
      var h1 := Apply(h, txs[..|txs| - 1], now).0;
      ApplyKeeps(h, txs[..|txs| - 1], now, other);
      MergeKeepsStored(h, h1, now, other);
      ApplyTxKeeps(h1, txs[|txs| - 1], now, other);
      var h2 := ApplyTx(h1, txs[|txs| - 1], now).0;
      MergeKeepsStored(h1, h2, now, other);
      MergeKeepsThrough(h, h1, h2, now, other);
    } else {
      SameKeeps(h, now, other);
    }
  }

  lemma SameKeeps(h: Hints, now: nat, other: nat)
    requires Stored(h)
    ensures MergeKeeps(h, h, now, other)
  {
  }

  /** The list of `tx` is still there, grown at its end if at all, and not older than `base`. */
  ghost predicate ListKept(h: Hints, after: Hints, tx: nat, base: nat) {
    && Stored(after) && tx in h.clues && tx in after.clues && tx in after.storedAt && base <= after.storedAt[tx]
    && Decode(h.clues[tx]) <= Decode(after.clues[tx])
  }

  /** Within the time to live, an operation keeps the list of `tx`. */
  lemma StepKeepsList(h: Hints, op: Op, now: nat, tx: nat, base: nat)
    requires Stored(h) && Legal(op) && op != RemoveOp(tx)
    requires tx in h.storedAt && base <= h.storedAt[tx] && base <= now <= base + TTL
    ensures ListKept(h, Step(h, op, now), tx, base)
  {
    hide StoreHint, Apply, Decode, GoodList;
    match op
    case StoreOp(other, clue, index) => StoreKeepsList(h, other, clue, index, now, tx, base);
    case StoreMetaOp(other, data, index) =>
    case QueryOp(other) =>
    case MergeOp(txs) => ApplyKeeps(h, txs, now, tx);
    case RemoveOp(other) =>
  }

  lemma StoreKeepsList(h: Hints, other: nat, clue: seq<Byte>, index: Option<U32>, now: nat, tx: nat, base: nat)
    requires Stored(h) && index != Some(U32_MAX) && |clue| <= U32_MAX
    requires tx in h.storedAt && base <= h.storedAt[tx] && base <= now <= base + TTL
    ensures ListKept(h, StoreHint(h, other, clue, index, now), tx, base)
  {
    StoreAppends(h, other, clue, index, now, tx);
    StoreKeepsTime(h, other, clue, index, now, tx, base);
    StoredBoth(h, tx);
    var after := StoreHint(h, other, clue, index, now);
    StoredBoth(after, tx);
    hide Stored, StoreHint, Decode, Encode, Taken;
    assert Listed(h, tx, now) == Decode(h.clues[tx]) && Listed(after, tx, now) == Decode(after.clues[tx]);
  }

  lemma StoreKeepsTime(h: Hints, other: nat, clue: seq<Byte>, index: Option<U32>, now: nat, tx: nat, base: nat)
    requires tx in h.storedAt && base <= h.storedAt[tx] && base <= now <= base + TTL
    ensures tx in StoreHint(h, other, clue, index, now).storedAt
    ensures base <= StoreHint(h, other, clue, index, now).storedAt[tx]
  {
  }

  function Run(h: Hints, ops: seq<(Op, nat)>): Hints
    decreases |ops|
  {
    if ops == [] then h else Run(Step(h, ops[0].0, ops[0].1), ops[1..])
  }

  /** Every operation is legal, comes within the time to live counted from `base`, and is not the
      removal of the hints of `tx`. */
  ghost predicate WithinTtl(ops: seq<(Op, nat)>, tx: nat, base: nat) {
    forall i :: 0 <= i < |ops| ==> Legal(ops[i].0) && ops[i].0 != RemoveOp(tx) && base <= ops[i].1 <= base + TTL
  }

  /** Over any such run, no stored clue is replaced, moved or lost: the list only grows at its end. */
  lemma {:induction false} FirstClueIsNeverReplaced(h: Hints, ops: seq<(Op, nat)>, tx: nat, base: nat)
    requires Stored(h) && WithinTtl(ops, tx, base) && tx in h.storedAt && base <= h.storedAt[tx]
    ensures ListKept(h, Run(h, ops), tx, base)
    decreases |ops|
  {
    hide Stored, Step, Decode, Legal;
    if ops != [] {
      StepKeepsList(h, ops[0].0, ops[0].1, tx, base);
      FirstClueIsNeverReplaced(Step(h, ops[0].0, ops[0].1), ops[1..], tx, base);
    } else {
      StoredBoth(h, tx);
    }
  }

  lemma StoredBoth(h: Hints, tx: nat)
    requires Stored(h) && tx in h.storedAt
    ensures tx in h.clues
  {
  }

  // ---- a block served again regains its clues ----

  lemma AttachMetaKeeps(outputs: seq<Output>, m: Hint)
    ensures |AttachMeta(outputs, m)| == |outputs|
    ensures forall j :: 0 <= j < |outputs| ==>
              AttachMeta(outputs, m)[j] == outputs[j].(meta := AttachMeta(outputs, m)[j].meta)
  {
  }

  lemma ApplyCluesMerges(h: Hints, tx: Tx, now: nat)
    requires Stored(h)
    ensures ApplyClues(h, tx, now).1 == tx.(outputs := Merge(tx.outputs, Listed(h, tx.id, now)))
  {
  }

  lemma ApplyTxMerges(h: Hints, tx: Tx, now: nat, j: nat)
    requires Stored(h) && j < |tx.outputs|
    ensures var done := ApplyTx(h, tx, now).1;
            && |done.outputs| == |tx.outputs| == |Merge(tx.outputs, Listed(h, tx.id, now))|
            && done.outputs[j].clue == Merge(tx.outputs, Listed(h, tx.id, now))[j].clue
  {
    hide Stored, Listed, ApplyClues;
    ApplyCluesMerges(h, tx, now);
    MergeOnlyFills(tx.outputs, Listed(h, tx.id, now));
    var (h1, tx1) := ApplyClues(h, tx, now);
    if tx.id in h1.metas {
      AttachMetaKeeps(tx1.outputs, ParseMeta(h1.metas[tx.id]));
    }
  }

  lemma ListedAfter(h: Hints, txs: seq<Tx>, now: nat, id: nat)
    requires Stored(h)
    ensures var (h1, done) := Apply(h, txs, now);
            Stored(h1) && Listed(h1, id, now) == Listed(h, id, now) && |done| == |txs|
  {
    ApplyKeeps(h, txs, now, id);
    hide Stored, Decode, Apply;
  }

  /** What a merge does to each transaction is fixed by the hints listed for it. */
  lemma {:induction false} ApplyMerges(h: Hints, txs: seq<Tx>, now: nat, i: nat, j: nat)
    requires Stored(h) && i < |txs| && j < |txs[i].outputs|
    ensures var done := Apply(h, txs, now).1;
            && |done| == |txs| && |done[i].outputs| == |txs[i].outputs|
            && |Merge(txs[i].outputs, Listed(h, txs[i].id, now))| == |txs[i].outputs|
            && done[i].outputs[j].clue == Merge(txs[i].outputs, Listed(h, txs[i].id, now))[j].clue
    decreases |txs|
  {
    hide MergeKeeps, Stored, ApplyTx, Listed, Merge;
    var n := |txs| - 1;
    var h1 := Apply(h, txs[..n], now).0;
    ListedAfter(h, txs[..n], now, txs[i].id);
    if i < n {
      ApplyMerges(h, txs[..n], now, i, j);
    } else {
      ApplyTxMerges(h1, txs[n], now, j);
    }
  }

  /** A block that is rewound, served again and merged again regains, on the same outputs, every
      clue it had, even if hints for it were added meanwhile. */
  lemma ServedAgainRegainsClues(h: Hints, served: seq<Tx>, first: nat, ops: seq<(Op, nat)>, second: nat,
                                base: nat, i: nat, j: nat)
    requires Stored(h) && i < |served| && j < |served[i].outputs|
    requires base <= first <= base + TTL && base <= second <= base + TTL
    requires WithinTtl(ops, served[i].id, base) && (served[i].id in h.storedAt ==> base <= h.storedAt[served[i].id])
    ensures var (h1, before) := Apply(h, served, first);
            var after := Apply(Run(h1, ops), served, second).1;
            && |before| == |after| == |served| && |before[i].outputs| == |after[i].outputs| == |served[i].outputs|
            && (before[i].outputs[j].clue != [] ==> after[i].outputs[j].clue == before[i].outputs[j].clue)
  {
    var id := served[i].id;
    var h1 := Apply(h, served, first).0;
    ApplyMerges(h, served, first, i, j);
    ApplyKeeps(h, served, first, id);
    StoredRuns(h1, ops);
    var h2 := Run(h1, ops);
    ApplyMerges(h2, served, second, i, j);
    var before, after := Listed(h, id, first), Listed(h2, id, second);
    if id in h.storedAt {
      StoredBoth(h, id);
      FirstClueIsNeverReplaced(h1, ops, id, base);
      assert Listed(h1, id, first) == before;
    } else {
      assert before == [];
    }
    hide Apply, MergeKeeps, Stored, Decode, WithinTtl, Run, Legal;
    assert before <= after;
    if Merge(served[i].outputs, before)[j].clue != [] {
      MoreHintsKeepClues(served[i].outputs, before, after, j);
    }
  }

  lemma {:induction false} StoredRuns(h: Hints, ops: seq<(Op, nat)>)
    requires Stored(h) && forall i :: 0 <= i < |ops| ==> Legal(ops[i].0)
    ensures Stored(Run(h, ops))
    decreases |ops|
  {
    hide Stored, Decode, Legal;
    if ops != [] {
      StepStored(h, ops[0].0, ops[0].1);
      StoredRuns(Step(h, ops[0].0, ops[0].1), ops[1..]);
    }
  }

  lemma StepStored(h: Hints, op: Op, now: nat)
    requires Stored(h) && Legal(op)
    ensures Stored(Step(h, op, now))
  {
    match op
    case StoreOp(tx, clue, index) => StoreAppends(h, tx, clue, index, now, tx);
    case StoreMetaOp(tx, data, index) =>
    case QueryOp(tx) => CleanIsInvisible(h, tx, tx, now);
    case MergeOp(txs) => ApplyKeeps(h, txs, now, 0);
    case RemoveOp(tx) =>
  }

  // ---- what a merge leaves alone ----

  /** A merge touches neither the bare content nor the coins, so it keeps the hash genuine. */
  lemma MergeKeepsBareContent(h: Hints, txs: seq<Tx>, now: nat)
    requires Stored(h)
    ensures Bare(Apply(h, txs, now).1) == Bare(txs) && TxCoins(Apply(h, txs, now).1) == TxCoins(txs)
  {
    hide Apply, Stored;
    MergeKeepsBare(h, txs, now);
    BareKeepsCoins(txs);
    BareKeepsCoins(Apply(h, txs, now).1);
  }

  lemma {:induction false} MergeKeepsBare(h: Hints, txs: seq<Tx>, now: nat)
    requires Stored(h)
    ensures Bare(Apply(h, txs, now).1) == Bare(txs)
    decreases |txs|
  {
    if txs != [] {
      var n := |txs| - 1;
      var (h1, done) := Apply(h, txs[..n], now);
      hide ApplyTx, MergeKeeps, Bare, BareOutputs, Stored;
      MergeKeepsBare(h, txs[..n], now);
      var last := ApplyTx(h1, txs[n], now).1;
      ApplyTxKeepsBare(h1, txs[n], now);
      assert Apply(h, txs, now).1 == done + [last];
      hide Apply;
      BareSnoc(done, last);
      BareSnoc(txs[..n], txs[n]);
      assert txs[..n] + [txs[n]] == txs;
    }
  }

  lemma BareSnoc(txs: seq<Tx>, last: Tx)
    ensures Bare(txs + [last]) == Bare(txs) + [last.(outputs := BareOutputs(last.outputs))]
  {
  }

  lemma ApplyTxKeepsBare(h: Hints, tx: Tx, now: nat)
    ensures var done := ApplyTx(h, tx, now).1;
            done.(outputs := BareOutputs(done.outputs)) == tx.(outputs := BareOutputs(tx.outputs))
  {
    if tx.id in h.clues {
      MergeOnlyFills(tx.outputs, Decode(h.clues[tx.id]));
    }
    hide Decode, Merge;
    var (h1, tx1) := ApplyClues(h, tx, now);
    assert BareOutputs(tx1.outputs) == BareOutputs(tx.outputs);
    if tx.id in h1.metas {
      AttachMetaKeeps(tx1.outputs, ParseMeta(h1.metas[tx.id]));
    }
  }

  /** Metadata is used up by the merge: a block served again shows only the metadata it is served
      with, unless more was stored for it. */
  lemma {:induction false} MetadataIsNotRegained(h: Hints, served: seq<Tx>, now: nat, i: nat, j: nat)
    requires Stored(h) && i < |served| && j < |served[i].outputs|
    requires forall k :: 0 <= k < |served| ==> served[k].id !in h.metas
    ensures var done := Apply(h, served, now).1;
            && |done| == |served| && |done[i].outputs| == |served[i].outputs|
            && done[i].outputs[j].meta == served[i].outputs[j].meta
    decreases |served|
  {
    var n := |served| - 1;
    var h1 := Apply(h, served[..n], now).0;
    ApplyKeeps(h, served[..n], now, 0);
    assert h1.metas.Keys <= h.metas.Keys && served[n].id !in h1.metas;
    hide MergeKeeps, Stored, ApplyTx;
    if i < n {
      MetadataIsNotRegained(h, served[..n], now, i, j);
    } else {
      NoMetaNoChange(h1, served[n], now, j);
    }
  }

  lemma NoMetaNoChange(h: Hints, tx: Tx, now: nat, j: nat)
    requires tx.id !in h.metas && j < |tx.outputs|
    ensures var done := ApplyTx(h, tx, now).1;
            |done.outputs| == |tx.outputs| && done.outputs[j].meta == tx.outputs[j].meta
  {
    if tx.id in h.clues {
      MergeOnlyFills(tx.outputs, Decode(h.clues[tx.id]));
    }
    hide Decode, Merge;
  }

  lemma StoredMetaParses(index: U32, data: seq<Byte>)
    requires index != U32_MAX
    ensures ParseMeta(Le32(index) + data) == Hint(Some(index), data)
  {
    Le32RoundTrip(index, data);
    hide FromLe32, Le32;
    assert (Le32(index) + data)[4..] == data;
  }
}
