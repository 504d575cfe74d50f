/** Where the stored clues and metadata of a transaction end up. */
module ClueHintPlaces {
  import opened Chain
  import opened ClueHints
  import opened HintCodec
  import opened HintedCache
  import opened Words
  import HintRuns = ClueHintRuns

  // ---- one hint ----

  /** Output `j` is free and is the one that `index` asks for: the named one, or the first free one. */
  ghost predicate Wanted(outputs: seq<Output>, index: Option<U32>, j: nat) {
    && j < |outputs| && outputs[j].clue == []
    && (index == Some(j) || (index == None && forall i :: 0 <= i < j ==> outputs[i].clue != []))
  }

  /** A clue that is on no output yet ends on the output its index asks for and on no other; one that is
      there already changes nothing. */
  lemma AttachPlaces(outputs: seq<Output>, h: Hint, j: nat)
    requires j < |outputs|
    ensures |Attach(outputs, h)| == |outputs|
    ensures h.clue != [] && !Attached(outputs, h.clue) && Wanted(outputs, h.index, j)
            ==> Attach(outputs, h)[j] == outputs[j].(clue := h.clue)
    ensures h.clue == [] || Attached(outputs, h.clue) || !Wanted(outputs, h.index, j)
            ==> Attach(outputs, h)[j] == outputs[j]
  {
  }

  // ---- a whole list ----

  /** No clue is empty, on an output already, or in the list twice. */
  ghost predicate FreshClues(outputs: seq<Output>, hints: seq<Hint>) {
    && (forall m :: 0 <= m < |hints| ==> hints[m].clue != [] && !Attached(outputs, hints[m].clue))
    && forall m, n :: 0 <= m < n < |hints| ==> hints[m].clue != hints[n].clue
  }

  /** No output is named twice, and one hint at most names none. */
  ghost predicate OneEach(hints: seq<Hint>) {
    forall m, n :: 0 <= m < n < |hints| ==> hints[m].index != hints[n].index
  }

  /** The output has a clue of its own, or one of the first `n` hints names it. */
  ghost predicate Claimed(outputs: seq<Output>, hints: seq<Hint>, n: nat, j: nat)
    requires n <= |hints| && j < |outputs|
  {
    outputs[j].clue != [] || exists m: nat :: m < n && hints[m].index == Some(j)
  }

  /** Hint `n` names no output, and `j` is the first one not claimed by then. */
  ghost predicate OpenLands(outputs: seq<Output>, hints: seq<Hint>, n: nat, j: nat)
    requires n < |hints|
  {
    && j < |outputs| && hints[n].index == None && !Claimed(outputs, hints, n, j)
    && forall i: nat :: i < j ==> Claimed(outputs, hints, n, i)
  }

  /** Hint `m` ends on output `j`: the output is the first free one or the named one, and in that case
      no earlier hint without an index got it. */
  ghost predicate Lands(outputs: seq<Output>, hints: seq<Hint>, m: nat, j: nat)
    requires m < |hints|
  {
    || OpenLands(outputs, hints, m, j)
    || (j < |outputs| && outputs[j].clue == [] && hints[m].index == Some(j)
        && !exists n: nat :: n < m && OpenLands(outputs, hints, n, j))
  }

  /** After `k` hints: each clue is where it lands, and every other output is as before. */
  ghost predicate PlacedSoFar(outputs: seq<Output>, hints: seq<Hint>, k: nat, merged: seq<Output>)
    requires k <= |hints|
  {
    && |merged| == |outputs|
    && (forall m: nat, j: nat :: m < k && Lands(outputs, hints, m, j) ==> merged[j].clue == hints[m].clue)
    && forall j: nat :: j < |outputs| && (forall m: nat :: m < k ==> !Lands(outputs, hints, m, j)) ==>
      merged[j].clue == outputs[j].clue
  }

  /** Before hint `k` without an index, exactly the claimed outputs carry a clue. */
  lemma TakenIsClaimed(outputs: seq<Output>, hints: seq<Hint>, k: nat, merged: seq<Output>, j: nat)
    requires FreshClues(outputs, hints) && OneEach(hints) && k < |hints| && hints[k].index == None
    requires PlacedSoFar(outputs, hints, k, merged) && j < |outputs|
    ensures merged[j].clue != [] <==> Claimed(outputs, hints, k, j)
  {
    if m: nat :| m < k && hints[m].index == Some(j) && outputs[j].clue == [] {
      assert forall n: nat :: n < m ==> !OpenLands(outputs, hints, n, j);
      assert Lands(outputs, hints, m, j);
    }
  }

  /** A hint that names an output finds it free exactly when it lands there. */
  lemma NamedIsFree(outputs: seq<Output>, hints: seq<Hint>, k: nat, merged: seq<Output>, j: nat)
    requires FreshClues(outputs, hints) && OneEach(hints) && k < |hints| && hints[k].index == Some(j)
    requires PlacedSoFar(outputs, hints, k, merged) && j < |outputs|
    ensures merged[j].clue == [] <==> Lands(outputs, hints, k, j)
  {
    if n: nat :| n < k && OpenLands(outputs, hints, n, j) {
      assert Lands(outputs, hints, n, j);
    }
  }

  lemma OpenIsFirst(outputs: seq<Output>, hints: seq<Hint>, k: nat, merged: seq<Output>, j: nat)
    requires FreshClues(outputs, hints) && OneEach(hints) && k < |hints| && hints[k].index == None
    requires PlacedSoFar(outputs, hints, k, merged) && j < |outputs|
    ensures Wanted(merged, None, j) <==> OpenLands(outputs, hints, k, j)
  {
    hide Claimed, PlacedSoFar, FreshClues, OneEach;
    assert |merged| == |outputs| by { SameLength(outputs, hints, k, merged); }
    forall i: nat | i <= j ensures merged[i].clue != [] <==> Claimed(outputs, hints, k, i) {
      TakenIsClaimed(outputs, hints, k, merged, i);
    }
  }

  lemma SameLength(outputs: seq<Output>, hints: seq<Hint>, k: nat, merged: seq<Output>)
    requires k <= |hints| && PlacedSoFar(outputs, hints, k, merged)
    ensures |merged| == |outputs|
  {
  }

  /** Hint `k` wants an output exactly when it lands there. */
  lemma WantedIsLanding(outputs: seq<Output>, hints: seq<Hint>, k: nat, merged: seq<Output>, j: nat)
    requires FreshClues(outputs, hints) && OneEach(hints) && k < |hints|
    requires PlacedSoFar(outputs, hints, k, merged) && j < |outputs|
    ensures |merged| == |outputs| && (Wanted(merged, hints[k].index, j) <==> Lands(outputs, hints, k, j))
  {
    SameLength(outputs, hints, k, merged);
    if hints[k].index == None {
      OpenIsFirst(outputs, hints, k, merged, j);
    } else if hints[k].index == Some(j) {
      NamedIsFree(outputs, hints, k, merged, j);
    }
  }

  /** Clues placed so far are those of earlier hints, so the next one is not attached yet. */
  lemma NextIsNew(outputs: seq<Output>, hints: seq<Hint>, k: nat, merged: seq<Output>)
    requires FreshClues(outputs, hints) && k < |hints| && PlacedSoFar(outputs, hints, k, merged)
    ensures !Attached(merged, hints[k].clue)
  {
    hide Lands;
    forall j: nat | j < |merged| ensures merged[j].clue != hints[k].clue {
      if m: nat :| m < k && Lands(outputs, hints, m, j) {
        assert merged[j].clue == hints[m].clue;
      }
    }
  }

  lemma PlaceNext(outputs: seq<Output>, hints: seq<Hint>, k: nat, merged: seq<Output>)
    requires FreshClues(outputs, hints) && OneEach(hints) && k < |hints| && PlacedSoFar(outputs, hints, k, merged)
    ensures PlacedSoFar(outputs, hints, k + 1, Attach(merged, hints[k]))
  {
    var after := Attach(merged, hints[k]);
    NextIsNew(outputs, hints, k, merged);
    SameLength(outputs, hints, k, merged);
    assert |after| == |outputs| && hints[k].clue != [];
    forall j: nat | j < |outputs|
      ensures after[j] == if Lands(outputs, hints, k, j) then merged[j].(clue := hints[k].clue) else merged[j]
      ensures Lands(outputs, hints, k, j) ==> merged[j].clue == []
    {
      WantedIsLanding(outputs, hints, k, merged, j);
      AttachPlaces(merged, hints[k], j);
    }
    hide Attach, FreshClues, OneEach, Attached, Lands;
    LandingGrows(outputs, hints, k, merged, after);
  }

  lemma LandingGrows(outputs: seq<Output>, hints: seq<Hint>, k: nat, merged: seq<Output>, after: seq<Output>)
    requires k < |hints| && PlacedSoFar(outputs, hints, k, merged) && |after| == |outputs| == |merged|
    requires forall m: nat :: m < |hints| ==> hints[m].clue != []
    requires forall j: nat :: j < |outputs| ==>
      && after[j] == (if Lands(outputs, hints, k, j) then merged[j].(clue := hints[k].clue) else merged[j])
      && (Lands(outputs, hints, k, j) ==> merged[j].clue == [])
    ensures PlacedSoFar(outputs, hints, k + 1, after)
  {
    forall m: nat, j: nat | m < k + 1 && Lands(outputs, hints, m, j) ensures after[j].clue == hints[m].clue {
      assert j < |outputs|;
      hide Lands;
      if m < k {
        assert merged[j].clue == hints[m].clue;
      }
    }
    hide Lands;
    forall j: nat | j < |outputs| && (forall m: nat :: m < k + 1 ==> !Lands(outputs, hints, m, j))
      ensures after[j].clue == outputs[j].clue
    {
      assert !Lands(outputs, hints, k, j);
    }
  }

  lemma {:induction false} MergeSoFar(outputs: seq<Output>, hints: seq<Hint>, k: nat)
    requires FreshClues(outputs, hints) && OneEach(hints) && k <= |hints|
    ensures PlacedSoFar(outputs, hints, k, Merge(outputs, hints[..k]))
  {
    hide FreshClues, OneEach, PlacedSoFar, Attach;
    if k == 0 {
      NothingPlaced(outputs, hints);
    } else {
      MergeSoFar(outputs, hints, k - 1);
      PlaceNext(outputs, hints, k - 1, Merge(outputs, hints[..k - 1]));
      assert hints[..k] == hints[..k - 1] + [hints[k - 1]];
      MergeInTwo(outputs, hints[..k - 1], [hints[k - 1]]);
    }
  }

  lemma NothingPlaced(outputs: seq<Output>, hints: seq<Hint>)
    ensures PlacedSoFar(outputs, hints, 0, outputs)
  {
  }

  /** Of a list with distinct indices and distinct new clues, a clue is on an output exactly when it lands
      there, and an output is without a clue exactly when it had none and nothing lands on it. */
  lemma MergePlaces(outputs: seq<Output>, hints: seq<Hint>, m: nat, j: nat)
    requires FreshClues(outputs, hints) && OneEach(hints) && m < |hints| && j < |outputs|
    ensures |Merge(outputs, hints)| == |outputs|
    ensures Merge(outputs, hints)[j].clue == hints[m].clue <==> Lands(outputs, hints, m, j)
    ensures Merge(outputs, hints)[j].clue == []
            <==> outputs[j].clue == [] && forall n: nat :: n < |hints| ==> !Lands(outputs, hints, n, j)
  {
    MergeSoFar(outputs, hints, |hints|);
    assert hints[..|hints|] == hints;
    hide Lands, Merge;
    if n: nat :| n < |hints| && Lands(outputs, hints, n, j) {
      assert Merge(outputs, hints)[j].clue == hints[n].clue;
      assert n < m || m < n ==> hints[n].clue != hints[m].clue;
    } else {
      assert Merge(outputs, hints)[j].clue == outputs[j].clue;
    }
  }

  /** When every hint names its output, each clue is exactly there if the output exists and is free. */
  lemma NamedCluesLand(outputs: seq<Output>, hints: seq<Hint>, m: nat, j: nat)
    requires FreshClues(outputs, hints) && OneEach(hints) && m < |hints| && j < |outputs|
    requires forall n :: 0 <= n < |hints| ==> hints[n].index.Some?
    ensures |Merge(outputs, hints)| == |outputs|
    ensures Merge(outputs, hints)[j].clue == hints[m].clue <==> hints[m].index == Some(j) && outputs[j].clue == []
  {
    MergePlaces(outputs, hints, m, j);
  }

  // ---- the fetched block ----

  /** A block fetched within the time to live: clue `m` of the stored list of a transaction is on output
      `j` of it exactly when it lands there. */
  lemma FetchedCluesLand(h: Hints, b: Block, base: nat, now: nat, i: nat, j: nat, m: nat)
    requires Young(h, base) && base <= now <= base + TTL && ServedBare(b)
    requires i < |b.txs| && j < |b.txs[i].outputs| && m < |ListOf(h, b.txs[i].id)|
    requires FreshClues(b.txs[i].outputs, ListOf(h, b.txs[i].id))
    ensures var list, txs := ListOf(h, b.txs[i].id), Merged(h, b, now).1.txs;
            && OneEach(list) && |txs| == |b.txs| && |txs[i].outputs| == |b.txs[i].outputs|
            && (txs[i].outputs[j].clue == list[m].clue <==> Lands(b.txs[i].outputs, list, m, j))
            && (txs[i].outputs[j].clue == [] <==> forall n: nat :: n < |list| ==> !Lands(b.txs[i].outputs, list, n, j))
  {
    var list := ListOf(h, b.txs[i].id);
    ListIsOneEach(h, b.txs[i].id);
    BareOutput(b, i, j);
    HintRuns.ApplyMerges(h, b.txs, now, i, j);
    YoungIsListed(h, base, now, b.txs[i].id);
    hide Apply, Merge, Lands, Young, ListOf, Listed;
    MergePlaces(b.txs[i].outputs, list, m, j);
  }

  lemma BareOutput(b: Block, i: nat, j: nat)
    requires ServedBare(b) && i < |b.txs| && j < |b.txs[i].outputs|
    ensures b.txs[i].outputs[j].clue == []
  {
    assert Bare(b.txs)[i] == b.txs[i];
    assert BareOutputs(b.txs[i].outputs)[j] == b.txs[i].outputs[j];
  }

  lemma ListIsOneEach(h: Hints, tx: nat)
    requires HintRuns.Stored(h)
    ensures OneEach(ListOf(h, tx))
  {
    hide Decode;
  }

  // ---- metadata ----

  /** Metadata goes on the output that its index asks for, if that has none. */
  lemma MetaPlaces(outputs: seq<Output>, m: Hint, j: nat)
    requires j < |outputs|
    ensures |AttachMeta(outputs, m)| == |outputs|
    ensures AttachMeta(outputs, m)[j]
            == if && m.clue != [] && outputs[j].meta == []
                  && (m.index == Some(j) || (m.index == None && forall i :: 0 <= i < j ==> outputs[i].meta != []))
               then outputs[j].(meta := m.clue) else outputs[j]
  {
    FirstMetaIs(outputs);
  }

  lemma {:induction false} FirstMetaIs(outputs: seq<Output>)
    ensures FirstWithoutMeta(outputs) <= |outputs|
    ensures forall i :: 0 <= i < FirstWithoutMeta(outputs) ==> outputs[i].meta != []
    ensures FirstWithoutMeta(outputs) < |outputs| ==> outputs[FirstWithoutMeta(outputs)].meta == []
  {
    if outputs != [] && outputs[0].meta != [] {
      FirstMetaIs(outputs[1..]);
    }
  }

  /** What one transaction ends with does not depend on its clues. */
  lemma MetaIgnoresClues(a: seq<Output>, b: seq<Output>, m: Hint, j: nat)
    requires OnlyFills(a, b) && j < |a|
    ensures |AttachMeta(a, m)| == |AttachMeta(b, m)| == |a| && AttachMeta(a, m)[j].meta == AttachMeta(b, m)[j].meta
  {
    hide AttachMeta;
    MetaPlaces(a, m, j);
    MetaPlaces(b, m, j);
  }

  lemma MetaOfTx(h: Hints, tx: Tx, now: nat, j: nat)
    requires j < |tx.outputs|
    ensures var done := ApplyTx(h, tx, now).1;
            && |done.outputs| == |tx.outputs|
            && (tx.id !in h.metas ==> done.outputs[j].meta == tx.outputs[j].meta)
            && (tx.id in h.metas ==>
                  && |AttachMeta(tx.outputs, ParseMeta(h.metas[tx.id]))| == |tx.outputs|
                  && done.outputs[j].meta == AttachMeta(tx.outputs, ParseMeta(h.metas[tx.id]))[j].meta)
  {
    var (h1, tx1) := ApplyClues(h, tx, now);
    CluesOnlyFill(h, tx, now);
    hide ApplyClues, AttachMeta, ParseMeta;
    if tx.id in h.metas {
      MetaIgnoresClues(tx.outputs, tx1.outputs, ParseMeta(h.metas[tx.id]), j);
    }
  }

  lemma CluesOnlyFill(h: Hints, tx: Tx, now: nat)
    ensures var (after, done) := ApplyClues(h, tx, now);
            OnlyFills(tx.outputs, done.outputs) && after.metas == h.metas && done.id == tx.id
  {
    if tx.id in h.clues {
      MergeOnlyFills(tx.outputs, Decode(h.clues[tx.id]));
    }
    hide Decode, Merge;
  }

  /** A merge uses up the metadata of the transactions it meets and keeps all other. */
  lemma {:induction false} MetasLeft(h: Hints, txs: seq<Tx>, now: nat, id: nat)
    ensures var (after, done) := Apply(h, txs, now);
            && |done| == |txs|
            && (id in after.metas <==> id in h.metas && forall k :: 0 <= k < |txs| ==> txs[k].id != id)
            && (id in after.metas ==> after.metas[id] == h.metas[id])
    decreases |txs|
  {
    if txs != [] {
      var n := |txs| - 1;
      var h1 := Apply(h, txs[..n], now).0;
      MetasLeft(h, txs[..n], now, id);
      CluesOnlyFill(h1, txs[n], now);
      hide ApplyClues, AttachMeta, ParseMeta, Apply;
      assert Apply(h, txs, now).0 == ApplyTx(h1, txs[n], now).0 by { ApplyLast(h, txs, now); }
      ApplyLast(h, txs, now);
    }
  }

  lemma ApplyLast(h: Hints, txs: seq<Tx>, now: nat)
    requires txs != []
    ensures var n := |txs| - 1;
            var (h1, before) := Apply(h, txs[..n], now);
            var (h2, last) := ApplyTx(h1, txs[n], now);
            Apply(h, txs, now) == (h2, before + [last])
  {
  }

  /** After a merge into `txs`: transaction `i` shows on output `j` the metadata stored for it if it is the
      first of its id, and else what it was served with. */
  ghost predicate MetaMerged(h: Hints, txs: seq<Tx>, i: nat, j: nat, done: seq<Tx>)
    requires i < |txs| && j < |txs[i].outputs|
  {
    var tx := txs[i];
    && |done| == |txs| && |done[i].outputs| == |tx.outputs|
    && if tx.id in h.metas && forall k :: 0 <= k < i ==> txs[k].id != tx.id
       then |AttachMeta(tx.outputs, ParseMeta(h.metas[tx.id]))| == |tx.outputs|
            && done[i].outputs[j].meta == AttachMeta(tx.outputs, ParseMeta(h.metas[tx.id]))[j].meta
       else done[i].outputs[j].meta == tx.outputs[j].meta
  }

  lemma MetaMergedEarlier(h: Hints, txs: seq<Tx>, i: nat, j: nat, done: seq<Tx>, last: Tx)
    requires i < |txs| - 1 && j < |txs[i].outputs| && MetaMerged(h, txs[..|txs| - 1], i, j, done)
    ensures MetaMerged(h, txs, i, j, done + [last])
  {
    hide AttachMeta, ParseMeta;
    assert txs[..|txs| - 1][i] == txs[i] && (done + [last])[i] == done[i];
    assert forall k :: 0 <= k < i ==> txs[..|txs| - 1][k] == txs[k];
  }

  lemma MetaMergedLast(h: Hints, txs: seq<Tx>, now: nat, j: nat)
    requires txs != [] && j < |txs[|txs| - 1].outputs|
    ensures MetaMerged(h, txs, |txs| - 1, j, Apply(h, txs, now).1)
  {
    var n := |txs| - 1;
    var (h1, before) := Apply(h, txs[..n], now);
    var last := ApplyTx(h1, txs[n], now).1;
    MetasLeft(h, txs[..n], now, txs[n].id);
    ApplyLast(h, txs, now);
    MetaOfTx(h1, txs[n], now, j);
    hide ApplyTx, AttachMeta, ParseMeta, Apply;
    assert forall k :: 0 <= k < n ==> txs[..n][k] == txs[k];
    assert (before + [last])[n] == last;
  }

  /** Stored metadata is merged into the first transaction of that id, on the output it asks for; every
      other output keeps the metadata it was served with. */
  lemma {:induction false} MetaIsMerged(h: Hints, txs: seq<Tx>, now: nat, i: nat, j: nat)
    requires i < |txs| && j < |txs[i].outputs|
    ensures MetaMerged(h, txs, i, j, Apply(h, txs, now).1)
    decreases |txs|
  {
    hide MetaMerged, ApplyTx, Apply;
    var n := |txs| - 1;
    if i < n {
      MetaIsMerged(h, txs[..n], now, i, j);
      ApplyLast(h, txs, now);
      MetaMergedEarlier(h, txs, i, j, Apply(h, txs[..n], now).1, ApplyTx(Apply(h, txs[..n], now).0, txs[n], now).1);
    } else {
      MetaMergedLast(h, txs, now, j);
    }
  }

  // ---- how long a clue lasts ----

  /** A clue stored at `stored`, for an index not taken then, is listed up to its time to live and not after. */
  lemma ClueLastsExactlyTtl(h: Hints, tx: nat, clue: seq<Byte>, index: Option<U32>, stored: nat, now: nat)
    requires HintRuns.Stored(h) && index != Some(U32_MAX) && 0 < |clue| <= U32_MAX
    requires !Taken(Listed(h, tx, stored), index) && stored <= now
    ensures var after := StoreHint(h, tx, clue, index, stored);
            && (Hint(index, clue) in Listed(after, tx, now) <==> now <= stored + TTL)
            && (Listed(after, tx, now) == [] <==> now > stored + TTL)
  {
    hide Decode, Encode, HintRuns.GoodList, Taken, Clean;
    HintRuns.StoreAppends(h, tx, clue, index, stored, tx);
    HintRuns.CleanIsInvisible(h, tx, tx, stored);
    var list := Listed(h, tx, stored) + [Hint(index, clue)];
    assert list[|list| - 1] == Hint(index, clue);
  }

  /** A sweep that is due forgets exactly what has expired; one that is not changes nothing. */
  lemma SweepForgetsExpired(h: Hints, now: nat, tx: nat)
    requires HintRuns.Stored(h)
    ensures var after, due := PruneExpired(h, now), h.lastSweep == 0 || now >= h.lastSweep + 60;
            && (tx in after.clues <==> tx in h.clues && !(due && now > h.storedAt[tx] + 86_400))
            && (tx in after.clues ==> tx in after.storedAt && after.storedAt[tx] == h.storedAt[tx]
                                      && after.clues[tx] == h.clues[tx])
            && after.lastSweep == (if due then now else h.lastSweep) && after.metas == h.metas
  {
    hide Decode;
  }

  /** Metadata up to the cap is stored and reads back with its index, unless that is the reserved one; empty or
      longer metadata changes nothing. */
  lemma MetaStoredExactlyWhen(h: Hints, tx: nat, data: seq<Byte>, index: Option<U32>)
    ensures var after := StoreMeta(h, tx, data, index);
            if 0 < |data| <= MAX_META then
              && after == h.(metas := after.metas) && after.metas == h.metas[tx := after.metas[tx]]
              && (ParseMeta(after.metas[tx]) == Hint(index, data) <==> index != Some(U32_MAX))
            else after == h
  {
    if 0 < |data| <= MAX_META {
      var wire: U32 := if index.Some? then index.value else U32_MAX;
      Le32RoundTrip(wire, data);
      hide FromLe32, Le32;
      assert (Le32(wire) + data)[4..] == data;
    }
  }
}
