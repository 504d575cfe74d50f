/** The window cache of private retrieval: whole blocks with every clue cleared. */
module PirWindow {
  import opened Chain
  import opened CacheStore
  import opened ClueHintPlaces
  import opened ClueHints
  import opened HintCodec
  import opened HintedCache
  import opened PollerSafety
  import opened Refetch
  import opened WindowCache
  import opened Words
  import HintRuns = ClueHintRuns

  function StripOutputs(outputs: seq<Output>): seq<Output> {
    seq(|outputs|, i requires 0 <= i < |outputs| => outputs[i].(clue := []))
  }

  function StripClues(b: Block): Block {
    b.(txs := seq(|b.txs|, i requires 0 <= i < |b.txs| => b.txs[i].(outputs := StripOutputs(b.txs[i].outputs))))
  }

  /** Of a block that goes into a window only the clues are cleared. */
  lemma StripsCluesOnly(b: Block, i: nat, j: nat)
    requires i < |b.txs| && j < |b.txs[i].outputs|
    ensures var s := StripClues(b);
            && s == b.(txs := s.txs) && |s.txs| == |b.txs|
            && s.txs[i] == b.txs[i].(outputs := s.txs[i].outputs) && |s.txs[i].outputs| == |b.txs[i].outputs|
            && s.txs[i].outputs[j] == b.txs[i].outputs[j].(clue := [])
    ensures SameBareBlock(StripClues(b), b) && SameMeta(StripClues(b), b)
    ensures Coins(StripClues(b)) == Coins(b)
  {
    var s := StripClues(b);
    assert Bare(s.txs) == Bare(b.txs) by {
      forall k | 0 <= k < |b.txs| ensures Bare(s.txs)[k] == Bare(b.txs)[k] {
        assert BareOutputs(s.txs[k].outputs) == BareOutputs(b.txs[k].outputs);
      }
    }
    BareKeepsCoins(s.txs);
    BareKeepsCoins(b.txs);
  }

  /** Same metadata on every output. */
  ghost predicate SameMeta(a: Block, b: Block) {
    && |a.txs| == |b.txs|
    && forall i, j :: 0 <= i < |a.txs| && 0 <= j < |a.txs[i].outputs| && j < |b.txs[i].outputs|
                      ==> a.txs[i].outputs[j].meta == b.txs[i].outputs[j].meta
  }

  /** A PIR payload sees of a block its bare content and its metadata, never a clue. */
  lemma StrippedIsBareAndMeta(a: Block, b: Block)
    requires SameBareBlock(a, b)
    ensures StripClues(a) == StripClues(b) <==> SameMeta(a, b)
  {
    BareFixesShape(a.txs, b.txs);
    if SameMeta(a, b) {
      forall i | 0 <= i < |a.txs| ensures StripOutputs(a.txs[i].outputs) == StripOutputs(b.txs[i].outputs) {
      }
      assert StripClues(a).txs == StripClues(b).txs;
    } else {
      var i, j :| 0 <= i < |a.txs| && 0 <= j < |a.txs[i].outputs| && j < |b.txs[i].outputs|
                  && a.txs[i].outputs[j].meta != b.txs[i].outputs[j].meta;
      assert StripClues(a).txs[i].outputs[j] != StripClues(b).txs[i].outputs[j];
    }
  }

  /** `encode` is the wire encoding of a block; `fits` is the bound on the encoded window. */
  function PirLoader(encode: Block -> seq<Byte>, fits: seq<seq<Byte>> -> bool): Loader<seq<Byte>> {
    Loader(PirWindows, b => encode(StripClues(b)), [], fits)
  }

  ghost predicate Injective(encode: Block -> seq<Byte>) {
    forall x, y :: encode(x) == encode(y) ==> x == y
  }

  /** Every output of the window has the same metadata. */
  ghost predicate SameMetaIn(a: Index, b: Index, key: Window) {
    forall h: nat :: key.0 <= h <= key.1 ==> h in a.blocks && h in b.blocks && SameMeta(a.blocks[h], b.blocks[h])
  }

  lemma PirViewsAgreeExactlyWhen(encode: Block -> seq<Byte>, fits: seq<seq<Byte>> -> bool, a: Index, b: Index,
                                 key: Window)
    requires Injective(encode) && SameBareWindow(a, b, key)
    ensures SameViews(PirLoader(encode, fits), a.blocks, b.blocks, key) <==> SameMetaIn(a, b, key)
  {
    var l := PirLoader(encode, fits);
    hide SameMeta, StripClues, SameBareBlock;
    forall h: nat | key.0 <= h <= key.1
      ensures l.view(a.blocks[h]) == l.view(b.blocks[h]) <==> SameMeta(a.blocks[h], b.blocks[h])
    {
      StrippedIsBareAndMeta(a.blocks[h], b.blocks[h]);
    }
  }

  /** A hit comes from one earlier request, and if both requests found the whole window it is what a
      fresh load would give exactly when every output of the window still has the metadata it had then.
      Clues never matter. */
  lemma PirHitIsFreshExactlyWhen(cap: nat, encode: Block -> seq<Byte>, fits: seq<seq<Byte>> -> bool,
                                 loads: seq<Request>, r: Request) returns (m: nat)
    requires cap > 0 && Injective(encode)
    ensures var l := PirLoader(encode, fits);
            var hit := Answer(cap, l, loads, r);
            hit.Some? ==>
              && HitFrom(l, loads, r, hit.value, m)
              && (Whole(PirWindows, loads[m]) && Whole(PirWindows, r) ==>
                    (hit.value == Payloads(l, r.index.blocks, r.key) <==> SameMetaIn(loads[m].index, r.index, r.key)))
  {
    var l := PirLoader(encode, fits);
    m := HitComesFrom(cap, l, loads, r);
    if Answer(cap, l, loads, r).Some? {
      var x := loads[m];
      hide After, Payloads, SameMetaIn, SameViews, SameBareWindow, EndHash, Injective, LinkedWindow;
      if Whole(PirWindows, x) && Whole(PirWindows, r) {
        SamePayloads(l, x.index, r.index, r.key);
        PirViewsAgreeExactlyWhen(encode, fits, x.index, r.index, r.key);
      }
    }
  }

  // ---- a window that goes stale ----

  /** Metadata for the first output of `b`. */
  function MetaOp(b: Block, data: seq<Byte>): HintRuns.Op
    requires b.txs != []
  {
    HintRuns.StoreMetaOp(b.txs[0].id, data, Some(0))
  }

  /** Metadata is used up by the first merge. A block is cached with it, its window is loaded, the block
      is rewound, and the same block is fetched again without it: the window still answers with what
      no fresh load would give. */
  lemma StaleMetadataHit(encode: Block -> seq<Byte>, fits: seq<seq<Byte>> -> bool, b0: Block, b1: Block,
                         data: seq<Byte>, now: nat)
    requires Injective(encode) && TwoServed(b0, b1) && b1.txs != [] && b1.txs[0].outputs != []
    requires 0 < |data| <= MAX_META
    ensures var es := Twice(b0, b1, MetaOp(b1, data), HintRuns.QueryOp(0), now);
            var early, late := HandleAll(NEW_SERVER, es[..3]).store.index, HandleAll(NEW_SERVER, es).store.index;
            var l := PirLoader(encode, fits);
            var x, r := Request(early, early, (0, 1)), Request(late, late, (0, 1));
            && Whole(PirWindows, x) && Whole(PirWindows, r)
            && (Load(l, early, (0, 1)).Some? ==>
                  && Answer(PIR_WINDOWS, l, [x], r) == Some(Payloads(l, early.blocks, (0, 1)))
                  && Answer(PIR_WINDOWS, l, [x], r) != Some(Payloads(l, late.blocks, (0, 1))))
  {
    hide ChainHeld, Payloads, FirstIndex, SecondIndex, HandleAll, Merged, FirstHints, SecondHints, StripClues, Twice,
         Genuine, ServedBare, Injective, EndHash;
    var first, second := MetaOp(b1, data), HintRuns.QueryOp(0);
    TwiceRuns(b0, b1, first, second, now);
    TwiceHeld(b0, b1, first, second, now);
    FirstCopyHasMeta(b0, b1, data, now);
    SecondCopyHasNone(b0, b1, data, now);
    var i, j := FirstIndex(b0, b1, first, now), SecondIndex(b0, b1, first, second, now);
    MetaShows(encode, i.blocks[1], j.blocks[1]);
    TwoHashes(PirWindows, i, j);
    HeldIsLinked(i, (0, 1));
    HeldIsLinked(j, (0, 1));
    hide LinkedWindow;
    if Load(PirLoader(encode, fits), i, (0, 1)).Some? {
      StaleHit(PIR_WINDOWS, PirLoader(encode, fits), i, j, (0, 1), 1);
    }
  }

  lemma MetaShows(encode: Block -> seq<Byte>, x: Block, y: Block)
    requires Injective(encode) && x.txs != [] && x.txs[0].outputs != [] && y.txs != [] && y.txs[0].outputs != []
    requires x.txs[0].outputs[0].meta != y.txs[0].outputs[0].meta
    ensures encode(StripClues(x)) != encode(StripClues(y))
  {
    assert StripClues(x).txs[0].outputs[0].meta == x.txs[0].outputs[0].meta;
    assert StripClues(y).txs[0].outputs[0].meta == y.txs[0].outputs[0].meta;
  }

  lemma FirstCopyHasMeta(b0: Block, b1: Block, data: seq<Byte>, now: nat)
    requires TwoServed(b0, b1) && b1.txs != [] && b1.txs[0].outputs != [] && 0 < |data| <= MAX_META
    ensures var m := Merged(FirstHints(b0, MetaOp(b1, data), now), b1, now).1;
            m.txs != [] && m.txs[0].outputs != [] && m.txs[0].outputs[0].meta == data
  {
    var h := FirstHints(b0, MetaOp(b1, data), now);
    assert Bare(b1.txs)[0] == b1.txs[0];
    assert h.metas[b1.txs[0].id] == Le32(0) + data;
    HintRuns.StoredMetaParses(0, data);
    hide Apply, ParseMeta, FirstHints;
    MetaIsMerged(h, b1.txs, now, 0, 0);
    MetaPlaces(b1.txs[0].outputs, Hint(Some(0), data), 0);
  }

  lemma SecondCopyHasNone(b0: Block, b1: Block, data: seq<Byte>, now: nat)
    requires TwoServed(b0, b1) && b1.txs != [] && b1.txs[0].outputs != [] && 0 < |data| <= MAX_META
    ensures var m := Merged(SecondHints(b0, b1, MetaOp(b1, data), HintRuns.QueryOp(0), now), b1, now).1;
            m.txs != [] && m.txs[0].outputs != [] && m.txs[0].outputs[0].meta == []
  {
    hide Genuine, Merged, FirstHints, ServedBare, FirstIndex, SecondIndex;
    var first, second := MetaOp(b1, data), HintRuns.QueryOp(0);
    TwiceHeld(b0, b1, first, second, now);
    MergeUsesMeta(FirstHints(b0, first, now), b1, now);
    hide SecondHints;
    NoMetaToMerge(SecondHints(b0, b1, first, second, now), b1, now);
  }

  lemma MergeUsesMeta(h: Hints, b: Block, now: nat)
    requires HintRuns.Stored(h)
    ensures forall i :: 0 <= i < |b.txs| ==>
      b.txs[i].id !in HintRuns.Step(Merged(h, b, now).0, HintRuns.QueryOp(0), now).metas
  {
    HintRuns.ApplyKeeps(h, b.txs, now, 0);
    hide Apply, HintRuns.Stored, Listed;
  }

  lemma NoMetaToMerge(h: Hints, b: Block, now: nat)
    requires HintRuns.Stored(h) && ServedBare(b) && b.txs != [] && b.txs[0].outputs != []
    requires forall i :: 0 <= i < |b.txs| ==> b.txs[i].id !in h.metas
    ensures var m := Merged(h, b, now).1; m.txs != [] && m.txs[0].outputs != [] && m.txs[0].outputs[0].meta == []
  {
    assert Bare(b.txs)[0] == b.txs[0];
    hide Apply, Bare, HintRuns.Stored;
    HintRuns.MetadataIsNotRegained(h, b.txs, now, 0, 0);
  }
}
