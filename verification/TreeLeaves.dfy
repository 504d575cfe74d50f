/** Which leaf of the Money tree is which coin. */
module TreeLeaves {
  import opened Chain
  import opened Replay
  import opened CacheNullifiers
  import opened CacheRetention
  import opened CacheStore
  import opened PollerSafety

  /** A block right above the tree adds its coins as the next leaves: output `j` of transaction `i` after
      every earlier output of the block. */
  lemma InsertedLeaf(s: Store, b: Block, i: nat, j: nat)
    requires !IsHistorical(s, b.height) && !AppendNeedsRebuild(s, b.height)
    requires i < |b.txs| && j < |b.txs[i].outputs|
    ensures var before, after := s.live.tree, Insert(s, b).live.tree;
            && |after| == |before| + OutputsBefore(b.txs, |b.txs|) && after[..|before|] == before
            && OutputsBefore(b.txs, i) + j < OutputsBefore(b.txs, |b.txs|)
            && after[|before| + OutputsBefore(b.txs, i) + j] == b.txs[i].outputs[j].coin
  {
    CoinAt(b.txs, i, j);
    assert Insert(s, b).live.tree == s.live.tree + Coins(b);
    hide Insert, TxCoins;
  }

  /** The coin row of a block that has coins, whichever way it is inserted. */
  lemma InsertedRow(s: Store, b: Block, i: nat, j: nat)
    requires i < |b.txs| && j < |b.txs[i].outputs|
    ensures var row := Insert(s, b).coins;
            && b.height in row && |row[b.height]| == OutputsBefore(b.txs, |b.txs|)
            && OutputsBefore(b.txs, i) + j < |row[b.height]|
            && row[b.height][OutputsBefore(b.txs, i) + j] == b.txs[i].outputs[j].coin
  {
    CoinAt(b.txs, i, j);
    hide TxCoins;
    InsertCoins(s, b);
    hide Insert;
  }

  lemma InsertCoins(s: Store, b: Block)
    ensures Insert(s, b).coins == if Coins(b) == [] then s.coins else s.coins[b.height := Coins(b)]
  {
    hide Coins, Rebuild;
    if IsHistorical(s, b.height) {
      RebuildShape(HistoryCut(s, b), s.index.tip.value.0);
    } else if b.height == 0 {
      RebuildShape(TipRows(s, b), 0);
    } else {
      RebuildShape(TipRows(s, b), b.height - 1);
    }
  }

  /** The nullifier row of a cached block, nullifier by nullifier. */
  lemma NullifierRow(s: Store, h: nat, i: nat, j: nat)
    requires NullifiersHeld(s) && h in s.index.blocks
    requires i < |s.index.blocks[h].txs| && j < |s.index.blocks[h].txs[i].nullifiers|
    ensures var txs := s.index.blocks[h].txs;
            && h in s.nullifiers && |s.nullifiers[h]| == NullifiersBefore(txs, |txs|)
            && NullifiersBefore(txs, i) + j < |s.nullifiers[h]|
            && s.nullifiers[h][NullifiersBefore(txs, i) + j] == txs[i].nullifiers[j]
  {
    NullifierAt(s.index.blocks[h].txs, i, j);
    hide TxNullifiers;
  }

  /** The sentinel and the outputs of every cached block below `h`. */
  function LeavesBelow(i: Index, h: nat): (n: nat)
    ensures n > 0
  {
    if h == 0 then 1
    else LeavesBelow(i, h - 1) + if h - 1 in i.blocks then BlockOutputs(i.blocks[h - 1]) else 0
  }

  function BlockOutputs(b: Block): nat {
    OutputsBefore(b.txs, |b.txs|)
  }

  /** After the sentinel come the outputs of the cached blocks up to `top`, in order of height, each block's
      in transaction and then output order, and nothing else. */
  ghost predicate LeafOrder(tree: Tree, i: Index, top: int)
    requires top >= -1
  {
    && |tree| == LeavesBelow(i, top + 1) && tree[0] == 0
    && forall h: nat, a, b :: h <= top && h in i.blocks && 0 <= a < |i.blocks[h].txs|
                              && 0 <= b < |i.blocks[h].txs[a].outputs| ==>
      LeafIs(tree, LeavesBelow(i, h) + OutputsBefore(i.blocks[h].txs, a) + b, i.blocks[h].txs[a].outputs[b])
  }

  predicate LeafIs(tree: Tree, n: nat, o: Output) {
    n < |tree| && tree[n] == o.coin
  }

  lemma {:induction false} LeafAt(i: Index, top: int, h: nat, a: nat, b: nat)
    requires top >= -1
    ensures var leaves := Leaves(CoinsHeld(i), top);
            && |leaves| == LeavesBelow(i, top + 1) && leaves[0] == 0
            && (h <= top && h in i.blocks && a < |i.blocks[h].txs| && b < |i.blocks[h].txs[a].outputs| ==>
                  LeafIs(leaves, LeavesBelow(i, h) + OutputsBefore(i.blocks[h].txs, a) + b,
                         i.blocks[h].txs[a].outputs[b]))
    decreases top + 1
  {
    if top >= 0 {
      LeafAt(i, top - 1, h, a, b);
      LeavesGrow(i, top);
      if top in i.blocks {
        CoinAt(i.blocks[top].txs, a, b);
      }
      hide TxCoins, Leaves, CoinsHeld, OutputsBefore;
    }
  }

  lemma LeavesInOrder(i: Index, top: int)
    requires top >= -1
    ensures LeafOrder(Leaves(CoinsHeld(i), top), i, top)
  {
    hide Leaves, CoinsHeld, LeavesBelow, OutputsBefore, LeafIs;
    LeafAt(i, top, 0, 0, 0);
    forall h: nat, a, b | h <= top && h in i.blocks && 0 <= a < |i.blocks[h].txs|
                          && 0 <= b < |i.blocks[h].txs[a].outputs|
      ensures LeafIs(Leaves(CoinsHeld(i), top), LeavesBelow(i, h) + OutputsBefore(i.blocks[h].txs, a) + b,
                     i.blocks[h].txs[a].outputs[b])
    {
      LeafAt(i, top, h, a, b);
    }
  }

  lemma LeavesGrow(i: Index, top: nat)
    ensures Leaves(CoinsHeld(i), top)
         == Leaves(CoinsHeld(i), top - 1) + if top in i.blocks then Coins(i.blocks[top]) else []
  {
    hide Coins;
    assert Between(CoinsHeld(i), 0, top) == Between(CoinsHeld(i), 0, top - 1) + Row(CoinsHeld(i), top);
  }

  /** What a wallet reads at the tip, leaf by leaf. */
  lemma TipTreeInOrder(cycles: seq<Cycle>)
    requires forall k :: 0 <= k < |cycles| && cycles[k].PollCycle? ==> Honest(cycles[k].remote)
    requires RunCycles(EMPTY_STORE, cycles).index.tip.Some?
    ensures var s := RunCycles(EMPTY_STORE, cycles);
            s.tipTree.Some? && LeafOrder(s.tipTree.value.tree, s.index, s.index.tip.value.0)
  {
    TipTreeIsReplayOfHeldChain(cycles);
    hide RunCycles, Leaves, CoinsHeld, LeafOrder;
    var s := RunCycles(EMPTY_STORE, cycles);
    LeavesInOrder(s.index, s.index.tip.value.0);
  }
}
