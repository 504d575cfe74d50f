/** Pruning and the poller's backfill of height 0: when the two together spoil the tree. */
module PruneHazard {
  import opened Chain
  import opened CacheNullifiers
  import opened CacheSoundness
  import opened CacheStore
  import opened Poller
  import opened PollerConvergence
  import opened PollerSafety

  /** The node gives its tip and block 0. */
  ghost predicate GivesGenesis(remote: Remote, calls: nat) {
    Honest(remote) && remote.tipAt(calls).RemoteTip? && remote.blockAt(calls + 1, 0).Found?
  }

  /** With height 0 missing, a poll fetches just that block. */
  lemma BackfillPoll(p: Store, remote: Remote, calls: nat, batch: nat)
    requires 0 !in p.index.blocks && GivesGenesis(remote, calls)
    ensures PollOnce(p, remote, calls, batch).store == Insert(p, remote.blockAt(calls + 1, 0).block)
    ensures remote.blockAt(calls + 1, 0).block.height == 0
  {
    var b := remote.blockAt(calls + 1, 0).block;
    assert FetchFrom(p, remote, calls + 1, 0, 0, 0) == FetchFrom(Insert(p, b), remote, calls + 2, 1, 0, 1);
    hide Insert, WalkBack;
  }

  lemma RowsHeld(s: Store)
    requires PollerInv(s)
    ensures forall k: nat :: k in s.coins <==> k in s.index.blocks && Coins(s.index.blocks[k]) != []
    ensures Sound(s, CoinsHeld(s.index))
  {
    assert RowsSound(s, CoinsHeld(s.index));
    hide ChainHeld, NullifiersHeld, Coins, PollerInv;
  }

  lemma PrunedRows(s: Store, top: nat, min: nat)
    requires 0 < min && forall k: nat :: k in s.index.blocks <==> k <= top
    requires forall k: nat :: k in s.coins <==> k in s.index.blocks && Coins(s.index.blocks[k]) != []
    ensures var p := Prune(s, min);
            && p.index.tip == s.index.tip && 0 !in p.index.blocks && 0 !in p.coins
            && forall k: nat :: k <= top && Coins(s.index.blocks[k]) != [] ==> (k in p.coins <==> min <= k)
  {
    hide Coins;
  }

  /** The first heights of a held chain, pruned with any retention window, and height 0 fetched again:
      the trees stay right exactly when no pruned height above 0 had a coin. */
  lemma BackfillAfterPruneExactlyWhen(s: Store, window: nat, remote: Remote, calls: nat, batch: nat)
    requires PollerInv(s) && s.index.tip.Some? && 0 < window < s.index.tip.value.0 && GivesGenesis(remote, calls)
    ensures var top, b := s.index.tip.value.0, remote.blockAt(calls + 1, 0).block;
            Sound(PollOnce(Retain(s, window), remote, calls, batch).store, CoinsHeld(s.index)[0 := Coins(b)])
            <==> forall k: nat :: 0 < k < top - window ==> k in s.index.blocks && Coins(s.index.blocks[k]) == []
  {
    hide PollerInv, Sound, PollOnce, Insert, NothingPruned, HistoryCut, Coins, Honest;
    var top := s.index.tip.value.0;
    var p, b := Prune(s, top - window), remote.blockAt(calls + 1, 0).block;
    HeldHeights(s);
    RowsHeld(s);
    PrunedRows(s, top, top - window);
    PruneSound(s, CoinsHeld(s.index), top - window);
    hide Prune, CoinsHeld;
    BackfillPoll(p, remote, calls, batch);
    HistoricalInsertSound(p, CoinsHeld(s.index), b);
    BackfillReplays(s, p, b, top, window);
  }

  lemma BackfillReplays(s: Store, p: Store, b: Block, top: nat, window: nat)
    requires b.height == 0 && 0 < window < top && s.index.tip.Some? && s.index.tip.value.0 == top
    requires forall k: nat :: k in s.index.blocks <==> k <= top
    requires forall k: nat :: k <= top && Coins(s.index.blocks[k]) != [] ==> (k in p.coins <==> top - window <= k)
    ensures NothingPruned(HistoryCut(p, b), CoinsHeld(s.index)[0 := Coins(b)], top)
            <==> forall k: nat :: 0 < k < top - window ==> Coins(s.index.blocks[k]) == []
  {
    var cut, after := HistoryCut(p, b), CoinsHeld(s.index)[0 := Coins(b)];
    assert cut.snaps == map[] && ReplayFrom(cut, top) == 0;
    assert forall k: nat :: k in after <==> k <= top;
    assert forall k: nat :: 0 < k <= top ==> after[k] == Coins(s.index.blocks[k]) && (k in cut.coins <==> k in p.coins);
  }

  // ---- a run that does it ----

  /** Two polls of an empty cache fetch a chain of four. */
  lemma FourFetched(remote: Remote, chain: seq<Block>, batch: nat)
    requires FullChain(chain) && |chain| == 4 && Serves(remote, chain) && batch >= 3
    ensures var s := PollMany(EMPTY_STORE, remote, 0, batch, 2);
            PollerInv(s) && Held(s.index) == 4 && Settled(s.index, chain)
  {
    var first := PollOnce(EMPTY_STORE, remote, 0, batch);
    EmptyStoreInv();
    CommonIsForkPoint(EMPTY_STORE.index, chain, 0);
    FetchFollowsChain(EMPTY_STORE, remote, chain, 1, 0, 0, 0);
    assert first == FetchFrom(EMPTY_STORE, remote, 1, 0, 0, 0);
    hide PollerInv, FetchFrom, FullChain, Common, KeepsShared;
    SecondPoll(first.store, remote, chain, first.calls, batch);
    assert PollMany(EMPTY_STORE, remote, 0, batch, 2)
        == PollMany(first.store, remote, first.calls, batch, 1)
        == PollOnce(first.store, remote, first.calls, batch).store;
  }

  lemma SecondPoll(s: Store, remote: Remote, chain: seq<Block>, calls: nat, batch: nat)
    requires Common(s.index, chain) == Held(s.index) == 1 && |chain| == 4 && batch >= 3
    requires PollerInv(s) && FullChain(chain) && Serves(remote, chain)
    ensures var p := PollOnce(s, remote, calls, batch).store;
            PollerInv(p) && Held(p.index) == 4 && Common(p.index, chain) == 4
  {
    hide PollerInv, FetchFrom, FullChain, Common, KeepsShared, PollOnce, Serves, Agrees;
    assert Contiguous(s.index) by { HeldHeights(s); }
    TopAgreement(s, chain);
    var next := PollIsDue(s, remote, chain, calls, batch);
    FetchFollowsChain(s, remote, chain, next, 1, 3, 0);
    assert Due(s.index, chain) == Fetch(1, 3);
  }

  /** Heights 0 to 3 fetched, all but the last block and its parent pruned, and one more poll: the tree
      misses the coins of height 1. */
  lemma BackfillAfterPruneBreaks(remote: Remote, chain: seq<Block>, batch: nat, calls: nat)
    requires FullChain(chain) && |chain| == 4 && Serves(remote, chain) && batch >= 3 && Coins(chain[1]) != []
    ensures var s := PollMany(EMPTY_STORE, remote, 0, batch, 2);
            && s.index.tip.Some? && s.index.tip.value.0 == 3
            && !Sound(PollOnce(Retain(s, 1), remote, calls, batch).store, CoinsHeld(s.index))
  {
    hide PollerInv, FullChain, PollMany, PollOnce, Serves, Settled, Sound, Coins, CoinsHeld;
    var s := PollMany(EMPTY_STORE, remote, 0, batch, 2);
    FourFetched(remote, chain, batch);
    HeldHeights(s);
    SameCoins(s, chain, 1);
    GenesisGiven(remote, chain, s, calls);
    BackfillAfterPruneExactlyWhen(s, 1, remote, calls, batch);
  }

  lemma SameCoins(s: Store, chain: seq<Block>, k: nat)
    requires PollerInv(s) && FullChain(chain) && Settled(s.index, chain) && k < |chain|
    ensures k in s.index.blocks && Coins(s.index.blocks[k]) == Coins(chain[k])
  {
    SettledMeansSameChain(s, chain, k);
    hide PollerInv, FullChain, Settled, Bare;
    BareKeepsCoins(s.index.blocks[k].txs);
    BareKeepsCoins(chain[k].txs);
  }

  /** The node serves the block 0 that is held. */
  lemma GenesisGiven(remote: Remote, chain: seq<Block>, s: Store, calls: nat)
    requires PollerInv(s) && FullChain(chain) && Serves(remote, chain) && Settled(s.index, chain)
    ensures GivesGenesis(remote, calls)
    ensures CoinsHeld(s.index)[0 := Coins(remote.blockAt(calls + 1, 0).block)] == CoinsHeld(s.index)
  {
    ServesHonestly(remote, chain);
    assert RightReply(remote.blockAt(calls + 1, 0), chain, 0);
    hide PollerInv, FullChain, Settled, Bare;
    var b := remote.blockAt(calls + 1, 0).block;
    NonEmpty(chain);
    SameCoins(s, chain, 0);
    BareKeepsCoins(b.txs);
    BareKeepsCoins(chain[0].txs);
  }
}
