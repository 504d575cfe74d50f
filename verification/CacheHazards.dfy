/** Runs that break the tree index: one for each condition that `Guard` excludes. */
module CacheHazards {
  import opened Chain
  import opened Replay
  import opened CacheStore
  import opened CacheNullifiers
  import opened CacheSoundness

  lemma EmptyIsSound()
    ensures Sound(EMPTY_STORE, map[])
  {
  }

  lemma RunSnoc(ops: seq<Op>, op: Op)
    ensures Run(EMPTY_STORE, ops + [op]) == Step(Run(EMPTY_STORE, ops), op)
    ensures LedgerOf(ops + [op]) == Ledger(LedgerOf(ops), op)
  {
  }

  /** The first block of a cache, at any height. */
  lemma FirstInsert(b: Block)
    ensures var s := Run(EMPTY_STORE, [InsertOp(b)]);
            && Sound(s, LedgerOf([InsertOp(b)])) && LedgerOf([InsertOp(b)]) == map[b.height := Coins(b)]
            && s.coins == (if Coins(b) == [] then map[] else map[b.height := Coins(b)])
            && s.index.blocks == map[b.height := b] && s.index.tip == Some((b.height, b.hash))
            && s.live == LiveTree(Some(b.height), SENTINEL + Coins(b), false)
            && s.snaps == map[b.height := SENTINEL + Coins(b)]
  {
    RunSnoc([], InsertOp(b));
    assert [] + [InsertOp(b)] == [InsertOp(b)];
    EmptyIsSound();
    StepSound(EMPTY_STORE, map[], InsertOp(b));
    hide Sound;
  }

  /** The tip overwritten by a block without coins keeps the old coin row. */
  lemma CoinlessOverwriteBreaks(b: Block, c: Block)
    requires b.height == c.height && Coins(b) != [] && Coins(c) == []
    ensures !Sound(Run(EMPTY_STORE, [InsertOp(b), InsertOp(c)]), LedgerOf([InsertOp(b), InsertOp(c)]))
  {
    FirstInsert(b);
    RunSnoc([InsertOp(b)], InsertOp(c));
    assert [InsertOp(b)] + [InsertOp(c)] == [InsertOp(b), InsertOp(c)];
    hide Sound, Insert, Run, LedgerOf;
    CoinlessOverwriteUnsound(Run(EMPTY_STORE, [InsertOp(b)]), LedgerOf([InsertOp(b)]), c);
  }

  /** Height 0 overwritten at the tip: the tree keeps the coins of the block that was replaced. */
  lemma GenesisOverwriteBreaks(b: Block, c: Block)
    requires b.height == c.height == 0 && Coins(b) != Coins(c) && Coins(c) != []
    ensures !Sound(Run(EMPTY_STORE, [InsertOp(b), InsertOp(c)]), LedgerOf([InsertOp(b), InsertOp(c)]))
  {
    FirstInsert(b);
    RunSnoc([InsertOp(b)], InsertOp(c));
    assert [InsertOp(b)] + [InsertOp(c)] == [InsertOp(b), InsertOp(c)];
    hide Sound, Insert, Run, LedgerOf, Rebuild;
    GenesisAgainSound(Run(EMPTY_STORE, [InsertOp(b)]), LedgerOf([InsertOp(b)]), c);
  }

  /** The tip overwritten by a block without nullifiers keeps the old nullifier row. */
  lemma NullifierlessOverwriteBreaks(b: Block, c: Block)
    requires b.height == c.height && TxNullifiers(b.txs) != [] && TxNullifiers(c.txs) == []
    ensures !NullifiersHeld(Run(EMPTY_STORE, [InsertOp(b), InsertOp(c)]))
  {
    RunSnoc([], InsertOp(b));
    RunSnoc([InsertOp(b)], InsertOp(c));
    assert [] + [InsertOp(b)] == [InsertOp(b)] && [InsertOp(b)] + [InsertOp(c)] == [InsertOp(b), InsertOp(c)];
    StepNullifiers(EMPTY_STORE, InsertOp(b));
    StepNullifiers(Insert(EMPTY_STORE, b), InsertOp(c));
    InsertNullifiers(EMPTY_STORE, b);
    hide Insert, Run;
  }

  /** A rewind to a height that is not cached, other than 0, leaves the tip keys on a block it
      removed. */
  lemma RewindToAbsentKeepsTip(s: Store, h: nat)
    requires s.index.tip.Some? && s.index.tip.value.0 in s.index.blocks && s.index.tip.value.0 > h
    ensures Rewind(s, h).index.tip == s.index.tip <==> h > 0 && h !in s.index.blocks
    ensures s.index.tip.value.0 !in Rewind(s, h).index.blocks
  {
  }
}
