/** The tree index agrees with plain replay of everything ever indexed, exactly when no
    operation meets one of the conditions `Guard` excludes. */
module CacheSoundness {
  import opened Chain
  import opened Replay
  import opened CacheStore
  import opened CacheRetention

  /** The specification: coins of every height indexed and not rewound. Prune does not touch it. */
  function Ledger(ledger: Rows, op: Op): Rows {
    match op
    case InsertOp(b) => ledger[b.height := Coins(b)]
    case RewindOp(h) => Upto(ledger, h)
    case PruneOp(_) => ledger
    case ReopenOp(_) => ledger
  }

  function LedgerOf(ops: seq<Op>): Rows {
    if ops == [] then map[] else Ledger(LedgerOf(ops[..|ops| - 1]), ops[|ops| - 1])
  }

  /** Every coin row is right, and only pruning removes the row of a height that has coins. */
  ghost predicate RowsSound(s: Store, ledger: Rows) {
    && s.coins.Keys <= s.index.blocks.Keys
    && (forall k :: k in s.coins ==> s.coins[k] != [] && k in ledger && s.coins[k] == ledger[k])
    && (forall k :: k in s.index.blocks ==> k in ledger && (ledger[k] != [] ==> k in s.coins))
  }

  /** Each retained snapshot, and the tip, is the replay of the ledger up to its height. */
  ghost predicate TreesSound(s: Store, ledger: Rows) {
    match s.tipTree
    case None => forall k :: k in ledger ==> k == 0 && ledger[k] == []
    case Some(t) =>
      && (forall k :: k in s.snaps ==> s.snaps[k] == Leaves(ledger, k))
      && t.tree == Leaves(ledger, t.height)
      && (forall k :: k in ledger ==> k <= t.height)
  }

  ghost predicate TipCovers(s: Store, ledger: Rows) {
    forall k :: k in ledger ==> k <= (if s.index.tip.Some? then s.index.tip.value.0 else 0)
  }

  ghost predicate Sound(s: Store, ledger: Rows) {
    Shape(s) && RowsSound(s, ledger) && TreesSound(s, ledger) && TipCovers(s, ledger)
  }

  // ---- when an operation keeps the index sound ----

  function ReplayFrom(s: Store, t: nat): nat {
    if RebuildClears(s, t) then 0 else SeedNext(s, t)
  }

  /** No coin row that a rebuild to `t` replays has been pruned. */
  ghost predicate NothingPruned(s: Store, ledger: Rows, t: nat) {
    forall k :: ReplayFrom(s, t) <= k <= t && k in ledger && ledger[k] != [] ==> k in s.coins
  }

  ghost predicate InsertGuard(s: Store, ledger: Rows, b: Block) {
    var after := ledger[b.height := Coins(b)];
    // a coinless block does not overwrite a coin row
    && (Coins(b) == [] ==> b.height !in s.coins)
    && (if IsHistorical(s, b.height) then
          NothingPruned(HistoryCut(s, b), after, s.index.tip.value.0)
        else if !AppendNeedsRebuild(s, b.height) then true
        else if b.height == 0 then 0 in s.snaps ==> Row(ledger, 0) == Coins(b)
        else NothingPruned(TipRows(s, b), after, b.height - 1))
  }

  ghost predicate RewindGuard(s: Store, ledger: Rows, h: nat) {
    NothingPruned(RewindCut(s, h), Upto(ledger, h), h)
  }

  /** The exact condition under which one operation leaves the index right. */
  ghost predicate Guard(s: Store, ledger: Rows, op: Op) {
    match op
    case InsertOp(b) => InsertGuard(s, ledger, b)
    case RewindOp(h) => RewindGuard(s, ledger, h)
    case PruneOp(_) => true
    case ReopenOp(_) => true
  }

  // ---- rebuild refines replay ----

  ghost predicate SnapsSoundUpto(s: Store, ledger: Rows, t: nat) {
    forall k :: k in s.snaps && k <= t ==> s.snaps[k] == Leaves(ledger, k)
  }

  lemma SeedSound(s: Store, ledger: Rows, t: nat)
    requires SnapsSoundUpto(s, ledger, t)
    ensures SeedNext(s, t) <= t + 1
    ensures SeedTree(s, t) == Leaves(ledger, SeedNext(s, t) - 1)
  {
  }

  /** Seed plus replayed rows is replay from the sentinel. */
  lemma ReplayedPrefix(s: Store, ledger: Rows, t: nat, k: nat)
    requires RowsSound(s, ledger) && SnapsSoundUpto(s, ledger, t) && NothingPruned(s, ledger, t)
    requires !RebuildClears(s, t) && SeedNext(s, t) - 1 <= k <= t
    ensures SeedTree(s, t) + Between(s.coins, SeedNext(s, t), k) == Leaves(ledger, k)
  {
    SeedSound(s, ledger, t);
    BetweenAgree(s.coins, ledger, SeedNext(s, t), k);
    LeavesSplit(ledger, SeedNext(s, t) - 1, k);
  }

  lemma PrunedRowsAreMissed(s: Store, ledger: Rows, t: nat)
    requires RowsSound(s, ledger) && SnapsSoundUpto(s, ledger, t) && !NothingPruned(s, ledger, t)
    requires !RebuildClears(s, t)
    ensures |SeedTree(s, t) + Between(s.coins, SeedNext(s, t), t)| < |Leaves(ledger, t)|
  {
    hide Leaves, SeedTree;
    SeedSound(s, ledger, t);
    var lost :| SeedNext(s, t) <= lost <= t && lost in ledger && ledger[lost] != [] && lost !in s.coins;
    assert Row(s.coins, lost) != Row(ledger, lost);
    BetweenLost(s.coins, ledger, SeedNext(s, t), t);
    LeavesSplit(ledger, SeedNext(s, t) - 1, t);
  }

  lemma RebuiltSnapshots(s: Store, ledger: Rows, t: nat)
    requires RowsSound(s, ledger) && SnapsSoundUpto(s, ledger, t) && NothingPruned(s, ledger, t)
    requires !RebuildClears(s, t)
    ensures var kept := Upto(s.snaps, t) + BoundarySnaps(s, t);
            forall k :: k in kept ==> kept[k] == Leaves(ledger, k)
  {
    forall k | k in BoundarySnaps(s, t) ensures BoundarySnaps(s, t)[k] == Leaves(ledger, k) {
      ReplayedPrefix(s, ledger, t, k);
    }
  }

  /** From any sound seed, a rebuild ends with the tree replay from the sentinel gives and with
      a right snapshot at every boundary it passes; if a replayed row was pruned, the tree is
      missing leaves. */
  lemma RebuildRefinesReplay(s: Store, ledger: Rows, t: nat)
    requires RowsSound(s, ledger) && SnapsSoundUpto(s, ledger, t) && !RebuildClears(s, t)
    ensures var r := Rebuild(s, t);
            && r.tipTree.Some? && r.tipTree.value.height == t
            && (NothingPruned(s, ledger, t) ==>
                  && r.tipTree.value.tree == Leaves(ledger, t)
                  && (forall k :: k in r.snaps ==> r.snaps[k] == Leaves(ledger, k))
                  && (forall k :: SeedNext(s, t) <= k <= t && IsBoundary(k) ==> k in r.snaps))
            && (!NothingPruned(s, ledger, t) ==> |r.tipTree.value.tree| < |Leaves(ledger, t)|)
  {
    if NothingPruned(s, ledger, t) {
      ReplayedPrefix(s, ledger, t, t);
      RebuiltSnapshots(s, ledger, t);
    } else {
      PrunedRowsAreMissed(s, ledger, t);
    }
  }

  // ---- one step ----

  lemma PutRowsSound(s: Store, ledger: Rows, b: Block)
    requires RowsSound(s, ledger)
    ensures RowsSound(PutRows(s, b), ledger[b.height := Coins(b)]) <==> (Coins(b) == [] ==> b.height !in s.coins)
  {
    var rows := PutRows(s, b);
    assert b.height in rows.index.blocks;
    if Coins(b) == [] && b.height in s.coins {
      assert b.height in rows.coins && rows.coins[b.height] == s.coins[b.height];
    }
  }

  lemma LedgerBelow(ledger: Rows, h: nat, coins: seq<Coin>, k: int)
    requires k < h
    ensures Leaves(ledger[h := coins], k) == Leaves(ledger, k)
  {
    BetweenAgree(ledger[h := coins], ledger, 0, k);
  }

  /** A rebuild to a height that covers the ledger is sound exactly when nothing was pruned. */
  lemma RebuildSound(s: Store, ledger: Rows, t: nat)
    requires RowsSound(s, ledger) && TipCovers(s, ledger) && SnapsSoundUpto(s, ledger, t)
    requires forall k :: k in ledger ==> k <= t
    ensures Sound(Rebuild(s, t), ledger) <==> NothingPruned(s, ledger, t)
  {
    RebuildShape(s, t);
    var r := Rebuild(s, t);
    assert RowsSound(r, ledger) && TipCovers(r, ledger);
    if RebuildClears(s, t) {
      assert TreesSound(r, ledger) <==> NothingPruned(s, ledger, t);
    } else {
      RebuildRefinesReplay(s, ledger, t);
      assert TreesSound(r, ledger) <==> NothingPruned(s, ledger, t);
    }
  }

  lemma HistoricalInsertSound(s: Store, ledger: Rows, b: Block)
    requires Sound(s, ledger) && IsHistorical(s, b.height)
    requires Coins(b) == [] ==> b.height !in s.coins
    ensures Sound(Insert(s, b), ledger[b.height := Coins(b)])
            <==> NothingPruned(HistoryCut(s, b), ledger[b.height := Coins(b)], s.index.tip.value.0)
  {
    var cut, after, t := HistoryCut(s, b), ledger[b.height := Coins(b)], s.index.tip.value.0;
    PutRowsSound(s, ledger, b);
    assert RowsSound(cut, after);
    forall k | k in cut.snaps ensures cut.snaps[k] == Leaves(after, k) {
      LedgerBelow(ledger, b.height, Coins(b), k);
    }
    RebuildSound(cut, after, t);
  }

  lemma LedgerAt(ledger: Rows, h: nat, coins: seq<Coin>)
    ensures Leaves(ledger[h := coins], h) == Leaves(ledger, h - 1) + coins
  {
    LedgerBelow(ledger, h, coins, h - 1);
    assert Between(ledger[h := coins], 0, h) == Between(ledger[h := coins], 0, h - 1) + coins;
  }

  lemma StoreTipSound(s: Store, ledger: Rows, prev: Option<nat>, h: nat, tree: Tree)
    requires RowsSound(s, ledger) && TipCovers(s, ledger) && SnapsSoundUpto(s, ledger, h)
    requires (forall k :: k in ledger ==> k <= h) && (forall k :: k in s.snaps ==> k <= h)
    ensures Sound(StoreTip(s, prev, h, tree), ledger) <==> tree == Leaves(ledger, h)
  {
  }

  lemma LiveTreeIsReplay(s: Store, ledger: Rows, h: nat)
    requires Sound(s, ledger) && !IsHistorical(s, h) && !AppendNeedsRebuild(s, h)
    ensures s.live.tree == Leaves(ledger, h - 1)
    ensures forall k :: k in s.snaps ==> k < h
  {
    if s.tipTree.None? {
      BetweenEmpty(ledger, 0, h - 1);
    }
  }

  /** The rows of a block at or above the tip are right before the trees are touched. */
  lemma TipRowsSound(s: Store, ledger: Rows, b: Block)
    requires Sound(s, ledger) && !IsHistorical(s, b.height)
    requires Coins(b) == [] ==> b.height !in s.coins
    ensures var rows, after := TipRows(s, b), ledger[b.height := Coins(b)];
            && RowsSound(rows, after) && TipCovers(rows, after)
            && (forall k :: k in after ==> k <= b.height)
            && (b.height > 0 ==> SnapsSoundUpto(rows, after, b.height - 1))
  {
    PutRowsSound(s, ledger, b);
    var rows, after := TipRows(s, b), ledger[b.height := Coins(b)];
    assert RowsSound(rows, after);
    forall k | k in rows.snaps && k < b.height ensures rows.snaps[k] == Leaves(after, k) {
      LedgerBelow(ledger, b.height, Coins(b), k);
    }
  }

  /** A tree right below the block has no snapshot at or above it. */
  lemma TipRowsSnaps(s: Store, ledger: Rows, b: Block)
    requires Sound(s, ledger) && !IsHistorical(s, b.height) && !AppendNeedsRebuild(s, b.height)
    ensures var after := ledger[b.height := Coins(b)];
            && SnapsSoundUpto(TipRows(s, b), after, b.height)
            && forall k :: k in TipRows(s, b).snaps ==> k <= b.height
  {
    LiveTreeIsReplay(s, ledger, b.height);
    forall k | k in s.snaps ensures s.snaps[k] == Leaves(ledger[b.height := Coins(b)], k) {
      LedgerBelow(ledger, b.height, Coins(b), k);
    }
  }

  /** The block right above the tree, or the first block of an empty cache. */
  lemma NextInsertSound(s: Store, ledger: Rows, b: Block)
    requires Sound(s, ledger) && !IsHistorical(s, b.height) && !AppendNeedsRebuild(s, b.height)
    requires Coins(b) == [] ==> b.height !in s.coins
    ensures Sound(Insert(s, b), ledger[b.height := Coins(b)])
  {
    assert TipRows(s, b).live == s.live;
    hide Sound, Leaves, RowsSound, TipCovers, StoreTip, Rebuild, PutRows;
    TipRowsSound(s, ledger, b);
    LiveTreeIsReplay(s, ledger, b.height);
    LedgerAt(ledger, b.height, Coins(b));
    LedgerBelow(ledger, b.height, Coins(b), b.height - 1);
    TipRowsSnaps(s, ledger, b);
    StoreTipSound(TipRows(s, b), ledger[b.height := Coins(b)], s.live.height, b.height, s.live.tree + Coins(b));
  }

  lemma LeavesAtZero(rows: Rows)
    ensures Leaves(rows, 0) == SENTINEL + Row(rows, 0)
    ensures Leaves(rows, 0)[1..] == Row(rows, 0)
  {
    assert Between(rows, 0, 0) == Between(rows, 0, -1) + Row(rows, 0);
  }

  /** Height 0 again while the tree is past it: a stored snapshot at 0 is reused as it is. */
  lemma GenesisAgainSound(s: Store, ledger: Rows, b: Block)
    requires Sound(s, ledger) && !IsHistorical(s, 0) && AppendNeedsRebuild(s, 0) && b.height == 0
    requires Coins(b) == [] ==> 0 !in s.coins
    ensures Sound(Insert(s, b), ledger[0 := Coins(b)]) <==> (0 in s.snaps ==> Row(ledger, 0) == Coins(b))
  {
    var rows, after := TipRows(s, b), ledger[0 := Coins(b)];
    TipRowsSound(s, ledger, b);
    LeavesAtZero(ledger);
    LeavesAtZero(after);
    assert Insert(s, b) == Rebuild(rows, 0) && 0 in rows.index.blocks && rows.snaps == s.snaps;
    assert 0 in s.snaps ==> s.snaps[0] == Leaves(ledger, 0);
    hide *;
    if 0 !in s.snaps || Row(ledger, 0) == Coins(b) {
      FreshGenesis(rows, after);
    } else {
      StaleGenesis(rows, after);
    }
  }

  lemma FreshGenesis(s: Store, ledger: Rows)
    requires RowsSound(s, ledger) && TipCovers(s, ledger) && 0 in s.index.blocks
    requires 0 in s.snaps ==> s.snaps[0] == Leaves(ledger, 0)
    requires forall k :: k in ledger ==> k <= 0
    ensures Sound(Rebuild(s, 0), ledger)
  {
    RebuildSound(s, ledger, 0);
  }

  lemma StaleGenesis(s: Store, ledger: Rows)
    requires 0 in s.snaps && 0 in s.index.blocks && s.snaps[0] != Leaves(ledger, 0)
    ensures !Sound(Rebuild(s, 0), ledger)
  {
    assert Rebuild(s, 0).tipTree == Some(TreeAt(0, s.snaps[0] + Between(s.coins, 1, 0)));
  }

  lemma RebuiltParent(s: Store, ledger: Rows, h: nat)
    requires RowsSound(s, ledger) && SnapsSoundUpto(s, ledger, h) && NothingPruned(s, ledger, h)
    ensures var base := Rebuild(s, h);
            && base.live.tree == Leaves(ledger, h)
            && (forall k :: k in base.snaps ==> k <= h && base.snaps[k] == Leaves(ledger, k))
  {
    RebuildShape(s, h);
    if RebuildClears(s, h) {
      LeavesAtZero(ledger);
    } else {
      RebuildRefinesReplay(s, ledger, h);
    }
  }

  lemma RebuiltParentMisses(s: Store, ledger: Rows, h: nat)
    requires RowsSound(s, ledger) && SnapsSoundUpto(s, ledger, h) && !NothingPruned(s, ledger, h)
    ensures |Rebuild(s, h).live.tree| < |Leaves(ledger, h)|
  {
    if RebuildClears(s, h) {
      LeavesAtZero(ledger);
    } else {
      RebuildRefinesReplay(s, ledger, h);
    }
  }

  /** A gap, an overwrite of the tip, or the first block after an unreadable tip tree. */
  lemma OffTipInsertSound(s: Store, ledger: Rows, b: Block)
    requires Sound(s, ledger) && !IsHistorical(s, b.height) && AppendNeedsRebuild(s, b.height) && b.height > 0
    requires Coins(b) == [] ==> b.height !in s.coins
    ensures Sound(Insert(s, b), ledger[b.height := Coins(b)])
            <==> NothingPruned(TipRows(s, b), ledger[b.height := Coins(b)], b.height - 1)
  {
    hide Sound, RowsSound, TreesSound, TipCovers, SnapsSoundUpto, NothingPruned, Leaves, Rebuild, StoreTip;
    assert AppendNeedsRebuild(TipRows(s, b), b.height);
    TipRowsSound(s, ledger, b);
    LedgerBelow(ledger, b.height, Coins(b), b.height - 1);
    LedgerAt(ledger, b.height, Coins(b));
    AppendToRebuilt(TipRows(s, b), ledger[b.height := Coins(b)], b.height, Coins(b));
  }

  lemma AppendToRebuilt(s: Store, ledger: Rows, h: nat, coins: seq<Coin>)
    requires h > 0 && RowsSound(s, ledger) && TipCovers(s, ledger) && SnapsSoundUpto(s, ledger, h - 1)
    requires Leaves(ledger, h) == Leaves(ledger, h - 1) + coins && forall k :: k in ledger ==> k <= h
    ensures var base := Rebuild(s, h - 1);
            Sound(StoreTip(base, base.live.height, h, base.live.tree + coins), ledger)
            <==> NothingPruned(s, ledger, h - 1)
  {
    hide Rebuild, NothingPruned, RowsSound, TipCovers;
    var base := Rebuild(s, h - 1);
    if NothingPruned(s, ledger, h - 1) {
      RebuildKeepsRows(s, ledger, h - 1);
      RebuiltParent(s, ledger, h - 1);
      StoreTipSound(base, ledger, base.live.height, h, base.live.tree + coins);
    } else {
      RebuiltParentMisses(s, ledger, h - 1);
    }
  }

  lemma RebuildKeepsRows(s: Store, ledger: Rows, t: nat)
    requires RowsSound(s, ledger) && TipCovers(s, ledger)
    ensures RowsSound(Rebuild(s, t), ledger) && TipCovers(Rebuild(s, t), ledger)
  {
    RebuildShape(s, t);
    hide Rebuild;
  }

  lemma RewindSound(s: Store, ledger: Rows, h: nat)
    requires Sound(s, ledger)
    ensures Sound(Rewind(s, h), Upto(ledger, h)) <==> RewindGuard(s, ledger, h)
  {
    var cut, after := RewindCut(s, h), Upto(ledger, h);
    RewindRows(s, ledger, h);
    forall k | k in cut.snaps ensures cut.snaps[k] == Leaves(after, k) {
      BetweenAgree(ledger, after, 0, k);
    }
    RebuildSound(cut, after, h);
  }

  lemma RewindRows(s: Store, ledger: Rows, h: nat)
    requires RowsSound(s, ledger) && TipCovers(s, ledger)
    ensures RowsSound(RewindCut(s, h), Upto(ledger, h)) && TipCovers(RewindCut(s, h), Upto(ledger, h))
  {
  }

  /** The coin row of the block that was overwritten stays behind. */
  lemma CoinlessOverwriteUnsound(s: Store, ledger: Rows, b: Block)
    requires Sound(s, ledger) && Coins(b) == [] && b.height in s.coins
    ensures !Sound(Insert(s, b), ledger[b.height := Coins(b)])
  {
    assert Insert(s, b).coins == s.coins;
  }

  lemma PruneSound(s: Store, ledger: Rows, min: nat)
    requires Sound(s, ledger)
    ensures Sound(Prune(s, min), ledger)
  {
  }

  lemma ReopenSound(s: Store, ledger: Rows, readable: bool)
    requires Sound(s, ledger)
    ensures Sound(Reopen(s, readable), ledger)
  {
  }

  /** One operation keeps the index right exactly when its guard holds. */
  lemma StepSound(s: Store, ledger: Rows, op: Op)
    requires Sound(s, ledger)
    ensures Sound(Step(s, op), Ledger(ledger, op)) <==> Guard(s, ledger, op)
  {
    hide Sound;
    match op
    case InsertOp(b) =>
      if Coins(b) == [] && b.height in s.coins {
        CoinlessOverwriteUnsound(s, ledger, b);
      } else if IsHistorical(s, b.height) {
        HistoricalInsertSound(s, ledger, b);
      } else if !AppendNeedsRebuild(s, b.height) {
        NextInsertSound(s, ledger, b);
      } else if b.height == 0 {
        GenesisAgainSound(s, ledger, b);
      } else {
        OffTipInsertSound(s, ledger, b);
      }
    case RewindOp(h) => RewindSound(s, ledger, h);
    case PruneOp(m) => PruneSound(s, ledger, m);
    case ReopenOp(r) => ReopenSound(s, ledger, r);
  }

  /** Every operation of the run met its guard. */
  ghost predicate Guarded(ops: seq<Op>) {
    forall i :: 0 <= i < |ops| ==> Guard(Run(EMPTY_STORE, ops[..i]), LedgerOf(ops[..i]), ops[i])
  }

  /** Over any guarded run, every snapshot, the tip copy and the live tree are plain replay. */
  lemma {:induction false} SoundOnEveryGuardedRun(ops: seq<Op>)
    requires Guarded(ops)
    ensures Sound(Run(EMPTY_STORE, ops), LedgerOf(ops))
  {
    if ops != [] {
      var n := |ops| - 1;
      forall i | 0 <= i < n ensures Guard(Run(EMPTY_STORE, ops[..n][..i]), LedgerOf(ops[..n][..i]), ops[..n][i]) {
        assert ops[..n][..i] == ops[..i];
      }
      SoundOnEveryGuardedRun(ops[..n]);
      StepSound(Run(EMPTY_STORE, ops[..n]), LedgerOf(ops[..n]), ops[n]);
    }
  }
}
