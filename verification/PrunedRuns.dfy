/** Polls, restarts and prunes in any order: what every run keeps of the cached rows, and exactly how
    long the trees stay right. */
module PrunedRuns {
  import opened Chain
  import opened Replay
  import opened CacheStore
  import opened CacheRetention
  import opened CacheNullifiers
  import opened CacheSoundness
  import opened Poller
  import opened PollerSafety
  import opened WindowCache

  // ---- rows on one line, with gaps ----

  /** No row is above the tip; the tip's own row may be missing, but not at height 0. */
  ghost predicate UnderTip(i: Index) {
    match i.tip
    case None => i.blocks == map[]
    case Some((top, hash)) =>
      && (forall k :: k in i.blocks ==> k <= top)
      && (top in i.hashes ==> i.hashes[top] == hash)
      && (top == 0 ==> 0 in i.blocks)
  }

  /** Every row is a genuine block at its height that links to the row below it, if that is there; the
      hash index is the inverse of the hashes; `g` is the hash of block 0. */
  ghost predicate Linear(i: Index, g: Hash) {
    && BlocksLinked(i) && HeightOfIsInverse(i) && UnderTip(i)
    && (forall k :: k in i.hashes ==> k in i.blocks)
    && (0 in i.blocks ==> i.blocks[0].hash == g)
    && (1 in i.blocks ==> i.blocks[1].prevHash == g)
  }

  ghost predicate TreeUnderTip(s: Store) {
    s.tipTree.Some? ==> s.index.tip.Some? && s.tipTree.value.height <= s.index.tip.value.0
  }

  ghost predicate Kept(s: Store, g: Hash) {
    Linear(s.index, g) && NullifiersHeld(s) && TreeUnderTip(s)
  }

  /** A window without gaps is one on which a cached window can be trusted. */
  lemma LinearIsLinked(i: Index, g: Hash, key: Window)
    requires Linear(i, g) && forall h: nat :: key.0 <= h <= key.1 ==> h in i.blocks
    ensures LinkedWindow(i, key)
  {
    hide HeightOfIsInverse, Genuine;
  }

  // ---- the operations a server performs ----

  /** `b` goes on top of everything, on its parent if that is there; or it is the missing block 0. */
  ghost predicate Sits(i: Index, b: Block, g: Hash) {
    && Genuine(b) && b.height !in i.blocks
    && (b.height == 0 ==> b.hash == g) && (b.height == 1 ==> b.prevHash == g)
    && (b.height > 0 ==> i.tip.Some? && i.tip.value.0 < b.height)
    && (b.height > 0 && b.height - 1 in i.hashes ==> b.prevHash == i.hashes[b.height - 1])
  }

  ghost predicate Allowed(i: Index, op: Op, g: Hash) {
    match op
    case InsertOp(b) => Sits(i, b, g)
    case RewindOp(h) => i.tip.Some? && h <= i.tip.value.0
    case PruneOp(min) => i.tip.Some? && min <= i.tip.value.0
    case ReopenOp(_) => true
  }

  function Put(i: Index, b: Block, tip: Option<(nat, Hash)>): Index {
    Index(i.blocks[b.height := b], i.hashes[b.height := b.hash], i.heightOf[b.hash := b.height], tip)
  }

  lemma InsertPuts(s: Store, b: Block)
    ensures Insert(s, b).index
         == Put(s.index, b, if IsHistorical(s, b.height) then s.index.tip else Some((b.height, b.hash)))
  {
    if IsHistorical(s, b.height) {
      RebuildKeepsNullifiers(HistoryCut(s, b), s.index.tip.value.0);
      hide Rebuild;
    } else {
      InsertIndex(s, b);
      hide Insert;
    }
  }

  lemma HashIsNew(i: Index, b: Block)
    requires BlocksLinked(i) && HeightOfIsInverse(i) && Genuine(b) && b.height !in i.blocks
    requires forall k :: k in i.hashes ==> k in i.blocks
    ensures b.hash !in i.heightOf
  {
    if b.hash in i.heightOf {
      var k := i.heightOf[b.hash];
      HashFixesBlock(b, i.blocks[k]);
      assert false;
    }
  }

  lemma PutInverse(i: Index, b: Block, tip: Option<(nat, Hash)>)
    requires HeightOfIsInverse(i) && b.hash !in i.heightOf && b.height !in i.hashes
    ensures HeightOfIsInverse(Put(i, b, tip))
  {
  }

  lemma PutLinked(i: Index, b: Block, tip: Option<(nat, Hash)>, g: Hash)
    requires Linear(i, g) && Sits(i, b, g)
    ensures BlocksLinked(Put(i, b, tip))
  {
    hide HeightOfIsInverse, Genuine;
    forall k ensures LinkedAt(Put(i, b, tip), k) {
      assert LinkedAt(i, k);
    }
  }

  lemma PutLinear(i: Index, b: Block, tip: Option<(nat, Hash)>, g: Hash)
    requires Linear(i, g) && Sits(i, b, g)
    requires tip == if i.tip.Some? && b.height < i.tip.value.0 then i.tip else Some((b.height, b.hash))
    ensures Linear(Put(i, b, tip), g)
  {
    PutLinked(i, b, tip, g);
    HashIsNew(i, b);
    PutInverse(i, b, tip);
    PutUnderTip(i, b, tip, g);
    hide HeightOfIsInverse, BlocksLinked, Genuine, UnderTip;
  }

  lemma PutUnderTip(i: Index, b: Block, tip: Option<(nat, Hash)>, g: Hash)
    requires UnderTip(i) && Sits(i, b, g)
    requires tip == if i.tip.Some? && b.height < i.tip.value.0 then i.tip else Some((b.height, b.hash))
    ensures UnderTip(Put(i, b, tip))
  {
    hide Genuine;
  }

  lemma RewoundIndex(s: Store, h: nat)
    ensures Rewind(s, h).index == RewindCut(s, h).index
  {
    RebuildKeepsNullifiers(RewindCut(s, h), h);
    hide Rebuild;
  }

  /** Rows dropped from a line leave a line; the tip may stay, or move to a row that is left. */
  lemma DroppedLinear(s: Store, gone: set<nat>, g: Hash)
    requires Linear(s.index, g)
    ensures BlocksLinked(DropRows(s, gone).index) && HeightOfIsInverse(DropRows(s, gone).index)
    ensures forall k :: k in DropRows(s, gone).index.hashes ==> k in DropRows(s, gone).index.blocks
  {
    hide Genuine;
    var i, j := s.index, DropRows(s, gone).index;
    forall k ensures LinkedAt(j, k) {
      assert LinkedAt(i, k);
    }
  }

  lemma RewindLinear(s: Store, h: nat, g: Hash)
    requires Linear(s.index, g) && Allowed(s.index, RewindOp(h), g)
    ensures Linear(RewindCut(s, h).index, g)
  {
    DroppedLinear(s, Above(s, h), g);
    SameLinks(DropRows(s, Above(s, h)).index, RewindCut(s, h).index);
    RewindUnderTip(s, h, g);
    hide HeightOfIsInverse, BlocksLinked, UnderTip;
  }

  /** What a rewind leaves of the rows, and where the tip goes. */
  lemma CutRows(s: Store, h: nat)
    ensures var i, j := s.index, RewindCut(s, h).index;
            && (forall k :: k in j.blocks <==> k in i.blocks && k <= h)
            && (forall k :: k in j.blocks ==> j.blocks[k] == i.blocks[k])
            && (forall k :: k in j.hashes ==> k in i.hashes && j.hashes[k] == i.hashes[k])
            && (h in i.blocks ==> j.tip == Some((h, i.blocks[h].hash)))
            && (h !in i.blocks ==> j.tip == if h == 0 then None else i.tip)
  {
  }

  lemma CutUnderTip(i: Index, j: Index, h: nat, g: Hash)
    requires Linear(i, g) && i.tip.Some? && h <= i.tip.value.0
    requires forall k :: k in j.blocks <==> k in i.blocks && k <= h
    requires forall k :: k in j.hashes ==> k in i.hashes && j.hashes[k] == i.hashes[k]
    requires h in i.blocks ==> j.tip == Some((h, i.blocks[h].hash))
    requires h !in i.blocks ==> j.tip == if h == 0 then None else i.tip
    ensures UnderTip(j)
  {
    OwnHash(i, g);
    hide HeightOfIsInverse, BlocksLinked;
    if j.tip.None? {
      assert j.blocks.Keys == {};
    }
  }

  lemma RewindUnderTip(s: Store, h: nat, g: Hash)
    requires Linear(s.index, g) && Allowed(s.index, RewindOp(h), g)
    ensures UnderTip(RewindCut(s, h).index)
  {
    CutRows(s, h);
    hide Linear, RewindCut, UnderTip;
    CutUnderTip(s.index, RewindCut(s, h).index, h, g);
  }

  lemma OwnHash(i: Index, g: Hash)
    requires Linear(i, g)
    ensures forall k :: k in i.blocks ==> k in i.hashes && i.hashes[k] == i.blocks[k].hash
  {
  }

  lemma SameLinks(i: Index, j: Index)
    requires j == i.(tip := j.tip)
    ensures BlocksLinked(i) ==> BlocksLinked(j)
    ensures HeightOfIsInverse(i) ==> HeightOfIsInverse(j)
  {
    forall k ensures LinkedAt(i, k) ==> LinkedAt(j, k) {
    }
  }

  /** What a prune leaves of the rows. */
  lemma PruneRows(s: Store, min: nat)
    ensures var i, j := s.index, Prune(s, min).index;
            && j.tip == i.tip
            && (forall k :: k in j.blocks <==> k in i.blocks && min <= k)
            && (forall k :: k in j.blocks ==> j.blocks[k] == i.blocks[k])
            && (forall k :: k in j.hashes ==> k in i.hashes && j.hashes[k] == i.hashes[k])
  {
  }

  lemma PruneLinear(s: Store, min: nat, g: Hash)
    requires Linear(s.index, g) && Allowed(s.index, PruneOp(min), g)
    ensures Linear(Prune(s, min).index, g)
  {
    DroppedLinear(s, (set k | k in s.index.blocks && k < min), g);
    PruneRows(s, min);
    hide HeightOfIsInverse, BlocksLinked, DropRows;
  }

  lemma StepLinear(s: Store, op: Op, g: Hash)
    requires Linear(s.index, g) && Allowed(s.index, op, g)
    ensures Linear(Step(s, op).index, g)
  {
    hide Linear, Sits, Insert, Rewind, Prune, RewindCut;
    match op
    case InsertOp(b) =>
      InsertPuts(s, b);
      PutLinear(s.index, b, Insert(s, b).index.tip, g);
    case RewindOp(h) =>
      RewoundIndex(s, h);
      RewindLinear(s, h, g);
    case PruneOp(min) => PruneLinear(s, min, g);
    case ReopenOp(_) =>
  }

  /** Block 0 is fetched without a look at block 1: the link between them holds exactly when the node still
      has the block 0 that block 1 was fetched on. */
  lemma BackfillLinksExactlyWhen(s: Store, b: Block, g: Hash)
    requires Linear(s.index, g) && 0 !in s.index.blocks && b.height == 0
    ensures LinkedAt(Insert(s, b).index, 1) <==> (1 in s.index.blocks ==> b.hash == g)
  {
    InsertPuts(s, b);
    hide Insert;
  }

  // ---- the tree and the nullifier rows ----

  lemma StepTree(s: Store, op: Op, g: Hash)
    requires Linear(s.index, g) && TreeUnderTip(s) && Allowed(s.index, op, g)
    ensures TreeUnderTip(Step(s, op))
  {
    hide BlocksLinked, HeightOfIsInverse;
    match op
    case InsertOp(b) => InsertTree(s, b);
    case RewindOp(h) =>
      RebuildShape(RewindCut(s, h), h);
      CutRows(s, h);
      hide RewindCut, Rebuild;
    case PruneOp(_) =>
    case ReopenOp(_) =>
  }

  lemma InsertTree(s: Store, b: Block)
    requires b.height > 0 ==> s.index.tip.Some? && s.index.tip.value.0 < b.height
    requires b.height == 0 && s.index.tip.None? ==> s.tipTree.None?
    ensures TreeUnderTip(Insert(s, b))
  {
    InsertPuts(s, b);
    if IsHistorical(s, b.height) {
      RebuildShape(HistoryCut(s, b), s.index.tip.value.0);
    } else if b.height == 0 {
      RebuildShape(TipRows(s, b), 0);
    }
    hide Rebuild;
  }

  lemma StepKept(s: Store, op: Op, g: Hash)
    requires Kept(s, g) && Allowed(s.index, op, g)
    ensures Kept(Step(s, op), g)
  {
    StepLinear(s, op, g);
    StepTree(s, op, g);
    assert !LeavesOldRow(s, op);
    StepNullifiers(s, op);
    hide Linear, NullifiersHeld, TreeUnderTip, Step;
  }

  /** The rows that an operation of a server replays to rebuild the tree have not been pruned: a backfill
      replays everything above itself, a rewind what is above the last snapshot it keeps. */
  ghost predicate ReplaysHeld(s: Store, ledger: Rows, op: Op) {
    match op
    case InsertOp(b) =>
      IsHistorical(s, b.height) ==>
        NothingPruned(HistoryCut(s, b), ledger[b.height := Coins(b)], s.index.tip.value.0)
    case RewindOp(h) => RewindGuard(s, ledger, h)
    case PruneOp(_) => true
    case ReopenOp(_) => true
  }

  /** A block on top of everything replays nothing. */
  lemma TopReplaysNothing(s: Store, ledger: Rows, b: Block, g: Hash)
    requires Sound(s, ledger) && Kept(s, g) && Sits(s.index, b, g) && !IsHistorical(s, b.height)
    ensures InsertGuard(s, ledger, b)
  {
    hide BlocksLinked, HeightOfIsInverse, NullifiersHeld, Genuine, Coins;
    assert b.height !in s.coins;
    if AppendNeedsRebuild(s, b.height) {
      TopSeed(s, b);
    }
  }

  /** The tree is below the block, and its own snapshot seeds the rebuild of the parent. */
  lemma TopSeed(s: Store, b: Block)
    requires Shape(s) && TreeUnderTip(s) && UnderTip(s.index) && AppendNeedsRebuild(s, b.height)
    requires !IsHistorical(s, b.height) && b.height !in s.index.blocks
    requires b.height > 0 ==> s.index.tip.Some? && s.index.tip.value.0 < b.height
    ensures b.height > 0 && s.tipTree.Some? && s.tipTree.value.height < b.height
    ensures ReplayFrom(TipRows(s, b), b.height - 1) > s.tipTree.value.height
  {
    var rows := TipRows(s, b);
    assert s.tipTree.value.height in rows.snaps;
  }

  /** The guards of `StepSound` come down to that. */
  lemma GuardIsReplay(s: Store, ledger: Rows, op: Op, g: Hash)
    requires Sound(s, ledger) && Kept(s, g) && Allowed(s.index, op, g)
    ensures Guard(s, ledger, op) <==> ReplaysHeld(s, ledger, op)
  {
    if op.InsertOp? {
      if IsHistorical(s, op.block.height) {
        assert op.block.height !in s.coins;
        hide NothingPruned;
      } else {
        TopReplaysNothing(s, ledger, op.block, g);
      }
    }
    hide Kept, Sound, NothingPruned;
  }
}
