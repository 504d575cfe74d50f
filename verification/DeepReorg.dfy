/** A reorganisation deeper than what a pruning server keeps: when the poller ends on a tip whose row is
    gone, and why it then never moves again. */
module DeepReorg {
  import opened Chain
  import opened CacheStore
  import opened Poller
  import opened PollerConvergence
  import opened PollerSafety
  import opened PruneHazard
  import opened PrunedRuns

  /** The tip keys point at a row that is not there. */
  predicate Dangling(i: Index) {
    i.tip.Some? && i.tip.value.0 !in i.blocks
  }

  ghost predicate NoneAgrees(i: Index, chain: seq<Block>, low: int, high: nat) {
    forall k: nat :: low <= k <= high ==> !Agrees(i, chain, k)
  }

  /** The node is at least as tall as the cache and has another block at the tip. */
  predicate TipReplaced(i: Index, chain: seq<Block>) {
    i.tip.Some? && i.tip.value.0 < |chain| && chain[i.tip.value.0].hash != i.tip.value.1
  }

  /** The walk passes nothing that agrees and gives up at a height that has no row. */
  ghost predicate WalkGivesUp(i: Index, chain: seq<Block>) {
    && i.tip.Some? && i.tip.value.0 > MAX_WALK && i.tip.value.0 - MAX_WALK !in i.blocks
    && NoneAgrees(i, chain, i.tip.value.0 - MAX_WALK, i.tip.value.0)
  }

  /** Where the walk ends: at the first height both have, at 0, or where it gives up. */
  lemma {:induction false} WalkLands(s: Store, remote: Remote, chain: seq<Block>, calls: nat, h: nat, walked: nat)
      returns (r: nat)
    requires Serves(remote, chain) && walked <= MAX_WALK
    ensures WalkBack(s, remote, calls, h, walked).store == Rewind(s, r)
    ensures r <= h && walked + (h - r) <= MAX_WALK && NoneAgrees(s.index, chain, r + 1, h)
    ensures Agrees(s.index, chain, r) || r == 0 || walked + (h - r) == MAX_WALK
    decreases h
  {
    hide Rewind;
    assert RightReply(remote.blockAt(calls, h), chain, h);
    if Agrees(s.index, chain, h) || h == 0 || walked >= MAX_WALK {
      r := h;
    } else if h in s.index.hashes {
      r := WalkLands(s, remote, chain, calls + 1, h - 1, walked + 1);
    } else {
      r := WalkLands(s, remote, chain, calls, h - 1, walked + 1);
    }
  }

  lemma ReorgPoll(s: Store, remote: Remote, chain: seq<Block>, calls: nat, batch: nat) returns (next: nat)
    requires Serves(remote, chain) && TipReplaced(s.index, chain) && 0 in s.index.blocks
    ensures PollOnce(s, remote, calls, batch).store == WalkBack(s, remote, next, s.index.tip.value.0, 0).store
  {
    hide WalkBack;
    var t := s.index.tip.value.0;
    assert RightReply(remote.blockAt(calls + 1, t), chain, t);
    next := if t == |chain| - 1 then calls + 1 else calls + 2;
  }

  /** The poll rewinds to a height `r`, and the tip dangles exactly when there is no row at `r`. */
  lemma RewoundTip(s: Store, r: nat, g: Hash)
    requires Linear(s.index, g) && s.index.tip.Some? && r <= s.index.tip.value.0 && 0 in s.index.blocks
    ensures Dangling(Rewind(s, r).index) <==> r !in s.index.blocks
    ensures r !in s.index.blocks ==> Rewind(s, r).index.tip == s.index.tip
    ensures 0 in Rewind(s, r).index.blocks
  {
    RewoundIndex(s, r);
    CutRows(s, r);
    hide Rewind, RewindCut, Linear;
  }

  /** A poll of a node with another block at the tip leaves a dangling tip exactly when the walk gives up
      at a height that has no row: nothing that is cached on the way agrees, and that height was pruned. */
  lemma DanglesExactlyWhen(s: Store, remote: Remote, chain: seq<Block>, calls: nat, batch: nat, g: Hash)
    requires Linear(s.index, g) && Serves(remote, chain) && TipReplaced(s.index, chain) && 0 in s.index.blocks
    ensures Dangling(PollOnce(s, remote, calls, batch).store.index) <==> WalkGivesUp(s.index, chain)
  {
    hide Rewind, PollOnce, WalkBack, Serves;
    var next := ReorgPoll(s, remote, chain, calls, batch);
    var r := WalkLands(s, remote, chain, next, s.index.tip.value.0, 0);
    RewoundTip(s, r, g);
    assert Agrees(s.index, chain, r) ==> r in s.index.blocks;
  }

  /** Nothing is cached where the walk looks. */
  ghost predicate Stranded(i: Index) {
    && 0 in i.blocks && i.tip.Some? && i.tip.value.0 > MAX_WALK
    && forall k: nat :: i.tip.value.0 - MAX_WALK <= k <= i.tip.value.0 ==> k !in i.blocks && k !in i.hashes
  }

  lemma StrandedPoll(s: Store, remote: Remote, chain: seq<Block>, calls: nat, batch: nat, g: Hash)
    requires Linear(s.index, g) && Stranded(s.index) && Serves(remote, chain) && TipReplaced(s.index, chain)
    ensures PollOnce(s, remote, calls, batch).store.index == s.index
  {
    var next := ReorgPoll(s, remote, chain, calls, batch);
    var r := WalkLands(s, remote, chain, next, s.index.tip.value.0, 0);
    hide PollOnce, WalkBack, Serves, Rewind;
    assert r == s.index.tip.value.0 - MAX_WALK;
    NothingAbove(s, r);
    RewoundIndex(s, r);
  }

  lemma NothingAbove(s: Store, r: nat)
    requires r > 0 && r !in s.index.blocks && forall k :: k in s.index.blocks ==> k <= r
    ensures RewindCut(s, r).index == s.index
  {
    assert Above(s, r) == {};
  }

  lemma {:induction false} StrandedForever(s: Store, remote: Remote, chain: seq<Block>, calls: nat, batch: nat, g: Hash,
                                           n: nat)
    requires Linear(s.index, g) && Stranded(s.index) && Serves(remote, chain) && TipReplaced(s.index, chain)
    ensures PollMany(s, remote, calls, batch, n).index == s.index
    decreases n
  {
    hide Linear, Stranded, Serves, TipReplaced, PollOnce;
    if n > 0 {
      StrandedPoll(s, remote, chain, calls, batch, g);
      var p := PollOnce(s, remote, calls, batch);
      StrandedForever(p.store, remote, chain, p.calls, batch, g, n - 1);
    }
  }

  lemma PollStrands(s: Store, remote: Remote, chain: seq<Block>, calls: nat, batch: nat, g: Hash)
    requires Linear(s.index, g) && Serves(remote, chain) && TipReplaced(s.index, chain) && 0 in s.index.blocks
    requires WalkGivesUp(s.index, chain)
    ensures var p := PollOnce(s, remote, calls, batch).store.index;
            Linear(p, g) && Stranded(p) && p.tip == s.index.tip
  {
    hide PollOnce, WalkBack, Serves, Rewind, RewindCut, BlocksLinked, HeightOfIsInverse;
    var t := s.index.tip.value.0;
    var next := ReorgPoll(s, remote, chain, calls, batch);
    var r := WalkLands(s, remote, chain, next, t, 0);
    assert Agrees(s.index, chain, r) ==> r in s.index.blocks;
    assert r == t - MAX_WALK;
    StepLinear(s, RewindOp(r), g);
    RewoundIndex(s, r);
    CutRows(s, r);
  }

  lemma StrandedHasZero(i: Index)
    requires Stranded(i)
    ensures 0 in i.blocks && i.tip.Some?
  {
  }

  lemma DanglingIsNotSettled(i: Index, chain: seq<Block>)
    requires Stranded(i) && i.tip.value.0 < |chain|
    ensures Dangling(i) && !Settled(i, chain)
  {
    assert !Agrees(i, chain, i.tip.value.0);
  }

  /** After such a poll the server never moves again, however often it polls a node that stays on its
      chain: the tip it reports is a block it has removed, and it does not follow the chain. */
  lemma DeepReorgStrands(s: Store, remote: Remote, chain: seq<Block>, calls: nat, batch: nat, g: Hash, n: nat)
    requires Linear(s.index, g) && Serves(remote, chain) && TipReplaced(s.index, chain) && 0 in s.index.blocks
    requires WalkGivesUp(s.index, chain) && n > 0
    ensures var end := PollMany(s, remote, calls, batch, n).index;
            end.tip == s.index.tip && Dangling(end) && !Settled(end, chain)
  {
    hide Linear, Stranded, Serves, PollOnce, WalkGivesUp, Settled, Dangling;
    PollStrands(s, remote, chain, calls, batch, g);
    var p := PollOnce(s, remote, calls, batch);
    StrandedHasZero(p.store.index);
    StrandedForever(p.store, remote, chain, p.calls, batch, g, n - 1);
    DanglingIsNotSettled(p.store.index, chain);
  }

  // ---- a pruning server meets a deep reorganisation ----

  lemma HeldIsLinear(i: Index)
    requires ChainHeld(i) && 1 in i.blocks
    ensures 0 in i.blocks && Linear(i, i.blocks[0].hash)
  {
    assert LinkedAt(i, 1);
    hide HeightOfIsInverse, Genuine;
  }

  /** Once heights 0 and 1 are pruned the rows say nothing of block 0. */
  lemma PrunedIsLinear(s: Store, min: nat, g: Hash)
    requires ChainHeld(s.index) && s.index.tip.Some? && 1 < min <= s.index.tip.value.0
    ensures Linear(Prune(s, min).index, g)
  {
    HeldIsLinear(s.index);
    PruneLinear(s, min, s.index.blocks[0].hash);
    PruneRows(s, min);
    hide ChainHeld, BlocksLinked, HeightOfIsInverse, UnderTip, Prune;
  }

  lemma PrunedHeights(s: Store, min: nat)
    requires ChainHeld(s.index) && s.index.tip.Some? && min <= s.index.tip.value.0
    ensures var i, j := s.index, Prune(s, min).index;
            && j.tip == i.tip
            && (forall k: nat :: k in j.blocks <==> min <= k <= i.tip.value.0)
            && (forall k: nat :: k in j.hashes ==> min <= k && k in i.hashes && j.hashes[k] == i.hashes[k])
  {
    hide BlocksLinked, HeightOfIsInverse;
  }

  lemma PutHeights(i: Index, b: Block)
    requires b.height == 0
    ensures var j := Put(i, b, i.tip);
            && (forall k: nat :: k in j.blocks <==> k == 0 || k in i.blocks)
            && (forall k: nat :: 0 < k && k in j.hashes ==> k in i.hashes && j.hashes[k] == i.hashes[k])
  {
  }

  /** The heights left after the prune and the backfill of block 0. */
  lemma BackfilledRows(s: Store, min: nat, b: Block)
    requires ChainHeld(s.index) && s.index.tip.Some? && 1 < min <= s.index.tip.value.0
    requires Genuine(b) && b.height == 0
    ensures var i, j := s.index, Insert(Prune(s, min), b).index;
            && Linear(j, b.hash) && j.tip == i.tip
            && (forall k: nat :: k in j.blocks <==> k == 0 || min <= k <= i.tip.value.0)
            && (forall k: nat :: 0 < k && k in j.hashes ==> min <= k && k in i.hashes && j.hashes[k] == i.hashes[k])
  {
    hide ChainHeld, Linear, Insert, Prune, Genuine;
    PrunedHeights(s, min);
    PrunedIsLinear(s, min, b.hash);
    PutHeights(Prune(s, min).index, b);
    InsertPuts(Prune(s, min), b);
    StepLinear(Prune(s, min), InsertOp(b), b.hash);
  }

  /** A height that is not held is not shared, and one that is held as before is shared as before. */
  lemma NoneAgreesBelow(i: Index, j: Index, chain: seq<Block>, low: nat, min: nat, t: nat)
    requires 0 < low && NoneAgrees(i, chain, min, t)
    requires forall k: nat :: 0 < k && k in j.hashes ==> min <= k && k in i.hashes && j.hashes[k] == i.hashes[k]
    ensures NoneAgrees(j, chain, low, t)
  {
    forall k: nat | low <= k <= t ensures !Agrees(j, chain, k) {
      assert Agrees(j, chain, k) ==> Agrees(i, chain, k);
    }
  }

  /** The tip of a held chain is replaced when the node's chain has another block there. */
  lemma OtherTip(i: Index, j: Index, chain: seq<Block>)
    requires ChainHeld(i) && i.tip.Some? && j.tip == i.tip && i.tip.value.0 < |chain|
    requires !Agrees(i, chain, i.tip.value.0)
    ensures TipReplaced(j, chain)
  {
    hide BlocksLinked, HeightOfIsInverse;
  }

  lemma GivesUpAfterBackfill(i: Index, j: Index, chain: seq<Block>, min: nat)
    requires i.tip.Some? && j.tip == i.tip && MAX_WALK < i.tip.value.0
    requires i.tip.value.0 - MAX_WALK < min <= i.tip.value.0
    requires forall k: nat :: k in j.blocks <==> k == 0 || min <= k <= i.tip.value.0
    requires forall k: nat :: 0 < k && k in j.hashes ==> min <= k && k in i.hashes && j.hashes[k] == i.hashes[k]
    requires NoneAgrees(i, chain, min, i.tip.value.0)
    ensures WalkGivesUp(j, chain) && 0 in j.blocks
  {
    hide NoneAgrees;
    NoneAgreesBelow(i, j, chain, i.tip.value.0 - MAX_WALK, min, i.tip.value.0);
  }

  /** What the poll after the prune leaves. */
  lemma AfterBackfill(s: Store, window: nat, remote: Remote, chain: seq<Block>, calls: nat, batch: nat)
      returns (g: Hash)
    requires PollerInv(s) && s.index.tip.Some? && 0 < window < MAX_WALK < s.index.tip.value.0
    requires FullChain(chain) && Serves(remote, chain) && s.index.tip.value.0 < |chain|
    requires NoneAgrees(s.index, chain, s.index.tip.value.0 - window, s.index.tip.value.0)
    ensures var i := PollOnce(Retain(s, window), remote, calls, batch).store.index;
            Linear(i, g) && i.tip == s.index.tip && TipReplaced(i, chain) && 0 in i.blocks && WalkGivesUp(i, chain)
  {
    assert ChainHeld(s.index);
    hide PollerInv, ChainHeld, FullChain, Serves, Linear, Insert, Prune, PollOnce, NoneAgrees, Agrees, TipReplaced;
    hide GivesGenesis, WalkGivesUp, Genuine;
    var min := s.index.tip.value.0 - window;
    var b := GenesisServed(remote, chain, calls);
    g := b.hash;
    BackfilledRows(s, min, b);
    PrunedHeights(s, min);
    BackfillPoll(Prune(s, min), remote, calls, batch);
    AgreesNot(s.index, chain, min, s.index.tip.value.0);
    OtherTip(s.index, Insert(Prune(s, min), b).index, chain);
    GivesUpAfterBackfill(s.index, Insert(Prune(s, min), b).index, chain, min);
  }

  /** A server that prunes to fewer blocks than the walk may pass, and a node whose other chain shares
      nothing with what is left: the next poll backfills block 0, and from the one after it on the server
      is stuck on a tip it no longer has. */
  lemma PrunedServerStrands(s: Store, window: nat, remote: Remote, chain: seq<Block>, calls: nat, batch: nat, n: nat)
    requires PollerInv(s) && s.index.tip.Some? && 0 < window < MAX_WALK < s.index.tip.value.0
    requires FullChain(chain) && Serves(remote, chain) && s.index.tip.value.0 < |chain|
    requires NoneAgrees(s.index, chain, s.index.tip.value.0 - window, s.index.tip.value.0) && n > 1
    ensures var end := PollMany(Retain(s, window), remote, calls, batch, n).index;
            end.tip == s.index.tip && Dangling(end) && !Settled(end, chain)
  {
    hide PollerInv, FullChain, Serves, Linear, Prune, PollOnce, Settled, Dangling, NoneAgrees, TipReplaced;
    hide WalkGivesUp;
    var g := AfterBackfill(s, window, remote, chain, calls, batch);
    var first := PollOnce(Retain(s, window), remote, calls, batch);
    DeepReorgStrands(first.store, remote, chain, first.calls, batch, g, n - 1);
  }

  lemma AgreesNot(i: Index, chain: seq<Block>, low: nat, high: nat)
    requires NoneAgrees(i, chain, low, high) && low <= high
    ensures !Agrees(i, chain, high)
  {
  }

  lemma GenesisServed(remote: Remote, chain: seq<Block>, calls: nat) returns (b: Block)
    requires FullChain(chain) && Serves(remote, chain)
    ensures GivesGenesis(remote, calls) && remote.blockAt(calls + 1, 0) == Found(b) && Genuine(b) && b.height == 0
  {
    ServesHonestly(remote, chain);
    assert RightReply(remote.blockAt(calls + 1, 0), chain, 0);
    b := remote.blockAt(calls + 1, 0).block;
  }
}
