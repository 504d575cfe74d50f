/** Against a node that stays on one chain, polling brings the cache onto that chain and then
    leaves it alone; it never deletes a block the two share. */
module PollerConvergence {
  import opened Chain
  import opened CacheStore
  import opened Poller
  import opened PollerSafety

  /** A chain that starts at height 0. */
  ghost predicate FullChain(chain: seq<Block>) {
    |chain| > 0 && chain[0].height == 0 && Linked(chain)
  }

  /** A right answer for height `h`: the block of the chain, with whatever clues and metadata the
      merge added to it this time. */
  ghost predicate RightReply(reply: Reply, chain: seq<Block>, h: nat) {
    if h < |chain| then reply.Found? && Genuine(reply.block) && SameBareBlock(reply.block, chain[h]) else reply.Missing?
  }

  /** The node stays on `chain`, with no connection errors. */
  ghost predicate Serves(remote: Remote, chain: seq<Block>) {
    && |chain| > 0
    && (forall c: nat :: remote.tipAt(c) == RemoteTip(|chain| - 1, chain[|chain| - 1].hash))
    && (forall c: nat, h: nat :: RightReply(remote.blockAt(c, h), chain, h))
  }

  /** Cache and node hold the same block at `k`. */
  predicate Agrees(i: Index, chain: seq<Block>, k: nat) {
    k in i.hashes && k < |chain| && i.hashes[k] == chain[k].hash
  }

  function CommonFrom(i: Index, chain: seq<Block>, k: nat): (n: nat)
    ensures k <= n && !Agrees(i, chain, n)
    ensures forall j :: k <= j < n ==> Agrees(i, chain, j)
    decreases if k < |chain| then |chain| - k else 0
  {
    if Agrees(i, chain, k) then CommonFrom(i, chain, k + 1) else k
  }

  /** Number of heights, from 0, that cache and node share. */
  function Common(i: Index, chain: seq<Block>): nat {
    CommonFrom(i, chain, 0)
  }

  ghost predicate SharesGenesis(i: Index, chain: seq<Block>) {
    i.tip.Some? ==> Agrees(i, chain, 0)
  }

  /** Cached blocks off the node's chain, then node blocks not cached yet. */
  function Measure(i: Index, chain: seq<Block>): int {
    (Held(i) - Common(i, chain)) + (|chain| - Common(i, chain))
  }

  /** The cache holds the node's chain or an extension of it. */
  ghost predicate Settled(i: Index, chain: seq<Block>) {
    Common(i, chain) == |chain|
  }

  // ---- the fork point ----

  lemma {:induction false} ChainHeights(chain: seq<Block>, k: nat)
    requires FullChain(chain) && k < |chain|
    ensures chain[k].height == k && Genuine(chain[k])
  {
    if k > 0 {
      ChainHeights(chain, k - 1);
      assert IsSuccessor(chain[k - 1], chain[k]);
    }
  }

  /** Agreement at a height goes down to its parent: the hash fixes the previous hash. */
  lemma AgreesBelow(i: Index, chain: seq<Block>, k: nat)
    requires ChainHeld(i) && FullChain(chain) && Agrees(i, chain, k) && k > 0
    ensures Agrees(i, chain, k - 1)
  {
    HashFixesBlock(i.blocks[k], chain[k]);
    assert IsSuccessor(chain[k - 1], chain[k]) && LinkedAt(i, k);
    assert k - 1 < Held(i);
  }

  lemma {:induction false} AgreesDown(i: Index, chain: seq<Block>, k: nat, j: nat)
    requires ChainHeld(i) && FullChain(chain) && Agrees(i, chain, k) && j <= k
    ensures Agrees(i, chain, j)
    decreases k
  {
    if j < k {
      AgreesBelow(i, chain, k);
      AgreesDown(i, chain, k - 1, j);
    }
  }

  lemma CommonIsForkPoint(i: Index, chain: seq<Block>, k: nat)
    requires ChainHeld(i) && FullChain(chain)
    ensures Agrees(i, chain, k) <==> k < Common(i, chain)
    ensures Common(i, chain) <= Held(i) && Common(i, chain) <= |chain|
  {
    if Agrees(i, chain, k) && Common(i, chain) <= k {
      AgreesDown(i, chain, k, Common(i, chain));
    }
    if Common(i, chain) > 0 {
      assert Agrees(i, chain, Common(i, chain) - 1);
    }
  }

  lemma CommonIs(i: Index, chain: seq<Block>, n: nat)
    requires ChainHeld(i) && FullChain(chain)
    requires (n > 0 ==> Agrees(i, chain, n - 1)) && !Agrees(i, chain, n)
    ensures Common(i, chain) == n
  {
    hide ChainHeld, FullChain, Agrees;
    CommonIsForkPoint(i, chain, n);
    if n > 0 {
      CommonIsForkPoint(i, chain, n - 1);
    }
  }

  lemma CommonAfterRewind(i: Index, chain: seq<Block>, r: nat)
    requires ChainHeld(i) && FullChain(chain) && r in i.blocks && Common(i, chain) <= r + 1
    ensures Common(Shortened(i, r), chain) == Common(i, chain) && Held(Shortened(i, r)) == r + 1
  {
    ShortenedHeld(i, r);
    var n := Common(i, chain);
    assert n > 0 ==> Agrees(i, chain, n - 1) && n - 1 in Shortened(i, r).hashes;
    assert !Agrees(i, chain, n);
    hide ChainHeld, FullChain;
    CommonIs(Shortened(i, r), chain, n);
  }

  lemma CommonAfterInsert(i: Index, chain: seq<Block>, b: Block)
    requires ChainHeld(i) && FullChain(chain) && Common(i, chain) == Held(i) < |chain|
    requires Genuine(b) && SameBareBlock(b, chain[Held(i)])
    ensures Awaited(i, b)
    ensures Common(Extended(i, b), chain) == Held(Extended(i, b)) == Held(i) + 1
  {
    var n := Held(i);
    ChainHeights(chain, n);
    if n > 0 {
      assert Agrees(i, chain, n - 1) && IsSuccessor(chain[n - 1], chain[n]);
    }
    ExtendedHeld(i, b);
    assert n + 1 !in Extended(i, b).hashes;
    hide ChainHeld, FullChain, Awaited, Genuine;
    CommonIs(Extended(i, b), chain, n + 1);
  }

  // ---- one poll ----

  /** Every block below the fork point is still there, unchanged. */
  ghost predicate KeepsShared(before: Index, after: Index, chain: seq<Block>) {
    forall k: nat :: k < Common(before, chain) ==>
      k in before.blocks && k in after.blocks && after.blocks[k] == before.blocks[k]
  }

  /** What a poll that changes the cache achieves. */
  ghost predicate Advanced(before: Store, after: Store, chain: seq<Block>) {
    && PollerInv(after) && SharesGenesis(after.index, chain)
    && KeepsShared(before.index, after.index, chain) && Common(before.index, chain) <= Common(after.index, chain)
    && Measure(after.index, chain) < Measure(before.index, chain)
  }

  /** The walk rewinds to a height at or above the fork point, below `h` unless `h` is common. */
  lemma {:induction false} WalkBackLands(s: Store, remote: Remote, chain: seq<Block>, calls: nat, h: nat, walked: nat)
      returns (r: nat)
    requires PollerInv(s) && FullChain(chain) && Serves(remote, chain) && Agrees(s.index, chain, 0)
    requires h < Held(s.index) && Common(s.index, chain) <= h + 1
    ensures WalkBack(s, remote, calls, h, walked).store == Rewind(s, r)
    ensures r <= h && Common(s.index, chain) <= r + 1
    ensures r == h ==> Agrees(s.index, chain, h) || walked >= MAX_WALK
    decreases h
  {
    hide Rewind, PollerInv, FullChain;
    HeldHeights(s);
    CommonBound(s, chain, h);
    if Agrees(s.index, chain, h) || h == 0 || walked >= MAX_WALK {
      r := h;
    } else {
      r := WalkBackLands(s, remote, chain, calls + 1, h - 1, walked + 1);
    }
  }

  lemma CommonBound(s: Store, chain: seq<Block>, h: nat)
    requires PollerInv(s) && FullChain(chain) && Common(s.index, chain) <= h + 1
    ensures !Agrees(s.index, chain, h) ==> Common(s.index, chain) <= h
  {
    CommonIsForkPoint(s.index, chain, h);
  }

  lemma ShortenedKeepsShared(i: Index, chain: seq<Block>, r: nat)
    requires ChainHeld(i) && FullChain(chain) && r in i.blocks && Common(i, chain) <= r + 1
    ensures KeepsShared(i, Shortened(i, r), chain)
  {
    CommonIsForkPoint(i, chain, 0);
  }

  lemma ExtendedKeepsShared(i: Index, chain: seq<Block>, b: Block)
    requires Contiguous(i) && Common(i, chain) <= Held(i) && b.height == Held(i)
    ensures KeepsShared(i, Extended(i, b), chain)
  {
  }

  lemma KeepsSharedThrough(a: Index, b: Index, c: Index, chain: seq<Block>)
    requires KeepsShared(a, b, chain) && KeepsShared(b, c, chain) && Common(a, chain) <= Common(b, chain)
    ensures KeepsShared(a, c, chain)
  {
  }

  lemma RewindAdvances(s: Store, chain: seq<Block>, r: nat)
    requires PollerInv(s) && FullChain(chain) && Agrees(s.index, chain, 0)
    requires r + 1 < Held(s.index) && Common(s.index, chain) <= r + 1
    ensures Advanced(s, Rewind(s, r), chain)
  {
    hide PollerInv, FullChain, Rewind, KeepsShared, Common, Agrees, Shortened;
    HeldHeights(s);
    RewindKeepsInv(s, r);
    RewindOnChain(s, chain, r);
  }

  lemma RewindOnChain(s: Store, chain: seq<Block>, r: nat)
    requires PollerInv(s) && FullChain(chain) && Agrees(s.index, chain, 0)
    requires r in s.index.blocks && Common(s.index, chain) <= r + 1
    ensures var i := Shortened(s.index, r);
            && Common(i, chain) == Common(s.index, chain) && Held(i) == r + 1 && Agrees(i, chain, 0)
            && KeepsShared(s.index, i, chain)
  {
    assert ChainHeld(s.index);
    hide PollerInv, ChainHeld, FullChain, KeepsShared, Common, Agrees, Shortened;
    CommonAfterRewind(s.index, chain, r);
    ShortenedKeepsShared(s.index, chain, r);
    CommonIsForkPoint(s.index, chain, 0);
    ShortenedHeld(s.index, r);
    CommonIsForkPoint(Shortened(s.index, r), chain, 0);
  }

  /** A reorg found at `from`: the walk stops at the fork point or as far down as it may go. */
  lemma ReorgAdvances(s: Store, remote: Remote, chain: seq<Block>, calls: nat, from: nat)
    requires PollerInv(s) && FullChain(chain) && Serves(remote, chain) && Agrees(s.index, chain, 0)
    requires from < Held(s.index) && !Agrees(s.index, chain, from)
    ensures Advanced(s, WalkBack(s, remote, calls, from, 0).store, chain)
  {
    assert ChainHeld(s.index);
    CommonIsForkPoint(s.index, chain, from);
    hide PollerInv, ChainHeld, FullChain, Rewind, WalkBack, Advanced, Serves, Common;
    var r := WalkBackLands(s, remote, chain, calls, from, 0);
    RewindAdvances(s, chain, r);
  }

  /** The next block the node serves is the one the cache awaits. */
  lemma FetchStep(s: Store, chain: seq<Block>, b: Block)
    requires PollerInv(s) && FullChain(chain) && Common(s.index, chain) == Held(s.index) < |chain|
    requires Genuine(b) && SameBareBlock(b, chain[Held(s.index)])
    ensures var next := Insert(s, b);
            && !BreaksLink(s, Held(s.index), b) && PollerInv(next) && KeepsShared(s.index, next.index, chain)
            && Common(next.index, chain) == Held(next.index) == Held(s.index) + 1
  {
    assert ChainHeld(s.index) && Contiguous(s.index);
    ChainHeights(chain, Held(s.index));
    hide PollerInv, ChainHeld, FullChain, Insert, Common, Awaited, KeepsShared, Extended, BreaksLink;
    hide Contiguous, Genuine;
    CommonAfterInsert(s.index, chain, b);
    InsertKeepsInv(s, b);
    AwaitedLinks(s, b);
    ExtendedKeepsShared(s.index, chain, b);
  }

  /** Fetching from the tip of a cache that is a prefix of the node's chain. */
  lemma {:induction false} FetchFollowsChain(s: Store, remote: Remote, chain: seq<Block>, calls: nat,
                                             height: nat, end: nat, done: nat)
    requires PollerInv(s) && FullChain(chain) && Serves(remote, chain)
    requires Common(s.index, chain) == Held(s.index) == height && height <= end + 1 <= |chain|
    ensures var p := FetchFrom(s, remote, calls, height, end, done).store;
            PollerInv(p) && Common(p.index, chain) == Held(p.index) == end + 1 && KeepsShared(s.index, p.index, chain)
    decreases end + 1 - height
  {
    hide PollerInv, FullChain, Insert, Common, WalkBack, KeepsShared, BreaksLink, Genuine, SameBareBlock;
    if height <= end {
      assert RightReply(remote.blockAt(calls, height), chain, height);
      var b := remote.blockAt(calls, height).block;
      FetchStep(s, chain, b);
      var p := FetchFrom(Insert(s, b), remote, calls + 1, height + 1, end, done + 1).store;
      FetchFollowsChain(Insert(s, b), remote, chain, calls + 1, height + 1, end, done + 1);
      KeepsSharedThrough(s.index, Insert(s, b).index, p.index, chain);
    } else {
      SameKeepsShared(s, chain);
    }
  }

  lemma SameKeepsShared(s: Store, chain: seq<Block>)
    requires PollerInv(s) && FullChain(chain)
    ensures KeepsShared(s.index, s.index, chain)
  {
    HeldHeights(s);
    CommonIsForkPoint(s.index, chain, 0);
  }

  lemma AwaitedLinks(s: Store, b: Block)
    requires Awaited(s.index, b)
    ensures !BreaksLink(s, b.height, b)
  {
  }

  lemma FetchAdvances(s: Store, remote: Remote, chain: seq<Block>, calls: nat, end: nat)
    requires PollerInv(s) && FullChain(chain) && Serves(remote, chain)
    requires Common(s.index, chain) == Held(s.index) <= end < |chain|
    ensures Advanced(s, FetchFrom(s, remote, calls, Held(s.index), end, 0).store, chain)
  {
    hide FetchFrom, PollerInv, FullChain, Serves, KeepsShared;
    FetchFollowsChain(s, remote, chain, calls, Held(s.index), end, 0);
  }

  /** The node's answer for the cached tip. */
  function NodeHashAt(chain: seq<Block>, h: nat): Option<Hash> {
    if h < |chain| then Some(chain[h].hash) else None
  }

  /** What the poller has to do, told from the chain rather than from the answers. */
  function Due(i: Index, chain: seq<Block>): TipAction
    requires |chain| > 0 && Held(i) > 0
  {
    var top, last := Held(i) - 1, |chain| - 1;
    if top > last then (if Agrees(i, chain, last) then HoldForBackendCatchup else ReorgFrom(last))
    else if !Agrees(i, chain, top) then ReorgFrom(top)
    else if top == last then Idle
    else Fetch(top + 1, last)
  }

  lemma TipsClassified(i: Index, chain: seq<Block>)
    requires Contiguous(i) && |chain| > 0 && Held(i) > 0
    ensures ClassifyTips(i.tip, |chain| - 1, chain[|chain| - 1].hash, Lookup(i.hashes, |chain| - 1),
                         NodeHashAt(chain, Held(i) - 1))
            == Due(i, chain)
  {
  }

  /** The action that the tips call for leaves a settled cache alone and otherwise makes progress. */
  lemma DueAdvances(s: Store, remote: Remote, chain: seq<Block>, calls: nat, batch: nat)
    requires Held(s.index) > 0 && |chain| > 0 && Agrees(s.index, chain, 0)
    requires PollerInv(s) && FullChain(chain) && Serves(remote, chain)
    ensures var p := Perform(s, remote, calls, batch, Due(s.index, chain));
            if Settled(s.index, chain) then p == Polled(s, calls, Processed(0)) else Advanced(s, p.store, chain)
  {
    hide PollerInv, FullChain, WalkBack, FetchFrom, Advanced, Serves, Agrees;
    TopAgreement(s, chain);
    match Due(s.index, chain)
    case Idle =>
    case HoldForBackendCatchup =>
    case ReorgFrom(h) => ReorgAdvances(s, remote, chain, calls, h);
    case Fetch(from, to) => FetchAdvances(s, remote, chain, calls, BatchEnd(from, to, batch));
  }

  lemma TopAgreement(s: Store, chain: seq<Block>)
    requires PollerInv(s) && FullChain(chain) && Held(s.index) > 0
    ensures Agrees(s.index, chain, |chain| - 1) <==> Settled(s.index, chain)
    ensures Agrees(s.index, chain, Held(s.index) - 1) <==> Common(s.index, chain) == Held(s.index)
  {
    assert ChainHeld(s.index);
    CommonIsForkPoint(s.index, chain, |chain| - 1);
    CommonIsForkPoint(s.index, chain, Held(s.index) - 1);
    hide PollerInv, ChainHeld, FullChain, Common, Agrees;
  }

  lemma FirstFetchAdvances(s: Store, remote: Remote, chain: seq<Block>, calls: nat, batch: nat)
    requires PollerInv(s) && FullChain(chain) && Serves(remote, chain) && Held(s.index) == 0
    ensures Advanced(s, FetchRange(s, remote, calls, 0, 0, batch).store, chain) && !Settled(s.index, chain)
  {
    CommonIsForkPoint(s.index, chain, 0);
    hide PollerInv, ChainHeld, FetchFrom, Advanced, Common, Serves;
    FetchAdvances(s, remote, chain, calls, 0);
  }

  /** The answers of the node make the poller do what is due. */
  lemma PollIsDue(s: Store, remote: Remote, chain: seq<Block>, calls: nat, batch: nat) returns (next: nat)
    requires Held(s.index) > 0 && |chain| > 0
    requires Contiguous(s.index) && Serves(remote, chain)
    ensures PollOnce(s, remote, calls, batch) == Perform(s, remote, next, batch, Due(s.index, chain))
  {
    hide Perform, Due, ClassifyTips;
    TipsClassified(s.index, chain);
    next := if s.index.tip.value.0 == |chain| - 1 then calls + 1 else calls + 2;
    assert 0 in s.index.blocks;
  }

  /** One poll of a node that stays on a chain with the cached genesis: a settled cache is left
      alone, any other comes closer, and no block the two share is deleted. */
  lemma PollAdvances(s: Store, remote: Remote, chain: seq<Block>, calls: nat, batch: nat)
    requires PollerInv(s) && FullChain(chain) && Serves(remote, chain) && SharesGenesis(s.index, chain)
    ensures var p := PollOnce(s, remote, calls, batch);
            if Settled(s.index, chain) then p.store == s && p.outcome == Processed(0)
            else Advanced(s, p.store, chain)
  {
    if Held(s.index) == 0 {
      HeldHeights(s);
      assert remote.tipAt(calls).RemoteTip?;
      hide PollerInv, FullChain, Common, FetchRange, Advanced, Serves;
      FirstFetchAdvances(s, remote, chain, calls + 1, batch);
    } else {
      var next := PollIsDue(s, remote, chain, calls, batch);
      hide PollerInv, FullChain, Common, Perform, Advanced, Serves, PollOnce, Due;
      DueAdvances(s, remote, chain, next, batch);
    }
  }

  // ---- polling converges, exactly when the genesis is shared ----

  function PollMany(s: Store, remote: Remote, calls: nat, batch: nat, n: nat): Store
    decreases n
  {
    if n == 0 then s
    else
      var p := PollOnce(s, remote, calls, batch);
      PollMany(p.store, remote, p.calls, batch, n - 1)
  }

  lemma MeasureIsNatural(s: Store, chain: seq<Block>)
    requires PollerInv(s) && FullChain(chain)
    ensures Measure(s.index, chain) >= 0
    ensures Measure(s.index, chain) == 0 ==> Settled(s.index, chain)
  {
    CommonIsForkPoint(s.index, chain, 0);
  }

  lemma {:induction false} PollingConverges(s: Store, remote: Remote, chain: seq<Block>, calls: nat, batch: nat, n: nat)
    requires PollerInv(s) && FullChain(chain) && Serves(remote, chain) && SharesGenesis(s.index, chain)
    requires n >= Measure(s.index, chain)
    ensures var end := PollMany(s, remote, calls, batch, n);
            PollerInv(end) && Settled(end.index, chain) && KeepsShared(s.index, end.index, chain)
    decreases n
  {
    hide PollerInv, FullChain, Common, PollOnce, Serves, SharesGenesis, KeepsShared, Settled, Measure;
    MeasureIsNatural(s, chain);
    SameKeepsShared(s, chain);
    if Settled(s.index, chain) {
      SettledStays(s, remote, chain, calls, batch, n);
    } else {
      PollAdvances(s, remote, chain, calls, batch);
      var p := PollOnce(s, remote, calls, batch);
      PollingConverges(p.store, remote, chain, p.calls, batch, n - 1);
      KeepsSharedThrough(s.index, p.store.index, PollMany(p.store, remote, p.calls, batch, n - 1).index, chain);
    }
  }

  lemma {:induction false} SettledStays(s: Store, remote: Remote, chain: seq<Block>, calls: nat, batch: nat, n: nat)
    requires PollerInv(s) && FullChain(chain) && Serves(remote, chain) && SharesGenesis(s.index, chain)
    requires Settled(s.index, chain)
    ensures PollMany(s, remote, calls, batch, n) == s
    decreases n
  {
    hide PollerInv, FullChain, Settled, PollOnce, Serves, SharesGenesis;
    if n > 0 {
      PollAdvances(s, remote, chain, calls, batch);
      SettledStays(s, remote, chain, PollOnce(s, remote, calls, batch).calls, batch, n - 1);
    }
  }

  lemma ServesHonestly(remote: Remote, chain: seq<Block>)
    requires FullChain(chain) && Serves(remote, chain)
    ensures Honest(remote)
  {
    forall c: nat, h: nat | remote.blockAt(c, h).Found?
      ensures Genuine(remote.blockAt(c, h).block) && remote.blockAt(c, h).block.height == h
    {
      assert RightReply(remote.blockAt(c, h), chain, h);
      ChainHeights(chain, h);
    }
  }

  lemma {:induction false} PollingKeepsGenesis(s: Store, remote: Remote, calls: nat, batch: nat, n: nat)
    requires PollerInv(s) && Honest(remote)
    ensures KeepsGenesis(s, PollMany(s, remote, calls, batch, n))
    decreases n
  {
    hide PollerInv, Honest, PollOnce;
    if n > 0 {
      PollSafe(s, remote, calls, batch);
      var p := PollOnce(s, remote, calls, batch);
      PollingKeepsGenesis(p.store, remote, p.calls, batch, n - 1);
    }
  }

  /** Polling long enough settles the cache on the node's chain if and only if the cache is empty or
      its block 0 is the node's. */
  lemma SettlesExactlyWhenGenesisShared(s: Store, remote: Remote, chain: seq<Block>, calls: nat, batch: nat, n: nat)
    requires PollerInv(s) && FullChain(chain) && Serves(remote, chain) && n >= Measure(s.index, chain)
    ensures Settled(PollMany(s, remote, calls, batch, n).index, chain) <==> SharesGenesis(s.index, chain)
  {
    HeldHeights(s);
    hide PollerInv, FullChain, PollMany, Serves;
    if SharesGenesis(s.index, chain) {
      PollingConverges(s, remote, chain, calls, batch, n);
    } else {
      ServesHonestly(remote, chain);
      PollingKeepsGenesis(s, remote, calls, batch, n);
      assert !Agrees(PollMany(s, remote, calls, batch, n).index, chain, 0);
      assert |chain| > 0 by { NonEmpty(chain); }
    }
  }

  lemma NonEmpty(chain: seq<Block>)
    requires FullChain(chain)
    ensures |chain| > 0
  {
  }

  /** A settled cache holds the node's blocks, up to what this server adds to outputs. */
  lemma SettledMeansSameChain(s: Store, chain: seq<Block>, k: nat)
    requires PollerInv(s) && FullChain(chain) && Settled(s.index, chain) && k < |chain|
    ensures k in s.index.blocks && SameBareBlock(s.index.blocks[k], chain[k])
  {
    HeldHeights(s);
    CommonIsForkPoint(s.index, chain, k);
    ChainHeights(chain, k);
    assert Genuine(s.index.blocks[k]) && s.index.hashes[k] == s.index.blocks[k].hash;
    HashFixesBlock(s.index.blocks[k], chain[k]);
  }
}
