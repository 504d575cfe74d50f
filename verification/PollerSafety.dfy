/** Whatever the node answers, a cache filled by the poller alone holds one chain, and its trees
    are plain replay of that chain. */
module PollerSafety {
  import opened Chain
  import opened Replay
  import opened CacheStore
  import opened CacheRetention
  import opened CacheNullifiers
  import opened CacheSoundness
  import opened Poller

  function Held(i: Index): nat {
    if i.tip.Some? then i.tip.value.0 + 1 else 0
  }

  /** The cached heights are exactly 0..=tip. */
  ghost predicate Contiguous(i: Index) {
    && (forall k: nat :: k in i.blocks <==> k < Held(i))
    && (forall k: nat :: k in i.hashes <==> k < Held(i))
    && (i.tip.Some? ==> i.hashes[i.tip.value.0] == i.tip.value.1)
  }

  predicate LinkedAt(i: Index, k: nat) {
    k > 0 && k in i.blocks && k - 1 in i.hashes ==> i.blocks[k].prevHash == i.hashes[k - 1]
  }

  /** Every block is stored at its height under its own hash and extends the one before it. */
  ghost predicate BlocksLinked(i: Index) {
    && (forall k :: k in i.blocks ==> i.blocks[k].height == k && Genuine(i.blocks[k]))
    && (forall k :: k in i.blocks ==> k in i.hashes && i.hashes[k] == i.blocks[k].hash)
    && (forall k {:trigger LinkedAt(i, k)} :: LinkedAt(i, k))
  }

  /** `heightOf` is the inverse of `hashes`. */
  ghost predicate HeightOfIsInverse(i: Index) {
    && (forall k :: k in i.hashes ==> i.hashes[k] in i.heightOf && i.heightOf[i.hashes[k]] == k)
    && (forall x :: x in i.heightOf ==> i.heightOf[x] in i.hashes && i.hashes[i.heightOf[x]] == x)
  }

  ghost predicate ChainHeld(i: Index) {
    Contiguous(i) && BlocksLinked(i) && HeightOfIsInverse(i)
  }

  /** The coins of every cached block. */
  function CoinsHeld(i: Index): Rows {
    map k | k in i.blocks :: Coins(i.blocks[k])
  }

  /** The tree is at the tip. */
  ghost predicate TreeAtTip(s: Store) {
    match s.index.tip
    case None => s.tipTree.None?
    case Some((top, _)) => s.tipTree.Some? && s.tipTree.value.height == top
  }

  ghost predicate PollerInv(s: Store) {
    ChainHeld(s.index) && TreeAtTip(s) && NullifiersHeld(s) && Sound(s, CoinsHeld(s.index))
  }

  /** Each answer is a block whose hash is its own, at the height asked for. */
  ghost predicate Honest(remote: Remote) {
    forall c: nat, h: nat :: remote.blockAt(c, h).Found? ==>
      Genuine(remote.blockAt(c, h).block) && remote.blockAt(c, h).block.height == h
  }

  // ---- what insert and rewind do to a held chain ----

  function Extended(i: Index, b: Block): Index {
    Index(i.blocks[b.height := b], i.hashes[b.height := b.hash], i.heightOf[b.hash := b.height],
          Some((b.height, b.hash)))
  }

  function Shortened(i: Index, h: nat): Index
    requires h in i.blocks
  {
    var gone := set k | k in i.blocks && h < k;
    Index(i.blocks - gone, i.hashes - gone, i.heightOf - set k | k in gone && k in i.hashes :: i.hashes[k],
          Some((h, i.blocks[h].hash)))
  }

  lemma InsertIndex(s: Store, b: Block)
    requires !IsHistorical(s, b.height)
    ensures Insert(s, b).index == Extended(s.index, b)
  {
    var rows := TipRows(s, b);
    RebuildKeepsNullifiers(rows, 0);
    if b.height > 0 {
      RebuildKeepsNullifiers(rows, b.height - 1);
    }
    hide Rebuild;
  }

  lemma RewindIndex(s: Store, h: nat)
    requires h in s.index.blocks
    ensures RewindCut(s, h).index == Shortened(s.index, h)
    ensures Rewind(s, h).index == Shortened(s.index, h)
  {
    RebuildKeepsNullifiers(RewindCut(s, h), h);
    hide Rebuild;
  }

  /** `b` is the block the chain held by `i` is waiting for. */
  ghost predicate Awaited(i: Index, b: Block) {
    && b.height == Held(i) && Genuine(b)
    && (b.height > 0 ==> b.height - 1 in i.hashes && b.prevHash == i.hashes[b.height - 1])
  }

  lemma AwaitedHashIsNew(i: Index, b: Block)
    requires ChainHeld(i) && Awaited(i, b)
    ensures b.hash !in i.heightOf && b.height !in i.blocks
  {
    forall k | k in i.hashes ensures i.hashes[k] != b.hash {
      assert i.blocks[k].height == k;
    }
  }

  lemma ExtendedHeld(i: Index, b: Block)
    requires ChainHeld(i) && Awaited(i, b)
    ensures ChainHeld(Extended(i, b)) && Held(Extended(i, b)) == Held(i) + 1
  {
    AwaitedHashIsNew(i, b);
    ExtendedInverse(i, b);
    ExtendedLinked(i, b);
    hide HeightOfIsInverse, BlocksLinked, Genuine;
    assert Contiguous(Extended(i, b));
  }

  lemma ExtendedLinked(i: Index, b: Block)
    requires BlocksLinked(i) && Contiguous(i) && Awaited(i, b)
    ensures BlocksLinked(Extended(i, b))
  {
    hide Genuine;
    forall k ensures LinkedAt(Extended(i, b), k) {
      assert LinkedAt(i, k);
    }
  }

  lemma ExtendedInverse(i: Index, b: Block)
    requires HeightOfIsInverse(i) && b.hash !in i.heightOf && b.height !in i.hashes
    ensures HeightOfIsInverse(Extended(i, b))
  {
  }

  lemma ShortenedHeld(i: Index, h: nat)
    requires ChainHeld(i) && h in i.blocks
    ensures ChainHeld(Shortened(i, h)) && Held(Shortened(i, h)) == h + 1
  {
    ShortenedInverse(i, h);
    hide HeightOfIsInverse, Genuine;
    var c := Shortened(i, h);
    assert Contiguous(c);
    forall k ensures LinkedAt(c, k) {
      assert LinkedAt(i, k);
    }
  }

  lemma ShortenedInverse(i: Index, h: nat)
    requires HeightOfIsInverse(i) && h in i.blocks && forall k :: k in i.hashes ==> k in i.blocks
    ensures HeightOfIsInverse(Shortened(i, h))
  {
  }

  // ---- the guards always hold for the poller ----

  lemma CoinsHeldExtended(i: Index, b: Block)
    ensures CoinsHeld(Extended(i, b)) == CoinsHeld(i)[b.height := Coins(b)]
  {
  }

  lemma CoinsHeldShortened(i: Index, h: nat)
    requires h in i.blocks
    ensures CoinsHeld(Shortened(i, h)) == Upto(CoinsHeld(i), h)
  {
  }

  /** With nothing pruned, no rebuild can miss a row. */
  lemma NothingPrunedWhenHeld(s: Store, t: nat)
    requires RowsSound(s, CoinsHeld(s.index))
    ensures NothingPruned(s, CoinsHeld(s.index), t)
  {
  }

  lemma PollerInsertGuard(s: Store, b: Block)
    requires PollerInv(s) && Awaited(s.index, b)
    ensures !IsHistorical(s, b.height) && (AppendNeedsRebuild(s, b.height) ==> b.height > 0)
    ensures InsertGuard(s, CoinsHeld(s.index), b)
  {
    if AppendNeedsRebuild(s, b.height) {
      TipRowsSound(s, CoinsHeld(s.index), b);
      CoinsHeldExtended(s.index, b);
      assert TipRows(s, b).index == Extended(s.index, b);
      hide PollerInv, Sound, Awaited;
      NothingPrunedWhenHeld(TipRows(s, b), b.height - 1);
    }
  }

  lemma AppendedHeight(s: Store, b: Block)
    requires !IsHistorical(s, b.height) && (AppendNeedsRebuild(s, b.height) ==> b.height > 0)
    ensures Insert(s, b).tipTree.Some? && Insert(s, b).tipTree.value.height == b.height
  {
    hide Rebuild;
  }

  /** Block 0 never changes once it is cached. */
  ghost predicate KeepsGenesis(before: Store, after: Store) {
    0 in before.index.hashes ==> 0 in after.index.hashes && after.index.hashes[0] == before.index.hashes[0]
  }

  lemma SameKeepsGenesis(s: Store)
    ensures KeepsGenesis(s, s)
  {
  }

  lemma HeldHeights(s: Store)
    requires PollerInv(s)
    ensures forall k: nat :: k in s.index.hashes <==> k < Held(s.index)
    ensures forall k: nat :: k in s.index.blocks <==> k < Held(s.index)
    ensures s.index.tip.Some? ==> s.index.hashes[s.index.tip.value.0] == s.index.tip.value.1
  {
    hide Sound;
  }

  lemma InsertKeepsSound(s: Store, b: Block)
    requires PollerInv(s) && Awaited(s.index, b)
    ensures Sound(Insert(s, b), CoinsHeld(Extended(s.index, b)))
  {
    hide InsertGuard, Sound, Insert, ChainHeld, Awaited, CoinsHeld;
    PollerInsertGuard(s, b);
    CoinsHeldExtended(s.index, b);
    StepSound(s, CoinsHeld(s.index), InsertOp(b));
  }

  lemma InsertKeepsInv(s: Store, b: Block)
    requires PollerInv(s) && Awaited(s.index, b)
    ensures PollerInv(Insert(s, b)) && Insert(s, b).index == Extended(s.index, b) && KeepsGenesis(s, Insert(s, b))
  {
    hide InsertGuard, Sound, Insert, ChainHeld, Awaited, CoinsHeld, NullifiersHeld;
    HeldHeights(s);
    PollerInsertGuard(s, b);
    InsertKeepsSound(s, b);
    AwaitedNullifiers(s, b);
    InsertIndex(s, b);
    ExtendedHeld(s.index, b);
    AppendedHeight(s, b);
    assert b.height == Held(s.index) by { AwaitedHeight(s.index, b); }
  }

  lemma AwaitedHeight(i: Index, b: Block)
    requires Awaited(i, b)
    ensures b.height == Held(i)
  {
  }

  /** A block above the held chain overwrites no nullifier row. */
  lemma AwaitedNullifiers(s: Store, b: Block)
    requires PollerInv(s) && Awaited(s.index, b)
    ensures NullifiersHeld(Insert(s, b))
  {
    hide Sound, Insert;
    StepNullifiers(s, InsertOp(b));
  }

  lemma RewindKeepsInv(s: Store, h: nat)
    requires PollerInv(s) && h in s.index.blocks
    ensures PollerInv(Rewind(s, h)) && Rewind(s, h).index == Shortened(s.index, h) && KeepsGenesis(s, Rewind(s, h))
  {
    hide Sound, ChainHeld, CoinsHeld, Rebuild, RewindCut, Shape, NullifiersHeld;
    HeldHeights(s);
    RewindIndex(s, h);
    ShortenedHeld(s.index, h);
    RewindKeepsSound(s, h);
    StepNullifiers(s, RewindOp(h));
    RebuildShape(RewindCut(s, h), h);
  }

  lemma RewindKeepsSound(s: Store, h: nat)
    requires PollerInv(s) && h in s.index.blocks
    ensures Sound(Rewind(s, h), CoinsHeld(Shortened(s.index, h)))
  {
    var cut, rows := RewindCut(s, h), CoinsHeld(s.index);
    RewindIndex(s, h);
    CoinsHeldShortened(s.index, h);
    assert RowsSound(s, rows) && TipCovers(s, rows);
    hide ChainHeld, CoinsHeld, Rewind, NothingPruned, RowsSound, TipCovers, RewindCut, Sound;
    RewindRows(s, rows, h);
    NothingPrunedWhenHeld(cut, h);
    StepSound(s, rows, RewindOp(h));
  }

  // ---- any poll, any node ----

  lemma {:induction false} WalkBackSafe(s: Store, remote: Remote, calls: nat, h: nat, walked: nat)
    requires PollerInv(s) && h < Held(s.index)
    ensures var p := WalkBack(s, remote, calls, h, walked); PollerInv(p.store) && KeepsGenesis(s, p.store)
    decreases h
  {
    hide Rewind, Shortened, PollerInv, KeepsGenesis;
    SameKeepsGenesis(s);
    HeldHeights(s);
    RewindKeepsInv(s, h);
    if h > 0 {
      WalkBackSafe(s, remote, calls, h - 1, walked + 1);
      WalkBackSafe(s, remote, calls + 1, h - 1, walked + 1);
    }
  }

  lemma NextIsAwaited(s: Store, b: Block)
    requires PollerInv(s) && Genuine(b) && b.height == Held(s.index) && !BreaksLink(s, b.height, b)
    ensures Awaited(s.index, b)
  {
    HeldHeights(s);
    hide PollerInv;
  }

  lemma {:induction false} FetchFromSafe(s: Store, remote: Remote, calls: nat, height: nat, end: nat, done: nat)
    requires PollerInv(s) && Honest(remote) && height == Held(s.index)
    ensures var p := FetchFrom(s, remote, calls, height, end, done); PollerInv(p.store) && KeepsGenesis(s, p.store)
    decreases end + 1 - height
  {
    hide PollerInv, Insert, WalkBack, Extended, Awaited, BreaksLink, Genuine;
    if height <= end && remote.blockAt(calls, height).Found? {
      var b := remote.blockAt(calls, height).block;
      if BreaksLink(s, height, b) {
        assert height > 0 by { hide *; BreaksAbove(s, height, b); }
        WalkBackSafe(s, remote, calls + 1, height - 1, 0);
      } else {
        NextIsAwaited(s, b);
        InsertKeepsInv(s, b);
        ExtendedHeight(s.index, b);
        FetchFromSafe(Insert(s, b), remote, calls + 1, height + 1, end, done + 1);
      }
    }
  }

  lemma ExtendedHeight(i: Index, b: Block)
    ensures Held(Extended(i, b)) == b.height + 1
  {
  }

  lemma BreaksAbove(s: Store, height: nat, b: Block)
    requires BreaksLink(s, height, b)
    ensures height > 0
  {
  }

  lemma ActSafe(s: Store, remote: Remote, calls: nat, batch: nat, remoteHeight: nat, remoteHash: Hash,
                atTip: Option<Hash>)
    requires PollerInv(s) && Honest(remote) && s.index.tip.Some?
    ensures var p := Act(s, remote, calls, batch, remoteHeight, remoteHash, atTip);
            PollerInv(p.store) && KeepsGenesis(s, p.store)
  {
    hide PollerInv, WalkBack, FetchFrom, Honest, KeepsGenesis;
    SameKeepsGenesis(s);
    match ClassifyTips(s.index.tip, remoteHeight, remoteHash, Lookup(s.index.hashes, remoteHeight), atTip)
    case Idle =>
    case HoldForBackendCatchup =>
    case ReorgFrom(h) => WalkBackSafe(s, remote, calls, h, 0);
    case Fetch(from, to) => FetchFromSafe(s, remote, calls, from, BatchEnd(from, to, batch), 0);
  }

  /** One poll keeps the invariant, whatever the node answers between the calls. */
  lemma PollSafe(s: Store, remote: Remote, calls: nat, batch: nat)
    requires PollerInv(s) && Honest(remote)
    ensures var p := PollOnce(s, remote, calls, batch); PollerInv(p.store) && KeepsGenesis(s, p.store)
  {
    HeldHeights(s);
    hide PollerInv, Act, FetchFrom, Honest, KeepsGenesis;
    SameKeepsGenesis(s);
    var reply := remote.tipAt(calls);
    if reply.RemoteTip? {
      if 0 !in s.index.blocks {
        FetchFromSafe(s, remote, calls + 1, 0, BatchEnd(0, 0, batch), 0);
      } else if s.index.tip.value.0 == reply.height {
        ActSafe(s, remote, calls + 1, batch, reply.height, reply.hash, Some(reply.hash));
      } else {
        match remote.blockAt(calls + 1, s.index.tip.value.0)
        case Found(b) => ActSafe(s, remote, calls + 2, batch, reply.height, reply.hash, Some(b.hash));
        case Missing => ActSafe(s, remote, calls + 2, batch, reply.height, reply.hash, None);
        case Offline =>
      }
    }
  }

  /** One cycle of the server's life: a poll of any honest node, or a restart. */
  datatype Cycle = PollCycle(remote: Remote, calls: nat, batch: nat) | RestartCycle(readable: bool)

  function RunCycle(s: Store, c: Cycle): Store {
    match c
    case PollCycle(remote, calls, batch) => PollOnce(s, remote, calls, batch).store
    case RestartCycle(readable) => Reopen(s, readable)
  }

  function RunCycles(s: Store, cycles: seq<Cycle>): Store {
    if cycles == [] then s else RunCycle(RunCycles(s, cycles[..|cycles| - 1]), cycles[|cycles| - 1])
  }

  lemma ReopenKeepsInv(s: Store, readable: bool)
    requires PollerInv(s)
    ensures PollerInv(Reopen(s, readable))
  {
    ReopenSound(s, CoinsHeld(s.index), readable);
    hide Sound, ChainHeld;
  }

  /** From an empty cache and with pruning off, whatever each node answers and whenever the server
      restarts: the cache holds one linked chain 0..=tip, `heightOf` inverts `hashes`, and the tip
      tree and every snapshot are the replay of that chain. No guard is left to assume. */
  lemma {:induction false} PollerRunsAreSafe(cycles: seq<Cycle>)
    requires forall i :: 0 <= i < |cycles| && cycles[i].PollCycle? ==> Honest(cycles[i].remote)
    ensures PollerInv(RunCycles(EMPTY_STORE, cycles))
  {
    if cycles == [] {
      EmptyStoreInv();
    } else {
      var n := |cycles| - 1;
      PollerRunsAreSafe(cycles[..n]);
      var s := RunCycles(EMPTY_STORE, cycles[..n]);
      hide PollerInv, PollOnce, Reopen;
      match cycles[n]
      case PollCycle(remote, calls, batch) => PollSafe(s, remote, calls, batch);
      case RestartCycle(readable) => ReopenKeepsInv(s, readable);
    }
  }

  lemma EmptyStoreInv()
    ensures PollerInv(EMPTY_STORE)
  {
  }

  /** What a wallet reads at the tip: the sentinel and every coin of the held chain, in order. */
  lemma TipTreeIsReplayOfHeldChain(cycles: seq<Cycle>)
    requires forall i :: 0 <= i < |cycles| && cycles[i].PollCycle? ==> Honest(cycles[i].remote)
    requires RunCycles(EMPTY_STORE, cycles).index.tip.Some?
    ensures var s := RunCycles(EMPTY_STORE, cycles);
            s.tipTree == Some(TreeAt(s.index.tip.value.0, Leaves(CoinsHeld(s.index), s.index.tip.value.0)))
  {
    PollerRunsAreSafe(cycles);
    hide RunCycles, CoinsHeld, Leaves;
  }
}
