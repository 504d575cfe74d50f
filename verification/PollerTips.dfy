/** One poll of any node: what each view of the two tips makes of the cache, when a poll walks back, and
    what it cannot remove. */
module PollerTips {
  import opened Chain
  import opened CacheStore
  import opened DeepReorg
  import opened Poller
  import opened PollerConvergence
  import opened PollerSafety
  import opened PrunedRuns
  import opened Words

  /** What the node says of the height of the cached tip. */
  datatype View = SameBlock | OtherBlock | NoBlock | NoAnswer

  /** By its own tip if that is at the height, else by a request for the block there. */
  function TipView(top: nat, hash: Hash, remote: Remote, calls: nat): View {
    match remote.tipAt(calls)
    case NoTip => NoAnswer
    case RemoteTip(height, remoteHash) =>
      if height == top then (if remoteHash == hash then SameBlock else OtherBlock)
      else
        match remote.blockAt(calls + 1, top)
        case Found(b) => if b.hash == hash then SameBlock else OtherBlock
        case Missing => NoBlock
        case Offline => NoAnswer
  }

  /** Number of the next call once the tips have been compared. */
  function AfterTips(top: nat, height: nat, calls: nat): nat {
    if height == top then calls + 1 else calls + 2
  }

  /** The node has no block at the cached tip, and at its own lower tip not the cached one. */
  predicate LowerAndOther(i: Index, height: nat, hash: Hash, top: nat) {
    height < top && !(height in i.hashes && i.hashes[height] == hash)
  }

  /** Every outcome of a poll, from what the node says. A cached tip that the node still has, or has
      nothing against, stays: the poll does nothing, or fetches what is above it. It walks back exactly
      when the node has another block there, or has nothing there and another block at its own lower tip. */
  lemma PollFollowsTips(s: Store, remote: Remote, calls: nat, batch: nat)
    requires 0 in s.index.blocks && s.index.tip.Some?
    ensures var (top, hash) := s.index.tip.value;
            var p, view := PollOnce(s, remote, calls, batch), TipView(top, hash, remote, calls);
            && (view == NoAnswer ==> p.store == s && p.outcome == Failed)
            && (view != NoAnswer ==>
                  var RemoteTip(height, remoteHash) := remote.tipAt(calls);
                  var next := AfterTips(top, height, calls);
                  if view == OtherBlock then p == WalkBack(s, remote, next, top, 0)
                  else if view == NoBlock && LowerAndOther(s.index, height, remoteHash, top) then
                    p == WalkBack(s, remote, next, height, 0)
                  else if top < height then
                    p == FetchFrom(s, remote, next, top + 1, BatchEnd(top + 1, height, batch), 0)
                  else p == Polled(s, next, Processed(0)))
  {
    hide WalkBack, FetchFrom, BatchEnd;
  }

  /** Without block 0 a poll fetches just that; without a tip it fetches from there up. */
  lemma PollFromTheStart(s: Store, remote: Remote, calls: nat, batch: nat)
    requires remote.tipAt(calls).RemoteTip? && (0 !in s.index.blocks || s.index.tip.None?)
    ensures var last := if 0 !in s.index.blocks then 0 else BatchEnd(0, remote.tipAt(calls).height, batch);
            PollOnce(s, remote, calls, batch) == FetchFrom(s, remote, calls + 1, 0, last, 0)
  {
    hide FetchFrom;
  }

  /** A batch ends with the node's tip or when it is full, a batch size of 0 counting as 1. */
  lemma BatchIsFull(start: nat, remoteEnd: nat, batch: nat)
    requires start <= remoteEnd
    ensures var end := BatchEnd(start, remoteEnd, batch);
            && start <= end <= remoteEnd && end - start + 1 <= Max(batch, 1)
            && (end == remoteEnd || end - start + 1 == Max(batch, 1))
  {
  }

  // ---- what a poll cannot remove ----

  /** Every answer for height `top` is the block with this hash. */
  ghost predicate Confirms(remote: Remote, top: nat, hash: Hash) {
    && (forall c: nat :: remote.tipAt(c).RemoteTip? && remote.tipAt(c).height == top ==> remote.tipAt(c).hash == hash)
    && (forall c: nat :: remote.blockAt(c, top).Found? && remote.blockAt(c, top).block.hash == hash)
  }

  /** Every row of `before` is still there, and `top` still has its hash. */
  ghost predicate KeepsRows(before: Index, after: Index, top: nat) {
    && (forall k :: k in before.blocks ==> k in after.blocks && after.blocks[k] == before.blocks[k])
    && top in before.hashes && top in after.hashes && after.hashes[top] == before.hashes[top]
  }

  ghost predicate RowsUpto(i: Index, top: nat) {
    top in i.hashes && top in i.blocks && forall k :: k in i.blocks ==> k <= top
  }

  lemma RewindKeepsRows(first: Index, s: Store, top: nat, h: nat)
    requires RowsUpto(first, top) && KeepsRows(first, s.index, top) && top <= h
    ensures KeepsRows(first, Rewind(s, h).index, top)
  {
    RewoundIndex(s, h);
    CutRows(s, h);
    assert top in RewindCut(s, h).index.hashes;
    hide Rewind, RewindCut;
  }

  /** A walk that starts at or above a height the node confirms ends at or above it. */
  lemma {:induction false} WalkKeepsRows(first: Index, s: Store, remote: Remote, calls: nat, top: nat, h: nat,
                                         walked: nat)
    requires RowsUpto(first, top) && KeepsRows(first, s.index, top) && top <= h
    requires Confirms(remote, top, first.hashes[top])
    ensures KeepsRows(first, WalkBack(s, remote, calls, h, walked).store.index, top)
    decreases h
  {
    hide Rewind, KeepsRows;
    RewindKeepsRows(first, s, top, h);
    if h > top {
      WalkKeepsRows(first, s, remote, calls, top, h - 1, walked + 1);
      WalkKeepsRows(first, s, remote, calls + 1, top, h - 1, walked + 1);
    } else {
      KeepsHash(first, s.index, top);
    }
  }

  lemma KeepsHash(first: Index, i: Index, top: nat)
    requires KeepsRows(first, i, top)
    ensures top in first.hashes && top in i.hashes && i.hashes[top] == first.hashes[top]
  {
  }

  lemma InsertKeepsRows(first: Index, s: Store, top: nat, b: Block)
    requires RowsUpto(first, top) && KeepsRows(first, s.index, top)
    requires top < b.height || (b.height == 0 && 0 !in first.blocks && 0 < top)
    ensures KeepsRows(first, Insert(s, b).index, top)
  {
    InsertPuts(s, b);
    hide Insert;
  }

  lemma {:induction false} FetchKeepsRows(first: Index, s: Store, remote: Remote, calls: nat, top: nat, height: nat,
                                          end: nat, done: nat)
    requires RowsUpto(first, top) && KeepsRows(first, s.index, top) && top < height && Honest(remote)
    requires Confirms(remote, top, first.hashes[top])
    ensures KeepsRows(first, FetchFrom(s, remote, calls, height, end, done).store.index, top)
    decreases end + 1 - height
  {
    hide KeepsRows, Insert, WalkBack, Confirms, RowsUpto, Genuine;
    if height <= end && remote.blockAt(calls, height).Found? {
      var b := remote.blockAt(calls, height).block;
      if BreaksLink(s, height, b) {
        WalkKeepsRows(first, s, remote, calls + 1, top, height - 1, 0);
      } else {
        InsertKeepsRows(first, s, top, b);
        FetchKeepsRows(first, Insert(s, b), remote, calls + 1, top, height + 1, end, done + 1);
      }
    }
  }

  /** While the node has the block of the cached tip, a poll removes no cached row, whatever the node says
      of any other height and of its own tip. */
  lemma ConfirmedTipKeepsRows(s: Store, remote: Remote, calls: nat, batch: nat)
    requires s.index.tip.Some? && RowsUpto(s.index, s.index.tip.value.0) && Honest(remote)
    requires s.index.hashes[s.index.tip.value.0] == s.index.tip.value.1
    requires Confirms(remote, s.index.tip.value.0, s.index.tip.value.1)
    ensures KeepsRows(s.index, PollOnce(s, remote, calls, batch).store.index, s.index.tip.value.0)
  {
    hide KeepsRows, RowsUpto, Honest, PollOnce, Confirms;
    var top := s.index.tip.value.0;
    SameKeepsRows(s.index, top);
    ConfirmedView(remote, top, s.index.tip.value.1, calls);
    if 0 in s.index.blocks {
      PollFollowsTips(s, remote, calls, batch);
      if remote.tipAt(calls).RemoteTip? {
        var height := remote.tipAt(calls).height;
        hide TipView, WalkBack, FetchFrom;
        FetchKeepsRows(s.index, s, remote, AfterTips(top, height, calls), top, top + 1,
                       BatchEnd(top + 1, height, batch), 0);
      }
    } else if remote.tipAt(calls).RemoteTip? {
      PollFromTheStart(s, remote, calls, batch);
      BackfillKeepsRows(s, remote, calls + 1, top);
    } else {
      NoTipPoll(s, remote, calls, batch);
    }
  }

  lemma NoTipPoll(s: Store, remote: Remote, calls: nat, batch: nat)
    requires remote.tipAt(calls).NoTip?
    ensures PollOnce(s, remote, calls, batch) == Polled(s, calls + 1, Failed)
  {
  }

  lemma ConfirmedView(remote: Remote, top: nat, hash: Hash, calls: nat)
    requires Confirms(remote, top, hash)
    ensures TipView(top, hash, remote, calls) == if remote.tipAt(calls).NoTip? then NoAnswer else SameBlock
  {
  }

  lemma SameKeepsRows(i: Index, top: nat)
    requires RowsUpto(i, top)
    ensures KeepsRows(i, i, top)
  {
  }

  lemma BackfillKeepsRows(s: Store, remote: Remote, calls: nat, top: nat)
    requires RowsUpto(s.index, top) && KeepsRows(s.index, s.index, top) && 0 !in s.index.blocks && Honest(remote)
    ensures KeepsRows(s.index, FetchFrom(s, remote, calls, 0, 0, 0).store.index, top)
  {
    if remote.blockAt(calls, 0).Found? {
      var b := remote.blockAt(calls, 0).block;
      InsertKeepsRows(s.index, s, top, b);
      hide Insert, KeepsRows;
      assert FetchFrom(s, remote, calls, 0, 0, 0).store == Insert(s, b);
    }
  }

  // ---- how far one poll goes ----

  /** The call in which a walk from `h` asks for height `k`: it asks for cached heights only. */
  function CallFor(i: Index, calls: nat, h: nat, k: nat): nat
    requires k <= h
    decreases h - k
  {
    if k == h then calls else CallFor(i, calls, h, k + 1) + if k + 1 in i.hashes then 1 else 0
  }

  lemma {:induction false} CallForBelow(i: Index, calls: nat, h: nat, k: nat)
    requires k < h
    ensures CallFor(i, calls, h, k) == CallFor(i, if h in i.hashes then calls + 1 else calls, h - 1, k)
    decreases h - k
  {
    if k + 1 < h {
      CallForBelow(i, calls, h, k + 1);
    }
  }

  predicate Confirmed(reply: Reply, hash: Hash) {
    reply.Found? && reply.block.hash == hash
  }

  predicate Denied(reply: Reply, hash: Hash) {
    !reply.Offline? && !Confirmed(reply, hash)
  }

  /** Where the walk ends, for any node: every cached height passed was denied. It stops without a change
      where the node is offline, and otherwise rewinds to the first height that is confirmed, to 0, or to
      where it gives up. */
  lemma {:induction false} WalkEnds(s: Store, remote: Remote, calls: nat, h: nat, walked: nat) returns (r: nat)
    requires walked <= MAX_WALK
    ensures r <= h && walked + (h - r) <= MAX_WALK
    ensures forall k: nat :: r < k <= h && k in s.index.hashes ==>
      Denied(remote.blockAt(CallFor(s.index, calls, h, k), k), s.index.hashes[k])
    ensures var p, reply := WalkBack(s, remote, calls, h, walked), remote.blockAt(CallFor(s.index, calls, h, r), r);
            if r in s.index.hashes && reply.Offline? then p.outcome == Failed && p.store == s
            else
              && p.outcome == Processed(0) && p.store == Rewind(s, r)
              && ((r in s.index.hashes && Confirmed(reply, s.index.hashes[r]))
                  || r == 0 || walked + (h - r) == MAX_WALK)
    decreases h
  {
    hide Rewind;
    var reply := remote.blockAt(calls, h);
    var cached := h in s.index.hashes;
    if (cached && (reply.Offline? || Confirmed(reply, s.index.hashes[h]))) || h == 0 || walked >= MAX_WALK {
      r := h;
    } else {
      r := WalkEnds(s, remote, if cached then calls + 1 else calls, h - 1, walked + 1);
      forall k: nat | r <= k < h
        ensures CallFor(s.index, calls, h, k) == CallFor(s.index, if cached then calls + 1 else calls, h - 1, k)
      {
        CallForBelow(s.index, calls, h, k);
      }
      hide CallFor;
    }
  }

  lemma WalkCountsNothing(s: Store, remote: Remote, calls: nat, h: nat)
    ensures var p := WalkBack(s, remote, calls, h, 0);
            p.outcome == Processed(0) || (p.outcome == Failed && p.store == s)
  {
    var r := WalkEnds(s, remote, calls, h, 0);
    hide WalkBack, Rewind, CallFor;
  }

  ghost predicate AddsRows(before: Index, after: Index, low: nat, high: nat) {
    forall k :: k in after.blocks <==> k in before.blocks || low <= k < high
  }

  /** A fetch of height..end goes through, adding a block a height and counting them; or fails and keeps what
      it had added; or finds a broken link, walks back, and counts nothing. */
  lemma {:induction false} FetchCounts(s: Store, remote: Remote, calls: nat, height: nat, end: nat, done: nat)
      returns (stop: nat)
    requires Honest(remote) && height <= end + 1
    ensures var p := FetchFrom(s, remote, calls, height, end, done);
            && height <= stop <= end + 1
            && if stop == end + 1 then
                 p.outcome == Processed(done + (stop - height)) && AddsRows(s.index, p.store.index, height, stop)
               else
                 p.outcome == Processed(0)
                 || (p.outcome == Failed && AddsRows(s.index, p.store.index, height, stop))
    decreases end + 1 - height
  {
    hide Insert, WalkBack, Genuine;
    stop := height;
    if height <= end && remote.blockAt(calls, height).Found? {
      var b := remote.blockAt(calls, height).block;
      if BreaksLink(s, height, b) {
        WalkCountsNothing(s, remote, calls + 1, height - 1);
      } else {
        InsertPuts(s, b);
        stop := FetchCounts(Insert(s, b), remote, calls + 1, height + 1, end, done + 1);
      }
    }
  }

  /** No poll counts more blocks than a batch. */
  lemma PollCountsABatch(s: Store, remote: Remote, calls: nat, batch: nat)
    requires Honest(remote) && UnderTip(s.index)
    ensures var p := PollOnce(s, remote, calls, batch);
            p.outcome.Failed? || p.outcome.blocks <= Max(batch, 1)
  {
    hide Honest, WalkBack, FetchFrom, BatchEnd;
    if remote.tipAt(calls).RemoteTip? {
      var height := remote.tipAt(calls).height;
      if 0 in s.index.blocks && s.index.tip.Some? {
        var top := s.index.tip.value.0;
        var next := AfterTips(top, height, calls);
        PollFollowsTips(s, remote, calls, batch);
        hide PollOnce;
        WalkCountsNothing(s, remote, next, top);
        WalkCountsNothing(s, remote, next, height);
        if top < height {
          BatchIsFull(top + 1, height, batch);
          var stop := FetchCounts(s, remote, next, top + 1, BatchEnd(top + 1, height, batch), 0);
        }
      } else {
        PollFromTheStart(s, remote, calls, batch);
        hide PollOnce;
        assert 0 !in s.index.blocks;
        var stop := FetchCounts(s, remote, calls + 1, 0, 0, 0);
      }
    }
  }

  // ---- one poll to the fork point ----

  /** The walk from a replaced tip ends at the last shared block. */
  lemma WalkToTheFork(s: Store, remote: Remote, chain: seq<Block>, calls: nat, top: nat, fork: nat)
    requires PollerInv(s) && FullChain(chain) && Serves(remote, chain) && top in s.index.hashes
    requires fork + 1 == Common(s.index, chain) && fork <= top <= fork + MAX_WALK && !Agrees(s.index, chain, top)
    ensures WalkBack(s, remote, calls, top, 0).store == Rewind(s, fork)
  {
    hide PollerInv, FullChain, Serves, Rewind, WalkBack, NoneAgrees, Agrees;
    var r := WalkLands(s, remote, chain, calls, top, 0);
    ForkPoint(s, chain, fork);
    ForkPoint(s, chain, r);
    hide Common;
    LandsOnFork(s.index, chain, r, top, fork);
  }

  lemma ReplacedTip(s: Store, chain: seq<Block>)
    requires PollerInv(s) && TipReplaced(s.index, chain) && 0 < Common(s.index, chain)
    ensures s.index.tip.Some? && 0 in s.index.blocks
    ensures var top := s.index.tip.value.0;
            top in s.index.hashes && top + 1 == Held(s.index) && Common(s.index, chain) <= Held(s.index)
            && !Agrees(s.index, chain, top)
  {
    assert s.index.tip.Some?;
    HeldHeights(s);
    TopIsReplaced(s.index, chain);
    hide Agrees, TipReplaced;
  }

  /** A reorganisation no deeper than the walk may go is rewound to the last shared block in one poll. */
  lemma OnePollToTheFork(s: Store, remote: Remote, chain: seq<Block>, calls: nat, batch: nat)
    requires PollerInv(s) && FullChain(chain) && Serves(remote, chain) && TipReplaced(s.index, chain)
    requires 0 < Common(s.index, chain) && Held(s.index) - Common(s.index, chain) <= MAX_WALK
    ensures PollOnce(s, remote, calls, batch).store == Rewind(s, Common(s.index, chain) - 1)
  {
    hide PollerInv, FullChain, Serves, Rewind, PollOnce, WalkBack, Agrees, TipReplaced, Common, Held;
    ReplacedTip(s, chain);
    var next := ReorgPoll(s, remote, chain, calls, batch);
    WalkToTheFork(s, remote, chain, next, s.index.tip.value.0, Common(s.index, chain) - 1);
  }

  lemma ForkPoint(s: Store, chain: seq<Block>, k: nat)
    requires PollerInv(s) && FullChain(chain)
    ensures Agrees(s.index, chain, k) <==> k < Common(s.index, chain)
  {
    assert ChainHeld(s.index);
    hide PollerInv;
    CommonIsForkPoint(s.index, chain, k);
  }

  lemma LandsOnFork(i: Index, chain: seq<Block>, r: nat, top: nat, fork: nat)
    requires r <= top && fork <= top && top - fork <= MAX_WALK && NoneAgrees(i, chain, r + 1, top)
    requires Agrees(i, chain, fork) && (Agrees(i, chain, r) ==> r <= fork)
    requires Agrees(i, chain, r) || r == 0 || top - r == MAX_WALK
    ensures r == fork
  {
    hide Agrees;
  }

  lemma TopIsReplaced(i: Index, chain: seq<Block>)
    requires TipReplaced(i, chain) && i.tip.value.0 in i.hashes && i.hashes[i.tip.value.0] == i.tip.value.1
    ensures !Agrees(i, chain, i.tip.value.0)
  {
  }
}
