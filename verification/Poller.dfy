/** The chain poller: one poll cycle as a function of the cache and of a node whose answers may
    change between any two calls, and the object that runs it. */
module Poller {
  import opened Chain
  import opened CacheStore
  import opened CacheObject
  import opened Words

  /** Answer to a block request; `Offline` is a connection error, `Missing` any other one.
      A found block has been converted and has had its clue hints merged. */
  datatype Reply = Found(block: Block) | Missing | Offline

  datatype TipReply = RemoteTip(height: nat, hash: Hash) | NoTip

  /** The node, as its answer to each call: calls are numbered, so it may reorganise at any time. */
  datatype Remote = Remote(tipAt: nat -> TipReply, blockAt: (nat, nat) -> Reply)

  datatype TipAction = Idle | Fetch(from: nat, to: nat) | HoldForBackendCatchup | ReorgFrom(height: nat)

  datatype Outcome = Processed(blocks: nat) | Failed

  datatype Polled = Polled(store: Store, calls: nat, outcome: Outcome)

  const MAX_WALK: nat := 10_000

  function Lookup(m: map<nat, Hash>, h: nat): Option<Hash> {
    if h in m then Some(m[h]) else None
  }

  function ClassifyTips(cached: Option<(nat, Hash)>, remoteHeight: nat, remoteHash: Hash,
                        cachedHashAtRemote: Option<Hash>, remoteHashAtCachedTip: Option<Hash>): TipAction
  {
    match cached
    case None => Fetch(0, remoteHeight)
    case Some((cachedHeight, cachedHash)) =>
      if remoteHeight < cachedHeight then
        match remoteHashAtCachedTip
        case Some(h) => if h == cachedHash then Idle else ReorgFrom(cachedHeight)
        case None =>
          if cachedHashAtRemote == Some(remoteHash) then HoldForBackendCatchup
          else ReorgFrom(Min(remoteHeight, cachedHeight))
      else if cachedHeight == remoteHeight then
        if cachedHash == remoteHash then Idle else ReorgFrom(cachedHeight)
      else if remoteHashAtCachedTip.Some? && remoteHashAtCachedTip.value != cachedHash then
        ReorgFrom(cachedHeight)
      else
        Fetch(cachedHeight + 1, remoteHeight)
  }

  /** Step down from `h` until cache and node agree, then rewind once. */
  function WalkBack(s: Store, remote: Remote, calls: nat, h: nat, walked: nat): Polled
    decreases h, 1
  {
    if h in s.index.hashes then
      match remote.blockAt(calls, h)
      case Found(b) =>
        if b.hash == s.index.hashes[h] then Polled(Rewind(s, h), calls + 1, Processed(0))
        else WalkOn(s, remote, calls + 1, h, walked)
      case Offline => Polled(s, calls + 1, Failed)
      case Missing => WalkOn(s, remote, calls + 1, h, walked)
    else
      WalkOn(s, remote, calls, h, walked)
  }

  function WalkOn(s: Store, remote: Remote, calls: nat, h: nat, walked: nat): Polled
    decreases h, 0
  {
    if h == 0 || walked >= MAX_WALK then Polled(Rewind(s, h), calls, Processed(0))
    else WalkBack(s, remote, calls, h - 1, walked + 1)
  }

  /** The fetched block does not extend the cached parent. */
  predicate BreaksLink(s: Store, height: nat, b: Block) {
    height > 0 && height - 1 in s.index.hashes && b.prevHash != s.index.hashes[height - 1]
  }

  /** Fetch height, ..., end one block at a time. */
  function FetchFrom(s: Store, remote: Remote, calls: nat, height: nat, end: nat, done: nat): Polled
    decreases end - height
  {
    if height > end then Polled(s, calls, Processed(done))
    else
      match remote.blockAt(calls, height)
      case Found(b) =>
        if BreaksLink(s, height, b) then WalkBack(s, remote, calls + 1, height - 1, 0)
        else FetchFrom(Insert(s, b), remote, calls + 1, height + 1, end, done + 1)
      case _ => Polled(s, calls + 1, Failed)
  }

  function BatchEnd(start: nat, remoteEnd: nat, batch: nat): nat {
    Min(start + (if batch == 0 then 0 else batch - 1), remoteEnd)
  }

  function FetchRange(s: Store, remote: Remote, calls: nat, start: nat, remoteEnd: nat, batch: nat): Polled {
    FetchFrom(s, remote, calls, start, BatchEnd(start, remoteEnd, batch), 0)
  }

  /** Call number `calls` is the tip request; one block request may follow it. */
  function PollOnce(s: Store, remote: Remote, calls: nat, batch: nat): Polled {
    match remote.tipAt(calls)
    case NoTip => Polled(s, calls + 1, Failed)
    case RemoteTip(remoteHeight, remoteHash) =>
      if 0 !in s.index.blocks then FetchRange(s, remote, calls + 1, 0, 0, batch)
      else if s.index.tip.None? || s.index.tip.value.0 == remoteHeight then
        Act(s, remote, calls + 1, batch, remoteHeight, remoteHash,
            if s.index.tip.None? then None else Some(remoteHash))
      else
        match remote.blockAt(calls + 1, s.index.tip.value.0)
        case Found(b) => Act(s, remote, calls + 2, batch, remoteHeight, remoteHash, Some(b.hash))
        case Missing => Act(s, remote, calls + 2, batch, remoteHeight, remoteHash, None)
        case Offline => Polled(s, calls + 2, Failed)
  }

  function Act(s: Store, remote: Remote, calls: nat, batch: nat, remoteHeight: nat, remoteHash: Hash,
               remoteHashAtCachedTip: Option<Hash>): Polled
  {
    Perform(s, remote, calls, batch,
            ClassifyTips(s.index.tip, remoteHeight, remoteHash, Lookup(s.index.hashes, remoteHeight),
                         remoteHashAtCachedTip))
  }

  function Perform(s: Store, remote: Remote, calls: nat, batch: nat, action: TipAction): Polled {
    match action
    case Idle => Polled(s, calls, Processed(0))
    case HoldForBackendCatchup => Polled(s, calls, Processed(0))
    case ReorgFrom(h) => WalkBack(s, remote, calls, h, 0)
    case Fetch(from, to) => FetchRange(s, remote, calls, from, to, batch)
  }

  class ChainPoller {
    const cache: Cache
    const remote: Remote
    const batch: nat
    var calls: nat

    constructor (cache: Cache, remote: Remote, batch: nat)
      ensures this.cache == cache && this.remote == remote && this.batch == batch && calls == 0
    {
      this.cache, this.remote, this.batch, this.calls := cache, remote, batch, 0;
    }

    method GetBlock(height: nat) returns (reply: Reply)
      modifies this`calls
      ensures reply == remote.blockAt(old(calls), height) && calls == old(calls) + 1
    {
      reply := remote.blockAt(calls, height);
      calls := calls + 1;
    }

    method RewindToCommonAncestor(from: nat) returns (outcome: Outcome)
      modifies this`calls, cache
      ensures WalkBack(old(cache.Model()), remote, old(calls), from, 0) == Polled(cache.Model(), calls, outcome)
    {
      hide Rewind;
      ghost var start, want := cache.Model(), WalkBack(cache.Model(), remote, calls, from, 0);
      var h, walked := from, 0;
      while true
        invariant cache.Model() == start
        invariant WalkBack(start, remote, calls, h, walked) == want
        decreases h
      {
        if h in cache.hashes {
          var reply := GetBlock(h);
          if reply.Offline? {
            return Failed;
          }
          if reply.Found? && reply.block.hash == cache.hashes[h] {
            cache.RewindToHeight(h);
            return Processed(0);
          }
        }
        if h == 0 || walked >= MAX_WALK {
          cache.RewindToHeight(h);
          return Processed(0);
        }
        h, walked := h - 1, walked + 1;
      }
    }

    method FetchBlocks(start: nat, remoteEnd: nat) returns (outcome: Outcome)
      modifies this`calls, cache
      ensures FetchRange(old(cache.Model()), remote, old(calls), start, remoteEnd, batch)
              == Polled(cache.Model(), calls, outcome)
    {
      hide Insert, WalkBack;
      ghost var want := FetchRange(cache.Model(), remote, calls, start, remoteEnd, batch);
      var end := BatchEnd(start, remoteEnd, batch);
      var height, processed := start, 0;
      while height <= end
        invariant FetchFrom(cache.Model(), remote, calls, height, end, processed) == want
        decreases if height <= end then end + 1 - height else 0
      {
        var reply := GetBlock(height);
        if !reply.Found? {
          return Failed;
        }
        if height > 0 && height - 1 in cache.hashes && reply.block.prevHash != cache.hashes[height - 1] {
          outcome := RewindToCommonAncestor(height - 1);
          return;
        }
        cache.InsertCompactBlock(reply.block);
        height, processed := height + 1, processed + 1;
      }
      outcome := Processed(processed);
    }

    /** One poll cycle does what `PollOnce` says to the cache. */
    method Poll() returns (outcome: Outcome)
      modifies this`calls, cache
      ensures PollOnce(old(cache.Model()), remote, old(calls), batch) == Polled(cache.Model(), calls, outcome)
    {
      hide FetchRange, WalkBack;
      var reply := remote.tipAt(calls);
      calls := calls + 1;
      if reply.NoTip? {
        return Failed;
      }
      var remoteHeight, remoteHash := reply.height, reply.hash;
      if 0 !in cache.blocks {
        outcome := FetchBlocks(0, 0);
        return;
      }
      var cachedTip := cache.tip;
      var atRemote := Lookup(cache.hashes, remoteHeight);
      var atTip := None;
      if cachedTip.Some? {
        if cachedTip.value.0 == remoteHeight {
          atTip := Some(remoteHash);
        } else {
          var tipReply := GetBlock(cachedTip.value.0);
          match tipReply
          case Found(b) => atTip := Some(b.hash);
          case Offline => return Failed;
          case Missing =>
        }
      }
      match ClassifyTips(cachedTip, remoteHeight, remoteHash, atRemote, atTip)
      case Idle => outcome := Processed(0);
      case HoldForBackendCatchup => outcome := Processed(0);
      case ReorgFrom(h) => outcome := RewindToCommonAncestor(h);
      case Fetch(from, to) => outcome := FetchBlocks(from, to);
    }
  }
}
