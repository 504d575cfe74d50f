/** The life of a server that prunes: any polls of honest nodes, restarts and prunes, as the cache
    operations they come down to. */
module PrunedLife {
  import opened Chain
  import opened Replay
  import opened CacheStore
  import opened CacheSoundness
  import opened Poller
  import opened PollerSafety
  import opened PrunedRuns

  // ---- operations, first to last ----

  function Through(s: Store, ops: seq<Op>): Store
    decreases |ops|
  {
    if ops == [] then s else Through(Step(s, ops[0]), ops[1..])
  }

  lemma {:induction false} RunFront(s: Store, op: Op, more: seq<Op>)
    ensures Run(s, [op] + more) == Run(Step(s, op), more)
    decreases |more|
  {
    hide Step;
    if more == [] {
      assert [op] + more == [op] && [op][..0] == [] && Run(s, []) == s;
    } else {
      var n := |more| - 1;
      assert ([op] + more)[..n + 1] == [op] + more[..n];
      RunFront(s, op, more[..n]);
    }
  }

  lemma {:induction false} ThroughIsRun(s: Store, ops: seq<Op>)
    ensures Through(s, ops) == Run(s, ops)
    decreases |ops|
  {
    hide Step;
    if ops != [] {
      ThroughIsRun(Step(s, ops[0]), ops[1..]);
      RunFront(s, ops[0], ops[1..]);
      assert [ops[0]] + ops[1..] == ops;
    }
  }

  ghost predicate AllowedRun(s: Store, ops: seq<Op>, g: Hash)
    decreases |ops|
  {
    ops == [] || (Allowed(s.index, ops[0], g) && AllowedRun(Step(s, ops[0]), ops[1..], g))
  }

  lemma {:induction false} ThroughBoth(s: Store, a: seq<Op>, b: seq<Op>, g: Hash)
    ensures Through(s, a + b) == Through(Through(s, a), b)
    ensures AllowedRun(s, a + b, g) <==> AllowedRun(s, a, g) && AllowedRun(Through(s, a), b, g)
    decreases |a|
  {
    hide Step, Allowed;
    if a == [] {
      assert a + b == b;
    } else {
      assert (a + b)[1..] == a[1..] + b;
      ThroughBoth(Step(s, a[0]), a[1..], b, g);
    }
  }

  lemma {:induction false} RunKept(s: Store, ops: seq<Op>, g: Hash)
    requires Kept(s, g) && AllowedRun(s, ops, g)
    ensures Kept(Through(s, ops), g)
    decreases |ops|
  {
    hide Kept, Step, Allowed;
    if ops != [] {
      StepKept(s, ops[0], g);
      RunKept(Step(s, ops[0]), ops[1..], g);
    }
  }

  // ---- the operations of a poll ----

  /** The one rewind of a walk, or none when the node is offline. */
  function WalkOps(s: Store, remote: Remote, calls: nat, h: nat, walked: nat): seq<Op>
    decreases h
  {
    var asked := h in s.index.hashes;
    var reply := remote.blockAt(calls, h);
    if asked && reply.Offline? then []
    else if (asked && reply.Found? && reply.block.hash == s.index.hashes[h]) || h == 0 || walked >= MAX_WALK then
      [RewindOp(h)]
    else WalkOps(s, remote, if asked then calls + 1 else calls, h - 1, walked + 1)
  }

  function FetchOps(s: Store, remote: Remote, calls: nat, height: nat, end: nat): seq<Op>
    decreases end - height
  {
    if height > end || !remote.blockAt(calls, height).Found? then []
    else
      var b := remote.blockAt(calls, height).block;
      if BreaksLink(s, height, b) then WalkOps(s, remote, calls + 1, height - 1, 0)
      else [InsertOp(b)] + FetchOps(Insert(s, b), remote, calls + 1, height + 1, end)
  }

  function ActionOps(s: Store, remote: Remote, calls: nat, batch: nat, action: TipAction): seq<Op> {
    match action
    case Idle => []
    case HoldForBackendCatchup => []
    case ReorgFrom(h) => WalkOps(s, remote, calls, h, 0)
    case Fetch(from, end) => FetchOps(s, remote, calls, from, BatchEnd(from, end, batch))
  }

  /** What the poll decides from the tips, and the number of its next call; nothing when it fails. */
  function Decided(s: Store, remote: Remote, calls: nat): Option<(TipAction, nat)> {
    match remote.tipAt(calls)
    case NoTip => None
    case RemoteTip(height, hash) =>
      if 0 !in s.index.blocks then Some((Fetch(0, 0), calls + 1))
      else
        var asked := s.index.tip.Some? && s.index.tip.value.0 != height;
        var reply := if asked then remote.blockAt(calls + 1, s.index.tip.value.0) else Missing;
        if reply.Offline? then None
        else
          var atTip := if asked then (if reply.Found? then Some(reply.block.hash) else None)
                       else if s.index.tip.None? then None else Some(hash);
          Some((ClassifyTips(s.index.tip, height, hash, Lookup(s.index.hashes, height), atTip),
                if asked then calls + 2 else calls + 1))
  }

  function PollOps(s: Store, remote: Remote, calls: nat, batch: nat): seq<Op> {
    match Decided(s, remote, calls)
    case None => []
    case Some((action, next)) => ActionOps(s, remote, next, batch, action)
  }

  lemma {:induction false} WalkIsOps(s: Store, remote: Remote, calls: nat, h: nat, walked: nat, g: Hash)
    requires s.index.tip.Some? && h <= s.index.tip.value.0
    ensures var ops := WalkOps(s, remote, calls, h, walked);
            Through(s, ops) == WalkBack(s, remote, calls, h, walked).store && AllowedRun(s, ops, g)
    decreases h
  {
    hide Rewind;
    OneOp(s, RewindOp(h), g);
    if h > 0 {
      WalkIsOps(s, remote, calls, h - 1, walked + 1, g);
      WalkIsOps(s, remote, calls + 1, h - 1, walked + 1, g);
    }
    hide Through, AllowedRun;
  }

  lemma OneOp(s: Store, op: Op, g: Hash)
    ensures Through(s, [op]) == Step(s, op) && Through(s, []) == s && AllowedRun(s, [], g)
    ensures AllowedRun(s, [op], g) <==> Allowed(s.index, op, g)
  {
    hide Step, Allowed;
    assert [op][1..] == [];
  }

  /** Every answer for height 0 is the block with hash `g`. */
  ghost predicate OneGenesis(remote: Remote, g: Hash) {
    forall c: nat :: remote.blockAt(c, 0).Found? ==> remote.blockAt(c, 0).block.hash == g
  }

  /** The fetch is the backfill of height 0, or goes on from the tip. */
  predicate FetchesNext(i: Index, height: nat, end: nat) {
    if height == 0 then 0 !in i.blocks && end == 0
    else i.tip.Some? && height == i.tip.value.0 + 1 && 0 in i.blocks
  }

  lemma NextSits(s: Store, b: Block, end: nat, g: Hash)
    requires Linear(s.index, g) && FetchesNext(s.index, b.height, end) && Genuine(b)
    requires !BreaksLink(s, b.height, b) && (b.height == 0 ==> b.hash == g)
    ensures Sits(s.index, b, g)
  {
    OwnHash(s.index, g);
    hide BlocksLinked, HeightOfIsInverse, Genuine;
  }

  lemma NextReady(s: Store, b: Block, end: nat)
    requires FetchesNext(s.index, b.height, end)
    ensures b.height < end ==> FetchesNext(Insert(s, b).index, b.height + 1, end)
  {
    InsertPuts(s, b);
    hide Insert;
  }

  lemma InsertFirst(s: Store, b: Block, more: seq<Op>, g: Hash)
    ensures Through(s, [InsertOp(b)] + more) == Through(Insert(s, b), more)
    ensures Sits(s.index, b, g) && AllowedRun(Insert(s, b), more, g) ==> AllowedRun(s, [InsertOp(b)] + more, g)
  {
    assert ([InsertOp(b)] + more)[1..] == more;
    hide Insert, Sits;
  }

  lemma {:induction false} FetchIsOps(s: Store, remote: Remote, calls: nat, height: nat, end: nat, done: nat, g: Hash)
    requires Kept(s, g) && Honest(remote) && OneGenesis(remote, g)
    requires height <= end ==> FetchesNext(s.index, height, end)
    ensures var ops := FetchOps(s, remote, calls, height, end);
            Through(s, ops) == FetchFrom(s, remote, calls, height, end, done).store && AllowedRun(s, ops, g)
    decreases end + 1 - height
  {
    hide Kept, Insert, Sits, WalkOps, WalkBack, Through, AllowedRun, Genuine;
    OneOp(s, ReopenOp(true), g);
    if height <= end && remote.blockAt(calls, height).Found? {
      var b := remote.blockAt(calls, height).block;
      if BreaksLink(s, height, b) {
        WalkIsOps(s, remote, calls + 1, height - 1, 0, g);
      } else {
        KeptLinear(s, g);
        NextSits(s, b, end, g);
        NextReady(s, b, end);
        StepKept(s, InsertOp(b), g);
        FetchIsOps(Insert(s, b), remote, calls + 1, height + 1, end, done + 1, g);
        InsertFirst(s, b, FetchOps(Insert(s, b), remote, calls + 1, height + 1, end), g);
      }
    }
  }

  lemma KeptLinear(s: Store, g: Hash)
    requires Kept(s, g)
    ensures Linear(s.index, g)
  {
  }

  /** A rewind stays at or below the tip, and a fetch goes on from it or backfills height 0. */
  predicate Performable(i: Index, action: TipAction, batch: nat) {
    && (action.ReorgFrom? ==> i.tip.Some? && action.height <= i.tip.value.0)
    && (action.Fetch? && action.from <= BatchEnd(action.from, action.to, batch) ==>
          FetchesNext(i, action.from, BatchEnd(action.from, action.to, batch)))
  }

  lemma ActionIsOps(s: Store, remote: Remote, calls: nat, batch: nat, action: TipAction, g: Hash)
    requires Kept(s, g) && Honest(remote) && OneGenesis(remote, g)
    requires Performable(s.index, action, batch)
    ensures var ops := ActionOps(s, remote, calls, batch, action);
            Through(s, ops) == Perform(s, remote, calls, batch, action).store && AllowedRun(s, ops, g)
  {
    hide Kept, WalkOps, WalkBack, FetchOps, FetchFrom, BatchEnd, Through, AllowedRun;
    OneOp(s, ReopenOp(true), g);
    match action
    case Idle =>
    case HoldForBackendCatchup =>
    case ReorgFrom(h) => WalkIsOps(s, remote, calls, h, 0, g);
    case Fetch(from, end) => FetchIsOps(s, remote, calls, from, BatchEnd(from, end, batch), 0, g);
  }

  /** A poll does what it decides to do. */
  lemma PollIsDecided(s: Store, remote: Remote, calls: nat, batch: nat)
    ensures var d := Decided(s, remote, calls);
            PollOnce(s, remote, calls, batch).store
            == if d.None? then s else Perform(s, remote, d.value.1, batch, d.value.0).store
  {
    hide WalkBack, FetchFrom, BatchEnd, ClassifyTips;
  }

  lemma DecidedIsDue(s: Store, remote: Remote, calls: nat, batch: nat, g: Hash)
    requires Linear(s.index, g)
    ensures var d := Decided(s, remote, calls); d.Some? ==> Performable(s.index, d.value.0, batch)
  {
    hide BlocksLinked, HeightOfIsInverse;
  }

  lemma PollIsOps(s: Store, remote: Remote, calls: nat, batch: nat, g: Hash)
    requires Kept(s, g) && Honest(remote) && OneGenesis(remote, g)
    ensures var ops := PollOps(s, remote, calls, batch);
            Through(s, ops) == PollOnce(s, remote, calls, batch).store && AllowedRun(s, ops, g)
  {
    hide Kept, Linear, Through, AllowedRun, ActionOps, Perform, PollOnce, Decided, Performable;
    OneOp(s, ReopenOp(true), g);
    KeptLinear(s, g);
    PollIsDecided(s, remote, calls, batch);
    DecidedIsDue(s, remote, calls, batch, g);
    match Decided(s, remote, calls)
    case None =>
    case Some((action, next)) => ActionIsOps(s, remote, next, batch, action, g);
  }

  // ---- a whole life ----

  /** A poll of some node, a restart, or a prune that keeps `window` blocks below the tip. */
  datatype Stage =
    | PollStage(remote: Remote, calls: nat, batch: nat)
    | RestartStage(readable: bool)
    | PruneStage(window: nat)

  function StageOps(s: Store, stage: Stage): seq<Op> {
    match stage
    case PollStage(remote, calls, batch) => PollOps(s, remote, calls, batch)
    case RestartStage(readable) => [ReopenOp(readable)]
    case PruneStage(window) =>
      if window > 0 && s.index.tip.Some? && window < s.index.tip.value.0 then [PruneOp(s.index.tip.value.0 - window)]
      else []
  }

  function RunStage(s: Store, stage: Stage): Store {
    match stage
    case PollStage(remote, calls, batch) => PollOnce(s, remote, calls, batch).store
    case RestartStage(readable) => Reopen(s, readable)
    case PruneStage(window) => if window > 0 then Retain(s, window) else s
  }

  function Live(s: Store, stages: seq<Stage>): Store
    decreases |stages|
  {
    if stages == [] then s else Live(RunStage(s, stages[0]), stages[1..])
  }

  function LifeOps(s: Store, stages: seq<Stage>): seq<Op>
    decreases |stages|
  {
    if stages == [] then [] else StageOps(s, stages[0]) + LifeOps(RunStage(s, stages[0]), stages[1..])
  }

  /** Honest nodes, all with block 0 of hash `g`; nothing else is asked of them. */
  ghost predicate Peers(stages: seq<Stage>, g: Hash) {
    forall k :: 0 <= k < |stages| && stages[k].PollStage? ==>
      Honest(stages[k].remote) && OneGenesis(stages[k].remote, g)
  }

  lemma StageIsOps(s: Store, stage: Stage, g: Hash)
    requires Kept(s, g) && Peers([stage], g)
    ensures Through(s, StageOps(s, stage)) == RunStage(s, stage) && AllowedRun(s, StageOps(s, stage), g)
  {
    hide Kept, Through, AllowedRun, PollOps, PollOnce, Honest, OneGenesis;
    OneOp(s, ReopenOp(true), g);
    match stage
    case PollStage(remote, calls, batch) =>
      assert [stage][0] == stage;
      PollIsOps(s, remote, calls, batch, g);
    case RestartStage(readable) => OneOp(s, ReopenOp(readable), g);
    case PruneStage(window) =>
      if window > 0 && s.index.tip.Some? && window < s.index.tip.value.0 {
        OneOp(s, PruneOp(s.index.tip.value.0 - window), g);
      }
  }

  lemma {:induction false} LifeIsOps(s: Store, stages: seq<Stage>, g: Hash)
    requires Kept(s, g) && Peers(stages, g)
    ensures Through(s, LifeOps(s, stages)) == Live(s, stages) && AllowedRun(s, LifeOps(s, stages), g)
    ensures Kept(Live(s, stages), g)
    decreases |stages|
  {
    hide Kept, Through, AllowedRun, StageOps, RunStage, Honest, OneGenesis;
    if stages == [] {
      OneOp(s, ReopenOp(true), g);
    } else {
      StageIsOps(s, stages[0], g);
      RunKept(s, StageOps(s, stages[0]), g);
      var next := RunStage(s, stages[0]);
      LifeIsOps(next, stages[1..], g);
      ThroughBoth(s, StageOps(s, stages[0]), LifeOps(next, stages[1..]), g);
    }
  }

  lemma EmptyIsKept(g: Hash)
    ensures Kept(EMPTY_STORE, g) && Sound(EMPTY_STORE, map[])
  {
  }

  /** From an empty cache, over any polls of honest nodes that share block 0 and may reorganise at every
      call, restarts and prunes: all rows lie on one line, the hash index is the inverse of the hashes,
      each nullifier row is its block's, and no row or tree is above the tip. */
  lemma LifeKeepsRows(stages: seq<Stage>, g: Hash)
    requires Peers(stages, g)
    ensures Kept(Live(EMPTY_STORE, stages), g)
  {
    EmptyIsKept(g);
    hide Kept;
    LifeIsOps(EMPTY_STORE, stages, g);
  }

  // ---- how long the trees stay right ----

  /** No operation of the run replays a pruned row that had a coin. */
  ghost predicate NoPrunedReplay(s: Store, ledger: Rows, ops: seq<Op>)
    decreases |ops|
  {
    ops == [] || (ReplaysHeld(s, ledger, ops[0]) && NoPrunedReplay(Step(s, ops[0]), Ledger(ledger, ops[0]), ops[1..]))
  }

  /** The trees are replay of everything indexed and not rewound, after every operation of the run. */
  ghost predicate AlwaysSound(s: Store, ledger: Rows, ops: seq<Op>)
    decreases |ops|
  {
    Sound(s, ledger) && (ops == [] || AlwaysSound(Step(s, ops[0]), Ledger(ledger, ops[0]), ops[1..]))
  }

  lemma {:induction false} SoundWhileNoneReplayed(s: Store, ledger: Rows, ops: seq<Op>, g: Hash)
    requires Kept(s, g) && AllowedRun(s, ops, g) && Sound(s, ledger)
    ensures AlwaysSound(s, ledger, ops) <==> NoPrunedReplay(s, ledger, ops)
    decreases |ops|
  {
    hide Kept, Sound, Step, Ledger, Allowed, ReplaysHeld, Guard;
    if ops != [] {
      GuardIsReplay(s, ledger, ops[0], g);
      StepSound(s, ledger, ops[0]);
      StepKept(s, ops[0], g);
      if ReplaysHeld(s, ledger, ops[0]) {
        SoundWhileNoneReplayed(Step(s, ops[0]), Ledger(ledger, ops[0]), ops[1..], g);
      } else {
        NotSoundNext(s, ledger, ops);
      }
    }
  }

  lemma NotSoundNext(s: Store, ledger: Rows, ops: seq<Op>)
    requires ops != [] && !Sound(Step(s, ops[0]), Ledger(ledger, ops[0]))
    ensures !AlwaysSound(s, ledger, ops)
  {
    hide Sound, Step, Ledger;
  }

  /** Over the same life: the trees are right at every moment if and only if no backfill of block 0 and no
      rewind ever replays a pruned row that had a coin. Nothing else a server does can spoil them. */
  lemma TreesStayRightExactlyWhen(stages: seq<Stage>, g: Hash)
    requires Peers(stages, g)
    ensures var ops := LifeOps(EMPTY_STORE, stages);
            && Run(EMPTY_STORE, ops) == Live(EMPTY_STORE, stages)
            && (AlwaysSound(EMPTY_STORE, map[], ops) <==> NoPrunedReplay(EMPTY_STORE, map[], ops))
  {
    EmptyIsKept(g);
    hide Kept, Sound;
    LifeIsOps(EMPTY_STORE, stages, g);
    ThroughIsRun(EMPTY_STORE, LifeOps(EMPTY_STORE, stages));
    SoundWhileNoneReplayed(EMPTY_STORE, map[], LifeOps(EMPTY_STORE, stages), g);
  }
}
