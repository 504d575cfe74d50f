/** What every cache operation does to the stored rows, as functions on a value. */
module CacheStore {
  import opened Chain
  import opened Replay

  /** One snapshot every this many blocks, plus one at the tip. */
  const INTERVAL: nat := 1024

  datatype TreeAt = TreeAt(height: nat, tree: Tree)

  /** The in-memory tree; `loadFailed` when the persisted bytes could not be read. */
  datatype LiveTree = LiveTree(height: Option<nat>, tree: Tree, loadFailed: bool)

  const EMPTY_LIVE := LiveTree(None, SENTINEL, false)

  /** The block rows and the tip keys. */
  datatype Index = Index(
    blocks: map<nat, Block>,
    hashes: map<nat, Hash>,
    heightOf: map<Hash, nat>,
    tip: Option<(nat, Hash)>)

  datatype Store = Store(
    index: Index,
    nullifiers: map<nat, seq<nat>>,
    coins: Rows,
    snaps: map<nat, Tree>,
    tipTree: Option<TreeAt>,
    live: LiveTree)

  const EMPTY_STORE := Store(Index(map[], map[], map[], None), map[], map[], map[], None, EMPTY_LIVE)

  predicate IsBoundary(h: nat) {
    h % INTERVAL == 0
  }

  function Upto<V>(m: map<nat, V>, h: int): map<nat, V> {
    map k | k in m && k <= h :: m[k]
  }

  function Below<V>(m: map<nat, V>, h: nat): map<nat, V> {
    Upto(m, h - 1)
  }

  /** Greatest snapshot height at or below `h`. */
  function Greatest(snaps: map<nat, Tree>, h: nat): (r: Option<nat>)
    ensures r.None? ==> forall k :: k in snaps ==> h < k
    ensures r.Some? ==> r.value in snaps && r.value <= h && forall k :: k in snaps && k <= h ==> k <= r.value
  {
    if h in snaps then Some(h) else if h == 0 then None else Greatest(snaps, h - 1)
  }

  /** Persist `tree` as the tip; the previous tip row goes unless it is a boundary. */
  function StoreTip(s: Store, prev: Option<nat>, h: nat, tree: Tree): Store {
    var snaps := s.snaps[h := tree];
    s.(snaps := if prev.Some? && prev.value != h && !IsBoundary(prev.value) then snaps - {prev.value} else snaps,
       tipTree := Some(TreeAt(h, tree)),
       live := LiveTree(Some(h), tree, false))
  }

  /** First height a rebuild to `t` replays. */
  function SeedNext(s: Store, t: nat): nat {
    match Greatest(s.snaps, t)
    case Some(k) => k + 1
    case None => 0
  }

  function SeedTree(s: Store, t: nat): Tree {
    match Greatest(s.snaps, t)
    case Some(k) => s.snaps[k]
    case None => SENTINEL
  }

  /** A rebuild to 0 of a cache without block 0 only clears the trees. */
  predicate RebuildClears(s: Store, t: nat) {
    t == 0 && 0 !in s.index.blocks
  }

  /** Boundary snapshots of a replay that starts from `seed` and reads rows from..=to. */
  function BoundaryTrees(seed: Tree, rows: Rows, from: nat, to: int): map<nat, Tree> {
    map k: nat | from <= k <= to && IsBoundary(k) :: seed + Between(rows, from, k)
  }

  /** Snapshots a rebuild to `t` writes on its way. */
  function BoundarySnaps(s: Store, t: nat): map<nat, Tree> {
    BoundaryTrees(SeedTree(s, t), s.coins, SeedNext(s, t), t)
  }

  /** Seed from the greatest snapshot at or below `t`, replay the coin rows above it. */
  function Rebuild(s: Store, t: nat): Store {
    if RebuildClears(s, t) then
      s.(snaps := map[], tipTree := None, live := EMPTY_LIVE)
    else
      var kept := s.(snaps := Upto(s.snaps, t) + BoundarySnaps(s, t));
      StoreTip(kept, Greatest(s.snaps, t), t, SeedTree(s, t) + Between(s.coins, SeedNext(s, t), t))
  }

  predicate AppendNeedsRebuild(s: Store, h: nat) {
    s.live.loadFailed || (s.live.height.Some? && h != s.live.height.value + 1)
  }

  function Append(s: Store, h: nat, coins: seq<Coin>): Store {
    if AppendNeedsRebuild(s, h) && h == 0 then
      Rebuild(s, 0)
    else
      var base := if AppendNeedsRebuild(s, h) then Rebuild(s, h - 1) else s;
      StoreTip(base, base.live.height, h, base.live.tree + coins)
  }

  /** The rows of a block, before the tip and the trees are touched. */
  function PutRows(s: Store, b: Block): Store {
    s.(index := s.index.(blocks := s.index.blocks[b.height := b],
                         hashes := s.index.hashes[b.height := b.hash],
                         heightOf := s.index.heightOf[b.hash := b.height]),
       nullifiers := if TxNullifiers(b.txs) == [] then s.nullifiers
                     else s.nullifiers[b.height := TxNullifiers(b.txs)],
       coins := if Coins(b) == [] then s.coins else s.coins[b.height := Coins(b)])
  }

  /** A block below the tip: backfill or overwrite of history. */
  predicate IsHistorical(s: Store, h: nat) {
    s.index.tip.Some? && h < s.index.tip.value.0
  }

  /** Rows after a historical insert: every snapshot that misses the new coins is gone. */
  function HistoryCut(s: Store, b: Block): Store {
    PutRows(s, b).(snaps := Below(s.snaps, b.height))
  }

  /** Rows after an insert at or above the tip. */
  function TipRows(s: Store, b: Block): Store {
    var rows := PutRows(s, b);
    rows.(index := rows.index.(tip := Some((b.height, b.hash))))
  }

  function Insert(s: Store, b: Block): Store {
    if IsHistorical(s, b.height) then
      Rebuild(HistoryCut(s, b), s.index.tip.value.0)
    else
      Append(TipRows(s, b), b.height, Coins(b))
  }

  /** Drop the rows of every cached block whose height is in `gone`. */
  function DropRows(s: Store, gone: set<nat>): Store {
    s.(index := s.index.(blocks := s.index.blocks - gone,
                         hashes := s.index.hashes - gone,
                         heightOf := s.index.heightOf - set k | k in gone && k in s.index.hashes :: s.index.hashes[k]),
       nullifiers := s.nullifiers - gone,
       coins := s.coins - gone)
  }

  function Above(s: Store, h: nat): set<nat> {
    set k | k in s.index.blocks && h < k
  }

  /** The rows a rewind to `h` leaves, before the trees are rebuilt. */
  function RewindCut(s: Store, h: nat): Store {
    var rows := DropRows(s, Above(s, h));
    var tip := if h in rows.index.blocks then Some((h, rows.index.blocks[h].hash))
               else if h == 0 then None else s.index.tip;
    rows.(index := rows.index.(tip := tip), snaps := Upto(rows.snaps, h))
  }

  function Rewind(s: Store, h: nat): Store {
    Rebuild(RewindCut(s, h), h)
  }

  /** Prune keeps every snapshot and the tip keys. */
  function Prune(s: Store, min: nat): Store {
    DropRows(s, set k | k in s.index.blocks && k < min)
  }

  /** Prune everything more than `window` blocks below the tip. */
  function Retain(s: Store, window: nat): Store {
    if s.index.tip.Some? && window < s.index.tip.value.0 then Prune(s, s.index.tip.value.0 - window) else s
  }

  /** Restart; `readable` says whether the persisted tip tree deserializes. */
  function Reopen(s: Store, readable: bool): Store {
    match s.tipTree
    case None => s.(live := EMPTY_LIVE)
    case Some(t) =>
      s.(snaps := if t.height in s.snaps then s.snaps else s.snaps[t.height := t.tree],
         live := if readable then LiveTree(Some(t.height), t.tree, false) else LiveTree(None, SENTINEL, true))
  }

  datatype Op = InsertOp(block: Block) | RewindOp(height: nat) | PruneOp(min: nat) | ReopenOp(readable: bool)

  function Step(s: Store, op: Op): Store {
    match op
    case InsertOp(b) => Insert(s, b)
    case RewindOp(h) => Rewind(s, h)
    case PruneOp(m) => Prune(s, m)
    case ReopenOp(r) => Reopen(s, r)
  }

  function Run(s: Store, ops: seq<Op>): Store {
    if ops == [] then s else Step(Run(s, ops[..|ops| - 1]), ops[|ops| - 1])
  }
}
