/** The cache and the hint store together: every fetched block is merged with the hints stored by
    then, so the same block may be cached again later with other clues. */
module HintedCache {
  import opened Chain
  import opened CacheNullifiers
  import opened CacheStore
  import opened ClueHints
  import opened HintCodec
  import HintRuns = ClueHintRuns

  datatype Server = Server(store: Store, hints: Hints)

  const NO_HINTS := Hints(map[], map[], 0, map[])
  const NEW_SERVER := Server(EMPTY_STORE, NO_HINTS)

  datatype Event =
    | Fetched(block: Block, now: nat)
    | RewoundTo(height: nat)
    | PrunedBelow(height: nat)
    | Restarted(readable: bool)
    | Hinted(op: HintRuns.Op, now: nat)

  function Merged(h: Hints, b: Block, now: nat): (Hints, Block) {
    var (after, txs) := Apply(h, b.txs, now);
    (after, b.(txs := txs))
  }

  function Handle(s: Server, e: Event): Server {
    match e
    case Fetched(b, now) =>
      var (hints, block) := Merged(s.hints, b, now);
      Server(Insert(s.store, block), hints)
    case RewoundTo(h) => s.(store := Rewind(s.store, h))
    case PrunedBelow(h) => s.(store := Prune(s.store, h))
    case Restarted(readable) => s.(store := Reopen(s.store, readable))
    case Hinted(op, now) => s.(hints := HintRuns.Step(s.hints, op, now))
  }

  function HandleAll(s: Server, es: seq<Event>): Server
    decreases |es|
  {
    if es == [] then s else HandleAll(Handle(s, es[0]), es[1..])
  }

  lemma {:induction false} HandleInTwo(s: Server, first: seq<Event>, more: seq<Event>)
    ensures HandleAll(s, first + more) == HandleAll(HandleAll(s, first), more)
    decreases |first|
  {
    if first == [] {
      assert first + more == more;
    } else {
      assert (first + more)[1..] == first[1..] + more;
      hide Handle;
      HandleInTwo(Handle(s, first[0]), first[1..], more);
    }
  }

  // ---- what the hints place on a transaction ----

  function ListOf(h: Hints, tx: nat): seq<Hint> {
    if tx in h.clues then Decode(h.clues[tx]) else []
  }

  /** The clue that merging all of `h` into the bare transaction puts on output `j`. */
  function Placed(h: Hints, tx: Tx, j: nat): Bytes {
    var merged := Merge(BareOutputs(tx.outputs), ListOf(h, tx.id));
    if j < |merged| then merged[j].clue else []
  }

  ghost predicate Grown(before: Hints, after: Hints) {
    forall tx: nat :: ListOf(before, tx) <= ListOf(after, tx)
  }

  lemma PlacedStays(before: Hints, after: Hints, tx: Tx, j: nat)
    requires Grown(before, after) && Placed(before, tx, j) != []
    ensures Placed(after, tx, j) == Placed(before, tx, j)
  {
    var outputs := BareOutputs(tx.outputs);
    assert ListOf(before, tx.id) <= ListOf(after, tx.id);
    MergeOnlyFills(outputs, ListOf(before, tx.id));
    hide Merge, ListOf;
    MoreHintsKeepClues(outputs, ListOf(before, tx.id), ListOf(after, tx.id), j);
  }

  /** Hints that were all stored since `base`, so that none expires before `base + TTL`. */
  ghost predicate Young(h: Hints, base: nat) {
    HintRuns.Stored(h) && forall tx :: tx in h.storedAt ==> base <= h.storedAt[tx]
  }

  lemma YoungIsListed(h: Hints, base: nat, now: nat, tx: nat)
    requires Young(h, base) && now <= base + TTL
    ensures Listed(h, tx, now) == ListOf(h, tx)
  {
    hide Decode;
  }

  lemma PlacedIsListed(h: Hints, tx: Tx, base: nat, now: nat, j: nat)
    requires Young(h, base) && now <= base + TTL && BareOutputs(tx.outputs) == tx.outputs && j < |tx.outputs|
    ensures var merged := Merge(tx.outputs, Listed(h, tx.id, now));
            |merged| == |tx.outputs| && Placed(h, tx, j) == merged[j].clue
  {
    YoungIsListed(h, base, now, tx.id);
    hide Young, Listed, ListOf;
    MergeOnlyFills(tx.outputs, Listed(h, tx.id, now));
  }

  // ---- clues of a cached block ----

  /** Every clue of `b` is one that `h` places. */
  ghost predicate FromHints(h: Hints, b: Block) {
    forall i, j :: 0 <= i < |b.txs| && 0 <= j < |b.txs[i].outputs| && b.txs[i].outputs[j].clue != [] ==>
      Placed(h, b.txs[i], j) == b.txs[i].outputs[j].clue
  }

  /** `b` carries every clue that `h` places. */
  ghost predicate HasPlaced(h: Hints, b: Block) {
    forall i, j :: 0 <= i < |b.txs| && 0 <= j < |b.txs[i].outputs| && Placed(h, b.txs[i], j) != [] ==>
      Placed(h, b.txs[i], j) == b.txs[i].outputs[j].clue
  }

  ghost predicate ServedBare(b: Block) {
    Bare(b.txs) == b.txs
  }

  /** A merged block carries exactly the clues that the hints place on it. */
  lemma MergedPlaces(h: Hints, b: Block, base: nat, now: nat, i: nat, j: nat)
    requires Young(h, base) && base <= now <= base + TTL && ServedBare(b)
    ensures var merged := Merged(h, b, now).1;
            && |merged.txs| == |b.txs| && Bare(merged.txs) == b.txs
            && (i < |b.txs| && j < |merged.txs[i].outputs| ==>
                  merged.txs[i].outputs[j].clue == Placed(h, merged.txs[i], j))
  {
    var txs := Merged(h, b, now).1.txs;
    HintRuns.MergeKeepsBareContent(h, b.txs, now);
    BareFixesShape(txs, b.txs);
    if i < |b.txs| && j < |txs[i].outputs| {
      assert BareOutputs(b.txs[i].outputs) == b.txs[i].outputs by { assert Bare(b.txs)[i] == b.txs[i]; }
      HintRuns.ApplyMerges(h, b.txs, now, i, j);
      PlacedIsListed(h, b.txs[i], base, now, j);
      hide Apply, Young, Listed, Bare;
      assert Placed(h, txs[i], j) == Placed(h, b.txs[i], j);
    }
  }

  lemma MergedClues(h: Hints, b: Block, base: nat, now: nat)
    requires Young(h, base) && base <= now <= base + TTL && ServedBare(b)
    ensures var merged := Merged(h, b, now).1;
            FromHints(h, merged) && HasPlaced(h, merged) && SameBareBlock(merged, b)
  {
    hide Merged, Placed, Young;
    var merged := Merged(h, b, now).1;
    forall i: nat, j: nat | i < |merged.txs| && j < |merged.txs[i].outputs|
      ensures merged.txs[i].outputs[j].clue == Placed(h, merged.txs[i], j)
    {
      MergedPlaces(h, b, base, now, i, j);
    }
    MergedPlaces(h, b, base, now, 0, 0);
    MergedHeader(h, b, now);
  }

  lemma MergedHeader(h: Hints, b: Block, now: nat)
    ensures Merged(h, b, now).1 == b.(txs := Merged(h, b, now).1.txs)
  {
  }

  // ---- lists only grow while nothing expires ----

  /** What a node, a client and the clock may do within the time to live counted from `base`. */
  ghost predicate Proper(e: Event, base: nat) {
    match e
    case Fetched(b, now) => ServedBare(b) && base <= now <= base + TTL
    case RewoundTo(_) => true
    case PrunedBelow(_) => true
    case Restarted(_) => true
    case Hinted(op, now) => HintRuns.Legal(op) && !op.RemoveOp? && base <= now <= base + TTL
  }

  lemma {:induction false} ApplyAddsNone(h: Hints, txs: seq<Tx>, now: nat)
    ensures Apply(h, txs, now).0.storedAt.Keys <= h.storedAt.Keys
    decreases |txs|
  {
    if txs != [] {
      ApplyAddsNone(h, txs[..|txs| - 1], now);
      ApplyTxAddsNone(Apply(h, txs[..|txs| - 1], now).0, txs[|txs| - 1], now);
      hide ApplyTx;
    }
  }

  lemma ApplyTxAddsNone(h: Hints, tx: Tx, now: nat)
    ensures ApplyTx(h, tx, now).0.storedAt.Keys <= h.storedAt.Keys
  {
    hide Decode, Merge, AttachMeta, ParseMeta;
  }

  /** A hint that was not there before was stored now. */
  lemma NewHintIsNew(h: Hints, op: HintRuns.Op, now: nat, tx: nat)
    requires tx in HintRuns.Step(h, op, now).storedAt && tx !in h.storedAt
    ensures HintRuns.Step(h, op, now).storedAt[tx] == now
  {
    hide Decode, Encode, Taken, Apply;
    if op.MergeOp? {
      ApplyAddsNone(h, op.txs, now);
    }
  }

  lemma OneListGrows(h: Hints, op: HintRuns.Op, now: nat, base: nat, tx: nat)
    requires Young(h, base) && Proper(Hinted(op, now), base)
    ensures var after := HintRuns.Step(h, op, now);
            && HintRuns.Stored(after) && ListOf(h, tx) <= ListOf(after, tx)
            && (tx in after.storedAt ==> base <= after.storedAt[tx])
  {
    HintRuns.StepStored(h, op, now);
    hide Decode, HintRuns.GoodList, HintRuns.Step, HintRuns.Legal;
    if tx in h.storedAt {
      HintRuns.StepKeepsList(h, op, now, tx, base);
    } else if tx in HintRuns.Step(h, op, now).storedAt {
      NewHintIsNew(h, op, now, tx);
    }
  }

  lemma HintsGrow(h: Hints, op: HintRuns.Op, now: nat, base: nat)
    requires Young(h, base) && Proper(Hinted(op, now), base)
    ensures var after := HintRuns.Step(h, op, now); Young(after, base) && Grown(h, after)
  {
    OneListGrows(h, op, now, base, 0);
    hide HintRuns.Step, HintRuns.Stored, ListOf, Proper;
    forall tx: nat
      ensures ListOf(h, tx) <= ListOf(HintRuns.Step(h, op, now), tx)
      ensures tx in HintRuns.Step(h, op, now).storedAt ==> base <= HintRuns.Step(h, op, now).storedAt[tx]
    {
      OneListGrows(h, op, now, base, tx);
    }
  }

  /** Merging into a fetched block is a merge operation on the hints. */
  lemma MergedHints(h: Hints, b: Block, now: nat)
    ensures Merged(h, b, now).0 == HintRuns.Step(h, HintRuns.MergeOp(b.txs), now)
  {
  }

  lemma HandleGrows(s: Server, e: Event, base: nat)
    requires Young(s.hints, base) && Proper(e, base)
    ensures Young(Handle(s, e).hints, base) && Grown(s.hints, Handle(s, e).hints)
  {
    match e
    case Fetched(b, now) =>
      MergedHints(s.hints, b, now);
      HintsGrow(s.hints, HintRuns.MergeOp(b.txs), now, base);
    case RewoundTo(_) =>
      hide ListOf;
    case PrunedBelow(_) =>
      hide ListOf;
    case Restarted(_) =>
      hide ListOf;
    case Hinted(op, now) =>
      HintsGrow(s.hints, op, now, base);
  }

  // ---- no clue is lost ----

  lemma HandledBlocks(s: Server, e: Event)
    ensures match e
            case Fetched(b, now) => Handle(s, e).store.index.blocks
                                    == s.store.index.blocks[b.height := Merged(s.hints, b, now).1]
            case RewoundTo(h) => Handle(s, e).store.index.blocks == s.store.index.blocks - Above(s.store, h)
            case PrunedBelow(h) => Handle(s, e).store.index.blocks
                                   == s.store.index.blocks - set k | k in s.store.index.blocks && k < h
            case Restarted(_) => Handle(s, e).store.index.blocks == s.store.index.blocks
            case Hinted(_, _) => Handle(s, e).store == s.store
  {
    match e
    case Fetched(b, now) => InsertNullifiers(s.store, Merged(s.hints, b, now).1);
    case RewoundTo(h) => RewindNullifiers(s.store, h);
    case PrunedBelow(_) =>
    case Restarted(_) =>
    case Hinted(_, _) =>
  }

  /** Every clue in the cache is one that the hints place. */
  ghost predicate CluesFromHints(s: Server) {
    forall k :: k in s.store.index.blocks ==> FromHints(s.hints, s.store.index.blocks[k])
  }

  lemma FromGrown(before: Hints, after: Hints, b: Block)
    requires Grown(before, after) && FromHints(before, b)
    ensures FromHints(after, b)
  {
    hide Placed, Grown;
    forall i, j | 0 <= i < |b.txs| && 0 <= j < |b.txs[i].outputs| && b.txs[i].outputs[j].clue != []
      ensures Placed(after, b.txs[i], j) == b.txs[i].outputs[j].clue
    {
      PlacedStays(before, after, b.txs[i], j);
    }
  }

  lemma HandleKeepsClues(s: Server, e: Event, base: nat)
    requires Young(s.hints, base) && Proper(e, base) && CluesFromHints(s)
    ensures CluesFromHints(Handle(s, e))
  {
    HandleGrows(s, e, base);
    HandledBlocks(s, e);
    var after := Handle(s, e);
    if e.Fetched? {
      MergedClues(s.hints, e.block, base, e.now);
    }
    hide Handle, Young, Grown, FromHints, HasPlaced, Merged, ServedBare, SameBareBlock;
    forall k | k in after.store.index.blocks ensures FromHints(after.hints, after.store.index.blocks[k]) {
      FromGrown(s.hints, after.hints, after.store.index.blocks[k]);
    }
  }

  /** Since `early`: lists have grown, and every block now cached was cached then, or was merged since
      and carries every clue that the hints of then place. */
  ghost predicate Later(early: Server, s: Server, base: nat) {
    && Young(s.hints, base) && Grown(early.hints, s.hints)
    && forall k :: k in s.store.index.blocks ==>
      || (k in early.store.index.blocks && s.store.index.blocks[k] == early.store.index.blocks[k])
      || HasPlaced(early.hints, s.store.index.blocks[k])
  }

  lemma GrownThrough(a: Hints, b: Hints, c: Hints)
    requires Grown(a, b) && Grown(b, c)
    ensures Grown(a, c)
  {
    hide ListOf;
    forall tx: nat ensures ListOf(a, tx) <= ListOf(c, tx) {
      assert ListOf(a, tx) <= ListOf(b, tx) && ListOf(b, tx) <= ListOf(c, tx);
    }
  }

  lemma PlacedGrown(before: Hints, after: Hints, b: Block)
    requires Grown(before, after) && HasPlaced(after, b)
    ensures HasPlaced(before, b)
  {
    hide Placed, Grown;
    forall i, j | 0 <= i < |b.txs| && 0 <= j < |b.txs[i].outputs| && Placed(before, b.txs[i], j) != []
      ensures Placed(before, b.txs[i], j) == b.txs[i].outputs[j].clue
    {
      PlacedStays(before, after, b.txs[i], j);
    }
  }

  lemma HandleIsLater(early: Server, s: Server, e: Event, base: nat)
    requires Later(early, s, base) && Proper(e, base)
    ensures Later(early, Handle(s, e), base)
  {
    HandleGrows(s, e, base);
    HandledBlocks(s, e);
    GrownThrough(early.hints, s.hints, Handle(s, e).hints);
    if e.Fetched? {
      MergedClues(s.hints, e.block, base, e.now);
      PlacedGrown(early.hints, s.hints, Merged(s.hints, e.block, e.now).1);
    }
    hide Handle, Young, Grown, FromHints, HasPlaced, Merged, ServedBare, SameBareBlock;
  }

  ghost predicate AllProper(es: seq<Event>, base: nat) {
    forall i :: 0 <= i < |es| ==> Proper(es[i], base)
  }

  lemma {:induction false} RunKeepsClues(s: Server, es: seq<Event>, base: nat)
    requires Young(s.hints, base) && CluesFromHints(s) && AllProper(es, base)
    ensures var end := HandleAll(s, es); Young(end.hints, base) && CluesFromHints(end)
    decreases |es|
  {
    hide Young, CluesFromHints, Handle, Proper, Grown;
    if es != [] {
      HandleGrows(s, es[0], base);
      HandleKeepsClues(s, es[0], base);
      RunKeepsClues(Handle(s, es[0]), es[1..], base);
    }
  }

  lemma {:induction false} RunIsLater(early: Server, s: Server, es: seq<Event>, base: nat)
    requires Later(early, s, base) && AllProper(es, base)
    ensures Later(early, HandleAll(s, es), base)
    decreases |es|
  {
    hide Later, Handle, Proper;
    if es != [] {
      HandleIsLater(early, s, es[0], base);
      RunIsLater(early, Handle(s, es[0]), es[1..], base);
    }
  }

  /** `b` has every clue `a` has, on the same outputs. */
  ghost predicate KeepsClues(a: seq<Tx>, b: seq<Tx>) {
    && |a| == |b|
    && forall i :: 0 <= i < |a| ==>
      && |a[i].outputs| == |b[i].outputs|
      && forall j :: 0 <= j < |a[i].outputs| && a[i].outputs[j].clue != [] ==>
        b[i].outputs[j].clue == a[i].outputs[j].clue
  }

  lemma PlacedCluesAreKept(h: Hints, a: Block, b: Block)
    requires FromHints(h, a) && HasPlaced(h, b) && SameBareBlock(a, b)
    ensures KeepsClues(a.txs, b.txs)
  {
    BareFixesShape(a.txs, b.txs);
    hide Merge, ListOf, Bare;
    forall i, j | 0 <= i < |a.txs| && 0 <= j < |a.txs[i].outputs| && a.txs[i].outputs[j].clue != []
      ensures b.txs[i].outputs[j].clue == a.txs[i].outputs[j].clue
    {
      assert Placed(h, a.txs[i], j) == Placed(h, b.txs[i], j);
    }
  }

  lemma LaterKeepsClues(early: Server, s: Server, base: nat, k: nat)
    requires CluesFromHints(early) && Later(early, s, base)
    requires k in early.store.index.blocks && k in s.store.index.blocks
    requires SameBareBlock(early.store.index.blocks[k], s.store.index.blocks[k])
    ensures KeepsClues(early.store.index.blocks[k].txs, s.store.index.blocks[k].txs)
  {
    hide Young, Grown, FromHints, HasPlaced, SameBareBlock;
    if HasPlaced(early.hints, s.store.index.blocks[k]) {
      PlacedCluesAreKept(early.hints, early.store.index.blocks[k], s.store.index.blocks[k]);
    }
  }

  lemma NewServerIsClean(base: nat)
    ensures Young(NO_HINTS, base) && CluesFromHints(NEW_SERVER)
  {
  }

  lemma SameIsLater(s: Server, base: nat)
    requires Young(s.hints, base)
    ensures Later(s, s, base)
  {
  }

  /** While no hint expires or is withdrawn, a block that is cached again, after any rewinds, fetches
      and new hints, has every clue it ever had. */
  lemma NoClueIsLost(es: seq<Event>, early: nat, late: nat, base: nat, k: nat)
    requires AllProper(es, base) && early <= late <= |es|
    requires k in HandleAll(NEW_SERVER, es[..early]).store.index.blocks
    requires k in HandleAll(NEW_SERVER, es[..late]).store.index.blocks
    requires SameBareBlock(HandleAll(NEW_SERVER, es[..early]).store.index.blocks[k],
                           HandleAll(NEW_SERVER, es[..late]).store.index.blocks[k])
    ensures KeepsClues(HandleAll(NEW_SERVER, es[..early]).store.index.blocks[k].txs,
                       HandleAll(NEW_SERVER, es[..late]).store.index.blocks[k].txs)
  {
    hide HandleAll, Young, Later, CluesFromHints, KeepsClues, SameBareBlock, Proper;
    var s := HandleAll(NEW_SERVER, es[..early]);
    NewServerIsClean(base);
    RunKeepsClues(NEW_SERVER, es[..early], base);
    SameIsLater(s, base);
    RunIsLater(s, s, es[early..late], base);
    assert es[..late] == es[..early] + es[early..late];
    HandleInTwo(NEW_SERVER, es[..early], es[early..late]);
    LaterKeepsClues(s, HandleAll(s, es[early..late]), base, k);
  }
}
