/** The shortest run in which a block above the first one is cached twice: fetched, rewound and fetched
    again, with hints stored before either fetch. */
module Refetch {
  import opened Chain
  import opened CacheStore
  import opened ClueHints
  import opened HintedCache
  import opened PollerSafety
  import opened WindowCache
  import HintRuns = ClueHintRuns

  /** Two blocks as a node serves them, linked from height 0. */
  ghost predicate TwoServed(b0: Block, b1: Block) {
    Genuine(b0) && Genuine(b1) && b0.height == 0 && IsSuccessor(b0, b1) && ServedBare(b0) && ServedBare(b1)
  }

  function Twice(b0: Block, b1: Block, first: HintRuns.Op, second: HintRuns.Op, now: nat): seq<Event> {
    [Fetched(b0, now), Hinted(first, now), Fetched(b1, now), RewoundTo(0), Hinted(second, now), Fetched(b1, now)]
  }

  /** The hints after the first operation, and after the second. */
  function FirstHints(b0: Block, first: HintRuns.Op, now: nat): Hints {
    HintRuns.Step(Merged(NO_HINTS, b0, now).0, first, now)
  }

  function SecondHints(b0: Block, b1: Block, first: HintRuns.Op, second: HintRuns.Op, now: nat): Hints {
    HintRuns.Step(Merged(FirstHints(b0, first, now), b1, now).0, second, now)
  }

  /** The cache after the first fetch of `b1`, and after the second. */
  function FirstIndex(b0: Block, b1: Block, first: HintRuns.Op, now: nat): Index {
    Extended(Extended(EMPTY_STORE.index, Merged(NO_HINTS, b0, now).1), Merged(FirstHints(b0, first, now), b1, now).1)
  }

  function SecondIndex(b0: Block, b1: Block, first: HintRuns.Op, second: HintRuns.Op, now: nat): Index
    requires b0.height == 0
  {
    var i := FirstIndex(b0, b1, first, now);
    Extended(Shortened(i, 0), Merged(SecondHints(b0, b1, first, second, now), b1, now).1)
  }

  lemma FetchedIndex(s: Server, b: Block, now: nat)
    requires !IsHistorical(s.store, b.height)
    ensures Handle(s, Fetched(b, now)).store.index == Extended(s.store.index, Merged(s.hints, b, now).1)
  {
    InsertIndex(s.store, Merged(s.hints, b, now).1);
    hide Insert, Extended, Apply;
  }

  lemma FirstThree(b0: Block, b1: Block, first: HintRuns.Op, now: nat)
    requires b0.height == 0 && b1.height == 1
    ensures var s := HandleAll(NEW_SERVER, [Fetched(b0, now), Hinted(first, now), Fetched(b1, now)]);
            && s.store.index == FirstIndex(b0, b1, first, now)
            && s.hints == Merged(FirstHints(b0, first, now), b1, now).0
  {
    var s1 := Handle(NEW_SERVER, Fetched(b0, now));
    var s2 := Handle(s1, Hinted(first, now));
    ThreeEvents(NEW_SERVER, Fetched(b0, now), Hinted(first, now), Fetched(b1, now));
    FetchedIndex(NEW_SERVER, b0, now);
    FetchedIndex(s2, b1, now);
    hide Insert, Apply, HintRuns.Step, HandleAll;
  }

  lemma RewoundServer(s: Server)
    requires 0 in s.store.index.blocks
    ensures var r := Handle(s, RewoundTo(0));
            && r.store.index == Shortened(s.store.index, 0) && r.hints == s.hints
            && forall h :: h > 0 ==> !IsHistorical(r.store, h)
  {
    RewindIndex(s.store, 0);
    hide Rewind;
  }

  lemma HintedServer(s: Server, op: HintRuns.Op, now: nat)
    ensures var r := Handle(s, Hinted(op, now)); r.store == s.store && r.hints == HintRuns.Step(s.hints, op, now)
  {
  }

  lemma LastThree(s: Server, b1: Block, second: HintRuns.Op, now: nat)
    requires 0 in s.store.index.blocks && b1.height == 1
    ensures var es := [RewoundTo(0), Hinted(second, now), Fetched(b1, now)];
            HandleAll(s, es).store.index
            == Extended(Shortened(s.store.index, 0), Merged(HintRuns.Step(s.hints, second, now), b1, now).1)
  {
    hide Handle, HandleAll, Extended, Shortened, Merged, HintRuns.Step;
    ThreeEvents(s, RewoundTo(0), Hinted(second, now), Fetched(b1, now));
    RewoundServer(s);
    HintedServer(Handle(s, RewoundTo(0)), second, now);
    FetchedIndex(Handle(Handle(s, RewoundTo(0)), Hinted(second, now)), b1, now);
  }

  lemma TwiceRuns(b0: Block, b1: Block, first: HintRuns.Op, second: HintRuns.Op, now: nat)
    requires b0.height == 0 && b1.height == 1
    ensures var es := Twice(b0, b1, first, second, now);
            && HandleAll(NEW_SERVER, es[..3]).store.index == FirstIndex(b0, b1, first, now)
            && HandleAll(NEW_SERVER, es).store.index == SecondIndex(b0, b1, first, second, now)
  {
    hide HandleAll, Merged, HintRuns.Step;
    var early := [Fetched(b0, now), Hinted(first, now), Fetched(b1, now)];
    var more := [RewoundTo(0), Hinted(second, now), Fetched(b1, now)];
    assert Twice(b0, b1, first, second, now)[..3] == early && Twice(b0, b1, first, second, now) == early + more;
    FirstThree(b0, b1, first, now);
    MergedHeader(NO_HINTS, b0, now);
    HandleInTwo(NEW_SERVER, early, more);
    LastThree(HandleAll(NEW_SERVER, early), b1, second, now);
  }

  lemma ThreeEvents(s: Server, a: Event, b: Event, c: Event)
    ensures HandleAll(s, [a, b, c]) == Handle(Handle(Handle(s, a), b), c)
  {
    hide Handle;
    assert [a, b, c][1..] == [b, c] && [b, c][1..] == [c];
    assert HandleAll(Handle(s, a), [b, c]) == HandleAll(Handle(Handle(s, a), b), [c]);
  }

  /** A merged block is still genuine, at its height and on its parent. */
  lemma MergedIsGenuine(h: Hints, b: Block, now: nat)
    requires Young(h, now) && ServedBare(b) && Genuine(b)
    ensures var m := Merged(h, b, now).1; Genuine(m) && SameBareBlock(m, b)
  {
    MergedClues(h, b, now, now);
    hide Merged, Young, ServedBare;
  }

  lemma TwoHeld(x: Block, y: Block)
    requires Genuine(x) && Genuine(y) && x.height == 0 && IsSuccessor(x, y)
    ensures var i := Extended(Extended(EMPTY_STORE.index, x), y);
            && ChainHeld(i) && Held(i) == 2 && 1 in i.blocks
            && i.hashes[1] == y.hash && i.blocks[1] == y && i.blocks[0] == x
  {
    EmptyStoreInv();
    ExtendedHeld(EMPTY_STORE.index, x);
    ExtendedHeld(Extended(EMPTY_STORE.index, x), y);
    hide ChainHeld, Genuine;
  }

  /** Cut back to height 0 and extended by another copy of the same block. */
  lemma AgainHeld(x: Block, y: Block, z: Block)
    requires Genuine(x) && Genuine(y) && Genuine(z) && x.height == 0 && IsSuccessor(x, y) && IsSuccessor(x, z)
    ensures var i := Extended(Shortened(Extended(Extended(EMPTY_STORE.index, x), y), 0), z);
            && ChainHeld(i) && Held(i) == 2 && 1 in i.blocks
            && i.hashes[1] == z.hash && i.blocks[1] == z && i.blocks[0] == x
  {
    TwoHeld(x, y);
    var i := Extended(Extended(EMPTY_STORE.index, x), y);
    ShortenedHeld(i, 0);
    ExtendedHeld(Shortened(i, 0), z);
    hide ChainHeld, Genuine;
  }

  lemma HintsStayYoung(h: Hints, b: Block, op: HintRuns.Op, now: nat)
    requires Young(h, now) && ServedBare(b) && Proper(Hinted(op, now), now)
    ensures Young(HintRuns.Step(Merged(h, b, now).0, op, now), now)
  {
    MergedHints(h, b, now);
    HintsGrow(h, HintRuns.MergeOp(b.txs), now, now);
    hide Merged;
    HintsGrow(Merged(h, b, now).0, op, now, now);
  }

  /** Both times the chain of two is held, with the same hashes; only the merges differ. */
  lemma TwiceHeld(b0: Block, b1: Block, first: HintRuns.Op, second: HintRuns.Op, now: nat)
    requires TwoServed(b0, b1) && Proper(Hinted(first, now), now) && Proper(Hinted(second, now), now)
    ensures var i, j := FirstIndex(b0, b1, first, now), SecondIndex(b0, b1, first, second, now);
            && ChainHeld(i) && ChainHeld(j) && Held(i) == Held(j) == 2 && i.hashes[1] == j.hashes[1] == b1.hash
            && 1 in i.blocks && 1 in j.blocks && i.blocks[0] == j.blocks[0]
            && i.blocks[1] == Merged(FirstHints(b0, first, now), b1, now).1
            && j.blocks[1] == Merged(SecondHints(b0, b1, first, second, now), b1, now).1
    ensures Young(FirstHints(b0, first, now), now) && Young(SecondHints(b0, b1, first, second, now), now)
  {
    NewServerIsClean(now);
    HintsStayYoung(NO_HINTS, b0, first, now);
    HintsStayYoung(FirstHints(b0, first, now), b1, second, now);
    MergedIsGenuine(NO_HINTS, b0, now);
    MergedIsGenuine(FirstHints(b0, first, now), b1, now);
    MergedIsGenuine(SecondHints(b0, b1, first, second, now), b1, now);
    hide Merged, Young, Genuine, FirstHints, SecondHints, ServedBare, Proper, ChainHeld, Extended, Shortened;
    TwoHeld(Merged(NO_HINTS, b0, now).1, Merged(FirstHints(b0, first, now), b1, now).1);
    AgainHeld(Merged(NO_HINTS, b0, now).1, Merged(FirstHints(b0, first, now), b1, now).1,
              Merged(SecondHints(b0, b1, first, second, now), b1, now).1);
  }

  lemma TwoHashes(path: Path, i: Index, j: Index)
    requires ChainHeld(i) && ChainHeld(j) && Held(i) == Held(j) == 2 && i.hashes[1] == j.hashes[1]
    ensures EndHash(path, i, 1) == EndHash(path, j, 1)
  {
    hide BlocksLinked, HeightOfIsInverse;
  }
}
