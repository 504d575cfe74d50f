/** The window cache of detection: the clue of every output, and the note where there is no clue. */
module ClueWindow {
  import opened Chain
  import opened CacheStore
  import opened ClueHints
  import opened HintCodec
  import opened HintedCache
  import opened PollerSafety
  import opened Refetch
  import opened WindowCache
  import opened WindowOrder
  import opened Words
  import HintRuns = ClueHintRuns

  /** What detection reads of an output; the note only where there is no clue. */
  datatype Note = Note(note: Bytes, clue: Bytes)

  function NoteOf(o: Output): Note {
    Note(if o.clue == [] then o.note else [], o.clue)
  }

  function OutputNotes(outputs: seq<Output>): seq<Note> {
    seq(|outputs|, i requires 0 <= i < |outputs| => NoteOf(outputs[i]))
  }

  /** Notes of a block in transaction, then output order. */
  function TxNotes(txs: seq<Tx>): seq<Note> {
    if txs == [] then [] else OutputNotes(txs[0].outputs) + TxNotes(txs[1..])
  }

  /** Longer windows are refused. */
  const MAX_NOTES_SPAN: nat := 10_000

  function ClueLoader(): Loader<seq<Note>> {
    Loader(ClueWindows, (b: Block) => TxNotes(b.txs), [], p => |p| <= MAX_NOTES_SPAN)
  }

  /** Same clue on every output. */
  ghost predicate SameClues(a: seq<Tx>, b: seq<Tx>) {
    forall i, j :: 0 <= i < |a| && i < |b| && 0 <= j < |a[i].outputs| && j < |b[i].outputs| ==>
      a[i].outputs[j].clue == b[i].outputs[j].clue
  }

  lemma OutputNotesAgree(a: seq<Output>, b: seq<Output>)
    requires BareOutputs(a) == BareOutputs(b)
    ensures |a| == |b|
    ensures OutputNotes(a) == OutputNotes(b) <==> forall j :: 0 <= j < |a| ==> a[j].clue == b[j].clue
  {
    assert |BareOutputs(a)| == |a| && |BareOutputs(b)| == |b|;
    forall j | 0 <= j < |a| ensures NoteOf(a[j]) == NoteOf(b[j]) <==> a[j].clue == b[j].clue {
      assert BareOutputs(a)[j] == BareOutputs(b)[j];
    }
    if forall j :: 0 <= j < |a| ==> a[j].clue == b[j].clue {
      assert OutputNotes(a) == OutputNotes(b);
    } else {
      var j :| 0 <= j < |a| && a[j].clue != b[j].clue;
      assert OutputNotes(a)[j] != OutputNotes(b)[j];
    }
  }

  /** The notes of two copies of a block agree exactly when every output has the same clue. */
  lemma {:induction false} NotesAgreeExactlyWhen(a: seq<Tx>, b: seq<Tx>)
    requires Bare(a) == Bare(b)
    ensures |TxNotes(a)| == |TxNotes(b)|
    ensures TxNotes(a) == TxNotes(b) <==> SameClues(a, b)
  {
    BareFixesShape(a, b);
    if a != [] {
      assert Bare(a[1..]) == Bare(a)[1..] && Bare(b[1..]) == Bare(b)[1..];
      NotesAgreeExactlyWhen(a[1..], b[1..]);
      OutputNotesAgree(a[0].outputs, b[0].outputs);
      ConcatAgrees(OutputNotes(a[0].outputs), TxNotes(a[1..]), OutputNotes(b[0].outputs), TxNotes(b[1..]));
      SameCluesCons(a, b);
    }
  }

  lemma ConcatAgrees<T>(a: seq<T>, c: seq<T>, b: seq<T>, d: seq<T>)
    requires |a| == |b|
    ensures a + c == b + d <==> a == b && c == d
  {
    assert (a + c)[..|a|] == a && (b + d)[..|b|] == b && (a + c)[|a|..] == c && (b + d)[|b|..] == d;
  }

  lemma SameCluesCons(a: seq<Tx>, b: seq<Tx>)
    requires a != [] && b != [] && |a[0].outputs| == |b[0].outputs|
    ensures SameClues(a, b) <==>
      SameClues(a[1..], b[1..])
      && forall j :: 0 <= j < |a[0].outputs| ==> a[0].outputs[j].clue == b[0].outputs[j].clue
  {
    if SameClues(a, b) {
      forall i, j | 0 <= i < |a[1..]| && i < |b[1..]| && 0 <= j < |a[1..][i].outputs| && j < |b[1..][i].outputs|
        ensures a[1..][i].outputs[j].clue == b[1..][i].outputs[j].clue
      {
        assert a[1..][i] == a[i + 1] && b[1..][i] == b[i + 1];
      }
    } else {
      var i, j :| 0 <= i < |a| && i < |b| && 0 <= j < |a[i].outputs| && j < |b[i].outputs|
                  && a[i].outputs[j].clue != b[i].outputs[j].clue;
      if i > 0 {
        assert a[1..][i - 1] == a[i] && b[1..][i - 1] == b[i];
      }
    }
  }

  lemma {:induction false} NotePlace(txs: seq<Tx>, i: nat, j: nat)
    ensures |TxNotes(txs)| == OutputsBefore(txs, |txs|)
    ensures i < |txs| && j < |txs[i].outputs| ==>
      && OutputsBefore(txs, i) + j < |TxNotes(txs)|
      && TxNotes(txs)[OutputsBefore(txs, i) + j] == NoteOf(txs[i].outputs[j])
  {
    hide NoteOf;
    if txs != [] {
      var rest := txs[1..];
      NotePlace(rest, i - if i == 0 then 0 else 1, j);
      OutputsBeforeFront(txs, |txs|);
      assert TxNotes(txs) == OutputNotes(txs[0].outputs) + TxNotes(rest);
      hide TxNotes;
      if 0 < i < |txs| {
        OutputsBeforeFront(txs, i);
        assert txs[i] == rest[i - 1];
        hide OutputsBefore;
      }
    }
  }

  /** Every output of the block has its note there, after those of the outputs before it. */
  lemma NoteAt(txs: seq<Tx>, i: nat, j: nat)
    ensures |TxNotes(txs)| == OutputsBefore(txs, |txs|)
    ensures i < |txs| && j < |txs[i].outputs| ==>
      var o := txs[i].outputs[j];
      && OutputsBefore(txs, i) + j < |TxNotes(txs)|
      && TxNotes(txs)[OutputsBefore(txs, i) + j] == if o.clue == [] then Note(o.note, []) else Note([], o.clue)
  {
    NotePlace(txs, i, j);
    hide TxNotes, OutputsBefore;
  }

  /** What a load puts at a height: its notes, or none where there is no row; longer windows are refused. */
  lemma NotesOfWindow(i: Index, key: Window, h: nat)
    requires key.0 <= h <= key.1
    requires forall k: nat :: key.0 <= k <= key.1 && k in i.blocks ==> i.blocks[k].height == k
    ensures Load(ClueLoader(), i, key).Some? <==> key.1 - key.0 < 10_000
    ensures Load(ClueLoader(), i, key).Some? ==>
      && |Load(ClueLoader(), i, key).value| == key.1 - key.0 + 1
      && Load(ClueLoader(), i, key).value[h - key.0] == if h in i.blocks then TxNotes(i.blocks[h].txs) else []
  {
    PayloadAt(ClueLoader(), i.blocks, key, h);
    hide Payloads, TxNotes;
  }

  /** Every output of the window has the same clue. */
  ghost predicate SameCluesIn(a: Index, b: Index, key: Window) {
    forall h: nat :: key.0 <= h <= key.1 ==>
      h in a.blocks && h in b.blocks && SameClues(a.blocks[h].txs, b.blocks[h].txs)
  }

  lemma ClueViewsAgreeExactlyWhen(a: Index, b: Index, key: Window)
    requires SameBareWindow(a, b, key)
    ensures SameViews(ClueLoader(), a.blocks, b.blocks, key) <==> SameCluesIn(a, b, key)
  {
    hide SameClues, TxNotes, Bare;
    forall h: nat | key.0 <= h <= key.1
      ensures TxNotes(a.blocks[h].txs) == TxNotes(b.blocks[h].txs) <==> SameClues(a.blocks[h].txs, b.blocks[h].txs)
    {
      NotesAgreeExactlyWhen(a.blocks[h].txs, b.blocks[h].txs);
    }
  }

  /** A hit comes from one earlier request, and if both requests found the whole window it is what a
      fresh load would give exactly when every output of the window still has the clue it had then. */
  lemma ClueHitIsFreshExactlyWhen(cap: nat, loads: seq<Request>, r: Request) returns (m: nat)
    requires cap > 0
    ensures var l := ClueLoader();
            var hit := Answer(cap, l, loads, r);
            hit.Some? ==>
              && HitFrom(l, loads, r, hit.value, m)
              && (Whole(ClueWindows, loads[m]) && Whole(ClueWindows, r) ==>
                    (hit.value == Payloads(l, r.index.blocks, r.key) <==> SameCluesIn(loads[m].index, r.index, r.key)))
  {
    var l := ClueLoader();
    m := HitComesFrom(cap, l, loads, r);
    if Answer(cap, l, loads, r).Some? {
      var x := loads[m];
      hide After, Payloads, SameCluesIn, SameViews, SameBareWindow, EndHash, LinkedWindow;
      if Whole(ClueWindows, x) && Whole(ClueWindows, r) {
        SamePayloads(l, x.index, r.index, r.key);
        ClueViewsAgreeExactlyWhen(x.index, r.index, r.key);
      }
    }
  }

  // ---- a stale hit can only miss clues ----

  /** The hit agrees with the fresh load, except where it has no clue and the fresh load has one. */
  ghost predicate OnlyMisses(hit: seq<Note>, anew: seq<Note>) {
    |hit| == |anew| && forall n :: 0 <= n < |hit| ==> anew[n] == hit[n] || (hit[n].clue == [] && anew[n].clue != [])
  }

  lemma OutputNotesOnlyMiss(a: seq<Output>, b: seq<Output>)
    requires BareOutputs(a) == BareOutputs(b) && |a| == |b|
    requires forall j :: 0 <= j < |a| && a[j].clue != [] ==> b[j].clue == a[j].clue
    ensures OnlyMisses(OutputNotes(a), OutputNotes(b))
  {
    forall j | 0 <= j < |a| ensures a[j].note == b[j].note {
      assert BareOutputs(a)[j] == BareOutputs(b)[j];
    }
  }

  lemma OnlyMissesJoin(p: seq<Note>, q: seq<Note>, c: seq<Note>, d: seq<Note>)
    requires OnlyMisses(p, q) && OnlyMisses(c, d)
    ensures OnlyMisses(p + c, q + d)
  {
  }

  lemma {:induction false} NotesOnlyMiss(a: seq<Tx>, b: seq<Tx>)
    requires KeepsClues(a, b) && Bare(a) == Bare(b)
    ensures OnlyMisses(TxNotes(a), TxNotes(b))
  {
    if a != [] {
      KeepsRest(a, b);
      NotesOnlyMiss(a[1..], b[1..]);
      OutputNotesOnlyMiss(a[0].outputs, b[0].outputs);
      OnlyMissesJoin(OutputNotes(a[0].outputs), OutputNotes(b[0].outputs), TxNotes(a[1..]), TxNotes(b[1..]));
      hide OutputNotes, KeepsClues, OnlyMisses;
    }
  }

  lemma KeepsRest(a: seq<Tx>, b: seq<Tx>)
    requires KeepsClues(a, b) && Bare(a) == Bare(b) && a != []
    ensures b != [] && KeepsClues(a[1..], b[1..]) && |a[0].outputs| == |b[0].outputs|
    ensures Bare(a[1..]) == Bare(b[1..]) && BareOutputs(a[0].outputs) == BareOutputs(b[0].outputs)
    ensures forall j :: 0 <= j < |a[0].outputs| && a[0].outputs[j].clue != [] ==>
      b[0].outputs[j].clue == a[0].outputs[j].clue
  {
    assert Bare(a[1..]) == Bare(a)[1..] && Bare(b[1..]) == Bare(b)[1..];
    BareFixesShape(a, b);
  }

  /** When a request read the end hash and when it scanned the rows, in events handled by then. */
  datatype Moment = Moment(read: nat, scan: nat, key: Window)

  function At(es: seq<Event>, m: Moment): Request
    requires m.read <= m.scan <= |es|
  {
    Request(HandleAll(NEW_SERVER, es[..m.read]).store.index, HandleAll(NEW_SERVER, es[..m.scan]).store.index, m.key)
  }

  function AllAt(es: seq<Event>, ms: seq<Moment>): seq<Request>
    requires forall k :: 0 <= k < |ms| ==> ms[k].read <= ms[k].scan <= |es|
  {
    seq(|ms|, k requires 0 <= k < |ms| => At(es, ms[k]))
  }

  lemma BlockOnlyMisses(es: seq<Event>, early: nat, late: nat, base: nat, h: nat, key: Window)
    requires AllProper(es, base) && early <= late <= |es| && key.0 <= h <= key.1
    requires SameBareWindow(HandleAll(NEW_SERVER, es[..early]).store.index,
                            HandleAll(NEW_SERVER, es[..late]).store.index, key)
    ensures var a, b := HandleAll(NEW_SERVER, es[..early]).store.index, HandleAll(NEW_SERVER, es[..late]).store.index;
            h in a.blocks && h in b.blocks && OnlyMisses(TxNotes(a.blocks[h].txs), TxNotes(b.blocks[h].txs))
  {
    hide HandleAll, TxNotes, KeepsClues, Bare, AllProper, OnlyMisses;
    NoClueIsLost(es, early, late, base, h);
    NotesOnlyMiss(HandleAll(NEW_SERVER, es[..early]).store.index.blocks[h].txs,
                  HandleAll(NEW_SERVER, es[..late]).store.index.blocks[h].txs);
  }

  /** Two states of a run that hold the same bare window: what is loaded in the first, at the second. */
  lemma WindowOnlyMisses(es: seq<Event>, early: nat, late: nat, base: nat, key: Window)
    requires AllProper(es, base) && early <= late <= |es|
    requires var a, b := HandleAll(NEW_SERVER, es[..early]).store.index, HandleAll(NEW_SERVER, es[..late]).store.index;
             && SameBareWindow(a, b, key)
             && Filled(a.blocks, key.0, key.1) && Filled(b.blocks, key.0, key.1)
    ensures var a, b := HandleAll(NEW_SERVER, es[..early]).store.index, HandleAll(NEW_SERVER, es[..late]).store.index;
            var hit, anew := Payloads(ClueLoader(), a.blocks, key), Payloads(ClueLoader(), b.blocks, key);
            |hit| == |anew| && forall n :: 0 <= n < |anew| ==> OnlyMisses(hit[n], anew[n])
  {
    hide HandleAll, TxNotes, AllProper, OnlyMisses, SameBareWindow;
    var a, b := HandleAll(NEW_SERVER, es[..early]).store.index, HandleAll(NEW_SERVER, es[..late]).store.index;
    PayloadsFilled(ClueLoader(), a.blocks, key);
    PayloadsFilled(ClueLoader(), b.blocks, key);
    hide Payloads, Filled;
    var hit, anew := Payloads(ClueLoader(), a.blocks, key), Payloads(ClueLoader(), b.blocks, key);
    forall n | 0 <= n < |anew| ensures OnlyMisses(hit[n], anew[n]) {
      var h: nat := key.0 + n;
      BlockOnlyMisses(es, early, late, base, h, key);
      assert hit[h - key.0] == TxNotes(a.blocks[h].txs) && anew[h - key.0] == TxNotes(b.blocks[h].txs);
    }
  }

  /** While no hint expires or is withdrawn: if both requests found the whole window, a hit may miss
      clues that a fresh load has, and differs from it in nothing else. */
  lemma ClueHitOnlyMisses(cap: nat, es: seq<Event>, loads: seq<Moment>, r: Moment, base: nat) returns (m: nat)
    requires cap > 0 && AllProper(es, base) && r.read <= r.scan <= |es|
    requires forall k :: 0 <= k < |loads| ==> loads[k].read <= loads[k].scan <= r.scan
    ensures var l, xs, x := ClueLoader(), AllAt(es, loads), At(es, r);
            var hit := Answer(cap, l, xs, x);
            hit.Some? ==>
              && HitFrom(l, xs, x, hit.value, m)
              && (Whole(ClueWindows, xs[m]) && Whole(ClueWindows, x) ==>
                    var anew := Payloads(l, x.index.blocks, x.key);
                    |hit.value| == |anew| && forall n :: 0 <= n < |anew| ==> OnlyMisses(hit.value[n], anew[n]))
  {
    hide HandleAll, TxNotes, After, SameBareBlock, AllProper, OnlyMisses, EndHash, LinkedWindow;
    var l, xs, x := ClueLoader(), AllAt(es, loads), At(es, r);
    m := HitComesFrom(cap, l, xs, x);
    if Answer(cap, l, xs, x).Some? && Whole(ClueWindows, xs[m]) && Whole(ClueWindows, x) {
      LinkedIsFilled(xs[m].index, x.key);
      LinkedIsFilled(x.index, x.key);
      hide Payloads, Filled, SameBareWindow;
      WindowOnlyMisses(es, loads[m].scan, r.scan, base, x.key);
    }
  }

  // ---- a window that goes stale ----

  /** A clue for the first output of `b`. */
  function ClueOp(b: Block, clue: seq<Byte>): HintRuns.Op
    requires b.txs != []
  {
    HintRuns.StoreOp(b.txs[0].id, clue, Some(0))
  }

  lemma ShortWindowFits(i: Index, key: Window)
    requires key.1 - key.0 < MAX_NOTES_SPAN
    ensures Load(ClueLoader(), i, key).Some?
  {
  }

  /** A block is cached, its window is loaded, the block is rewound, a clue for it arrives, and the same
      block is fetched again with the clue: the window still answers without it. */
  lemma StaleClueHit(b0: Block, b1: Block, clue: seq<Byte>, now: nat)
    requires TwoServed(b0, b1) && b1.txs != [] && b1.txs[0].outputs != [] && 0 < |clue| <= U32_MAX
    ensures var es := Twice(b0, b1, HintRuns.QueryOp(0), ClueOp(b1, clue), now);
            var early, late := HandleAll(NEW_SERVER, es[..3]).store.index, HandleAll(NEW_SERVER, es).store.index;
            var x, r := Request(early, early, (0, 1)), Request(late, late, (0, 1));
            && Whole(ClueWindows, x) && Whole(ClueWindows, r)
            && Answer(CLUE_WINDOWS, ClueLoader(), [x], r) == Some(Payloads(ClueLoader(), early.blocks, (0, 1)))
            && Answer(CLUE_WINDOWS, ClueLoader(), [x], r) != Some(Payloads(ClueLoader(), late.blocks, (0, 1)))
  {
    hide ChainHeld, Payloads, FirstIndex, SecondIndex, HandleAll, Merged, FirstHints, SecondHints, Twice, TxNotes,
         Genuine, ServedBare, EndHash, LinkedWindow;
    var first, second := HintRuns.QueryOp(0), ClueOp(b1, clue);
    TwiceRuns(b0, b1, first, second, now);
    TwiceHeld(b0, b1, first, second, now);
    FirstCopyHasNoClue(b0, b1, now);
    SecondCopyHasClue(b0, b1, clue, now);
    var i, j := FirstIndex(b0, b1, first, now), SecondIndex(b0, b1, first, second, now);
    ClueShows(i.blocks[1].txs, j.blocks[1].txs);
    TwoHashes(ClueWindows, i, j);
    ShortWindowFits(i, (0, 1));
    HeldIsLinked(i, (0, 1));
    HeldIsLinked(j, (0, 1));
    StaleHit(CLUE_WINDOWS, ClueLoader(), i, j, (0, 1), 1);
  }

  lemma ClueShows(x: seq<Tx>, y: seq<Tx>)
    requires x != [] && x[0].outputs != [] && y != [] && y[0].outputs != []
    requires x[0].outputs[0].clue != y[0].outputs[0].clue
    ensures TxNotes(x) != TxNotes(y)
  {
    assert TxNotes(x)[0] == NoteOf(x[0].outputs[0]) && TxNotes(y)[0] == NoteOf(y[0].outputs[0]);
  }

  /** Nothing is stored before the first fetch. */
  lemma FirstCopyHasNoClue(b0: Block, b1: Block, now: nat)
    requires TwoServed(b0, b1) && b1.txs != [] && b1.txs[0].outputs != []
    ensures var m := Merged(FirstHints(b0, HintRuns.QueryOp(0), now), b1, now).1;
            m.txs != [] && m.txs[0].outputs != [] && m.txs[0].outputs[0].clue == []
  {
    var h := FirstHints(b0, HintRuns.QueryOp(0), now);
    TwiceHeld(b0, b1, HintRuns.QueryOp(0), HintRuns.QueryOp(0), now);
    FirstHintsEmpty(b0, now);
    MergedPlaces(h, b1, now, now, 0, 0);
    FirstOutputs(Merged(h, b1, now).1.txs, b1.txs);
    assert BareOutputs(b1.txs[0].outputs)[0].clue == [];
    hide Merged, FirstHints, Young, Bare;
  }

  lemma FirstOutputs(a: seq<Tx>, b: seq<Tx>)
    requires Bare(a) == b && b != [] && b[0].outputs != []
    ensures a != [] && |a[0].outputs| == |b[0].outputs| && a[0].id == b[0].id
    ensures BareOutputs(a[0].outputs) == b[0].outputs
  {
    assert Bare(a)[0] == b[0];
  }

  lemma NothingStored(h: Hints, b: Block, now: nat)
    requires HintRuns.Stored(h) && h.clues == map[]
    ensures Merged(h, b, now).0.clues == map[] && HintRuns.Stored(Merged(h, b, now).0)
  {
    ApplyAddsNone(h, b.txs, now);
    HintRuns.ApplyKeeps(h, b.txs, now, 0);
    hide Apply;
  }

  lemma FirstHintsEmpty(b0: Block, now: nat)
    ensures FirstHints(b0, HintRuns.QueryOp(0), now).clues == map[]
    ensures HintRuns.Stored(FirstHints(b0, HintRuns.QueryOp(0), now))
  {
    NothingStored(NO_HINTS, b0, now);
    hide Merged;
  }

  /** The only hint stored goes where it says. */
  lemma OneHintMerges(outputs: seq<Output>, clue: seq<Byte>)
    requires outputs != [] && BareOutputs(outputs) == outputs && clue != []
    ensures var merged := Merge(outputs, [Hint(Some(0), clue)]); merged != [] && merged[0].clue == clue
  {
    assert forall i :: 0 <= i < |outputs| ==> outputs[i] == BareOutputs(outputs)[i];
    assert !Attached(outputs, clue);
    var after := Attach(outputs, Hint(Some(0), clue));
    assert Merge(after, []) == after && [Hint(Some(0), clue)][1..] == [];
  }

  lemma StoredIsListed(h: Hints, tx: nat, clue: seq<Byte>, now: nat)
    requires HintRuns.Stored(h) && h.clues == map[] && 0 < |clue| <= U32_MAX
    ensures Listed(StoreHint(h, tx, clue, Some(0), now), tx, now) == [Hint(Some(0), clue)]
  {
    HintRuns.StoreAppends(h, tx, clue, Some(0), now, tx);
    hide StoreHint, HintRuns.Stored, Decode;
  }

  lemma SecondCopyHasClue(b0: Block, b1: Block, clue: seq<Byte>, now: nat)
    requires TwoServed(b0, b1) && b1.txs != [] && b1.txs[0].outputs != [] && 0 < |clue| <= U32_MAX
    ensures var m := Merged(SecondHints(b0, b1, HintRuns.QueryOp(0), ClueOp(b1, clue), now), b1, now).1;
            m.txs != [] && m.txs[0].outputs != [] && m.txs[0].outputs[0].clue == clue
  {
    hide Genuine, FirstIndex, SecondIndex, Merged, FirstHints, StoreHint, HintRuns.Stored;
    var h := SecondHints(b0, b1, HintRuns.QueryOp(0), ClueOp(b1, clue), now);
    TwiceHeld(b0, b1, HintRuns.QueryOp(0), ClueOp(b1, clue), now);
    FirstHintsEmpty(b0, now);
    NothingStored(FirstHints(b0, HintRuns.QueryOp(0), now), b1, now);
    StoredIsListed(Merged(FirstHints(b0, HintRuns.QueryOp(0), now), b1, now).0, b1.txs[0].id, clue, now);
    hide SecondHints;
    OneHintPlaces(h, b1, clue, now);
  }

  lemma OneHintPlaces(h: Hints, b: Block, clue: seq<Byte>, now: nat)
    requires Young(h, now) && ServedBare(b) && b.txs != [] && b.txs[0].outputs != [] && clue != []
    requires Listed(h, b.txs[0].id, now) == [Hint(Some(0), clue)]
    ensures var m := Merged(h, b, now).1; m.txs != [] && m.txs[0].outputs != [] && m.txs[0].outputs[0].clue == clue
  {
    MergedPlaces(h, b, now, now, 0, 0);
    FirstOutputs(Merged(h, b, now).1.txs, b.txs);
    FirstOutputs(b.txs, b.txs);
    YoungIsListed(h, now, now, b.txs[0].id);
    OneHintMerges(b.txs[0].outputs, clue);
    hide Merged, Young, Merge, ListOf, Listed, Bare;
  }
}
