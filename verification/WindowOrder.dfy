/** Which windows a window cache holds after a run of loads. */
module WindowOrder {
  import opened Chain
  import opened WindowCache

  datatype Stored<+V> = Stored(key: Window, entry: Entry<V>)

  function PutAll<V>(cap: nat, puts: seq<Stored<V>>): Windows<V> {
    if puts == [] then Windows(map[], [])
    else Put(PutAll(cap, puts[..|puts| - 1]), cap, puts[|puts| - 1].key, puts[|puts| - 1].entry)
  }

  /** The last `cap` of them. */
  function Last(keys: seq<Window>, cap: nat): seq<Window> {
    if |keys| <= cap then keys else keys[|keys| - cap..]
  }

  /** The windows that had to be queued, in order: those that were not cached when they came. */
  function Queued<V>(cap: nat, puts: seq<Stored<V>>): seq<Window> {
    if puts == [] then []
    else
      var before, key := Queued(cap, puts[..|puts| - 1]), puts[|puts| - 1].key;
      if key in Last(before, cap) then before else before + [key]
  }

  /** First in, first out: the queue is the last `cap` windows that had to be queued. A window that
      comes again while it is cached keeps its place. */
  lemma {:induction false} KeepsLastQueued<V>(cap: nat, puts: seq<Stored<V>>)
    requires cap > 0
    ensures Valid(PutAll(cap, puts), cap) && PutAll(cap, puts).order == Last(Queued(cap, puts), cap)
  {
    if puts != [] {
      var before := puts[..|puts| - 1];
      KeepsLastQueued(cap, before);
      PutValid(PutAll(cap, before), cap, puts[|puts| - 1].key, puts[|puts| - 1].entry);
      PutQueues(PutAll(cap, before), cap, puts[|puts| - 1].key, puts[|puts| - 1].entry, Queued(cap, before));
    }
  }

  lemma PutQueues<V>(w: Windows<V>, cap: nat, key: Window, e: Entry<V>, queued: seq<Window>)
    requires cap > 0 && Valid(w, cap) && w.order == Last(queued, cap)
    ensures Put(w, cap, key, e).order == Last(if key in Last(queued, cap) then queued else queued + [key], cap)
  {
    EvictValid(w, cap);
    LastGrows(queued, key, cap);
    assert key in w.entries <==> key in w.order;
    hide Evict, Last, Valid;
  }

  lemma LastGrows(queued: seq<Window>, key: Window, cap: nat)
    requires cap > 0
    ensures |Last(queued, cap)| <= cap
    ensures Last(queued + [key], cap)
         == (if |Last(queued, cap)| == cap then Last(queued, cap)[1..] else Last(queued, cap)) + [key]
  {
  }

  function Keys<V>(puts: seq<Stored<V>>): (keys: seq<Window>)
    ensures |keys| == |puts|
  {
    seq(|puts|, i requires 0 <= i < |puts| => puts[i].key)
  }

  ghost predicate OnceEach(keys: seq<Window>) {
    forall i, j :: 0 <= i < j < |keys| ==> keys[i] != keys[j]
  }

  /** Windows that come once each: the last `cap` of them are cached, and no other. */
  lemma DistinctKeepLast<V>(cap: nat, puts: seq<Stored<V>>, i: nat)
    requires cap > 0 && i < |puts| && OnceEach(Keys(puts))
    ensures Queued(cap, puts) == Keys(puts)
    ensures puts[i].key in PutAll(cap, puts).entries <==> i + cap >= |puts|
  {
    AllQueued(cap, puts);
    KeepsLastQueued(cap, puts);
    AmongLast(Keys(puts), cap, i);
    hide Queued, PutAll, Last, OnceEach;
    assert Keys(puts)[i] == puts[i].key;
  }

  lemma AmongLast(keys: seq<Window>, cap: nat, i: nat)
    requires i < |keys| && OnceEach(keys)
    ensures keys[i] in Last(keys, cap) <==> i + cap >= |keys|
  {
    if |keys| > cap && i + cap >= |keys| {
      assert Last(keys, cap)[i + cap - |keys|] == keys[i];
    }
  }

  lemma {:induction false} AllQueued<V>(cap: nat, puts: seq<Stored<V>>)
    requires OnceEach(Keys(puts))
    ensures Queued(cap, puts) == Keys(puts)
  {
    if puts != [] {
      var before, key := puts[..|puts| - 1], puts[|puts| - 1].key;
      assert Keys(puts) == Keys(before) + [key];
      hide Keys;
      LastIsNew(Keys(before), key, cap);
      AllQueued(cap, before);
    }
  }

  lemma LastIsNew(keys: seq<Window>, key: Window, cap: nat)
    requires OnceEach(keys + [key])
    ensures OnceEach(keys) && key !in Last(keys, cap)
  {
    assert forall i :: 0 <= i < |keys| ==> (keys + [key])[i] == keys[i] != (keys + [key])[|keys|];
  }

  /** A cached window has the entry that came last for it. */
  lemma {:induction false} EntryCameLast<V>(cap: nat, puts: seq<Stored<V>>, i: nat)
    requires cap > 0 && i < |puts| && forall j :: i < j < |puts| ==> puts[j].key != puts[i].key
    requires puts[i].key in PutAll(cap, puts).entries
    ensures PutAll(cap, puts).entries[puts[i].key] == puts[i].entry
  {
    var before, last := puts[..|puts| - 1], puts[|puts| - 1];
    KeepsLastQueued(cap, before);
    PutValid(PutAll(cap, before), cap, last.key, last.entry);
    hide Put, Valid, Queued;
    if i < |puts| - 1 {
      EntryCameLast(cap, before, i);
    }
  }

  // ---- loads ----

  /** What these loads store: nothing when the window is refused, or has no end hash where one is needed. */
  function StoredBy<V>(l: Loader<V>, loads: seq<Request>): seq<Stored<seq<V>>> {
    if loads == [] then []
    else
      var r := loads[|loads| - 1];
      var endHash, built := EndHash(l.path, r.first, r.key.1), Load(l, r.index, r.key);
      StoredBy(l, loads[..|loads| - 1])
      + if built.Some? && (l.path.ClueWindows? || endHash != NO_HASH) then [Stored(r.key, Entry(endHash, built.value))]
        else []
  }

  lemma {:induction false} LoadsPut<V>(cap: nat, l: Loader<V>, loads: seq<Request>)
    ensures After(cap, l, loads) == PutAll(cap, StoredBy(l, loads))
  {
    hide Put, Load, EndHash;
    if loads != [] {
      LoadsPut(cap, l, loads[..|loads| - 1]);
      var before, all := StoredBy(l, loads[..|loads| - 1]), StoredBy(l, loads);
      assert before + [] == before;
      assert |all| > |before| ==> all == before + [all[|before|]];
    }
  }

  /** The cached windows after any run of loads. */
  lemma LoadsKeepLast<V>(cap: nat, l: Loader<V>, loads: seq<Request>)
    requires cap > 0
    ensures After(cap, l, loads).order == Last(Queued(cap, StoredBy(l, loads)), cap)
    ensures forall key :: key in After(cap, l, loads).entries <==> key in Last(Queued(cap, StoredBy(l, loads)), cap)
  {
    LoadsPut(cap, l, loads);
    KeepsLastQueued(cap, StoredBy(l, loads));
    hide Queued, PutAll, StoredBy, After, Last;
  }

  /** A window whose last height has no row: a clue window is kept all the same, a retrieval window only if
      the tip key stands at that height. */
  lemma KeptWithoutEndRowExactlyWhen<V>(cap: nat, l: Loader<V>, r: Request)
    requires cap > 0 && r.key.1 !in r.first.hashes && Load(l, r.index, r.key).Some?
    ensures var tip := r.first.tip;
            Answer(cap, l, [r], r).Some?
            <==> l.path.ClueWindows? || (tip.Some? && tip.value.0 == r.key.1 && tip.value.1 != NO_HASH)
  {
    hide Payloads;
    assert [r][..0] == [];
    var none: Windows<seq<V>> := Windows(map[], []);
    PutValid(none, cap, r.key, Entry(EndHash(l.path, r.first, r.key.1), Load(l, r.index, r.key).value));
    assert After(cap, l, [r][..0]) == none;
    assert After(cap, l, [r]) == Finish(none, cap, l, r);
  }

  /** Row `k` of lo..hi is what a window shows at `h`: the row of `h` for clues, the last row whose block says it is
      at `h` for retrieval. */
  ghost predicate ShownAt(path: Path, blocks: map<nat, Block>, lo: nat, hi: int, h: nat, k: nat) {
    && lo <= k <= hi && k in blocks
    && if path.ClueWindows? then k == h
       else blocks[k].height == h && forall m: nat :: k < m <= hi && m in blocks ==> blocks[m].height != h
  }

  lemma {:induction false} ScannedAt(path: Path, blocks: map<nat, Block>, lo: nat, hi: int, h: nat)
    ensures h in Scanned(path, blocks, lo, hi) <==> exists k: nat :: ShownAt(path, blocks, lo, hi, h, k)
    ensures forall k: nat :: ShownAt(path, blocks, lo, hi, h, k) ==>
      h in Scanned(path, blocks, lo, hi) && Scanned(path, blocks, lo, hi)[h] == blocks[k]
    decreases hi - lo
  {
    if lo <= hi {
      ScannedAt(path, blocks, lo, hi - 1, h);
      if hi in blocks && (if path.ClueWindows? then hi else blocks[hi].height) == h {
        assert ShownAt(path, blocks, lo, hi, h, hi);
      } else {
        var now, before := Scanned(path, blocks, lo, hi), Scanned(path, blocks, lo, hi - 1);
        assert (h in now <==> h in before) && (h in now ==> now[h] == before[h]);
        hide Scanned;
        if h in before {
          var k: nat :| ShownAt(path, blocks, lo, hi - 1, h, k);
          assert ShownAt(path, blocks, lo, hi, h, k);
        }
        assert forall k: nat :: ShownAt(path, blocks, lo, hi, h, k) ==> ShownAt(path, blocks, lo, hi - 1, h, k);
      }
    }
  }

  /** A window has an entry for every height: the view of the row shown there, or the absent value. */
  lemma WindowShows<V>(l: Loader<V>, blocks: map<nat, Block>, key: Window, h: nat)
    requires key.0 <= h <= key.1
    ensures var p := Payloads(l, blocks, key);
            && |p| == key.1 - key.0 + 1
            && (forall k: nat :: ShownAt(l.path, blocks, key.0, key.1, h, k) ==> p[h - key.0] == l.view(blocks[k]))
            && ((forall k: nat :: !ShownAt(l.path, blocks, key.0, key.1, h, k)) ==> p[h - key.0] == l.absent)
  {
    ScannedAt(l.path, blocks, key.0, key.1, h);
    hide Scanned;
  }

  /** With every block under its own height, that is the row of the height. */
  lemma PayloadAt<V>(l: Loader<V>, blocks: map<nat, Block>, key: Window, h: nat)
    requires key.0 <= h <= key.1
    requires forall k: nat :: key.0 <= k <= key.1 && k in blocks ==> blocks[k].height == k
    ensures |Payloads(l, blocks, key)| == key.1 - key.0 + 1
    ensures Payloads(l, blocks, key)[h - key.0] == if h in blocks then l.view(blocks[h]) else l.absent
  {
    WindowShows(l, blocks, key, h);
    hide Payloads;
    if h in blocks {
      assert ShownAt(l.path, blocks, key.0, key.1, h, h);
    }
  }
}
