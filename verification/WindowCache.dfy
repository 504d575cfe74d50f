/** Bounded first-in first-out caches of per-window data, keyed by range and end-block hash, and
    where what they return comes from. The cache may be rewound and refilled between any two reads. */
module WindowCache {
  import opened Chain
  import opened CacheStore
  import opened PollerSafety

  /** First and last height of a window. */
  type Window = w: (nat, nat) | w.0 <= w.1 witness (0, 0)

  datatype Entry<+V> = Entry(endHash: Hash, value: V)

  datatype Windows<+V> = Windows(entries: map<Window, Entry<V>>, order: seq<Window>)

  const CLUE_WINDOWS: nat := 8
  const PIR_WINDOWS: nat := 4

  /** The queue lists the cached windows, each once, and never more than `cap` of them. */
  ghost predicate Valid<V>(w: Windows<V>, cap: nat) {
    && (forall i, j :: 0 <= i < j < |w.order| ==> w.order[i] != w.order[j])
    && (forall k :: k in w.entries <==> k in w.order)
    && |w.order| <= cap
  }

  function Get<V>(w: Windows<V>, key: Window, endHash: Hash): Option<V> {
    if key in w.entries && w.entries[key].endHash == endHash then Some(w.entries[key].value) else None
  }

  function Evict<V>(w: Windows<V>, cap: nat): Windows<V>
    decreases |w.order|
  {
    if |w.order| >= cap && w.order != [] then
      Evict(Windows(w.entries - {w.order[0]}, w.order[1..]), cap)
    else w
  }

  function Put<V>(w: Windows<V>, cap: nat, key: Window, e: Entry<V>): Windows<V> {
    if key in w.entries then w.(entries := w.entries[key := e])
    else
      var room := Evict(w, cap);
      Windows(room.entries[key := e], room.order + [key])
  }

  class WindowStore<V> {
    const cap: nat
    var entries: map<Window, Entry<V>>
    var order: seq<Window>

    function Model(): Windows<V>
      reads this
    {
      Windows(entries, order)
    }

    constructor (cap: nat)
      ensures this.cap == cap && Model() == Windows(map[], []) && Valid(Model(), cap)
    {
      this.cap, entries, order := cap, map[], [];
    }

    method Insert(key: Window, endHash: Hash, value: V)
      requires Valid(Model(), cap) && cap > 0
      modifies this
      ensures Model() == Put(old(Model()), cap, key, Entry(endHash, value)) && Valid(Model(), cap)
    {
      PutValid(Model(), cap, key, Entry(endHash, value));
      if key in entries {
        entries := entries[key := Entry(endHash, value)];
        return;
      }
      while |order| >= cap
        invariant Evict(Model(), cap) == Evict(old(Model()), cap)
        decreases |order|
      {
        var oldest := order[0];
        order := order[1..];
        entries := entries - {oldest};
      }
      order := order + [key];
      entries := entries[key := Entry(endHash, value)];
    }
  }

  /** Eviction takes the oldest windows and leaves room for one more. */
  lemma EvictValid<V>(w: Windows<V>, cap: nat)
    requires Valid(w, cap) && cap > 0
    ensures Valid(Evict(w, cap), cap - 1)
    ensures Evict(w, cap) == if |w.order| == cap then Windows(w.entries - {w.order[0]}, w.order[1..]) else w
  {
  }

  lemma PutValid<V>(w: Windows<V>, cap: nat, key: Window, e: Entry<V>)
    requires Valid(w, cap) && cap > 0
    ensures Valid(Put(w, cap, key, e), cap)
    ensures Get(Put(w, cap, key, e), key, e.endHash) == Some(e.value)
    ensures forall k :: k != key && k in Put(w, cap, key, e).entries ==>
      k in w.entries && Put(w, cap, key, e).entries[k] == w.entries[k]
  {
    EvictValid(w, cap);
  }

  // ---- loading a window ----

  /** The two window caches differ in how they read the end hash and the rows. */
  datatype Path = ClueWindows | PirWindows

  /** What is cached per block, what stands for an absent block, and which windows are refused. */
  datatype Loader<!V> = Loader(path: Path, view: Block -> V, absent: V, fits: seq<V> -> bool)

  /** The hash that stands for no hash; no block has it. */
  const NO_HASH := Origin

  /** Rows of a range scan: by row for clues, by the height each block carries for retrieval. */
  function Scanned(path: Path, blocks: map<nat, Block>, lo: nat, hi: int): map<nat, Block>
    decreases hi - lo
  {
    if hi < lo then map[]
    else
      var below := Scanned(path, blocks, lo, hi - 1);
      if hi !in blocks then below
      else below[if path.ClueWindows? then hi else blocks[hi].height := blocks[hi]]
  }

  function Payloads<V>(l: Loader<V>, blocks: map<nat, Block>, key: Window): seq<V>
  {
    var rows := Scanned(l.path, blocks, key.0, key.1);
    seq(key.1 - key.0 + 1, i requires 0 <= i => if key.0 + i in rows then l.view(rows[key.0 + i]) else l.absent)
  }

  function Load<V>(l: Loader<V>, i: Index, key: Window): Option<seq<V>>
  {
    var payloads := Payloads(l, i.blocks, key);
    if l.fits(payloads) then Some(payloads) else None
  }

  /** The end-block hash; for retrieval the tip key stands in when the height has no row. */
  function EndHash(path: Path, i: Index, end: nat): Hash {
    if end in i.hashes then i.hashes[end]
    else if path.PirWindows? && i.tip.Some? && i.tip.value.0 == end then i.tip.value.1
    else NO_HASH
  }

  /** One request: the end hash is read first, the rows are scanned later. */
  datatype Request = Request(first: Index, index: Index, key: Window)

  /** What a finished load leaves: retrieval windows without an end hash are not kept. */
  function Finish<V>(w: Windows<seq<V>>, cap: nat, l: Loader<V>, r: Request): Windows<seq<V>>
  {
    var endHash := EndHash(l.path, r.first, r.key.1);
    match Load(l, r.index, r.key)
    case None => w
    case Some(built) =>
      if l.path.PirWindows? && endHash == NO_HASH then w else Put(w, cap, r.key, Entry(endHash, built))
  }

  /** The cache after these loads, in the order they finished; concurrent requests may overlap. */
  function After<V>(cap: nat, l: Loader<V>, loads: seq<Request>): Windows<seq<V>>
  {
    if loads == [] then Windows(map[], [])
    else Finish(After(cap, l, loads[..|loads| - 1]), cap, l, loads[|loads| - 1])
  }

  /** What the cache answers to `r` after `loads`. */
  function Answer<V>(cap: nat, l: Loader<V>, loads: seq<Request>, r: Request): Option<seq<V>>
  {
    Get(After(cap, l, loads), r.key, EndHash(l.path, r.first, r.key.1))
  }

  // ---- where a hit comes from ----

  /** The entry was loaded by request `m`, for the same window and the same end block. */
  ghost predicate LoadedBy<V>(l: Loader<V>, loads: seq<Request>, m: nat, key: Window, e: Entry<seq<V>>) {
    && m < |loads| && loads[m].key == key
    && EndHash(l.path, loads[m].first, key.1) == e.endHash
    && Load(l, loads[m].index, key) == Some(e.value)
  }

  lemma {:induction false} AlwaysValid<V>(cap: nat, l: Loader<V>, loads: seq<Request>)
    requires cap > 0
    ensures Valid(After(cap, l, loads), cap)
  {
    if loads != [] {
      AlwaysValid(cap, l, loads[..|loads| - 1]);
      FinishAddsOnlyItsLoad(After(cap, l, loads[..|loads| - 1]), cap, l, loads[|loads| - 1]);
      hide Valid, Finish;
    }
  }

  /** An entry after a load was there before it, or is what the load built. */
  lemma FinishAddsOnlyItsLoad<V>(w: Windows<seq<V>>, cap: nat, l: Loader<V>, r: Request)
    requires cap > 0 && Valid(w, cap)
    ensures var done := Finish(w, cap, l, r);
            && Valid(done, cap)
            && forall key :: key in done.entries ==>
              || (key in w.entries && w.entries[key] == done.entries[key])
              || LoadedBy(l, [r], 0, key, done.entries[key])
  {
    hide Valid, Put, Payloads;
    if Load(l, r.index, r.key).Some? {
      PutValid(w, cap, r.key, Entry(EndHash(l.path, r.first, r.key.1), Load(l, r.index, r.key).value));
    }
  }

  lemma {:induction false} EntriesAreLoaded<V>(cap: nat, l: Loader<V>, loads: seq<Request>, key: Window)
      returns (m: nat)
    requires cap > 0
    requires key in After(cap, l, loads).entries
    ensures LoadedBy(l, loads, m, key, After(cap, l, loads).entries[key])
  {
    var before, last := loads[..|loads| - 1], loads[|loads| - 1];
    var w, e := After(cap, l, before), After(cap, l, loads).entries[key];
    AlwaysValid(cap, l, before);
    FinishAddsOnlyItsLoad(w, cap, l, last);
    hide Valid, Finish, Load, EndHash;
    if key in w.entries && w.entries[key] == e {
      m := EntriesAreLoaded(cap, l, before, key);
      assert before[m] == loads[m];
    } else {
      m := |loads| - 1;
    }
  }

  // ---- hits on linked windows ----

  /** Every height of the window holds a genuine block under its own hash, linked to the row below it
      inside the window. Nothing is asked of any other height. */
  ghost predicate LinkedWindow(i: Index, key: Window) {
    && (forall h: nat :: key.0 <= h <= key.1 ==>
          && h in i.blocks && h in i.hashes
          && i.blocks[h].height == h && Genuine(i.blocks[h]) && i.hashes[h] == i.blocks[h].hash)
    && (forall h: nat :: key.0 < h <= key.1 ==> LinkedAt(i, h))
  }

  lemma HeldIsLinked(i: Index, key: Window)
    requires ChainHeld(i) && key.1 < Held(i)
    ensures LinkedWindow(i, key)
  {
    hide HeightOfIsInverse;
  }

  /** Pruning leaves every window that starts at or above the pruned height linked. */
  lemma PrunedIsLinked(s: Store, min: nat, key: Window)
    requires LinkedWindow(s.index, key) && min <= key.0
    ensures LinkedWindow(Prune(s, min).index, key)
  {
    hide Genuine;
    var i, p := s.index, Prune(s, min).index;
    assert forall h: nat :: min <= h && h in i.blocks ==> h in p.blocks && p.blocks[h] == i.blocks[h];
    forall h: nat | key.0 < h <= key.1 ensures LinkedAt(p, h) {
      assert LinkedAt(i, h);
    }
  }

  /** No reorganisation of the window fell between the two reads. */
  predicate Steady(path: Path, r: Request) {
    EndHash(path, r.first, r.key.1) == EndHash(path, r.index, r.key.1)
  }

  /** The request found its whole window on one chain, the one whose end hash it had read. */
  ghost predicate Whole(path: Path, r: Request) {
    LinkedWindow(r.index, r.key) && Steady(path, r)
  }

  lemma {:induction false} SameEndSameWindow(a: Index, b: Index, h: nat, key: Window)
    requires LinkedWindow(a, key) && LinkedWindow(b, key) && key.0 <= h <= key.1
    requires a.hashes[key.1] == b.hashes[key.1]
    ensures h in a.blocks && h in b.blocks && SameBareBlock(a.blocks[h], b.blocks[h]) && a.hashes[h] == b.hashes[h]
    decreases key.1 - h
  {
    if h < key.1 {
      SameEndSameWindow(a, b, h + 1, key);
      assert LinkedAt(a, h + 1) && LinkedAt(b, h + 1);
    }
    HashFixesBlock(a.blocks[h], b.blocks[h]);
  }

  /** Every height of [lo, hi] has a row, and the row's block is at that height. */
  ghost predicate Filled(blocks: map<nat, Block>, lo: nat, hi: int) {
    forall h: nat :: lo <= h <= hi ==> h in blocks && blocks[h].height == h
  }

  lemma {:induction false} ScannedFilled(path: Path, blocks: map<nat, Block>, lo: nat, hi: int)
    requires Filled(blocks, lo, hi)
    ensures forall h: nat :: h in Scanned(path, blocks, lo, hi) <==> lo <= h <= hi
    ensures forall h: nat :: lo <= h <= hi ==> Scanned(path, blocks, lo, hi)[h] == blocks[h]
    decreases hi - lo
  {
    if lo <= hi {
      ScannedFilled(path, blocks, lo, hi - 1);
    }
  }

  lemma LinkedIsFilled(i: Index, key: Window)
    requires LinkedWindow(i, key)
    ensures Filled(i.blocks, key.0, key.1)
  {
  }

  /** In a filled window every height has its block's view. */
  lemma PayloadsFilled<V>(l: Loader<V>, blocks: map<nat, Block>, key: Window)
    requires Filled(blocks, key.0, key.1)
    ensures var p := Payloads(l, blocks, key);
            && |p| == key.1 - key.0 + 1
            && forall h: nat :: key.0 <= h <= key.1 ==> h in blocks && p[h - key.0] == l.view(blocks[h])
  {
    ScannedFilled(l.path, blocks, key.0, key.1);
  }

  /** The views of two windows agree block for block. */
  ghost predicate SameViews<V>(l: Loader<V>, a: map<nat, Block>, b: map<nat, Block>, key: Window) {
    forall h: nat :: key.0 <= h <= key.1 && h in a && h in b ==> l.view(a[h]) == l.view(b[h])
  }

  lemma SameFilled<V>(l: Loader<V>, a: map<nat, Block>, b: map<nat, Block>, key: Window)
    requires Filled(a, key.0, key.1) && Filled(b, key.0, key.1)
    ensures Payloads(l, a, key) == Payloads(l, b, key) <==> SameViews(l, a, b, key)
  {
    PayloadsFilled(l, a, key);
    PayloadsFilled(l, b, key);
    hide Payloads, Filled;
    var p, q := Payloads(l, a, key), Payloads(l, b, key);
    if SameViews(l, a, b, key) {
      forall n | 0 <= n < |p| ensures p[n] == q[n] {
        var h: nat := key.0 + n;
        assert p[h - key.0] == l.view(a[h]) && q[h - key.0] == l.view(b[h]);
      }
    }
  }

  lemma SamePayloads<V>(l: Loader<V>, a: Index, b: Index, key: Window)
    requires LinkedWindow(a, key) && LinkedWindow(b, key)
    ensures Payloads(l, a.blocks, key) == Payloads(l, b.blocks, key) <==> SameViews(l, a.blocks, b.blocks, key)
  {
    hide LinkedWindow, Payloads, Filled, SameViews;
    LinkedIsFilled(a, key);
    LinkedIsFilled(b, key);
    SameFilled(l, a.blocks, b.blocks, key);
  }

  /** Both windows hold the same blocks, up to what this server adds to outputs. */
  ghost predicate SameBareWindow(a: Index, b: Index, key: Window) {
    forall h: nat :: key.0 <= h <= key.1 ==>
      h in a.blocks && h in b.blocks && SameBareBlock(a.blocks[h], b.blocks[h])
  }

  lemma SameEndSameBareWindow(a: Index, b: Index, key: Window)
    requires LinkedWindow(a, key) && LinkedWindow(b, key) && a.hashes[key.1] == b.hashes[key.1]
    ensures SameBareWindow(a, b, key)
  {
    hide SameBareBlock, LinkedWindow;
    forall h: nat | key.0 <= h <= key.1
      ensures h in a.blocks && h in b.blocks && SameBareBlock(a.blocks[h], b.blocks[h])
    {
      SameEndSameWindow(a, b, h, key);
    }
  }

  /** The hit is what an earlier request `m` loaded, and when both requests found the whole window the
      two windows hold the same blocks up to what this server adds. */
  ghost predicate HitFrom<V>(l: Loader<V>, loads: seq<Request>, r: Request, hit: seq<V>, m: nat)
  {
    && m < |loads| && loads[m].key == r.key
    && EndHash(l.path, loads[m].first, r.key.1) == EndHash(l.path, r.first, r.key.1)
    && hit == Payloads(l, loads[m].index.blocks, r.key)
    && (Whole(l.path, loads[m]) && Whole(l.path, r) ==> SameBareWindow(loads[m].index, r.index, r.key))
  }

  lemma HitComesFrom<V>(cap: nat, l: Loader<V>, loads: seq<Request>, r: Request) returns (m: nat)
    requires cap > 0
    ensures var hit := Answer(cap, l, loads, r); hit.Some? ==> HitFrom(l, loads, r, hit.value, m)
  {
    m := 0;
    if Answer(cap, l, loads, r).Some? {
      m := EntriesAreLoaded(cap, l, loads, r.key);
      hide After, Payloads, SameBareWindow, EndHash, LinkedWindow;
      if Whole(l.path, loads[m]) && Whole(l.path, r) {
        SameEndHash(l.path, loads[m].index, r.index, r.key);
      }
    }
  }

  lemma SameEndHash(path: Path, a: Index, b: Index, key: Window)
    requires LinkedWindow(a, key) && LinkedWindow(b, key) && EndHash(path, a, key.1) == EndHash(path, b, key.1)
    ensures SameBareWindow(a, b, key)
  {
    assert key.1 in a.hashes && key.1 in b.hashes;
    hide LinkedWindow, SameBareWindow;
    SameEndSameBareWindow(a, b, key);
  }

  /** One load under a real hash, then a request for the same window with the same end hash. */
  lemma OneLoadHit<V>(cap: nat, l: Loader<V>, x: Request, r: Request)
    requires cap > 0 && x.key == r.key && Load(l, x.index, x.key).Some?
    requires EndHash(l.path, x.first, x.key.1) == EndHash(l.path, r.first, r.key.1) != NO_HASH
    ensures Answer(cap, l, [x], r) == Some(Payloads(l, x.index.blocks, x.key))
  {
    assert [x][..0] == [];
    hide Payloads, EndHash;
    var none: Windows<seq<V>> := Windows(map[], []);
    PutValid(none, cap, x.key, Entry(EndHash(l.path, x.first, x.key.1), Payloads(l, x.index.blocks, x.key)));
  }

  lemma RealHash(path: Path, i: Index, key: Window)
    requires LinkedWindow(i, key)
    ensures EndHash(path, i, key.1) != NO_HASH
  {
    assert key.1 in i.hashes && Genuine(i.blocks[key.1]);
  }

  /** A load that straddles a reorganisation keeps the rows of the new fork under the hash of the old
      one: once the old fork is back, its window is answered with the other fork's. */
  lemma TornLoadHit<V>(cap: nat, l: Loader<V>, one: Index, other: Index, key: Window)
    requires cap > 0 && LinkedWindow(one, key) && LinkedWindow(other, key) && Load(l, other, key).Some?
    ensures var hit := Answer(cap, l, [Request(one, other, key)], Request(one, one, key));
            && hit == Some(Payloads(l, other.blocks, key))
            && (hit.value == Payloads(l, one.blocks, key) <==> SameViews(l, other.blocks, one.blocks, key))
  {
    hide Load, SameViews, EndHash, LinkedWindow;
    RealHash(l.path, one, key);
    OneLoadHit(cap, l, Request(one, other, key), Request(one, one, key));
    SamePayloads(l, other, one, key);
  }

  /** A window loaded from `i` goes stale as soon as the cache holds `j`, with the same end block and
      another view of block `h`. */
  lemma StaleHit<V>(cap: nat, l: Loader<V>, i: Index, j: Index, key: Window, h: nat)
    requires cap > 0 && LinkedWindow(i, key) && LinkedWindow(j, key)
    requires EndHash(l.path, i, key.1) == EndHash(l.path, j, key.1) && Load(l, i, key).Some?
    requires key.0 <= h <= key.1 && h in i.blocks && h in j.blocks && l.view(i.blocks[h]) != l.view(j.blocks[h])
    ensures var x, r := Request(i, i, key), Request(j, j, key);
            && Whole(l.path, x) && Whole(l.path, r)
            && Answer(cap, l, [x], r) == Some(Payloads(l, i.blocks, key)) != Some(Payloads(l, j.blocks, key))
  {
    hide LinkedWindow, Load, Payloads, EndHash;
    RealHash(l.path, i, key);
    OneLoadHit(cap, l, Request(i, i, key), Request(j, j, key));
    SamePayloads(l, i, j, key);
  }
}
