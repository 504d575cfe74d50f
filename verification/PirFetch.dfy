/** Fetching a block through the window cache: every limb is its own request, answered from its own
    load or from one that an earlier request left behind. */
module PirFetch {
  import opened Chain
  import opened CacheStore
  import opened PirLimbs
  import opened PirWindow
  import opened WindowCache
  import opened Words
  import P = Pir

  /** What the request works on: the cached window if there is a hit, else a fresh load. */
  function Served<V>(cap: nat, l: Loader<V>, loads: seq<Request>, r: Request): Option<seq<V>>
  {
    var hit := Answer(cap, l, loads, r);
    if hit.Some? then hit else Load(l, r.index, r.key)
  }

  /** The window comes from the scan `x`, under the end hash that `r` read, and if both found the whole
      window it holds the blocks that `r` would see, up to what this server adds. */
  ghost predicate ServedFrom<V>(l: Loader<V>, r: Request, x: Request, window: seq<V>)
  {
    && x.key == r.key && window == Payloads(l, x.index.blocks, r.key)
    && EndHash(l.path, x.first, r.key.1) == EndHash(l.path, r.first, r.key.1)
    && (Whole(l.path, x) && Whole(l.path, r) ==> SameBareWindow(x.index, r.index, r.key))
  }

  lemma ServedComesFrom<V>(cap: nat, l: Loader<V>, loads: seq<Request>, r: Request) returns (x: Request)
    requires cap > 0
    ensures x == r || x in loads
    ensures Served(cap, l, loads, r).Some? ==> ServedFrom(l, r, x, Served(cap, l, loads, r).value)
  {
    x := r;
    if Answer(cap, l, loads, r).Some? {
      var m := HitComesFrom(cap, l, loads, r);
      hide Answer, Payloads, LinkedWindow, EndHash, SameBareWindow;
      x := loads[m];
    } else if LinkedWindow(r.index, r.key) {
      hide Answer, Payloads, EndHash;
      SameAsItself(r.index, r.key);
    }
  }

  lemma SameAsItself(i: Index, key: Window)
    requires LinkedWindow(i, key)
    ensures SameBareWindow(i, i, key)
  {
  }

  /** Request `j` is for limb `j`; `scans[j]` is the load its window comes from. */
  ghost predicate OneFork(scans: seq<Request>, key: Window) {
    && scans != []
    && (forall j :: 0 <= j < |scans| ==> scans[j].key == key && Whole(PirWindows, scans[j]))
    && (forall j :: 0 <= j < |scans| ==>
          EndHash(PirWindows, scans[j].first, key.1) == EndHash(PirWindows, scans[0].first, key.1))
  }

  /** What the loads hold of height `h`. */
  function PayloadsAt(encode: Block -> seq<Byte>, scans: seq<Request>, h: nat): seq<Payload>
    requires forall j :: 0 <= j < |scans| ==> h in scans[j].index.blocks
  {
    seq(|scans|, j requires 0 <= j < |scans| => encode(StripClues(scans[j].index.blocks[h])))
  }

  lemma OneForkHolds(scans: seq<Request>, key: Window, j: nat)
    requires OneFork(scans, key) && j < |scans|
    ensures SameBareWindow(scans[0].index, scans[j].index, key)
  {
    hide LinkedWindow, EndHash, SameBareWindow;
    SameEndHash(PirWindows, scans[0].index, scans[j].index, key);
  }

  /** If every load that answers a limb is of one fork, the block of the first load comes back whole as
      soon as each of the others had the same metadata for that block; otherwise bytes of several encodings
      are read as one. */
  lemma BlockComesBack(encode: Block -> seq<Byte>, scans: seq<Request>, key: Window, h: nat, got: Payload)
    requires OneFork(scans, key) && key.0 <= h <= key.1
    ensures forall j :: 0 <= j < |scans| ==> h in scans[j].index.blocks
    ensures Pieced(got, PayloadsAt(encode, scans, h)) ==>
      var first := encode(StripClues(scans[0].index.blocks[h]));
      && ((forall j :: 0 <= j < |scans| ==> SameMeta(scans[0].index.blocks[h], scans[j].index.blocks[h])) ==>
            got == if Readable(PayloadsAt(encode, scans, h)) then first else [])
      && (got == first <==>
            || first == []
            || (Readable(PayloadsAt(encode, scans, h))
                && forall i :: 0 <= i < |first| ==>
                  ByteAt(PayloadsAt(encode, scans, h)[1 + i / 2], i) == first[i]))
  {
    hide StripClues, SameMeta, Whole, SameBareBlock;
    forall j | 0 <= j < |scans|
      ensures h in scans[0].index.blocks && h in scans[j].index.blocks
      ensures SameBareBlock(scans[0].index.blocks[h], scans[j].index.blocks[h])
    {
      OneForkHolds(scans, key, j);
    }
    hide OneFork, SameBareWindow;
    var datas := PayloadsAt(encode, scans, h);
    if Pieced(got, datas) {
      hide Pieced;
      FirstComesBackExactlyWhen(got, datas);
      if forall j :: 0 <= j < |scans| ==> SameMeta(scans[0].index.blocks[h], scans[j].index.blocks[h]) {
        forall j | 0 <= j < |datas| ensures datas[j] == datas[0] {
          StrippedIsBareAndMeta(scans[0].index.blocks[h], scans[j].index.blocks[h]);
        }
        OneLoadPieced(got, datas[0], datas);
      }
    }
  }

  // ---- through the cache ----

  /** Request `j` found the whole window after the loads `loads[j]`, which found it too if they were for
      this window; all requests read one end hash, and none was refused. */
  ghost predicate LimbRequests(cap: nat, l: Loader<seq<Byte>>, loads: seq<seq<Request>>, rs: seq<Request>,
                               key: Window)
  {
    && |loads| == |rs| > 0 && l.path == PirWindows
    && (forall j :: 0 <= j < |rs| ==> rs[j].key == key && Whole(PirWindows, rs[j]))
    && (forall j, x :: 0 <= j < |rs| && x in loads[j] && x.key == key ==> Whole(PirWindows, x))
    && (forall j :: 0 <= j < |rs| ==>
          EndHash(PirWindows, rs[j].first, key.1) == EndHash(PirWindows, rs[0].first, key.1))
    && (forall j :: 0 <= j < |rs| ==> Served(cap, l, loads[j], rs[j]).Some?)
  }

  /** The window each request works on. */
  function Windows(cap: nat, l: Loader<seq<Byte>>, loads: seq<seq<Request>>, rs: seq<Request>): seq<seq<Payload>>
    requires |loads| == |rs| && forall j :: 0 <= j < |rs| ==> Served(cap, l, loads[j], rs[j]).Some?
  {
    seq(|rs|, j requires 0 <= j < |rs| => Served(cap, l, loads[j], rs[j]).value)
  }

  /** The load behind each request. */
  lemma {:induction false} Scans(cap: nat, l: Loader<seq<Byte>>, loads: seq<seq<Request>>, rs: seq<Request>, n: nat)
      returns (scans: seq<Request>)
    requires cap > 0 && |loads| == |rs| && n <= |rs|
    ensures |scans| == n
    ensures forall j :: 0 <= j < n ==> scans[j] == rs[j] || scans[j] in loads[j]
    ensures forall j :: 0 <= j < n && Served(cap, l, loads[j], rs[j]).Some? ==>
      ServedFrom(l, rs[j], scans[j], Served(cap, l, loads[j], rs[j]).value)
  {
    hide Served, ServedFrom;
    if n == 0 {
      scans := [];
    } else {
      var below := Scans(cap, l, loads, rs, n - 1);
      var x := ServedComesFrom(cap, l, loads[n - 1], rs[n - 1]);
      scans := below + [x];
    }
  }

  /** A block fetched limb by limb, whatever other requests did to the cache in between: each limb is
      that of some load of the same fork, and `BlockComesBack` says what is read. */
  lemma FetchedBlock(cap: nat, encode: Block -> seq<Byte>, fits: seq<seq<Byte>> -> bool, loads: seq<seq<Request>>,
                     rs: seq<Request>, key: Window, h: nat) returns (scans: seq<Request>)
    requires cap > 0 && LimbRequests(cap, PirLoader(encode, fits), loads, rs, key) && key.0 <= h <= key.1
    ensures |scans| == |rs| && OneFork(scans, key)
    ensures forall j :: 0 <= j < |rs| ==> scans[j] == rs[j] || scans[j] in loads[j]
    ensures forall j :: 0 <= j < |scans| ==> h in scans[j].index.blocks
    ensures var windows := Windows(cap, PirLoader(encode, fits), loads, rs);
            && (forall j :: 0 <= j < |windows| ==> |windows[j]| == key.1 - key.0 + 1)
            && P.FoundAt(windows, h - key.0) == PayloadsAt(encode, scans, h)
  {
    hide Served, ServedFrom, Payloads, EndHash, LinkedWindow, StripClues;
    var l := PirLoader(encode, fits);
    scans := Scans(cap, l, loads, rs, |rs|);
    ScansAreOneFork(cap, l, loads, rs, key, scans);
    var windows := Windows(cap, l, loads, rs);
    forall j | 0 <= j < |scans|
      ensures |windows[j]| == key.1 - key.0 + 1 && h in scans[j].index.blocks
      ensures windows[j][h - key.0] == encode(StripClues(scans[j].index.blocks[h]))
    {
      WindowAt(encode, fits, rs[j], scans[j], windows[j], h);
    }
  }

  lemma ScansAreOneFork(cap: nat, l: Loader<seq<Byte>>, loads: seq<seq<Request>>, rs: seq<Request>, key: Window,
                        scans: seq<Request>)
    requires LimbRequests(cap, l, loads, rs, key) && |scans| == |rs|
    requires forall j :: 0 <= j < |rs| ==> scans[j] == rs[j] || scans[j] in loads[j]
    requires forall j :: 0 <= j < |rs| ==> ServedFrom(l, rs[j], scans[j], Served(cap, l, loads[j], rs[j]).value)
    ensures OneFork(scans, key)
  {
    hide Served, Payloads, EndHash, Whole, SameBareWindow;
  }

  lemma WindowAt(encode: Block -> seq<Byte>, fits: seq<seq<Byte>> -> bool, r: Request, x: Request,
                 window: seq<seq<Byte>>, h: nat)
    requires ServedFrom(PirLoader(encode, fits), r, x, window) && LinkedWindow(x.index, r.key)
    requires r.key.0 <= h <= r.key.1
    ensures |window| == r.key.1 - r.key.0 + 1 && h in x.index.blocks
    ensures window[h - r.key.0] == encode(StripClues(x.index.blocks[h]))
  {
    hide EndHash, LinkedWindow, SameBareWindow, StripClues;
    LinkedIsFilled(x.index, r.key);
    PayloadsFilled(PirLoader(encode, fits), x.index.blocks, r.key);
    hide Payloads, Filled;
  }
}
