/** The cache object: rows updated in place, each operation proved against `CacheStore`. */
module CacheObject {
  import opened Chain
  import opened Replay
  import opened CacheStore

  class Cache {
    var blocks: map<nat, Block>
    var hashes: map<nat, Hash>
    var heightOf: map<Hash, nat>
    var nullifiers: map<nat, seq<nat>>
    var coins: Rows
    var snaps: map<nat, Tree>
    var tip: Option<(nat, Hash)>
    var tipTree: Option<TreeAt>
    var live: LiveTree

    function Model(): Store
      reads this
    {
      Store(Index(blocks, hashes, heightOf, tip), nullifiers, coins, snaps, tipTree, live)
    }

    constructor ()
      ensures Model() == EMPTY_STORE
    {
      blocks, hashes, heightOf, nullifiers, coins := map[], map[], map[], map[], map[];
      snaps, tip, tipTree, live := map[], None, None, EMPTY_LIVE;
    }

    method StoreTipTree(prev: Option<nat>, height: nat, tree: Tree)
      modifies this`snaps, this`tipTree, this`live
      ensures Model() == StoreTip(old(Model()), prev, height, tree)
    {
      tipTree := Some(TreeAt(height, tree));
      snaps := snaps[height := tree];
      if prev.Some? && prev.value != height && !IsBoundary(prev.value) {
        snaps := snaps - {prev.value};
      }
      live := LiveTree(Some(height), tree, false);
    }

    method DeleteSnapshotsAtOrAbove(height: nat)
      modifies this`snaps
      ensures snaps == Below(old(snaps), height)
    {
      var doomed := set k | k in snaps && height <= k;
      ghost var before := snaps;
      while doomed != {}
        invariant doomed <= set k | k in before && height <= k
        invariant Below(before, height).Keys <= snaps.Keys <= before.Keys
        invariant forall k :: k in snaps ==> snaps[k] == before[k] && (height <= k ==> k in doomed)
        decreases |doomed|
      {
        var k :| k in doomed;
        snaps := snaps - {k};
        doomed := doomed - {k};
      }
    }

    /** Append the rows of a scan whose height is at most `boundary`: those before `stop`. */
    static method AppendRowsUpto(ranges: seq<(nat, seq<Coin>)>, start: nat, boundary: nat, tree: Tree, ghost stop: nat)
      returns (idx: nat, grown: Tree)
      requires start <= stop <= |ranges|
      requires forall i :: 0 <= i < |ranges| ==> (ranges[i].0 <= boundary <==> i < stop)
      ensures idx == stop && grown == tree + Flatten(ranges[start..stop])
    {
      idx, grown := start, tree;
      assert ranges[start..start] == [] && Flatten([]) == [];
      hide Flatten;
      while idx < |ranges| && ranges[idx].0 <= boundary
        invariant start <= idx <= stop
        invariant grown == tree + Flatten(ranges[start..idx])
      {
        assert ranges[start..idx + 1] == ranges[start..idx] + [ranges[idx]];
        FlattenSnoc(ranges[start..idx], ranges[idx]);
        grown := grown + ranges[idx].1;
        idx := idx + 1;
      }
    }

    /** Rebuild the tip tree and the boundary snapshots below it from the coin rows. */
    method RebuildTipTree(tipHeight: nat)
      modifies this`snaps, this`tipTree, this`live
      ensures Model() == Rebuild(old(Model()), tipHeight)
    {
      if tipHeight == 0 && 0 !in blocks {
        snaps, tipTree, live := map[], None, EMPTY_LIVE;
      } else {
        RebuildAsReplay(Model(), tipHeight);
        hide Rebuild, StoreTip;
        RebuildFromSeed(tipHeight);
      }
    }

    method RebuildFromSeed(tipHeight: nat)
      requires !RebuildClears(Model(), tipHeight)
      modifies this`snaps, this`tipTree, this`live
      ensures var s := old(Model());
              Model() == StoreTip(s.(snaps := Upto(s.snaps, tipHeight) + BoundarySnaps(s, tipHeight)),
                                  Greatest(s.snaps, tipHeight), tipHeight,
                                  SeedTree(s, tipHeight) + Between(s.coins, SeedNext(s, tipHeight), tipHeight))
    {
      ghost var start := Model();
      GreatestAfterCut(snaps, tipHeight);
      hide BoundaryTrees, StoreTip, Between;
      DeleteSnapshotsAtOrAbove(tipHeight + 1);
      var seed := Greatest(snaps, tipHeight);
      var tree := if seed.Some? then snaps[seed.value] else SENTINEL;
      if seed.Some? && seed.value >= tipHeight {
        NothingToReplay(tree, coins, tipHeight);
        assert snaps + map[] == snaps;
      } else {
        tree := ReplayFromSeed(seed, tree, tipHeight);
      }
      StoreTipTree(seed, tipHeight, tree);
    }

    /** Walk the boundaries above the seed, appending rows and writing a snapshot at each. */
    method ReplayFromSeed(seed: Option<nat>, seedTree: Tree, tipHeight: nat) returns (tree: Tree)
      requires seed.Some? ==> seed.value < tipHeight
      modifies this`snaps
      ensures var from := if seed.Some? then seed.value + 1 else 0;
              && tree == seedTree + Between(coins, from, tipHeight)
              && snaps == old(snaps) + BoundaryTrees(seedTree, coins, from, tipHeight)
    {
      tree := seedTree;
      var from := if seed.Some? then seed.value + 1 else 0;
      var ranges := Scan(coins, from, tipHeight);
      var idx := 0;
      var boundary := if seed.Some? then seed.value else 0;
      var skippedSeed := seed.Some?;
      ghost var done: int := from - 1;
      WalkStart(seedTree, coins, from);
      hide Scan, Between, BoundaryTrees, IsBoundary;
      while true
        invariant if skippedSeed then done == boundary < tipHeight
                  else done < boundary && NoBoundaryBetween(done, boundary)
        invariant from - 1 <= done && boundary <= tipHeight
        invariant idx == |Scan(coins, from, done)| && tree == seedTree + Between(coins, from, done)
        invariant snaps == old(snaps) + BoundaryTrees(seedTree, coins, from, done)
        decreases tipHeight - boundary
      {
        if skippedSeed {
          skippedSeed := false;
        } else {
          idx, tree := VisitBoundary(ranges, idx, boundary, tree, old(snaps), seedTree, from, done, tipHeight);
          done := boundary;
        }
        if boundary >= tipHeight {
          break;
        }
        boundary := NextBoundary(boundary, tipHeight);
      }
      // the scan is used up, so the drain loop that follows in the source appends nothing
      assert idx == |ranges|;
    }

    method VisitBoundary(ranges: seq<(nat, seq<Coin>)>, start: nat, boundary: nat, before: Tree,
                         ghost base: map<nat, Tree>, ghost seedTree: Tree, ghost from: nat, ghost done: int,
                         ghost last: nat)
      returns (idx: nat, tree: Tree)
      requires from - 1 <= done < boundary <= last && NoBoundaryBetween(done, boundary)
      requires ranges == Scan(coins, from, last) && start == |Scan(coins, from, done)|
      requires before == seedTree + Between(coins, from, done)
      requires snaps == base + BoundaryTrees(seedTree, coins, from, done)
      modifies this`snaps
      ensures idx == |Scan(coins, from, boundary)| && tree == seedTree + Between(coins, from, boundary)
      ensures snaps == base + BoundaryTrees(seedTree, coins, from, boundary)
    {
      ScanWindow(coins, from, done, boundary, last);
      BoundaryTreesGrow(base, seedTree, coins, from, done, boundary);
      hide Scan, Between, BoundaryTrees;
      idx, tree := AppendRowsUpto(ranges, start, boundary, before, |Scan(coins, from, boundary)|);
      if IsBoundary(boundary) {
        snaps := snaps[boundary := tree];
      }
    }

    /** Append the coins of `height` to the live tree, rebuilding the parent first when needed. */
    method AppendCoinsToTipTree(height: nat, added: seq<Coin>)
      modifies this`snaps, this`tipTree, this`live
      ensures Model() == Append(old(Model()), height, added)
    {
      hide Rebuild, StoreTip;
      var needsRebuild := live.loadFailed || (live.height.Some? && height != live.height.value + 1);
      if needsRebuild {
        if height == 0 {
          RebuildTipTree(0);
          return;
        }
        RebuildTipTree(height - 1);
      }
      StoreTipTree(live.height, height, live.tree + added);
    }

    /** Index a block whose clue hints have been merged. */
    method InsertCompactBlock(block: Block)
      modifies this
      ensures Model() == Insert(old(Model()), block)
    {
      hide Rebuild, Append;
      blocks := blocks[block.height := block];
      hashes := hashes[block.height := block.hash];
      heightOf := heightOf[block.hash := block.height];
      var allNullifiers := TxNullifiers(block.txs);
      if allNullifiers != [] {
        nullifiers := nullifiers[block.height := allNullifiers];
      }
      var allCoins := Coins(block);
      if allCoins != [] {
        coins := coins[block.height := allCoins];
      }
      if tip.Some? && block.height < tip.value.0 {
        DeleteSnapshotsAtOrAbove(block.height);
        RebuildTipTree(tip.value.0);
        return;
      }
      tip := Some((block.height, block.hash));
      AppendCoinsToTipTree(block.height, allCoins);
    }

    method RemoveRow(k: nat)
      modifies this`blocks, this`hashes, this`heightOf, this`nullifiers, this`coins
      ensures Model() == DropRow(old(Model()), k)
    {
      blocks := blocks - {k};
      if k in hashes {
        heightOf := heightOf - {hashes[k]};
      }
      hashes := hashes - {k};
      nullifiers := nullifiers - {k};
      coins := coins - {k};
    }

    /** Remove the rows of every height in `keys`, one key at a time. */
    method RemoveRows(keys: set<nat>)
      modifies this`blocks, this`hashes, this`heightOf, this`nullifiers, this`coins
      ensures Model() == DropRows(old(Model()), keys)
    {
      ghost var start := Model();
      var todo := keys;
      ghost var gone := {};
      DropNone(start);
      hide DropRows, DropRow;
      while todo != {}
        invariant todo !! gone && todo + gone == keys && Model() == DropRows(start, gone)
        decreases |todo|
      {
        var k :| k in todo;
        DropOneMore(start, gone, k);
        RemoveRow(k);
        todo, gone := todo - {k}, gone + {k};
      }
      assert gone == keys;
    }

    /** Drop every block above `height`, move the tip, rebuild the trees. */
    method RewindToHeight(height: nat)
      modifies this
      ensures Model() == Rewind(old(Model()), height)
    {
      hide Rebuild;
      RemoveRows(set k | k in blocks && height < k);
      if height in blocks {
        tip := Some((height, blocks[height].hash));
      } else if height == 0 {
        tip := None;
      }
      DeleteSnapshotsAtOrAbove(height + 1);
      RebuildTipTree(height);
    }

    /** Drop every block below `min`; the trees and the tip stay. */
    method PruneBelowHeight(min: nat)
      modifies this
      ensures Model() == Prune(old(Model()), min)
    {
      if min == 0 {
        DropNone(Model());
        assert (set k | k in blocks && k < 0) == {};
        return;
      }
      RemoveRows(set k | k in blocks && k < min);
    }

    method PruneWithRetention(window: nat)
      modifies this
      ensures Model() == Retain(old(Model()), window)
    {
      hide Prune;
      if tip.Some? && window < tip.value.0 {
        PruneBelowHeight(tip.value.0 - window);
      }
    }

    /** Restart: index the tip row if it is missing, then load the live tree. */
    method LoadOnOpen(readable: bool)
      modifies this`snaps, this`live
      ensures Model() == Reopen(old(Model()), readable)
    {
      live := EMPTY_LIVE;
      if tipTree.Some? {
        var t := tipTree.value;
        if t.height !in snaps {
          snaps := snaps[t.height := t.tree];
        }
        live := if readable then LiveTree(Some(t.height), t.tree, false) else LiveTree(None, SENTINEL, true);
      }
    }
  }

  ghost predicate NoBoundaryBetween(lo: int, hi: int) {
    forall k: nat :: lo < k < hi ==> !IsBoundary(k)
  }

  lemma GreatestAfterCut(snaps: map<nat, Tree>, h: nat)
    ensures Below(snaps, h + 1) == Upto(snaps, h)
    ensures Greatest(Upto(snaps, h), h) == Greatest(snaps, h)
  {
    match Greatest(snaps, h)
    case None =>
    case Some(g) => assert g in Upto(snaps, h);
  }

  lemma RebuildAsReplay(s: Store, t: nat)
    requires !RebuildClears(s, t)
    ensures Rebuild(s, t) == StoreTip(
                               s.(snaps := Upto(s.snaps, t)
                                           + BoundaryTrees(SeedTree(s, t), s.coins, SeedNext(s, t), t)),
                               Greatest(s.snaps, t), t, SeedTree(s, t) + Between(s.coins, SeedNext(s, t), t))
  {
  }

  lemma NothingToReplay(tree: Tree, rows: Rows, t: nat)
    ensures BoundaryTrees(tree, rows, t + 1, t) == map[] && tree + Between(rows, t + 1, t) == tree
  {
  }

  lemma WalkStart(tree: Tree, rows: Rows, from: nat)
    ensures BoundaryTrees(tree, rows, from, from - 1) == map[]
    ensures Between(rows, from, from - 1) == [] && Scan(rows, from, from - 1) == []
    ensures tree + [] == tree && forall m: map<nat, Tree> :: m + map[] == m
  {
  }

  /** The rows of a scan above `done` and at most `boundary` sit between two counts. */
  lemma ScanWindow(rows: Rows, from: nat, done: int, boundary: nat, last: nat)
    requires from - 1 <= done <= boundary <= last
    ensures var ranges, start, stop := Scan(rows, from, last), |Scan(rows, from, done)|, |Scan(rows, from, boundary)|;
            && start <= stop <= |ranges|
            && (forall i :: 0 <= i < |ranges| ==> (ranges[i].0 <= boundary <==> i < stop))
            && Between(rows, from, boundary) == Between(rows, from, done) + Flatten(ranges[start..stop])
  {
    hide Scan, Between, Flatten;
    ScanSplit(rows, from, boundary, last);
    ScanSplit(rows, from, done, boundary);
    BetweenSplit(rows, from, done, boundary);
    FlattenScan(rows, done + 1, boundary);
    var ranges, start, stop := Scan(rows, from, last), |Scan(rows, from, done)|, |Scan(rows, from, boundary)|;
    assert ranges[start..stop] == Scan(rows, done + 1, boundary);
    var above := Scan(rows, boundary + 1, last);
    forall i | 0 <= i < |ranges| ensures ranges[i].0 <= boundary <==> i < stop {
      assert ranges[i] == if i < stop then Scan(rows, from, boundary)[i] else above[i - stop];
    }
  }

  lemma BoundaryTreesStep(seed: Tree, rows: Rows, from: nat, done: int, boundary: nat)
    requires from - 1 <= done < boundary && NoBoundaryBetween(done, boundary)
    ensures var grown := BoundaryTrees(seed, rows, from, done);
            BoundaryTrees(seed, rows, from, boundary)
            == if IsBoundary(boundary) then grown[boundary := seed + Between(rows, from, boundary)] else grown
  {
  }

  lemma BoundaryTreesGrow(base: map<nat, Tree>, seed: Tree, rows: Rows, from: nat, done: int, boundary: nat)
    requires from - 1 <= done < boundary && NoBoundaryBetween(done, boundary)
    ensures var grown := base + BoundaryTrees(seed, rows, from, done);
            base + BoundaryTrees(seed, rows, from, boundary)
            == if IsBoundary(boundary) then grown[boundary := seed + Between(rows, from, boundary)] else grown
  {
    BoundaryTreesStep(seed, rows, from, done, boundary);
    hide BoundaryTrees, Between, IsBoundary;
  }

  /** The next height a rebuild visits: the next boundary, or the tip if it comes first. */
  function NextBoundary(boundary: nat, tip: nat): (next: nat)
    requires boundary < tip
    ensures boundary < next <= tip && NoBoundaryBetween(boundary, next)
  {
    var following := if IsBoundary(boundary) then boundary + INTERVAL
                     else boundary + (INTERVAL - boundary % INTERVAL);
    if following > tip then tip else following
  }

  function DropRow(s: Store, k: nat): Store {
    s.(index := s.index.(blocks := s.index.blocks - {k},
                         hashes := s.index.hashes - {k},
                         heightOf := if k in s.index.hashes then s.index.heightOf - {s.index.hashes[k]}
                                     else s.index.heightOf),
       nullifiers := s.nullifiers - {k},
       coins := s.coins - {k})
  }

  lemma DropOneMore(s: Store, gone: set<nat>, k: nat)
    requires k !in gone
    ensures DropRows(s, gone + {k}) == DropRow(DropRows(s, gone), k)
  {
  }

  lemma DropNone(s: Store)
    ensures DropRows(s, {}) == s
  {
  }
}
