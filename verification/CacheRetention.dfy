/** Where the tree rows sit and which snapshots are kept, over every run of cache operations. */
module CacheRetention {
  import opened Chain
  import opened Replay
  import opened CacheStore

  /** Where the trees sit, whatever they hold. */
  ghost predicate Shape(s: Store) {
    match s.tipTree
    case None => s.snaps == map[] && s.live == EMPTY_LIVE
    case Some(t) =>
      && t.height in s.snaps && s.snaps[t.height] == t.tree
      && (forall k :: k in s.snaps ==> k <= t.height)
      && (s.live == LiveTree(Some(t.height), t.tree, false) || s.live == LiveTree(None, SENTINEL, true))
  }

  /** The snapshots are the tree height and every boundary from the least retained one up. */
  ghost predicate Retained(s: Store) {
    s.tipTree.Some? ==>
      && (forall k :: k in s.snaps ==> k == s.tipTree.value.height || IsBoundary(k))
      && (forall k, m :: k in s.snaps && IsBoundary(k) && k <= m <= s.tipTree.value.height && IsBoundary(m)
                         ==> m in s.snaps)
  }

  lemma RebuildShape(s: Store, t: nat)
    ensures Shape(Rebuild(s, t))
    ensures Rebuild(s, t).index == s.index && Rebuild(s, t).coins == s.coins
    ensures if RebuildClears(s, t) then Rebuild(s, t).tipTree.None?
            else Rebuild(s, t).live.height == Some(t) && Rebuild(s, t).tipTree.Some?
                 && Rebuild(s, t).tipTree.value.height == t
  {
  }

  /** No boundary is missing between two retained snapshots. */
  ghost predicate Convex(snaps: map<nat, Tree>) {
    forall k, m, j :: k in snaps && j in snaps && k <= m <= j && IsBoundary(m) ==> m in snaps
  }

  /** Up to `t`, only the greatest snapshot may be off the boundaries. */
  ghost predicate OnlyLastLoose(snaps: map<nat, Tree>, t: nat) {
    forall k :: k in snaps && k <= t && !IsBoundary(k) ==> Greatest(snaps, t) == Some(k)
  }

  lemma RetainedIsConvex(s: Store)
    requires Shape(s) && Retained(s)
    ensures Convex(s.snaps) && forall t :: OnlyLastLoose(s.snaps, t)
  {
  }

  lemma RebuildRetains(s: Store, t: nat)
    requires Convex(Upto(s.snaps, t)) && OnlyLastLoose(s.snaps, t)
    ensures Retained(Rebuild(s, t))
  {
    if !RebuildClears(s, t) {
      var r := Rebuild(s, t);
      forall k, m | k in r.snaps && IsBoundary(k) && k <= m <= t && IsBoundary(m) ensures m in r.snaps {
        if m < SeedNext(s, t) {
          assert k in Upto(s.snaps, t) && Greatest(s.snaps, t).value in Upto(s.snaps, t);
          assert m in Upto(s.snaps, t);
        }
      }
    }
  }

  /** Storing the next tip drops the previous one unless it is a boundary. */
  lemma NextTipRetains(s: Store, h: nat, tree: Tree)
    requires Shape(s) && Retained(s)
    requires s.tipTree.Some? ==> s.live.height == Some(s.tipTree.value.height) && h == s.tipTree.value.height + 1
    ensures Shape(StoreTip(s, s.live.height, h, tree)) && Retained(StoreTip(s, s.live.height, h, tree))
  {
  }

  lemma AppendRetains(s: Store, h: nat, coins: seq<Coin>)
    requires Shape(s) && Retained(s)
    ensures Shape(Append(s, h, coins)) && Retained(Append(s, h, coins))
  {
    RetainedIsConvex(s);
    if AppendNeedsRebuild(s, h) {
      var t := if h == 0 then 0 else h - 1;
      RebuildShape(s, t);
      RebuildRetains(s, t);
      if h > 0 {
        hide Rebuild, StoreTip, Retained, Convex, OnlyLastLoose;
        NextTipRetains(Rebuild(s, h - 1), h, Rebuild(s, h - 1).live.tree + coins);
      }
    } else {
      hide Rebuild, StoreTip, Retained, Convex, OnlyLastLoose;
      NextTipRetains(s, h, s.live.tree + coins);
    }
  }

  lemma InsertRetains(s: Store, b: Block)
    requires Shape(s) && Retained(s)
    ensures Shape(Insert(s, b)) && Retained(Insert(s, b))
  {
    if IsHistorical(s, b.height) {
      RetainedIsConvex(s);
      assert Convex(Upto(HistoryCut(s, b).snaps, s.index.tip.value.0));
      assert OnlyLastLoose(HistoryCut(s, b).snaps, s.index.tip.value.0);
      hide Rebuild, Convex, OnlyLastLoose, Retained, Shape;
      RebuildShape(HistoryCut(s, b), s.index.tip.value.0);
      RebuildRetains(HistoryCut(s, b), s.index.tip.value.0);
    } else {
      hide Append;
      AppendRetains(TipRows(s, b), b.height, Coins(b));
    }
  }

  lemma RewindRetains(s: Store, h: nat)
    requires Shape(s) && Retained(s)
    ensures Shape(Rewind(s, h)) && Retained(Rewind(s, h))
  {
    RetainedIsConvex(s);
    var cut := RewindCut(s, h);
    assert Convex(Upto(cut.snaps, h)) && OnlyLastLoose(cut.snaps, h);
    hide Rebuild, Convex, OnlyLastLoose, Retained, Shape, RewindCut;
    RebuildShape(cut, h);
    RebuildRetains(cut, h);
  }

  /** One step keeps the tree rows in shape and the retention rule. */
  lemma StepRetains(s: Store, op: Op)
    requires Shape(s) && Retained(s)
    ensures Shape(Step(s, op)) && Retained(Step(s, op))
  {
    match op
    case InsertOp(b) => InsertRetains(s, b);
    case RewindOp(h) => RewindRetains(s, h);
    case PruneOp(_) =>
    case ReopenOp(_) =>
  }

  /** Retention over any run whatsoever. */
  lemma {:induction false} RetentionOnEveryRun(ops: seq<Op>)
    ensures Shape(Run(EMPTY_STORE, ops)) && Retained(Run(EMPTY_STORE, ops))
  {
    if ops != [] {
      RetentionOnEveryRun(ops[..|ops| - 1]);
      StepRetains(Run(EMPTY_STORE, ops[..|ops| - 1]), ops[|ops| - 1]);
    }
  }

  lemma GreatestIsClose(s: Store, k: nat, h: nat)
    requires Shape(s) && Retained(s) && k in s.snaps && IsBoundary(k) && k <= h
    ensures s.tipTree.Some? && Greatest(s.snaps, h).Some?
    ensures Greatest(s.snaps, h).value <= h
    ensures h - INTERVAL < Greatest(s.snaps, h).value || Greatest(s.snaps, h).value == s.tipTree.value.height
  {
    var m := h - h % INTERVAL;
    if h < s.tipTree.value.height {
      assert IsBoundary(m) && k <= m;
      assert m in s.snaps;
    }
  }

  /** A checkpoint asked for at or above a retained boundary is less than one interval behind. */
  lemma NearestSnapshotIsClose(ops: seq<Op>, k: nat, h: nat)
    requires k in Run(EMPTY_STORE, ops).snaps && IsBoundary(k) && k <= h
    ensures var s := Run(EMPTY_STORE, ops);
            && s.tipTree.Some? && Greatest(s.snaps, h).Some?
            && var reach := if h < s.tipTree.value.height then h else s.tipTree.value.height;
            reach - INTERVAL < Greatest(s.snaps, h).value <= reach
  {
    RetentionOnEveryRun(ops);
    var s := Run(EMPTY_STORE, ops);
    hide Run, Retained;
    GreatestIsClose(s, k, h);
  }
}
