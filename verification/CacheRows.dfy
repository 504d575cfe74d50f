/** Which rows every cache operation leaves, height by height. */
module CacheRows {
  import opened Chain
  import opened CacheNullifiers
  import opened CacheStore

  /** The row of `k` is the same in both, or in neither. */
  predicate SameRow<V(==)>(a: map<nat, V>, b: map<nat, V>, k: nat) {
    (k in a <==> k in b) && (k in a ==> a[k] == b[k])
  }

  /** Block, hash and nullifier row of `k`. */
  predicate SameRows(a: Store, b: Store, k: nat) {
    && SameRow(a.index.blocks, b.index.blocks, k) && SameRow(a.index.hashes, b.index.hashes, k)
    && SameRow(a.nullifiers, b.nullifiers, k)
  }

  /** An insert writes the row of its height and no other; the tip moves unless the block is below it. */
  lemma InsertWritesOne(s: Store, b: Block, k: nat)
    ensures var i := Insert(s, b).index;
            && b.height in i.blocks && i.blocks[b.height] == b && b.height in i.hashes && i.hashes[b.height] == b.hash
            && b.hash in i.heightOf && i.heightOf[b.hash] == b.height
            && i.tip == if s.index.tip.Some? && b.height < s.index.tip.value.0 then s.index.tip
                        else Some((b.height, b.hash))
    ensures k != b.height ==> SameRows(Insert(s, b), s, k)
  {
    InsertNullifiers(s, b);
    hide Rebuild, Append;
    InsertIndex(s, b);
  }

  lemma InsertIndex(s: Store, b: Block)
    ensures Insert(s, b).index == if IsHistorical(s, b.height) then PutRows(s, b).index else TipRows(s, b).index
  {
  }

  /** A rewind keeps the rows up to its height, and the tip is the block there. */
  lemma RewindKeepsUpto(s: Store, h: nat, k: nat)
    ensures h < k ==> k !in Rewind(s, h).index.blocks
    ensures k <= h ==> SameRows(Rewind(s, h), s, k)
    ensures h in s.index.blocks ==> Rewind(s, h).index.tip == Some((h, s.index.blocks[h].hash))
  {
    RewindNullifiers(s, h);
    hide Rebuild;
    RewindIndex(s, h);
  }

  lemma RewindIndex(s: Store, h: nat)
    ensures Rewind(s, h).index == RewindCut(s, h).index
  {
  }

  /** Pruning with a retention window keeps the window below the tip, the tip row and every tree. */
  lemma RetainKeepsWindow(s: Store, window: nat, k: nat)
    ensures var p := Retain(s, window);
            && (if s.index.tip.Some? && k + window < s.index.tip.value.0 then k !in p.index.blocks
                else SameRows(p, s, k))
            && p.index.tip == s.index.tip && p.snaps == s.snaps && p.tipTree == s.tipTree && p.live == s.live
  {
  }

  /** A restart keeps every row and snapshot, indexes the tip tree as a snapshot if it is not one, and makes it the
      live tree, or leaves none when it cannot be read. */
  lemma ReopenLoadsTip(s: Store, readable: bool, k: nat)
    ensures var r := Reopen(s, readable);
            && r == s.(snaps := r.snaps, live := r.live) && (k in s.snaps ==> SameRow(r.snaps, s.snaps, k))
            && if s.tipTree.None? then r.snaps == s.snaps && r.live == LiveTree(None, [0], false)
               else
                 var tip := s.tipTree.value;
                 && tip.height in r.snaps && r.snaps.Keys == s.snaps.Keys + {tip.height}
                 && (tip.height !in s.snaps ==> r.snaps[tip.height] == tip.tree)
                 && r.live == (if readable then LiveTree(Some(tip.height), tip.tree, false)
                               else LiveTree(None, [0], true))
  {
  }
}
