/** The nullifier rows: one for each cached block that has nullifiers, exactly when no operation
    puts a block without nullifiers over one with them. */
module CacheNullifiers {
  import opened Chain
  import opened CacheStore

  /** Each cached block's row holds its nullifiers, and there is no other row. */
  ghost predicate NullifiersHeld(s: Store) {
    && (forall k :: k in s.nullifiers ==> k in s.index.blocks && s.nullifiers[k] == TxNullifiers(s.index.blocks[k].txs))
    && (forall k :: k in s.index.blocks && TxNullifiers(s.index.blocks[k].txs) != [] ==> k in s.nullifiers)
    && (forall k :: k in s.nullifiers ==> s.nullifiers[k] != [])
  }

  predicate LeavesOldRow(s: Store, op: Op) {
    op.InsertOp? && TxNullifiers(op.block.txs) == [] && op.block.height in s.nullifiers
  }

  lemma RebuildKeepsNullifiers(s: Store, t: nat)
    ensures Rebuild(s, t).nullifiers == s.nullifiers && Rebuild(s, t).index == s.index
  {
  }

  lemma InsertNullifiers(s: Store, b: Block)
    ensures Insert(s, b).nullifiers == PutRows(s, b).nullifiers
    ensures Insert(s, b).index.blocks == s.index.blocks[b.height := b]
  {
    if IsHistorical(s, b.height) {
      RebuildKeepsNullifiers(HistoryCut(s, b), s.index.tip.value.0);
    } else if b.height == 0 {
      RebuildKeepsNullifiers(TipRows(s, b), 0);
    } else {
      RebuildKeepsNullifiers(TipRows(s, b), b.height - 1);
    }
    hide Rebuild;
  }

  lemma RewindNullifiers(s: Store, h: nat)
    ensures Rewind(s, h).nullifiers == s.nullifiers - Above(s, h)
    ensures Rewind(s, h).index.blocks == s.index.blocks - Above(s, h)
  {
    RebuildKeepsNullifiers(RewindCut(s, h), h);
    hide Rebuild;
  }

  lemma PutNullifiers(s: Store, b: Block)
    requires NullifiersHeld(s)
    ensures NullifiersHeld(PutRows(s, b)) <==> (TxNullifiers(b.txs) == [] ==> b.height !in s.nullifiers)
  {
    var p := PutRows(s, b);
    if TxNullifiers(b.txs) == [] && b.height in s.nullifiers {
      assert b.height in p.nullifiers && p.nullifiers[b.height] != TxNullifiers(p.index.blocks[b.height].txs);
    }
  }

  /** One operation keeps the nullifier rows right exactly when it does not leave an old row. */
  lemma StepNullifiers(s: Store, op: Op)
    requires NullifiersHeld(s)
    ensures NullifiersHeld(Step(s, op)) <==> !LeavesOldRow(s, op)
  {
    match op
    case InsertOp(b) =>
      InsertNullifiers(s, b);
      PutNullifiers(s, b);
      hide Insert;
    case RewindOp(h) =>
      RewindNullifiers(s, h);
      hide Rewind;
    case PruneOp(_) =>
    case ReopenOp(_) =>
  }
}
