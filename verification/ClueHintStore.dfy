/** The hint trees of the cache object, updated in place, against `ClueHints`. */
module ClueHintStore {
  import opened Chain
  import opened HintCodec
  import opened ClueHints
  import opened Words

  class HintStore {
    var clues: map<nat, seq<Byte>>
    var storedAt: map<nat, nat>
    var lastSweep: nat
    var metas: map<nat, seq<Byte>>

    function Model(): Hints
      reads this
    {
      Hints(clues, storedAt, lastSweep, metas)
    }

    constructor ()
      ensures Model() == Hints(map[], map[], 0, map[])
    {
      clues, storedAt, lastSweep, metas := map[], map[], 0, map[];
    }

    method RemoveOmrClueHint(tx: nat)
      modifies this`clues, this`storedAt
      ensures Model() == RemoveHint(old(Model()), tx)
    {
      clues := clues - {tx};
      storedAt := storedAt - {tx};
    }

    /** Forget every hint in `txs`, one at a time. */
    method SweepExpired(txs: set<nat>)
      modifies this`clues, this`storedAt
      ensures Model() == Forget(old(Model()), txs)
    {
      var todo := txs;
      ghost var gone := {};
      assert Forget(Model(), {}) == Model();
      while todo != {}
        invariant todo + gone == txs && Model() == Forget(old(Model()), gone)
        decreases |todo|
      {
        var tx :| tx in todo;
        assert Forget(Forget(old(Model()), gone), {tx}) == Forget(old(Model()), gone + {tx});
        RemoveOmrClueHint(tx);
        todo, gone := todo - {tx}, gone + {tx};
      }
      assert gone == txs;
    }

    method PruneExpiredHints(now: nat)
      modifies this`clues, this`storedAt, this`lastSweep
      ensures Model() == PruneExpired(old(Model()), now)
    {
      if lastSweep != 0 && now < lastSweep + SWEEP_SECONDS {
        return;
      }
      var expired := set tx | tx in storedAt && now > storedAt[tx] + TTL;
      assert expired == set tx | tx in storedAt && Expired(Model(), tx, now);
      lastSweep := now;
      SweepExpired(expired);
    }

    method DropHintIfExpired(tx: nat, now: nat) returns (dropped: bool)
      modifies this`clues, this`storedAt
      ensures Model() == DropIfExpired(old(Model()), tx, now) && dropped == Expired(old(Model()), tx, now)
    {
      if tx !in storedAt || now <= storedAt[tx] + TTL {
        return false;
      }
      RemoveOmrClueHint(tx);
      dropped := true;
    }

    method StoreOmrClueHint(tx: nat, clue: seq<Byte>, index: Option<U32>, now: nat)
      modifies this`clues, this`storedAt, this`lastSweep
      ensures Model() == StoreHint(old(Model()), tx, clue, index, now)
    {
      hide PruneExpired, Decode, Encode;
      if clue == [] {
        return;
      }
      PruneExpiredHints(now);
      var _ := DropHintIfExpired(tx, now);
      var hints := [];
      if tx in clues {
        hints := DecodeHints(clues[tx]);
      }
      var i := 0;
      while i < |hints|
        invariant i <= |hints| && forall j :: 0 <= j < i ==> hints[j].index != index
      {
        if hints[i].index == index {
          return;
        }
        i := i + 1;
      }
      clues := clues[tx := Encode(hints + [Hint(index, clue)])];
      storedAt := storedAt[tx := now];
    }

    method StoreOmrMetadata(tx: nat, data: seq<Byte>, index: Option<U32>) returns (accepted: bool)
      modifies this`metas
      ensures Model() == StoreMeta(old(Model()), tx, data, index) && accepted == (|data| <= MAX_META)
    {
      if data == [] {
        return true;
      }
      if |data| > MAX_META {
        return false;
      }
      metas := metas[tx := Le32(if index.Some? then index.value else U32_MAX) + data];
      accepted := true;
    }

    /** Whether a live hint is stored for `tx`. */
    method HasOmrClueHint(tx: nat, now: nat) returns (has: bool)
      modifies this`clues, this`storedAt, this`lastSweep
      ensures Model() == Clean(old(Model()), tx, now)
      ensures has == (tx in clues && !Expired(PruneExpired(old(Model()), now), tx, now))
    {
      hide PruneExpired;
      PruneExpiredHints(now);
      var dropped := DropHintIfExpired(tx, now);
      has := !dropped && tx in clues;
    }

    /** Whether a clue is already stored for this output of `tx`. */
    method OmrClueIndexTaken(tx: nat, index: U32, now: nat) returns (taken: bool)
      modifies this`clues, this`storedAt, this`lastSweep
      ensures Model() == Clean(old(Model()), tx, now) && taken == Taken(Listed(old(Model()), tx, now), Some(index))
    {
      hide Decode;
      PruneExpiredHints(now);
      var dropped := DropHintIfExpired(tx, now);
      if dropped || tx !in clues {
        return false;
      }
      var hints := DecodeHints(clues[tx]);
      var i := 0;
      taken := false;
      while i < |hints|
        invariant i <= |hints| && taken == exists j :: 0 <= j < i && hints[j].index == Some(index)
      {
        taken := taken || hints[i].index == Some(index);
        i := i + 1;
      }
    }

    /** Merge the decoded hints into the outputs, in stored order. */
    static method MergeHints(outputs: seq<Output>, hints: seq<Hint>) returns (merged: seq<Output>)
      ensures merged == Merge(outputs, hints)
    {
      merged := outputs;
      var i := 0;
      assert hints[0..] == hints;
      while i < |hints|
        invariant i <= |hints| && Merge(merged, hints[i..]) == Merge(outputs, hints)
      {
        var h := hints[i];
        assert hints[i..][1..] == hints[i + 1..];
        if h.clue != [] && !Attached(merged, h.clue) {
          var target := if h.index.Some? then h.index.value else FirstEmpty(merged);
          if target < |merged| && merged[target].clue == [] {
            merged := merged[target := merged[target].(clue := h.clue)];
          }
        }
        i := i + 1;
      }
    }

    method ApplyToTx(tx: Tx, now: nat) returns (done: Tx)
      modifies this`clues, this`storedAt, this`metas
      ensures (Model(), done) == ApplyTx(old(Model()), tx, now)
    {
      hide Decode, Merge, AttachMeta;
      done := tx;
      var dropped := DropHintIfExpired(tx.id, now);
      if !dropped && tx.id in clues {
        var hints := DecodeHints(clues[tx.id]);
        if forall i :: 0 <= i < |hints| ==> hints[i].clue == [] {
          RemoveOmrClueHint(tx.id);
        } else {
          var merged := MergeHints(tx.outputs, hints);
          done := done.(outputs := merged);
        }
      }
      if tx.id in metas {
        done := done.(outputs := AttachMeta(done.outputs, ParseMeta(metas[tx.id])));
        metas := metas - {tx.id};
      }
    }

    /** Merge hints and metadata into every transaction of a block. */
    method ApplyOmrClueHints(txs: seq<Tx>, now: nat) returns (done: seq<Tx>)
      modifies this`clues, this`storedAt, this`metas
      ensures (Model(), done) == Apply(old(Model()), txs, now)
    {
      hide ApplyTx;
      done := [];
      var i := 0;
      while i < |txs|
        invariant i <= |txs| && (Model(), done) == Apply(old(Model()), txs[..i], now)
      {
        assert txs[..i + 1][..i] == txs[..i];
        var last := ApplyToTx(txs[i], now);
        done := done + [last];
        i := i + 1;
      }
      assert txs[..i] == txs;
    }
  }
}
