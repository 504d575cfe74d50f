/** When the detection-key pool takes a key, under which handle, and what the byte count counts. */
module PoolInserts {
  import opened DetectionPool
  import opened Words

  /** All parts of a key, one after the other. */
  function Concat(keys: seq<seq<Byte>>): seq<Byte> {
    if keys == [] then [] else keys[0] + Concat(keys[1..])
  }

  /** The bytes charged for a key are those of all its parts, whatever length it declares. */
  lemma RetainedIsAllParts(key: Key)
    ensures Retained(key) == |Concat(key.keys)|
  {
    SumIsConcat(key.keys);
  }

  lemma {:induction false} SumIsConcat(keys: seq<seq<Byte>>)
    ensures SumLengths(keys) == |Concat(keys)|
  {
    if keys != [] {
      var n := |keys| - 1;
      SumIsConcat(keys[..n]);
      ConcatSnoc(keys[..n], keys[n]);
      assert keys == keys[..n] + [keys[n]];
    }
  }

  lemma {:induction false} ConcatSnoc(keys: seq<seq<Byte>>, last: seq<Byte>)
    ensures Concat(keys + [last]) == Concat(keys) + last
  {
    if keys == [] {
      assert Concat([last]) == last + Concat([last][1..]);
    } else {
      ConcatSnoc(keys[1..], last);
      assert (keys + [last])[1..] == keys[1..] + [last];
    }
  }

  /** Some draw is free. */
  ghost predicate SomeFree(taken: Rows, draws: seq<Handle>) {
    exists i :: 0 <= i < |draws| && draws[i] !in taken
  }

  /** The handle is the first free draw, and the last draw if none is free. */
  lemma {:induction false} PickIsFirstFree(taken: Rows, draws: seq<Handle>) returns (i: nat)
    requires draws != []
    ensures i < |draws| && Pick(taken, draws) == draws[i]
    ensures forall j :: 0 <= j < i ==> draws[j] in taken
    ensures if SomeFree(taken, draws) then draws[i] !in taken else i == |draws| - 1
    decreases |draws|
  {
    if draws[0] !in taken || |draws| == 1 {
      i := 0;
    } else {
      var k := PickIsFirstFree(taken, draws[1..]);
      i := k + 1;
      assert draws[1..][k] == draws[i];
      if SomeFree(taken, draws) {
        var j :| 0 <= j < |draws| && draws[j] !in taken;
        assert draws[1..][j - 1] == draws[j];
      }
      forall j | 0 <= j < i ensures draws[j] in taken {
        assert j > 0 ==> draws[1..][j - 1] == draws[j];
      }
    }
  }

  /** A key the pool may hold at all. */
  ghost predicate Acceptable(key: Key, maxKeyBytes: nat) {
    && key.keys != [] && key.byteLength <= maxKeyBytes
    && forall i :: 0 <= i < |key.keys| ==> 0 < |key.keys[i]| <= maxKeyBytes
  }

  /** An exact pool takes a key exactly when it is acceptable and fits beside what is live. */
  lemma PooledExactlyWhen(limits: Limits, p: Pool, key: Key, maxKeyBytes: nat, now: nat, clock: nat,
                          draws: seq<Handle>)
    requires Exact(limits, p) && limits.bytes < U64_MAX && draws != []
    ensures var (after, answer) := Inserted(limits, p, key, maxKeyBytes, now, clock, draws);
            var live := Live(p.entries, now);
            && (answer.Pooled? <==> Acceptable(key, maxKeyBytes) && |live| < limits.handles
                                    && Bytes(live) + |Concat(key.keys)| <= limits.bytes)
            && (answer == Refused(Empty) <==> key.keys == [] || [] in key.keys)
            && (answer == Refused(Full) ==> Acceptable(key, maxKeyBytes))
  {
    SweptIsExact(limits, p, now, clock);
    RetainedIsAllParts(key);
    hide Live, Retained, Pick, Bytes, Concat;
  }

  /** While one of the draws is free, the handle is not that of a live key: every live key stays under its
      handle, and the new one is found under its own until it expires. */
  lemma HandleIsNew(limits: Limits, p: Pool, key: Key, maxKeyBytes: nat, now: nat, clock: nat, draws: seq<Handle>)
    requires draws != [] && SomeFree(Live(p.entries, now), draws)
    requires Inserted(limits, p, key, maxKeyBytes, now, clock, draws).1.Pooled?
    ensures var (after, answer) := Inserted(limits, p, key, maxKeyBytes, now, clock, draws);
            && answer.handle in draws && answer.handle !in Live(p.entries, now)
            && after.entries == Live(p.entries, now)[answer.handle := key]
  {
    var i := PickIsFirstFree(Live(p.entries, now), draws);
    hide Live, Retained, HasEmptyPart, Oversized, Pick;
  }

  /** A key is found under its handle exactly until it expires, whether or not a sweep comes first. */
  lemma FoundUntilExpired(p: Pool, h: Handle, now: nat, clock: nat)
    requires h in p.entries
    ensures LookedUp(p, h, now, clock).1 == if now < p.entries[h].expires then Found(p.entries[h]) else Unknown
  {
  }

  /** Every insert sweeps, and so does a lookup once a minute has passed since the last sweep: no expired row is
      left, and the clock of the sweep is kept. */
  lemma SweepsKeepUp(limits: Limits, p: Pool, c: Call, h: Handle)
    requires c.op.InsertOp? ==> c.op.draws != [] && c.op.key.expires > c.now
    ensures var after, due := Step(limits, p, c).0, c.op.InsertOp? || c.clock >= p.lastSweep + 60;
            && (due && h in after.entries ==> after.entries[h].expires > c.now)
            && after.lastSweep == (if due then c.clock else p.lastSweep)
  {
    hide Bytes, Retained, HasEmptyPart, Oversized, Pick, Expired;
  }
}
