/** The in-memory pool of detection keys: rows expire by wall-clock time, and are swept on every
    insert and, at most once a minute, on lookup. */
module DetectionPool {
  import opened Words

  const SWEEP_INTERVAL: nat := 60

  type Handle = nat

  datatype Key = Key(keys: seq<seq<Byte>>, network: Byte, expires: nat, byteLength: nat)

  datatype Reject = Full | TooLarge | Empty

  datatype Answer = Pooled(handle: Handle) | Refused(why: Reject) | Found(key: Key) | Unknown

  datatype Limits = Limits(handles: nat, bytes: nat)

  type Rows = map<Handle, Key>

  datatype Pool = Pool(entries: Rows, total: nat, lastSweep: nat)

  // ---- bytes held ----

  function SumLengths(keys: seq<seq<Byte>>): nat {
    if keys == [] then 0 else SumLengths(keys[..|keys| - 1]) + |keys[|keys| - 1]|
  }

  function Retained(key: Key): nat {
    SumLengths(key.keys)
  }

  ghost function Bytes(m: Rows): nat {
    if m == map[] then 0 else var h :| h in m; Retained(m[h]) + Bytes(m - {h})
  }

  /** The sum does not depend on the order rows are visited in. */
  lemma {:induction false} BytesRemove(m: Rows, h: Handle)
    requires h in m
    ensures Bytes(m) == Retained(m[h]) + Bytes(m - {h})
  {
    var g :| g in m && Bytes(m) == Retained(m[g]) + Bytes(m - {g});
    if g != h {
      BytesRemove(m - {g}, h);
      BytesRemove(m - {h}, g);
      assert m - {g} - {h} == m - {h} - {g};
    }
  }

  lemma BytesAdd(m: Rows, h: Handle, key: Key)
    requires h !in m
    ensures Bytes(m[h := key]) == Bytes(m) + Retained(key)
  {
    BytesRemove(m[h := key], h);
    assert m[h := key] - {h} == m;
  }

  lemma {:induction false} BytesSplit(m: Rows, keep: set<Handle>)
    ensures Bytes(m) == Bytes(m - keep) + Bytes(m - (m.Keys - keep))
  {
    if m == map[] {
      assert m - keep == map[] && m - (m.Keys - keep) == map[];
    } else {
      var h :| h in m;
      var rest := m - {h};
      BytesSplit(rest, keep);
      BytesRemove(m, h);
      if h in keep {
        assert m - keep == rest - keep && (m - (m.Keys - keep)) - {h} == rest - (rest.Keys - keep);
        BytesRemove(m - (m.Keys - keep), h);
      } else {
        assert (m - keep) - {h} == rest - keep && m - (m.Keys - keep) == rest - (rest.Keys - keep);
        BytesRemove(m - keep, h);
      }
    }
  }

  // ---- what each operation does ----

  function Live(m: Rows, now: nat): Rows {
    map h | h in m && m[h].expires > now :: m[h]
  }

  function Expired(m: Rows, now: nat): Rows {
    map h | h in m && m[h].expires <= now :: m[h]
  }

  lemma ExpiredStep(m: Rows, rest: set<Handle>, h: Handle, now: nat)
    requires h in rest && h in m
    ensures var before, after := Expired(m - rest, now), Expired(m - (rest - {h}), now);
            && h !in before && after == (if m[h].expires <= now then before[h := m[h]] else before)
            && m - after.Keys == (if m[h].expires <= now then m - before.Keys - {h} else m - before.Keys)
  {
  }

  lemma ExpiredEnds(m: Rows, now: nat)
    ensures Expired(m - m.Keys, now) == map[]
    ensures m - {} == m && m - Expired(m, now).Keys == Live(m, now)
  {
  }

  ghost function Swept(p: Pool, now: nat, clock: nat): Pool {
    Pool(Live(p.entries, now), SaturatingSub(p.total, Min(Bytes(Expired(p.entries, now)), U64_MAX)), clock)
  }

  predicate HasEmptyPart(key: Key) {
    key.keys == [] || exists i :: 0 <= i < |key.keys| && key.keys[i] == []
  }

  predicate Oversized(key: Key, maxKeyBytes: nat) {
    key.byteLength > maxKeyBytes || exists i :: 0 <= i < |key.keys| && |key.keys[i]| > maxKeyBytes
  }

  /** The first draw that is not taken, or the last one. */
  function Pick(taken: Rows, draws: seq<Handle>): Handle
    requires draws != []
  {
    if draws[0] !in taken || |draws| == 1 then draws[0] else Pick(taken, draws[1..])
  }

  ghost function Inserted(limits: Limits, p: Pool, key: Key, maxKeyBytes: nat, now: nat, clock: nat,
                          draws: seq<Handle>): (Pool, Answer)
    requires draws != []
  {
    var s := Swept(p, now, clock);
    if HasEmptyPart(key) then (s, Refused(Empty))
    else if Oversized(key, maxKeyBytes) then (s, Refused(TooLarge))
    else if |s.entries| >= limits.handles || SaturatingAdd(s.total, Retained(key), U64_MAX) > limits.bytes then
      (s, Refused(Full))
    else
      var h := Pick(s.entries, draws);
      var less := if h in s.entries then SaturatingSub(s.total, Retained(s.entries[h])) else s.total;
      (Pool(s.entries[h := key], SaturatingAdd(less, Retained(key), U64_MAX), clock), Pooled(h))
  }

  ghost function LookedUp(p: Pool, h: Handle, now: nat, clock: nat): (Pool, Answer) {
    var s := if SaturatingSub(clock, p.lastSweep) >= SWEEP_INTERVAL then Swept(p, now, clock) else p;
    if h !in s.entries then (s, Unknown)
    else if s.entries[h].expires > now then (s, Found(s.entries[h]))
    else (Pool(s.entries - {h}, SaturatingSub(s.total, Retained(s.entries[h])), s.lastSweep), Unknown)
  }

  class DetectionKeyPool {
    const limits: Limits
    var entries: Rows
    var totalBytes: nat
    var lastSweep: nat

    function Model(): Pool
      reads this
    {
      Pool(entries, totalBytes, lastSweep)
    }

    constructor WithLimits(maxHandles: nat, maxTotalBytes: nat, clock: nat)
      ensures limits == Limits(if maxHandles < 1 then 1 else maxHandles, maxTotalBytes)
      ensures Model() == Pool(map[], 0, clock)
    {
      limits := Limits(if maxHandles < 1 then 1 else maxHandles, maxTotalBytes);
      entries, totalBytes, lastSweep := map[], 0, clock;
    }

    /** Visits the rows in no particular order. */
    method SweepExpired(now: nat, clock: nat)
      modifies this
      ensures Model() == Swept(old(Model()), now, clock)
    {
      ExpiredEnds(entries, now);
      hide Expired, Live, Retained;
      var freed := 0;
      var rest, kept := entries.Keys, entries;
      ghost var gone: Rows := map[];
      while rest != {}
        invariant rest <= entries.Keys && entries == old(entries) && totalBytes == old(totalBytes)
        invariant freed == Min(Bytes(gone), U64_MAX)
        invariant gone == Expired(entries - rest, now)
        invariant kept == entries - gone.Keys
        decreases |rest|
      {
        var h :| h in rest;
        ExpiredStep(entries, rest, h, now);
        rest := rest - {h};
        if entries[h].expires <= now {
          freed := SaturatingAdd(freed, Retained(entries[h]), U64_MAX);
          BytesAdd(gone, h, entries[h]);
          gone := gone[h := entries[h]];
          kept := kept - {h};
        }
      }
      entries := kept;
      totalBytes := SaturatingSub(totalBytes, freed);
      lastSweep := clock;
    }

    method Insert(key: Key, maxKeyBytes: nat, now: nat, clock: nat, draws: seq<Handle>) returns (answer: Answer)
      requires |draws| == 8
      modifies this
      ensures (Model(), answer) == Inserted(limits, old(Model()), key, maxKeyBytes, now, clock, draws)
    {
      SweepExpired(now, clock);
      if HasEmptyPart(key) {
        return Refused(Empty);
      }
      if Oversized(key, maxKeyBytes) {
        return Refused(TooLarge);
      }
      var bytes := Retained(key);
      if |entries| >= limits.handles || SaturatingAdd(totalBytes, bytes, U64_MAX) > limits.bytes {
        return Refused(Full);
      }
      var handle := draws[0];
      var i := 0;
      while i < 8
        invariant i <= 8
        invariant i < 8 ==> Pick(entries, draws) == Pick(entries, draws[i..])
        invariant i == 8 ==> handle == Pick(entries, draws)
      {
        handle := draws[i];
        if handle !in entries {
          break;
        }
        assert draws[i..][1..] == draws[i + 1..];
        i := i + 1;
      }
      if handle in entries {
        totalBytes := SaturatingSub(totalBytes, Retained(entries[handle]));
      }
      entries := entries[handle := key];
      totalBytes := SaturatingAdd(totalBytes, bytes, U64_MAX);
      return Pooled(handle);
    }

    method Lookup(handle: Handle, now: nat, clock: nat) returns (answer: Answer)
      modifies this
      ensures (Model(), answer) == LookedUp(old(Model()), handle, now, clock)
    {
      if SaturatingSub(clock, lastSweep) >= SWEEP_INTERVAL {
        SweepExpired(now, clock);
      }
      if handle !in entries {
        return Unknown;
      }
      var entry := entries[handle];
      if entry.expires > now {
        return Found(entry);
      }
      entries := entries - {handle};
      totalBytes := SaturatingSub(totalBytes, Retained(entry));
      return Unknown;
    }
  }

  // ---- the byte count is exact ----

  ghost predicate Exact(limits: Limits, p: Pool) {
    && p.total == Bytes(p.entries) <= limits.bytes
    && |p.entries| <= limits.handles
  }

  lemma LiveAndExpired(m: Rows, now: nat)
    ensures Bytes(m) == Bytes(Live(m, now)) + Bytes(Expired(m, now))
  {
    BytesSplit(m, Live(m, now).Keys);
    assert m - Live(m, now).Keys == Expired(m, now);
    assert m - (m.Keys - Live(m, now).Keys) == Live(m, now);
  }

  lemma FewerRows(a: Rows, b: Rows)
    requires a.Keys <= b.Keys
    ensures |a| <= |b|
  {
    CountMono(a.Keys, b.Keys);
    assert |a| == |a.Keys| && |b| == |b.Keys|;
  }

  lemma {:induction false} CountMono(a: set<Handle>, b: set<Handle>)
    requires a <= b
    ensures |a| <= |b|
  {
    if a != {} {
      var x :| x in a;
      CountMono(a - {x}, b - {x});
    }
  }

  lemma SweptIsExact(limits: Limits, p: Pool, now: nat, clock: nat)
    requires Exact(limits, p) && limits.bytes < U64_MAX
    ensures Exact(limits, Swept(p, now, clock))
  {
    LiveAndExpired(p.entries, now);
    FewerRows(Live(p.entries, now), p.entries);
  }

  lemma Overwrite(m: Rows, h: Handle, key: Key)
    ensures Bytes(m[h := key]) + (if h in m then Retained(m[h]) else 0) == Bytes(m) + Retained(key)
    ensures |m[h := key]| <= |m| + 1 && (h in m ==> Retained(m[h]) <= Bytes(m))
  {
    hide Retained;
    BytesAdd(m - {h}, h, key);
    assert (m - {h})[h := key] == m[h := key];
    if h in m {
      BytesRemove(m, h);
    } else {
      assert m - {h} == m;
    }
  }

  lemma InsertedIsExact(limits: Limits, p: Pool, key: Key, maxKeyBytes: nat, now: nat, clock: nat, draws: seq<Handle>)
    requires Exact(limits, p) && limits.bytes < U64_MAX && draws != []
    ensures Exact(limits, Inserted(limits, p, key, maxKeyBytes, now, clock, draws).0)
  {
    SweptIsExact(limits, p, now, clock);
    var s := Swept(p, now, clock).entries;
    Overwrite(s, Pick(s, draws), key);
    hide Retained, HasEmptyPart, Oversized, Pick, Live, Expired;
  }

  /** With the largest cap there is, the saturating comparison refuses nothing and the count is lost. */
  lemma LargestCapLosesCount(limits: Limits, p: Pool, key: Key, maxKeyBytes: nat, now: nat, clock: nat,
                             draws: seq<Handle>)
    requires Exact(limits, p) && limits.bytes == U64_MAX && draws != []
    requires !HasEmptyPart(key) && !Oversized(key, maxKeyBytes)
    requires var live := Live(p.entries, now);
             |live| < limits.handles && Bytes(live) + Retained(key) > U64_MAX && Pick(live, draws) !in live
    ensures var (after, answer) := Inserted(limits, p, key, maxKeyBytes, now, clock, draws);
            answer.Pooled? && after.total < Bytes(after.entries)
  {
    LiveAndExpired(p.entries, now);
    Overwrite(Live(p.entries, now), Pick(Live(p.entries, now), draws), key);
    hide Retained, HasEmptyPart, Oversized, Pick, Live, Expired;
  }

  lemma LookedUpIsExact(limits: Limits, p: Pool, h: Handle, now: nat, clock: nat)
    requires Exact(limits, p) && limits.bytes < U64_MAX
    ensures Exact(limits, LookedUp(p, h, now, clock).0)
  {
    SweptIsExact(limits, p, now, clock);
    var s := if SaturatingSub(clock, p.lastSweep) >= SWEEP_INTERVAL then Swept(p, now, clock) else p;
    if h in s.entries {
      BytesRemove(s.entries, h);
      FewerRows(s.entries - {h}, s.entries);
    }
  }

  // ---- the plain map it stands for ----

  datatype Op =
    | InsertOp(key: Key, maxKeyBytes: nat, draws: seq<Handle>)
    | LookupOp(handle: Handle)

  /** An operation, at a wall-clock time and a monotonic clock reading. */
  datatype Call = Call(op: Op, now: nat, clock: nat)

  ghost function Step(limits: Limits, p: Pool, c: Call): (Pool, Answer)
    requires c.op.InsertOp? ==> c.op.draws != []
  {
    match c.op
    case InsertOp(key, maxKeyBytes, draws) => Inserted(limits, p, key, maxKeyBytes, c.now, c.clock, draws)
    case LookupOp(handle) => LookedUp(p, handle, c.now, c.clock)
  }

  /** The same on a map that nobody sweeps, with no counter: a lookup sees what has not expired, an
      insert is refused when what is live, and its bytes, would pass the caps. */
  ghost function PlainStep(limits: Limits, m: Rows, c: Call): (Rows, Answer)
    requires c.op.InsertOp? ==> c.op.draws != []
  {
    match c.op
    case LookupOp(handle) =>
      (m, if handle in m && m[handle].expires > c.now then Found(m[handle]) else Unknown)
    case InsertOp(key, maxKeyBytes, draws) =>
      var live := Live(m, c.now);
      if HasEmptyPart(key) then (m, Refused(Empty))
      else if Oversized(key, maxKeyBytes) then (m, Refused(TooLarge))
      else if |live| + 1 > limits.handles || Bytes(live) + Retained(key) > limits.bytes then (m, Refused(Full))
      else (m[Pick(live, draws) := key], Pooled(Pick(live, draws)))
  }

  ghost predicate Stands(limits: Limits, p: Pool, m: Rows, now: nat) {
    Exact(limits, p) && Live(p.entries, now) == Live(m, now)
  }

  lemma LaterLive(a: Rows, b: Rows, now: nat, later: nat)
    requires Live(a, now) == Live(b, now) && now <= later
    ensures Live(a, later) == Live(b, later)
  {
    assert forall h :: h in Live(a, later) ==> h in Live(a, now) && Live(a, now)[h] == a[h];
    assert forall h :: h in Live(b, later) ==> h in Live(b, now) && Live(b, now)[h] == b[h];
  }

  lemma LiveTwice(m: Rows, now: nat)
    ensures Live(Live(m, now), now) == Live(m, now)
  {
  }

  lemma LiveAdd(a: Rows, b: Rows, h: Handle, key: Key, now: nat)
    requires Live(a, now) == Live(b, now)
    ensures Live(a[h := key], now) == Live(b[h := key], now)
  {
    assert forall g :: g in Live(a, now) ==> g in Live(b, now) && Live(a, now)[g] == a[g] && Live(b, now)[g] == b[g];
    assert forall g :: g in Live(b, now) ==> g in Live(a, now);
  }

  lemma InsertStands(limits: Limits, p: Pool, m: Rows, c: Call)
    requires Stands(limits, p, m, c.now) && limits.bytes < U64_MAX && c.op.InsertOp? && c.op.draws != []
    ensures Step(limits, p, c).1 == PlainStep(limits, m, c).1
    ensures Stands(limits, Step(limits, p, c).0, PlainStep(limits, m, c).0, c.now)
  {
    InsertedIsExact(limits, p, c.op.key, c.op.maxKeyBytes, c.now, c.clock, c.op.draws);
    SweptIsExact(limits, p, c.now, c.clock);
    var live := Live(m, c.now);
    LiveTwice(m, c.now);
    LiveAdd(live, m, Pick(live, c.op.draws), c.op.key, c.now);
    hide Live, Retained, HasEmptyPart, Oversized, Pick;
  }

  lemma LookupStands(limits: Limits, p: Pool, m: Rows, c: Call)
    requires Stands(limits, p, m, c.now) && limits.bytes < U64_MAX && c.op.LookupOp?
    ensures Step(limits, p, c).1 == PlainStep(limits, m, c).1
    ensures Stands(limits, Step(limits, p, c).0, PlainStep(limits, m, c).0, c.now)
  {
    var h, live := c.op.handle, Live(m, c.now);
    LookedUpIsExact(limits, p, h, c.now, c.clock);
    LiveTwice(p.entries, c.now);
    assert h in Live(p.entries, c.now) <==> h in Live(m, c.now);
    assert h in live ==> live[h] == m[h] && live[h] == p.entries[h];
    DeadRow(p.entries, h, c.now);
    hide Exact, Retained;
  }

  lemma DeadRow(m: Rows, h: Handle, now: nat)
    ensures h in m && m[h].expires <= now ==> Live(m - {h}, now) == Live(m, now)
  {
  }

  ghost function Answers(limits: Limits, p: Pool, calls: seq<Call>): seq<Answer>
    requires forall i :: 0 <= i < |calls| && calls[i].op.InsertOp? ==> calls[i].op.draws != []
    decreases |calls|
  {
    if calls == [] then []
    else [Step(limits, p, calls[0]).1] + Answers(limits, Step(limits, p, calls[0]).0, calls[1..])
  }

  ghost function PlainAnswers(limits: Limits, m: Rows, calls: seq<Call>): seq<Answer>
    requires forall i :: 0 <= i < |calls| && calls[i].op.InsertOp? ==> calls[i].op.draws != []
    decreases |calls|
  {
    if calls == [] then []
    else [PlainStep(limits, m, calls[0]).1] + PlainAnswers(limits, PlainStep(limits, m, calls[0]).0, calls[1..])
  }

  /** While wall-clock time does not run backwards, no caller can tell the pool from the plain map,
      whenever its sweeps fall. */
  lemma {:induction false} PoolIsPlainMap(limits: Limits, p: Pool, m: Rows, calls: seq<Call>, now: nat)
    requires Stands(limits, p, m, now) && limits.bytes < U64_MAX
    requires forall i :: 0 <= i < |calls| && calls[i].op.InsertOp? ==> calls[i].op.draws != []
    requires forall i, j :: 0 <= i < j < |calls| ==> calls[i].now <= calls[j].now
    requires calls != [] ==> now <= calls[0].now
    ensures Answers(limits, p, calls) == PlainAnswers(limits, m, calls)
    decreases |calls|
  {
    if calls != [] {
      var c := calls[0];
      LaterLive(p.entries, m, now, c.now);
      if c.op.InsertOp? {
        InsertStands(limits, p, m, c);
      } else {
        LookupStands(limits, p, m, c);
      }
      hide Stands, Step, PlainStep;
      PoolIsPlainMap(limits, Step(limits, p, c).0, PlainStep(limits, m, c).0, calls[1..], c.now);
    }
  }

  /** A new pool stands for the empty map. */
  lemma NewPoolStands(limits: Limits, clock: nat, now: nat)
    ensures Stands(limits, Pool(map[], 0, clock), map[], now)
  {
  }
}
