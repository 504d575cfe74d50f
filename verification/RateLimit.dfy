/** The per-peer request limiter: a bucket that opens at a peer's first request and is replaced
    once the window has passed, with a sweep of stale peers whenever the table is large. */
module RateLimit {
  import opened Words

  type Peer = nat

  datatype Entry = Entry(count: U32, start: nat)
  datatype Config = Config(limit: U32, window: nat)

  /** A request for `n` credits at time `now`, with the sweep threshold then in force. */
  datatype Request = Request(peer: Peer, n: U32, now: nat, threshold: nat)

  type Table = map<Peer, Entry>

  function Elapsed(now: nat, since: nat): nat {
    SaturatingSub(now, since)
  }

  function WrappingAdd(a: U32, b: U32): U32 {
    (a + b) % (U32_MAX + 1)
  }

  function Swept(inner: Table, now: nat, window: nat): Table {
    map p | p in inner && Elapsed(now, inner[p].start) < window :: inner[p]
  }

  function Charge(cfg: Config, e: Entry, now: nat, n: U32): (Entry, bool) {
    if Elapsed(now, e.start) >= cfg.window then (Entry(n, now), n <= cfg.limit)
    else if SaturatingAdd(e.count, n, U32_MAX) > cfg.limit then (e, false)
    else (Entry(WrappingAdd(e.count, n), e.start), true)
  }

  /** The table a request sees, and the entry it is charged to. */
  function Seen(cfg: Config, inner: Table, r: Request): Table {
    if |inner| >= (if r.threshold < 1 then 1 else r.threshold) then Swept(inner, r.now, cfg.window) else inner
  }

  function Found(seen: Table, r: Request): Entry {
    if r.peer in seen then seen[r.peer] else Entry(0, r.now)
  }

  function Check(cfg: Config, inner: Table, r: Request): (Table, bool) {
    if cfg.limit == 0 || r.n == 0 then (inner, true)
    else
      var seen := Seen(cfg, inner, r);
      var charged := Charge(cfg, Found(seen, r), r.now, r.n);
      (seen[r.peer := charged.0], charged.1)
  }

  class PeerRateLimiter {
    const config: Config
    var gcThreshold: nat
    var poisoned: bool
    var inner: Table

    constructor (limit: U32, window: nat, threshold: nat)
      ensures config == Config(limit, window) && inner == map[] && !poisoned
      ensures gcThreshold == if threshold < 1 then 1 else threshold
    {
      config := Config(limit, window);
      gcThreshold := if threshold < 1 then 1 else threshold;
      inner := map[];
      poisoned := false;
    }

    method SetGcThreshold(n: nat)
      modifies this`gcThreshold
      ensures gcThreshold == if n < 1 then 1 else n
    {
      gcThreshold := if n < 1 then 1 else n;
    }

    /** A poisoned lock denies, except what needs no lock. */
    method CheckN(peer: Peer, n: U32, now: nat) returns (allowed: bool)
      modifies this`inner
      ensures !poisoned ==> (inner, allowed) == Check(config, old(inner), Request(peer, n, now, gcThreshold))
      ensures poisoned ==> inner == old(inner) && (allowed <==> config.limit == 0 || n == 0)
    {
      if config.limit == 0 || n == 0 {
        return true;
      }
      if poisoned {
        return false;
      }
      ghost var seen := Seen(config, inner, Request(peer, n, now, gcThreshold));
      if |inner| >= if gcThreshold < 1 then 1 else gcThreshold {
        inner := Swept(inner, now, config.window);
      }
      if peer !in inner {
        inner := inner[peer := Entry(0, now)];
      }
      var entry := inner[peer];
      if Elapsed(now, entry.start) >= config.window {
        inner := inner[peer := Entry(n, now)];
        assert inner == seen[peer := Entry(n, now)];
        return n <= config.limit;
      }
      if SaturatingAdd(entry.count, n, U32_MAX) > config.limit {
        assert inner == seen[peer := entry];
        return false;
      }
      inner := inner[peer := Entry(WrappingAdd(entry.count, n), entry.start)];
      assert inner == seen[peer := Entry(WrappingAdd(entry.count, n), entry.start)];
      return true;
    }
  }

  // ---- runs ----

  datatype Grant = Grant(peer: Peer, n: nat, time: nat)

  datatype World = World(inner: Table, log: seq<Grant>)

  function Next(cfg: Config, w: World, r: Request): World {
    var outcome := Check(cfg, w.inner, r);
    World(outcome.0, if outcome.1 && r.n > 0 then w.log + [Grant(r.peer, r.n, r.now)] else w.log)
  }

  function Run(cfg: Config, rs: seq<Request>): World {
    if rs == [] then World(map[], []) else Next(cfg, Run(cfg, rs[..|rs| - 1]), rs[|rs| - 1])
  }

  /** Requests arrive in time order. */
  ghost predicate InOrder(rs: seq<Request>) {
    forall i, j :: 0 <= i < j < |rs| ==> rs[i].now <= rs[j].now
  }

  /** Credits granted to `p` from time `a` on and before `b`. */
  function Granted(log: seq<Grant>, p: Peer, a: int, b: int): nat {
    if log == [] then 0
    else
      var g := log[|log| - 1];
      Granted(log[..|log| - 1], p, a, b) + if g.peer == p && a <= g.time < b then g.n else 0
  }

  /** Credits granted to `p` in one window's length from time `a` on. */
  function InWindow(log: seq<Grant>, p: Peer, a: int, window: nat): nat {
    Granted(log, p, a, a + window)
  }

  lemma GrantedNext(log: seq<Grant>, g: Grant, p: Peer, a: int, b: int)
    ensures Granted(log + [g], p, a, b) == Granted(log, p, a, b) + if g.peer == p && a <= g.time < b then g.n else 0
  {
  }

  ghost predicate Before(log: seq<Grant>, p: Peer, end: int) {
    forall g :: g in log && g.peer == p ==> g.time < end
  }

  /** With every grant before `end`, a window that covers the other one up to there holds no less. */
  lemma {:induction false} Covers(log: seq<Grant>, p: Peer, a: int, b: int, lo: int, hi: int, end: int)
    requires Before(log, p, end) && lo <= a && (b <= hi || end <= hi)
    ensures Granted(log, p, a, b) <= Granted(log, p, lo, hi)
  {
    if log != [] {
      assert log[|log| - 1] in log;
      Covers(log[..|log| - 1], p, a, b, lo, hi, end);
    }
  }

  lemma {:induction false} Splits(log: seq<Grant>, p: Peer, a: int, m: int, b: int)
    requires a <= m <= b
    ensures Granted(log, p, a, b) == Granted(log, p, a, m) + Granted(log, p, m, b)
  {
    if log != [] {
      Splits(log[..|log| - 1], p, a, m, b);
    }
  }

  lemma {:induction false} NothingAfter(log: seq<Grant>, p: Peer, a: int, b: int)
    requires Before(log, p, a)
    ensures Granted(log, p, a, b) == 0
  {
    if log != [] {
      assert log[|log| - 1] in log;
      NothingAfter(log[..|log| - 1], p, a, b);
    }
  }

  // ---- at most one limit a bucket, and what that leaves of a window ----

  /** 1 if an opening request always takes something, 0 if it may be refused. */
  type Gap = g: nat | g <= 1

  /** Most credits in one window's length: with `gap`, a bucket grants that much at its opening. */
  function Most(cfg: Config, gap: Gap): int {
    if cfg.window <= 1 then cfg.limit else 2 * cfg.limit - gap
  }

  /** What the log says of a peer whose bucket opened at `start`; a peer with no entry counts as
      one whose bucket is over. */
  ghost predicate InBounds(cfg: Config, log: seq<Grant>, p: Peer, count: nat, start: int, gap: Gap) {
    && Before(log, p, start + cfg.window)
    && Granted(log, p, start, start + cfg.window) <= count
    && Granted(log, p, start, start + cfg.window) <= cfg.limit
    && Granted(log, p, start + 1, start + cfg.window) + gap <= Max(count, gap)
    && Granted(log, p, start + 1, start + cfg.window) + gap <= cfg.limit
    && (forall a: int :: start - cfg.window < a ==> Granted(log, p, a, start) + gap <= cfg.limit)
    && (forall a: int :: InWindow(log, p, a, cfg.window) <= Most(cfg, gap))
  }

  ghost predicate Bucket(cfg: Config, w: World, p: Peer, now: nat, count: nat, start: int, gap: Gap) {
    && InBounds(cfg, w.log, p, count, start, gap) && start <= now
    && (if p in w.inner then w.inner[p].count == count >= gap && w.inner[p].start == start
        else start + cfg.window <= now)
  }

  ghost predicate HasBucket(cfg: Config, w: World, p: Peer, now: nat, gap: Gap) {
    exists count: nat, start: int :: Bucket(cfg, w, p, now, count, start, gap)
  }

  /** A bucket that opens after the last one is over. */
  lemma OpenBucket(cfg: Config, log: seq<Grant>, p: Peer, count: nat, start: int, n: nat, now: int, gap: Gap)
    requires InBounds(cfg, log, p, count, start, gap) && start + cfg.window <= now
    requires cfg.limit > 0 && cfg.window > 0
    ensures InBounds(cfg, log, p, n, now, gap)
  {
    var w := cfg.window;
    NothingAfter(log, p, now, now + w);
    NothingAfter(log, p, now + 1, now + w);
    forall a: int | now - w < a ensures Granted(log, p, a, now) + gap <= cfg.limit {
      Covers(log, p, a, now, start + 1, start + w, start + w);
    }
  }

  /** A grant that the open bucket has room for. */
  lemma GrantInBucket(cfg: Config, log: seq<Grant>, p: Peer, count: nat, start: int, n: nat, now: nat, gap: Gap)
    requires InBounds(cfg, log, p, count, start, gap) && start <= now < start + cfg.window
    requires count + n <= cfg.limit && cfg.limit > 0 && (now == start || count >= gap)
    ensures InBounds(cfg, log + [Grant(p, n, now)], p, count + n, start, gap)
  {
    var w, g := cfg.window, Grant(p, n, now);
    GrantedNext(log, g, p, start, start + w);
    GrantedNext(log, g, p, start + 1, start + w);
    forall a: int | start - w < a ensures Granted(log + [g], p, a, start) + gap <= cfg.limit {
      GrantedNext(log, g, p, a, start);
    }
    forall a: int ensures InWindow(log + [g], p, a, w) <= Most(cfg, gap) {
      GrantInWindow(cfg, log, p, count, start, n, now, a, gap);
    }
  }

  lemma GrantInWindow(cfg: Config, log: seq<Grant>, p: Peer, count: nat, start: int, n: nat, now: nat, a: int, gap: Gap)
    requires InBounds(cfg, log, p, count, start, gap) && start <= now < start + cfg.window
    requires count + n <= cfg.limit && cfg.limit > 0
    ensures InWindow(log + [Grant(p, n, now)], p, a, cfg.window) <= Most(cfg, gap)
  {
    var w := cfg.window;
    GrantedNext(log, Grant(p, n, now), p, a, a + w);
    assert InWindow(log, p, a, w) <= Most(cfg, gap);
    if a >= start {
      Covers(log, p, a, a + w, start, start + w, start + w);
    } else if now < a + w {
      Splits(log, p, a, start, a + w);
      Covers(log, p, start, a + w, start, start + w, start + w);
    }
  }

  lemma OtherPeer(cfg: Config, log: seq<Grant>, g: Grant, p: Peer, count: nat, start: int, gap: Gap)
    requires g.peer != p && InBounds(cfg, log, p, count, start, gap)
    ensures InBounds(cfg, log + [g], p, count, start, gap)
  {
    forall a: int, b: int ensures Granted(log + [g], p, a, b) == Granted(log, p, a, b) {
      GrantedNext(log, g, p, a, b);
    }
    assert forall a: int :: InWindow(log + [g], p, a, cfg.window) == InWindow(log, p, a, cfg.window);
  }

  /** The peer's bucket as the request finds it, the table swept or not. */
  lemma FoundBucket(cfg: Config, w: World, r: Request, now: nat, count: nat, start: int, gap: Gap)
    requires cfg.limit > 0 && cfg.window > 0 && now <= r.now && Bucket(cfg, w, r.peer, now, count, start, gap)
    ensures var e := Found(Seen(cfg, w.inner, r), r);
            InBounds(cfg, w.log, r.peer, e.count, e.start, gap) && e.start <= r.now
            && (e.start == r.now || e.count >= gap)
  {
    hide InBounds;
    if r.peer !in Seen(cfg, w.inner, r) {
      OpenBucket(cfg, w.log, r.peer, count, start, 0, r.now, gap);
    }
  }

  /** What the request leaves behind. */
  lemma ChargedBucket(cfg: Config, log: seq<Grant>, e: Entry, r: Request, gap: Gap)
    requires 0 < cfg.limit < U32_MAX && cfg.window > 0 && e.start <= r.now
    requires r.n > 0 && (gap == 1 ==> r.n <= cfg.limit) && (e.start == r.now || e.count >= gap)
    requires InBounds(cfg, log, r.peer, e.count, e.start, gap)
    ensures var (e2, ok) := Charge(cfg, e, r.now, r.n);
            && e2.start <= r.now && e2.count >= gap
            && InBounds(cfg, if ok then log + [Grant(r.peer, r.n, r.now)] else log, r.peer, e2.count, e2.start, gap)
  {
    hide InBounds;
    if Elapsed(r.now, e.start) >= cfg.window {
      if r.n <= cfg.limit {
        OpenBucket(cfg, log, r.peer, e.count, e.start, 0, r.now, gap);
        GrantInBucket(cfg, log, r.peer, 0, r.now, r.n, r.now, gap);
      } else {
        OpenBucket(cfg, log, r.peer, e.count, e.start, r.n, r.now, gap);
      }
    } else if e.count + r.n <= cfg.limit {
      GrantInBucket(cfg, log, r.peer, e.count, e.start, r.n, r.now, gap);
    }
  }

  lemma StepKeepsBucket(cfg: Config, w: World, r: Request, p: Peer, now: nat, gap: Gap)
    requires 0 < cfg.limit < U32_MAX && cfg.window > 0 && now <= r.now && HasBucket(cfg, w, p, now, gap)
    requires gap == 1 ==> r.n <= cfg.limit
    ensures HasBucket(cfg, Next(cfg, w, r), p, r.now, gap)
  {
    hide InBounds;
    var count: nat, start: int :| Bucket(cfg, w, p, now, count, start, gap);
    var w2 := Next(cfg, w, r);
    if r.n == 0 {
      assert Bucket(cfg, w2, p, r.now, count, start, gap);
    } else if p == r.peer {
      var e := Found(Seen(cfg, w.inner, r), r);
      FoundBucket(cfg, w, r, now, count, start, gap);
      ChargedBucket(cfg, w.log, e, r, gap);
      assert Bucket(cfg, w2, p, r.now, w2.inner[p].count, w2.inner[p].start, gap);
    } else {
      OtherPeer(cfg, w.log, Grant(r.peer, r.n, r.now), p, count, start, gap);
      assert Bucket(cfg, w2, p, r.now, count, start, gap);
    }
  }

  /** No request is for more than the limit. */
  ghost predicate WellSized(cfg: Config, rs: seq<Request>) {
    forall i :: 0 <= i < |rs| ==> rs[i].n <= cfg.limit
  }

  lemma {:induction false} RunKeepsBuckets(cfg: Config, rs: seq<Request>, p: Peer, gap: Gap)
    requires 0 < cfg.limit < U32_MAX && cfg.window > 0 && InOrder(rs) && (gap == 1 ==> WellSized(cfg, rs))
    ensures HasBucket(cfg, Run(cfg, rs), p, if rs == [] then 0 else rs[|rs| - 1].now, gap)
  {
    if rs == [] {
      var window: int := cfg.window;
      assert Bucket(cfg, World(map[], []), p, 0, 0, -window, gap);
    } else {
      var before := rs[..|rs| - 1];
      RunKeepsBuckets(cfg, before, p, gap);
      StepKeepsBucket(cfg, Run(cfg, before), rs[|rs| - 1], p, if before == [] then 0 else before[|before| - 1].now,
                      gap);
    }
  }

  lemma WindowBound(cfg: Config, rs: seq<Request>, p: Peer, a: int, gap: Gap)
    requires 0 < cfg.limit < U32_MAX && InOrder(rs) && (gap == 1 ==> WellSized(cfg, rs))
    ensures var w := Run(cfg, rs);
            && InWindow(w.log, p, a, cfg.window) <= Most(cfg, gap)
            && (p in w.inner ==> InWindow(w.log, p, w.inner[p].start, cfg.window) <= cfg.limit)
  {
    if cfg.window == 0 {
      NoTime(Run(cfg, rs).log, p);
    } else {
      RunKeepsBuckets(cfg, rs, p, gap);
      hide Run;
      BoundsOfBucket(cfg, Run(cfg, rs), p, if rs == [] then 0 else rs[|rs| - 1].now, a, gap);
    }
  }

  lemma BoundsOfBucket(cfg: Config, w: World, p: Peer, now: nat, a: int, gap: Gap)
    requires HasBucket(cfg, w, p, now, gap)
    ensures InWindow(w.log, p, a, cfg.window) <= Most(cfg, gap)
    ensures p in w.inner ==> InWindow(w.log, p, w.inner[p].start, cfg.window) <= cfg.limit
  {
    var count: nat, start: int :| Bucket(cfg, w, p, now, count, start, gap);
  }

  /** Over any run no peer is granted more than the limit in a bucket, nor more than twice the
      limit in one window's length of time, wherever that starts. */
  lemma AtMostTwiceTheLimit(cfg: Config, rs: seq<Request>, p: Peer, a: int)
    requires 0 < cfg.limit < U32_MAX && InOrder(rs)
    ensures var w := Run(cfg, rs);
            && InWindow(w.log, p, a, cfg.window) <= 2 * cfg.limit
            && (p in w.inner ==> InWindow(w.log, p, w.inner[p].start, cfg.window) <= cfg.limit)
  {
    WindowBound(cfg, rs, p, a, 0);
    hide Run;
  }

  /** Where no request is for more than the limit, one credit less. */
  lemma WellSizedBound(cfg: Config, rs: seq<Request>, p: Peer, a: int)
    requires 0 < cfg.limit < U32_MAX && InOrder(rs) && WellSized(cfg, rs)
    ensures InWindow(Run(cfg, rs).log, p, a, cfg.window) <= 2 * cfg.limit - 1
  {
    WindowBound(cfg, rs, p, a, 1);
    hide Run;
  }

  lemma {:induction false} NoTime(log: seq<Grant>, p: Peer)
    ensures forall a: int :: InWindow(log, p, a, 0) == 0
  {
    if log != [] {
      NoTime(log[..|log| - 1], p);
      forall a: int ensures InWindow(log, p, a, 0) == 0 {
        assert InWindow(log[..|log| - 1], p, a, 0) == 0;
      }
    }
  }

  /** Twice the limit is reached: a refused request opens a bucket that grants only at its very
      end, and the next one grants at once. So the window does not slide. */
  lemma TwiceTheLimitIsReached(cfg: Config, p: Peer)
    requires 0 < cfg.limit < U32_MAX && cfg.window > 1
    ensures var (l, w) := (cfg.limit, cfg.window);
            var rs := [Request(p, l + 1, 0, 2), Request(p, l, w - 1, 2), Request(p, l, w, 2)];
            InOrder(rs) && InWindow(Run(cfg, rs).log, p, w - 1, w) == 2 * (l as int)
  {
    hide Run;
    var l, w := cfg.limit, cfg.window;
    var g1, g2 := Grant(p, l, w - 1), Grant(p, l, w);
    TwoGrants(cfg, p);
    GrantedNext([], g1, p, w - 1, w - 1 + w);
    GrantedNext([g1], g2, p, w - 1, w - 1 + w);
    assert [] + [g1] == [g1] && [g1] + [g2] == [g1, g2];
  }

  lemma TwoGrants(cfg: Config, p: Peer)
    requires 0 < cfg.limit < U32_MAX && cfg.window > 1
    ensures var (l, w) := (cfg.limit, cfg.window);
            Run(cfg, [Request(p, l + 1, 0, 2), Request(p, l, w - 1, 2), Request(p, l, w, 2)]).log
            == [Grant(p, l, w - 1), Grant(p, l, w)]
  {
    var l, w := cfg.limit, cfg.window;
    var r0, r1, r2 := Request(p, l + 1, 0, 2), Request(p, l, w - 1, 2), Request(p, l, w, 2);
    RunOfThree(cfg, r0, r1, r2);
    RefusedThenGranted(cfg);
    hide Run, Charge, Next;
    FirstAlone(cfg, r0);
    NextAlone(cfg, Entry(0, 0), [], r1);
    NextAlone(cfg, Entry(l, 0), [Grant(p, l, w - 1)], r2);
  }

  lemma RefusedThenGranted(cfg: Config)
    requires 0 < cfg.limit < U32_MAX && cfg.window > 1
    ensures var (l, w) := (cfg.limit, cfg.window);
            && Charge(cfg, Entry(0, 0), 0, l + 1) == (Entry(0, 0), false)
            && Charge(cfg, Entry(0, 0), w - 1, l) == (Entry(l, 0), true)
            && Charge(cfg, Entry(l, 0), w, l) == (Entry(l, w), true)
  {
  }

  /** With no request over the limit the bound is reached too: one credit opens the bucket, the rest of
      the limit follows at its very end, and the next bucket opens with the whole limit. */
  lemma WellSizedBoundIsReached(cfg: Config, p: Peer)
    requires 0 < cfg.limit < U32_MAX && cfg.window > 1
    ensures var (l, w) := (cfg.limit, cfg.window);
            var rs := [Request(p, 1, 0, 2), Request(p, l - 1, w - 1, 2), Request(p, l, w, 2)];
            InOrder(rs) && WellSized(cfg, rs) && InWindow(Run(cfg, rs).log, p, w - 1, w) == 2 * (l as int) - 1
  {
    hide Run;
    var l, w := cfg.limit, cfg.window;
    var g0, g1, g2 := Grant(p, 1, 0), Grant(p, l - 1, w - 1), Grant(p, l, w);
    ThreeGrants(cfg, p);
    GrantedNext([], g0, p, w - 1, w - 1 + w);
    GrantedNext([g0], g1, p, w - 1, w - 1 + w);
    GrantedNext([g0, g1], g2, p, w - 1, w - 1 + w);
    GrantedNext([g0], g2, p, w - 1, w - 1 + w);
    assert [] + [g0] == [g0] && [g0] + [g1] == [g0, g1] && [g0, g1] + [g2] == [g0, g1, g2] && [g0] + [g2] == [g0, g2];
  }

  /** The middle request is for nothing when the limit is 1. */
  lemma ThreeGrants(cfg: Config, p: Peer)
    requires 0 < cfg.limit < U32_MAX && cfg.window > 1
    ensures var (l, w) := (cfg.limit, cfg.window);
            Run(cfg, [Request(p, 1, 0, 2), Request(p, l - 1, w - 1, 2), Request(p, l, w, 2)]).log
            == if l == 1 then [Grant(p, 1, 0), Grant(p, l, w)]
               else [Grant(p, 1, 0), Grant(p, l - 1, w - 1), Grant(p, l, w)]
  {
    var l, w := cfg.limit, cfg.window;
    var r0, r1, r2 := Request(p, 1, 0, 2), Request(p, l - 1, w - 1, 2), Request(p, l, w, 2);
    RunOfThree(cfg, r0, r1, r2);
    ChargesGranted(cfg);
    hide Run, Charge, Next;
    FirstAlone(cfg, r0);
    if l > 1 {
      NextAlone(cfg, Entry(1, 0), [Grant(p, 1, 0)], r1);
    } else {
      NothingAlone(cfg, World(map[p := Entry(1, 0)], [Grant(p, 1, 0)]), r1);
    }
    NextAlone(cfg, Entry(l, 0), if l == 1 then [Grant(p, 1, 0)] else [Grant(p, 1, 0), Grant(p, l - 1, w - 1)], r2);
  }

  lemma ChargesGranted(cfg: Config)
    requires 0 < cfg.limit < U32_MAX && cfg.window > 1
    ensures var (l, w) := (cfg.limit, cfg.window);
            && Charge(cfg, Entry(0, 0), 0, 1) == (Entry(1, 0), true)
            && Charge(cfg, Entry(1, 0), w - 1, l - 1) == (Entry(l, 0), true)
            && Charge(cfg, Entry(l, 0), w, l) == (Entry(l, w), true)
  {
  }

  lemma FirstAlone(cfg: Config, r: Request)
    requires cfg.limit > 0 && r.n > 0
    ensures var c := Charge(cfg, Entry(0, r.now), r.now, r.n);
            Next(cfg, World(map[], []), r)
            == World(map[r.peer := c.0], if c.1 then [Grant(r.peer, r.n, r.now)] else [])
  {
    FirstRequest(cfg, r);
    hide Check;
  }

  lemma NextAlone(cfg: Config, e: Entry, log: seq<Grant>, r: Request)
    requires cfg.limit > 0 && r.n > 0 && r.threshold > 1
    ensures var c := Charge(cfg, e, r.now, r.n);
            Next(cfg, World(map[r.peer := e], log), r)
            == World(map[r.peer := c.0], if c.1 then log + [Grant(r.peer, r.n, r.now)] else log)
  {
    OnlyPeer(cfg, e, r);
    hide Check;
  }

  lemma NothingAlone(cfg: Config, w: World, r: Request)
    requires r.n == 0
    ensures Next(cfg, w, r) == w
  {
  }

  lemma FirstRequest(cfg: Config, r: Request)
    requires cfg.limit > 0 && r.n > 0
    ensures var charged := Charge(cfg, Entry(0, r.now), r.now, r.n);
            Check(cfg, map[], r) == (map[r.peer := charged.0], charged.1)
  {
  }

  lemma OnlyPeer(cfg: Config, e: Entry, r: Request)
    requires cfg.limit > 0 && r.n > 0 && r.threshold > 1
    ensures var charged := Charge(cfg, e, r.now, r.n);
            Check(cfg, map[r.peer := e], r) == (map[r.peer := charged.0], charged.1)
  {
    assert map[r.peer := e][r.peer := Charge(cfg, e, r.now, r.n).0] == map[r.peer := Charge(cfg, e, r.now, r.n).0];
  }

  lemma OnlyPeerSwept(cfg: Config, e: Entry, r: Request)
    requires cfg.limit > 0 && r.n > 0 && r.threshold <= 1 && Elapsed(r.now, e.start) >= cfg.window
    ensures Check(cfg, map[r.peer := e], r) == Check(cfg, map[], r)
  {
  }

  lemma RunOfTwo(cfg: Config, r0: Request, r1: Request)
    ensures Run(cfg, [r0, r1]) == Next(cfg, Next(cfg, World(map[], []), r0), r1)
  {
    hide Next;
    assert [r0, r1][..1] == [r0] && [r0][..0] == [];
    assert Run(cfg, [r0]) == Next(cfg, Run(cfg, []), r0);
  }

  lemma RunOfThree(cfg: Config, r0: Request, r1: Request, r2: Request)
    ensures Run(cfg, [r0, r1, r2]) == Next(cfg, Next(cfg, Next(cfg, World(map[], []), r0), r1), r2)
  {
    hide Next;
    RunOfTwo(cfg, r0, r1);
    assert [r0, r1, r2][..2] == [r0, r1];
  }

  /** With the largest limit there is, the saturating comparison never refuses. */
  lemma LargestLimitNeverRefuses(cfg: Config, inner: Table, r: Request)
    requires cfg.limit == U32_MAX
    ensures Check(cfg, inner, r).1
  {
  }

  // ---- when the window slides ----

  /** At most the limit in one window's length, wherever it starts: what a sliding window would give. */
  ghost predicate Slides(cfg: Config) {
    forall rs: seq<Request>, p: Peer, a: int :: InOrder(rs) ==>
      InWindow(Run(cfg, rs).log, p, a, cfg.window) <= cfg.limit
  }

  /** The same for peers that never ask for more than the limit at once. */
  ghost predicate SlidesWhenWellSized(cfg: Config) {
    forall rs: seq<Request>, p: Peer, a: int :: InOrder(rs) && WellSized(cfg, rs) ==>
      InWindow(Run(cfg, rs).log, p, a, cfg.window) <= cfg.limit
  }

  /** A limit that never refuses grants two requests at once. */
  lemma Unlimited(cfg: Config, p: Peer, n: U32)
    requires cfg.limit == 0 || cfg.limit == U32_MAX
    requires n > 0 && cfg.window > 0
    ensures var rs := [Request(p, n, 0, 2), Request(p, n, 0, 2)];
            InOrder(rs) && InWindow(Run(cfg, rs).log, p, 0, cfg.window) == 2 * (n as int)
  {
    hide Run, Check;
    var r, g := Request(p, n, 0, 2), Grant(p, n, 0);
    RunOfTwo(cfg, r, r);
    NeverRefused(cfg, map[], r);
    NeverRefused(cfg, Check(cfg, map[], r).0, r);
    GrantedNext([], g, p, 0, cfg.window);
    GrantedNext([g], g, p, 0, cfg.window);
    assert [] + [g] == [g] && [g] + [g] == [g, g];
  }

  lemma NeverRefused(cfg: Config, inner: Table, r: Request)
    requires cfg.limit == 0 || cfg.limit == U32_MAX
    ensures Check(cfg, inner, r).1
  {
    if cfg.limit == U32_MAX {
      LargestLimitNeverRefuses(cfg, inner, r);
    }
  }

  /** For every limit and window: the bound of a sliding window holds exactly when no time passes in a
      window, or one tick does and the limit counts. */
  lemma SlidesExactlyWhen(cfg: Config)
    ensures Slides(cfg) <==> cfg.window == 0 || (cfg.window == 1 && 0 < cfg.limit < U32_MAX)
  {
    hide Run, InWindow;
    if cfg.window == 0 {
      forall rs: seq<Request>, p: Peer, a: int ensures InWindow(Run(cfg, rs).log, p, a, cfg.window) <= cfg.limit {
        NoTime(Run(cfg, rs).log, p);
      }
    } else if cfg.limit == 0 || cfg.limit == U32_MAX {
      Unlimited(cfg, 0, U32_MAX);
    } else if cfg.window == 1 {
      forall rs: seq<Request>, p: Peer, a: int | InOrder(rs)
        ensures InWindow(Run(cfg, rs).log, p, a, cfg.window) <= cfg.limit
      {
        WindowBound(cfg, rs, p, a, 0);
      }
    } else {
      TwiceTheLimitIsReached(cfg, 0);
    }
  }

  /** For peers that never ask for more than the limit it also holds with a limit of 1, and with no
      limit, which then lets nothing be asked for. */
  lemma SlidesWhenWellSizedExactlyWhen(cfg: Config)
    ensures SlidesWhenWellSized(cfg)
            <==> cfg.window == 0 || cfg.limit == 0 || (cfg.limit < U32_MAX && (cfg.window == 1 || cfg.limit == 1))
  {
    hide Run, InWindow;
    if cfg.window == 0 {
      forall rs: seq<Request>, p: Peer, a: int ensures InWindow(Run(cfg, rs).log, p, a, cfg.window) <= cfg.limit {
        NoTime(Run(cfg, rs).log, p);
      }
    } else if cfg.limit == 0 {
      forall rs: seq<Request>, p: Peer, a: int | WellSized(cfg, rs)
        ensures InWindow(Run(cfg, rs).log, p, a, cfg.window) <= cfg.limit
      {
        NothingAsked(cfg, rs, p, a);
      }
    } else if cfg.limit == U32_MAX {
      Unlimited(cfg, 0, U32_MAX);
    } else if cfg.window == 1 || cfg.limit == 1 {
      forall rs: seq<Request>, p: Peer, a: int | InOrder(rs) && WellSized(cfg, rs)
        ensures InWindow(Run(cfg, rs).log, p, a, cfg.window) <= cfg.limit
      {
        WindowBound(cfg, rs, p, a, 1);
      }
    } else {
      WellSizedBoundIsReached(cfg, 0);
    }
  }

  lemma {:induction false} NothingAsked(cfg: Config, rs: seq<Request>, p: Peer, a: int)
    requires cfg.limit == 0 && WellSized(cfg, rs)
    ensures Run(cfg, rs).log == [] && InWindow(Run(cfg, rs).log, p, a, cfg.window) == 0
  {
    if rs != [] {
      NothingAsked(cfg, rs[..|rs| - 1], p, a);
    }
  }

  // ---- sweeping ----

  /** A peer's entry, unless its window is over. */
  function Live(inner: Table, p: Peer, now: nat, window: nat): (Entry, bool) {
    if p in inner && Elapsed(now, inner[p].start) < window then (inner[p], true) else (Entry(0, 0), false)
  }

  /** Two tables that differ only in peers whose window is over. */
  ghost predicate SameLive(m: Table, n: Table, now: nat, window: nat) {
    forall p: Peer :: Live(m, p, now, window) == Live(n, p, now, window)
  }

  /** When sweeping cannot matter: requests are never larger than the limit, or nothing is counted. */
  predicate SweepProof(cfg: Config, largest: nat) {
    cfg.limit == 0 || cfg.window == 0 || largest <= cfg.limit
  }

  lemma SeenIsSameLive(cfg: Config, m: Table, r: Request)
    ensures SameLive(m, Seen(cfg, m, r), r.now, cfg.window)
  {
  }

  lemma StaysSameLive(m: Table, n: Table, now: nat, later: nat, window: nat)
    requires SameLive(m, n, now, window) && now <= later
    ensures SameLive(m, n, later, window)
  {
    forall p: Peer ensures Live(m, p, later, window) == Live(n, p, later, window) {
      assert Live(m, p, now, window) == Live(n, p, now, window);
    }
  }

  /** One request on two such tables, whatever the two thresholds: the same answer, and again
      such tables. */
  lemma SweepStep(cfg: Config, m: Table, n: Table, r: Request, threshold: nat)
    requires SameLive(m, n, r.now, cfg.window) && SweepProof(cfg, r.n)
    ensures var s := r.(threshold := threshold);
            && Check(cfg, m, r).1 == Check(cfg, n, s).1
            && SameLive(Check(cfg, m, r).0, Check(cfg, n, s).0, r.now, cfg.window)
  {
    var s := r.(threshold := threshold);
    var m1, n1 := Seen(cfg, m, r), Seen(cfg, n, s);
    SeenIsSameLive(cfg, m, r);
    SeenIsSameLive(cfg, n, s);
    assert forall p: Peer :: Live(m1, p, r.now, cfg.window) == Live(m, p, r.now, cfg.window);
    assert forall p: Peer :: Live(n1, p, r.now, cfg.window) == Live(n, p, r.now, cfg.window);
    hide Seen;
    if cfg.limit != 0 && r.n != 0 {
      SameCharge(cfg, m1, n1, r, s);
    }
  }

  lemma SameCharge(cfg: Config, m: Table, n: Table, r: Request, s: Request)
    requires SameLive(m, n, r.now, cfg.window) && (cfg.window == 0 || r.n <= cfg.limit)
    requires s == r.(threshold := s.threshold)
    ensures var (a, b) := (Charge(cfg, Found(m, r), r.now, r.n), Charge(cfg, Found(n, s), s.now, s.n));
            a.1 == b.1 && SameLive(m[r.peer := a.0], n[r.peer := b.0], r.now, cfg.window)
  {
    var a, b := Charge(cfg, Found(m, r), r.now, r.n), Charge(cfg, Found(n, s), s.now, s.n);
    assert Live(m, r.peer, r.now, cfg.window) == Live(n, r.peer, r.now, cfg.window);
    assert a == b;
    var m2, n2 := m[r.peer := a.0], n[r.peer := b.0];
    forall p: Peer ensures Live(m2, p, r.now, cfg.window) == Live(n2, p, r.now, cfg.window) {
      assert Live(m, p, r.now, cfg.window) == Live(n, p, r.now, cfg.window);
    }
  }

  function Answers(cfg: Config, inner: Table, rs: seq<Request>): (answers: seq<bool>)
    ensures |answers| == |rs|
    decreases |rs|
  {
    if rs == [] then [] else [Check(cfg, inner, rs[0]).1] + Answers(cfg, Check(cfg, inner, rs[0]).0, rs[1..])
  }

  /** The same requests with other thresholds. */
  ghost predicate SameButThreshold(rs: seq<Request>, ss: seq<Request>) {
    |rs| == |ss| && forall i :: 0 <= i < |rs| ==> ss[i] == rs[i].(threshold := ss[i].threshold)
  }

  /** The table only ever has to forget what is over: no choice of thresholds changes an answer. */
  lemma {:induction false} SweepingChangesNothing(cfg: Config, m: Table, n: Table, rs: seq<Request>,
                                                  ss: seq<Request>, now: nat)
    requires SameLive(m, n, now, cfg.window) && SameButThreshold(rs, ss) && InOrder(rs)
    requires rs != [] ==> now <= rs[0].now
    requires forall i :: 0 <= i < |rs| ==> SweepProof(cfg, rs[i].n)
    ensures Answers(cfg, m, rs) == Answers(cfg, n, ss)
    decreases |rs|
  {
    hide Check, SameLive, SweepProof;
    if rs != [] {
      StaysSameLive(m, n, now, rs[0].now, cfg.window);
      SweepStep(cfg, m, n, rs[0], ss[0].threshold);
      SweepingChangesNothing(cfg, Check(cfg, m, rs[0]).0, Check(cfg, n, ss[0]).0, rs[1..], ss[1..], rs[0].now);
    }
  }

  /** A request over the limit by a peer whose window is over shuts that peer out for another
      window, unless a sweep forgot the peer first. */
  lemma SweepingLetsIn(cfg: Config, p: Peer)
    requires 0 < cfg.limit < U32_MAX && cfg.window > 0
    ensures var rs := [Request(p, 1, 0, 2), Request(p, cfg.limit + 1, cfg.window, 2), Request(p, 1, cfg.window, 2)];
            var ss := [Request(p, 1, 0, 1), Request(p, cfg.limit + 1, cfg.window, 1), Request(p, 1, cfg.window, 1)];
            SameButThreshold(rs, ss) && InOrder(rs) && Answers(cfg, map[], rs)[2] != Answers(cfg, map[], ss)[2]
  {
    Unswept(cfg, p);
    SweptAway(cfg, p);
  }

  lemma Unswept(cfg: Config, p: Peer)
    requires 0 < cfg.limit < U32_MAX && cfg.window > 0
    ensures var (l, w) := (cfg.limit, cfg.window);
            !Answers(cfg, map[], [Request(p, 1, 0, 2), Request(p, l + 1, w, 2), Request(p, 1, w, 2)])[2]
  {
    var l, w := cfg.limit, cfg.window;
    var r0, r1, r2 := Request(p, 1, 0, 2), Request(p, l + 1, w, 2), Request(p, 1, w, 2);
    ThirdAnswer(cfg, r0, r1, r2);
    FirstRequest(cfg, r0);
    OnlyPeer(cfg, Entry(1, 0), r1);
    OnlyPeer(cfg, Entry(l + 1, w), r2);
    hide Check, Answers;
  }

  lemma SweptAway(cfg: Config, p: Peer)
    requires 0 < cfg.limit < U32_MAX && cfg.window > 0
    ensures var (l, w) := (cfg.limit, cfg.window);
            Answers(cfg, map[], [Request(p, 1, 0, 1), Request(p, l + 1, w, 1), Request(p, 1, w, 1)])[2]
  {
    var l, w := cfg.limit, cfg.window;
    var r0, r1, r2 := Request(p, 1, 0, 1), Request(p, l + 1, w, 1), Request(p, 1, w, 1);
    ThirdAnswer(cfg, r0, r1, r2);
    FirstRequest(cfg, r0);
    OnlyPeerSwept(cfg, Entry(1, 0), r1);
    FirstRequest(cfg, r1);
    AfterRefusal(cfg, r1, r2);
    hide Check, Answers;
  }

  /** A peer refused outright has lost nothing. */
  lemma AfterRefusal(cfg: Config, r: Request, next: Request)
    requires cfg.window > 0 && 0 < next.n <= cfg.limit < r.n && next.peer == r.peer && next.now == r.now
    ensures Check(cfg, Check(cfg, map[], r).0, next).1
  {
  }

  lemma ThirdAnswer(cfg: Config, r0: Request, r1: Request, r2: Request)
    ensures Answers(cfg, map[], [r0, r1, r2])[2] == Check(cfg, Check(cfg, Check(cfg, map[], r0).0, r1).0, r2).1
  {
    hide Check;
    assert [r0, r1, r2][1..] == [r1, r2] && [r1, r2][1..] == [r2];
    var m := Check(cfg, map[], r0).0;
    assert Answers(cfg, m, [r1, r2]) == [Check(cfg, m, r1).1] + Answers(cfg, Check(cfg, m, r1).0, [r2]);
  }
}
