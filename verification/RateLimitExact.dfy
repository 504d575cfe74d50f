/** Which requests the limiter grants, in terms of what it granted before. */
module RateLimitExact {
  import opened RateLimit
  import opened Words

  /** The bucket's count is what it granted, or, after an opening request over the limit, more than the limit
      with nothing granted. With `sized` requests only, the second cannot be. */
  ghost predicate CountIs(cfg: Config, log: seq<Grant>, p: Peer, e: Entry, sized: bool) {
    var granted := InWindow(log, p, e.start, cfg.window);
    if e.count <= cfg.limit then e.count == granted else granted == 0 && !sized
  }

  /** All that the table and the log say of each other about `p` at time `now`. */
  ghost predicate Counted(cfg: Config, w: World, p: Peer, now: nat, sized: bool) {
    if p in w.inner then
      var e := w.inner[p];
      e.start <= now && Before(w.log, p, e.start + cfg.window) && CountIs(cfg, w.log, p, e, sized)
    else Before(w.log, p, now)
  }

  /** The entry that a request is charged to keeps the rule, swept or not. */
  ghost predicate Ready(cfg: Config, log: seq<Grant>, p: Peer, e: Entry, now: nat, sized: bool) {
    e.start <= now && Before(log, p, e.start + cfg.window) && CountIs(cfg, log, p, e, sized)
  }

  lemma FoundIsReady(cfg: Config, w: World, r: Request, now: nat, sized: bool)
    requires now <= r.now && Counted(cfg, w, r.peer, now, sized) && cfg.window > 0
    ensures Ready(cfg, w.log, r.peer, Found(Seen(cfg, w.inner, r), r), r.now, sized)
  {
    if r.peer !in Seen(cfg, w.inner, r) {
      NothingAfter(w.log, r.peer, r.now, r.now + cfg.window);
    }
  }

  /** The rule after a request that was charged to `e`. */
  lemma ChargedIsReady(cfg: Config, log: seq<Grant>, p: Peer, e: Entry, n: U32, now: nat, sized: bool)
    requires 0 < cfg.limit < U32_MAX && cfg.window > 0 && n > 0 && Ready(cfg, log, p, e, now, sized)
    requires sized ==> n <= cfg.limit
    ensures var (e2, ok) := Charge(cfg, e, now, n);
            Ready(cfg, if ok then log + [Grant(p, n, now)] else log, p, e2, now, sized)
  {
    hide Granted;
    var (e2, ok) := Charge(cfg, e, now, n);
    if Elapsed(now, e.start) >= cfg.window {
      NothingAfter(log, p, now, now + cfg.window);
    }
    GrantedNext(log, Grant(p, n, now), p, e2.start, e2.start + cfg.window);
  }

  lemma OthersStayCounted(cfg: Config, w: World, r: Request, p: Peer, now: nat, sized: bool)
    requires p != r.peer && now <= r.now && Counted(cfg, w, p, now, sized)
    ensures Counted(cfg, Next(cfg, w, r), p, r.now, sized)
  {
    hide Granted, Charge;
    if p in w.inner {
      GrantedNext(w.log, Grant(r.peer, r.n, r.now), p, w.inner[p].start, w.inner[p].start + cfg.window);
    }
  }

  lemma StepStaysCounted(cfg: Config, w: World, r: Request, p: Peer, now: nat, sized: bool)
    requires 0 < cfg.limit < U32_MAX && cfg.window > 0 && now <= r.now && Counted(cfg, w, p, now, sized)
    requires sized ==> r.n <= cfg.limit
    ensures Counted(cfg, Next(cfg, w, r), p, r.now, sized)
  {
    if p != r.peer {
      OthersStayCounted(cfg, w, r, p, now, sized);
    } else if r.n > 0 {
      FoundIsReady(cfg, w, r, now, sized);
      ChargedIsReady(cfg, w.log, p, Found(Seen(cfg, w.inner, r), r), r.n, r.now, sized);
      hide Charge, Seen, Found, CountIs, Before;
    } else {
      hide CountIs;
    }
  }

  lemma {:induction false} RunStaysCounted(cfg: Config, rs: seq<Request>, p: Peer, sized: bool)
    requires 0 < cfg.limit < U32_MAX && cfg.window > 0 && InOrder(rs) && (sized ==> WellSized(cfg, rs))
    ensures Counted(cfg, Run(cfg, rs), p, if rs == [] then 0 else rs[|rs| - 1].now, sized)
  {
    if rs != [] {
      var before := rs[..|rs| - 1];
      RunStaysCounted(cfg, before, p, sized);
      StepStaysCounted(cfg, Run(cfg, before), rs[|rs| - 1], p, if before == [] then 0 else before[|before| - 1].now,
                       sized);
    }
  }

  /** The peer's bucket is open at this time. */
  predicate Open(cfg: Config, inner: Table, p: Peer, now: nat) {
    p in inner && now < inner[p].start + cfg.window
  }

  lemma AnswerFromCount(cfg: Config, inner: Table, r: Request)
    requires 0 < cfg.limit < U32_MAX && cfg.window > 0 && r.n > 0
    ensures Check(cfg, inner, r).1
            <==> if Open(cfg, inner, r.peer, r.now) then inner[r.peer].count + r.n <= cfg.limit else r.n <= cfg.limit
  {
  }

  /** After any run: inside an open bucket a request is granted exactly when it and what the bucket has granted
      fit the limit, unless the bucket was shut by an opening request over the limit; outside of one, exactly
      when it fits the limit alone. */
  lemma GrantedExactlyWhen(cfg: Config, rs: seq<Request>, r: Request)
    requires 0 < cfg.limit < U32_MAX && cfg.window > 0 && InOrder(rs + [r]) && r.n > 0
    ensures var w := Run(cfg, rs);
            Check(cfg, w.inner, r).1
            <==> if Open(cfg, w.inner, r.peer, r.now)
                 then w.inner[r.peer].count <= cfg.limit
                      && InWindow(w.log, r.peer, w.inner[r.peer].start, cfg.window) + r.n <= cfg.limit
                 else r.n <= cfg.limit
  {
    PrefixInOrder(rs, r);
    RunStaysCounted(cfg, rs, r.peer, false);
    hide Run, Check;
    AnswerFromCount(cfg, Run(cfg, rs).inner, r);
  }

  lemma PrefixInOrder(rs: seq<Request>, r: Request)
    requires InOrder(rs + [r])
    ensures InOrder(rs)
  {
    assert forall i :: 0 <= i < |rs| ==> (rs + [r])[i] == rs[i];
  }

  /** Where no request is for more than the limit no bucket is ever shut. */
  lemma WellSizedGrantedExactlyWhen(cfg: Config, rs: seq<Request>, r: Request)
    requires 0 < cfg.limit < U32_MAX && cfg.window > 0 && InOrder(rs + [r]) && r.n > 0
    requires WellSized(cfg, rs) && r.n <= cfg.limit
    ensures var w := Run(cfg, rs);
            Check(cfg, w.inner, r).1
            <==> Open(cfg, w.inner, r.peer, r.now)
                 ==> InWindow(w.log, r.peer, w.inner[r.peer].start, cfg.window) + r.n <= cfg.limit
  {
    PrefixInOrder(rs, r);
    RunStaysCounted(cfg, rs, r.peer, true);
    hide Run, Check;
    AnswerFromCount(cfg, Run(cfg, rs).inner, r);
  }
}
