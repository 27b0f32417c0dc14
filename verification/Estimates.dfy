/** The numbers a caller is given: `remaining` and `retry_after` mean what they say. */
module Estimates {
  import opened Base
  import opened Store
  import opened Limiters
  import Ideal
  import G = Gcra
  import T = TokenBucket
  import F = FixedWindow
  import SW = SlidingWindow
  import B = BucketCells
  import W = WindowRecency
  import R = Refinement
  import WB = WindowBounds
  import Transparency
  import Admission

  /** What every reachable map satisfies about one user. */
  ghost predicate Sane(c: Config, m: Ideal.Memory, user: string, now: real)
    requires c.quota.Valid()
  {
    if c.algorithm.IsBucket() then SaneCell(c, Ideal.Cell(m, Plain(user)), now)
    else WB.Counters(m, user) && forall i :: Window(user, i) in m ==> i <= F.WindowIndex(now, c.quota.periodSec)
  }

  /** A TAT is at most the burst ahead of the clock; a bucket holds between nothing and its capacity. */
  ghost predicate SaneCell(c: Config, cell: Option<Value>, now: real)
    requires c.quota.Valid()
  {
    && B.CellTyped(c, cell, now)
    && (c.algorithm.GCRA? && cell.Some? ==>
          0.0 < cell.value.f <= R.Horizon(c.quota.burst, c.quota.EmissionInterval(), now))
  }

  lemma CellStaysSane(c: Config, cell: Option<Value>, r: Request, now: real)
    requires c.quota.Valid() && c.algorithm.IsBucket() && SaneCell(c, cell, now) && 0.0 <= now <= r.now
    ensures SaneCell(c, cell, r.now)
    ensures SaneCell(c, R.Written(cell, Ideal.CellServe(c, cell, r)), r.now)
  {
    var e := Ideal.CellServe(c, cell, r);
    hide Quota.EmissionInterval;
    if c.algorithm.GCRA? {
      if r.Limit? { R.GcraAdmission(c.quota, cell, r); }
    } else if e.write.Some? {
      B.WriteOutlives(c, cell, r, e.write.value.0, e.write.value.1);
    }
  }

  lemma SaneWaits(c: Config, m: Ideal.Memory, user: string, now: real, later: real)
    requires c.quota.Valid() && Sane(c, m, user, now) && 0.0 <= now <= later
    ensures Sane(c, m, user, later)
  {
    if c.algorithm.IsBucket() { CellStaysSane(c, Ideal.Cell(m, Plain(user)), Peek(user, later), now); }
    else { W.WindowsAdvance(now, later, c.quota.periodSec); }
  }

  lemma ServeStaysSane(c: Config, m: Ideal.Memory, now: real, r: Request)
    requires c.quota.Valid() && Sane(c, m, r.user, now) && 0.0 <= now <= r.now
    ensures Sane(c, Ideal.Serve(c, m, r).0, r.user, r.now)
  {
    if c.algorithm.IsBucket() {
      CellStaysSane(c, Ideal.Cell(m, Plain(r.user)), r, now);
      hide Ideal.CellServe, SaneCell;
    } else {
      W.WindowsAdvance(now, r.now, c.quota.periodSec);
      hide SW.Decide, F.Report, SW.PreviousProportion;
    }
  }

  /** Requests of other users, whatever their limiters, change nothing for this one. */
  lemma OthersStaySane(c: Config, m: Ideal.Memory, now: real, r: Request, user: string, d: Config)
    requires c.quota.Valid() && d.quota.Valid() && Sane(d, m, user, now) && 0.0 <= now <= r.now && r.user != user
    ensures Sane(d, Ideal.Serve(c, m, r).0, user, r.now)
  {
    SaneWaits(d, m, user, now, r.now);
    WB.OthersKeepCounters(c, m, r, user);
    Admission.OthersKeepTheirCell(c, m, r, user);
    var m' := Ideal.Serve(c, m, r).0;
    hide Ideal.Serve, SaneCell, WB.Counters;
    if !d.algorithm.IsBucket() {
      forall i | Window(user, i) in m' ensures i <= F.WindowIndex(r.now, d.quota.periodSec) {
        assert Ideal.Cell(m', Window(user, i)) == Ideal.Cell(m, Window(user, i));
      }
    }
  }

  lemma {:induction false} RunStaysSane(cs: Configs, m: Ideal.Memory, start: real, rs: seq<Request>, user: string)
    requires ValidConfigs(cs) && ValidRun(cs, start, rs) && UsersKnown(cs, rs) && user in cs && 0.0 <= start
    requires Sane(cs[user], m, user, start)
    ensures Sane(cs[user], Ideal.Final(cs, m, rs), user, EndTime(start, rs)) && start <= EndTime(start, rs)
    decreases |rs|
  {
    hide Sane, Ideal.Serve;
    if rs != [] {
      var r := rs[0];
      if r.user == user { ServeStaysSane(cs[user], m, start, r); }
      else { OthersStaySane(cs[r.user], m, start, r, user, cs[user]); }
      RunStaysSane(cs, Ideal.Serve(cs[r.user], m, r).0, r.now, rs[1..], user);
    }
  }

  // ----- remaining

  /** On one cell: admitted exactly when the cost is at most what a peek reports. */
  lemma CellRemainingIsExact(c: Config, cell: Option<Value>, user: string, cost: nat, now: real)
    requires c.quota.Valid() && c.algorithm.IsBucket() && SaneCell(c, cell, now)
    ensures var e, p := Ideal.CellServe(c, cell, Limit(user, cost, now)), Ideal.CellServe(c, cell, Peek(user, now));
      && p.response.Snapshot? && (e.response.Admits() <==> cost <= p.response.state.remaining)
      && 0 <= p.response.state.remaining <= p.response.state.limit == c.quota.burst
  {
    hide Quota.EmissionInterval, Quota.FillRate, G.Decide, G.Look, T.Refill, T.RefillSec, T.BucketTtl;
    RatesAreReciprocal(c.quota);
    if c.algorithm.GCRA? {
      SaneTat(c.quota, cell, now);
      GcraRemaining(G.LastTat(cell, now), c.quota.EmissionInterval(), c.quota.burst, cost, now);
    } else {
      if cell.Some? { B.RefillMonotone(0, Seconds(now) - cell.value.kv["last_refreshed"], c.quota.FillRate()); }
      B.RefillMonotone(0, 0, c.quota.FillRate());
    }
  }

  lemma GcraRemaining(lastTat: real, ei: real, capacity: nat, cost: nat, now: real)
    requires ei > 0.0 && lastTat <= now + capacity as real * ei
    ensures var v, p := G.Decide(lastTat, ei, capacity, cost, now), G.Look(lastTat, ei, capacity, now);
      (!v.limited <==> cost <= p.remaining) && 0 <= p.remaining <= p.limit == capacity
  {
    var x := now - Max(now, lastTat);
    ProductZero(capacity, ei);
    DivBounds(x, ei, (0 - capacity) as real);
    assert (0 - capacity) as real * ei == -(capacity as real * ei);
    FloorNotPositive(x, ei);
    hide Max;
  }

  /** What a key has in its initial state. */
  function Allowance(c: Config): int { if c.algorithm.IsBucket() then c.quota.burst else c.quota.limit }

  lemma MapRemainingIsExact(c: Config, m: Ideal.Memory, user: string, cost: nat, now: real)
    requires c.quota.Valid() && Sane(c, m, user, now)
    ensures var (p, d) := (Ideal.Serve(c, m, Peek(user, now)).1, Ideal.Serve(c, m, Limit(user, cost, now)).1);
      && p.Snapshot? && (d.Admits() <==> cost <= p.state.remaining)
      && 0 <= p.state.remaining <= p.state.limit == Allowance(c)
  {
    if c.algorithm.IsBucket() {
      CellRemainingIsExact(c, Ideal.Cell(m, Plain(user)), user, cost, now);
      hide Ideal.CellServe, SaneCell;
    } else {
      var p := c.quota.periodSec;
      var before := WB.Count(m, user, F.WindowIndex(now, p) - 1);
      WB.SharePositive(now, p);
      assert before >= 0;
      WB.ShareNotNegative(before, SW.PreviousProportion(Millis(now), p));
      hide SW.PreviousProportion, SW.RetryAfter, F.ResetAfter, SW.Previous, F.WindowIndex;
    }
  }

  /** A store that began empty has served `rs` and is about to serve `next`, and has room for both. */
  ghost predicate Reached(cs: Configs, maxSize: nat, start: real, rs: seq<Request>, next: seq<Request>) {
    && ValidConfigs(cs) && 0 < maxSize && 0.0 <= start
    && ValidRun(cs, start, rs + next) && Transparency.Fits(cs, maxSize, rs + next)
  }

  /** After any run the store answers a further request as the map does, they stay together, and the map is sane. */
  lemma ReachedState(cs: Configs, maxSize: nat, start: real, rs: seq<Request>, next: Request, r: Request)
    requires Reached(cs, maxSize, start, rs, [next])
    requires r.user == next.user && r.now == next.now && (r.Peek? || r == next)
    ensures UsersKnown(cs, rs) && r.user in cs && 0.0 <= r.now
    ensures var room := Transparency.RoomFor(cs, maxSize, rs + [next]);
      var (s, m) := (Final(cs, EmptyStore(maxSize), rs), Ideal.Final(cs, map[], rs));
      var ((s', a), (m', b)) := (Serve(cs[r.user], s, r), Ideal.Serve(cs[r.user], m, r));
      && a == b && Transparency.Simulates(cs, room, s', m', r.now)
      && Sane(cs[r.user], m, r.user, r.now)
  {
    hide Serve, Ideal.Serve, Final, Ideal.Final, Transparency.Simulates, Transparency.Fits, Transparency.RoomFor, Sane;
    Transparency.AfterRun(cs, maxSize, start, rs, [next]);
    assert [next][0] == next;
    var none: Ideal.Memory := map[];
    EmptyIsSane(cs[r.user], r.user, start);
    RunStaysSane(cs, none, start, rs, r.user);
    var room := Transparency.RoomFor(cs, maxSize, rs + [next]);
    var (s, m) := (Final(cs, EmptyStore(maxSize), rs), Ideal.Final(cs, none, rs));
    Transparency.StepSimulates(cs, room, s, m, EndTime(start, rs), r);
    SaneWaits(cs[r.user], m, r.user, EndTime(start, rs), r.now);
  }

  /** Two further requests of a user, one after the other, answered as on the map. */
  lemma ReachedTwice(cs: Configs, maxSize: nat, start: real, rs: seq<Request>, r1: Request, r2: Request)
    requires Reached(cs, maxSize, start, rs, [r1, r2]) && r1.user == r2.user
    ensures ValidConfigs(cs) && UsersKnown(cs, rs) && r1.user in cs && 0.0 <= r1.now <= r2.now
    ensures var (c, s, m) := (cs[r1.user], Final(cs, EmptyStore(maxSize), rs), Ideal.Final(cs, map[], rs));
      var ((s1, a), (m1, b)) := (Serve(c, s, r1), Ideal.Serve(c, m, r1));
      a == b && Serve(c, s1, r2).1 == Ideal.Serve(c, m1, r2).1 && Sane(c, m, r1.user, r1.now)
  {
    hide Serve, Ideal.Serve, Final, Ideal.Final, Transparency.Simulates, Transparency.Fits, Transparency.RoomFor, Sane;
    Transparency.AfterRun(cs, maxSize, start, rs, [r1, r2]);
    assert [r1, r2][0] == r1 && [r1, r2][1] == r2 && [r1, r2][1..] == [r2];
    var c, none: Ideal.Memory := cs[r1.user], map[];
    EmptyIsSane(c, r1.user, start);
    RunStaysSane(cs, none, start, rs, r1.user);
    var room := Transparency.RoomFor(cs, maxSize, rs + [r1, r2]);
    Transparency.CoversEach(cs, room, [r1, r2], 0);
    Transparency.CoversEach(cs, room, [r1, r2], 1);
    var (s, m) := (Final(cs, EmptyStore(maxSize), rs), Ideal.Final(cs, none, rs));
    Transparency.StepSimulates(cs, room, s, m, EndTime(start, rs), r1);
    Transparency.StepSimulates(cs, room, Serve(c, s, r1).0, Ideal.Serve(c, m, r1).0, r1.now, r2);
    SaneWaits(c, m, r1.user, EndTime(start, rs), r1.now);
  }

  lemma EmptyIsSane(c: Config, user: string, now: real)
    requires c.quota.Valid()
    ensures Sane(c, map[], user, now)
  {
  }

  /** Main result: after any run, a request is admitted exactly when its cost is at most what a peek at that instant
      reports, and that lies between nothing and the allowance. */
  lemma RemainingIsExact(cs: Configs, maxSize: nat, start: real, rs: seq<Request>, user: string, cost: nat, now: real)
    requires Reached(cs, maxSize, start, rs, [Limit(user, cost, now)]) && user in cs
    ensures UsersKnown(cs, rs)
    ensures var s := Final(cs, EmptyStore(maxSize), rs);
      var (p, d) := (Serve(cs[user], s, Peek(user, now)).1, Serve(cs[user], s, Limit(user, cost, now)).1);
      && p.Snapshot? && (d.Admits() <==> cost <= p.state.remaining)
      && 0 <= p.state.remaining <= p.state.limit == Allowance(cs[user])
  {
    hide Serve, Ideal.Serve, Final, Ideal.Final, Transparency.Simulates, Transparency.RoomFor, Sane, Reached;
    var r := Limit(user, cost, now);
    ReachedState(cs, maxSize, start, rs, r, Peek(user, now));
    ReachedState(cs, maxSize, start, rs, r, r);
    QuotaOf(cs, maxSize, start, rs, [r], user);
    MapRemainingIsExact(cs[user], Ideal.Final(cs, map[], rs), user, cost, now);
  }

  lemma QuotaOf(cs: Configs, maxSize: nat, start: real, rs: seq<Request>, next: seq<Request>, user: string)
    requires Reached(cs, maxSize, start, rs, next) && user in cs
    ensures ValidConfigs(cs) && cs[user].quota.Valid()
  {
  }

  // ----- a decision's report

  lemma FloorDivShift(x: real, ei: real, n: int)
    requires ei > 0.0
    ensures ((x - n as real * ei) / ei).Floor == (x / ei).Floor - n
  {
    var y := x / ei;
    DivBounds(x, ei, y);
    DivBounds(x - n as real * ei, ei, y - n as real);
    assert (y - n as real) * ei == y * ei - n as real * ei;
    FloorShift(y, 0 - n);
  }

  /** GCRA's arithmetic: a decision reports what a look at the TAT it leaves reports. */
  lemma LookAfterDecide(lastTat: real, ei: real, capacity: nat, cost: nat, now: real)
    requires ei > 0.0 && lastTat <= now + capacity as real * ei
    ensures var v := G.Decide(lastTat, ei, capacity, cost, now);
      var p := G.Look(if v.newTat.Some? then v.newTat.value else lastTat, ei, capacity, now);
      && v.remaining == p.remaining && v.resetAfter == p.resetAfter && p.limit == capacity
      && (!v.limited ==> v.retryAfter == 0.0) && (v.newTat.Some? ==> v.newTat.value > now)
  {
    var x := now - Max(now, lastTat);
    var before, paid := (x / ei).Floor, cost as real * ei;
    DivBounds(x, ei, (0 - capacity) as real);
    assert (0 - capacity) as real * ei == -(capacity as real * ei);
    FloorNotPositive(x, ei);
    FloorDivShift(x, ei, cost);
    ProductZero(cost, ei);
  }

  lemma ProductZero(cost: nat, ei: real)
    requires ei > 0.0
    ensures cost as real * ei >= 0.0 && (cost as real * ei == 0.0 ==> cost == 0)
  {
    MulMonotone(0.0, cost as real, ei);
    if cost > 0 { MulStrict(0.0, cost as real, ei); }
  }

  lemma FloorNotPositive(x: real, ei: real)
    requires x <= 0.0 && ei > 0.0
    ensures (x / ei).Floor <= 0 && (x == 0.0 ==> (x / ei).Floor == 0)
  {
    DivBounds(x, ei, 0.0);
  }

  /** GCRA: the report of a decision is what a peek sees once its TAT, if any, is stored. */
  lemma GcraReports(q: Quota, cell: Option<Value>, user: string, cost: nat, now: real)
    requires q.Valid() && SaneCell(Config(GCRA, q), cell, now) && 0.0 <= now
    ensures var e := Ideal.GcraCell(q, cell, Limit(user, cost, now));
      var p := Ideal.GcraCell(q, R.Written(cell, e), Peek(user, now)).response;
      && e.response.Decision? && p.Snapshot? && (!e.response.limited ==> e.response.state.retryAfter == 0.0)
      && e.response.state.(retryAfter := 0.0) == p.state.(retryAfter := 0.0)
  {
    RatesAreReciprocal(q);
    var ei := q.EmissionInterval();
    hide Quota.EmissionInterval;
    ProductZero(q.burst, ei);
    LookAfterDecide(G.LastTat(cell, now), ei, q.burst, cost, now);
    hide G.Decide, G.Look;
  }

  /** The buckets: likewise. */
  lemma BucketReports(c: Config, cell: Option<Value>, user: string, cost: nat, now: real)
    requires c.quota.Valid() && (c.algorithm.TOKEN_BUCKET? || c.algorithm.LEAKING_BUCKET?) && SaneCell(c, cell, now)
    ensures var e := Ideal.CellServe(c, cell, Limit(user, cost, now));
      var p := Ideal.CellServe(c, R.Written(cell, e), Peek(user, now)).response;
      && e.response.Decision? && p.Snapshot? && (!e.response.limited ==> e.response.state.retryAfter == 0.0)
      && e.response.state.(retryAfter := 0.0) == p.state.(retryAfter := 0.0)
  {
    if c.algorithm.TOKEN_BUCKET? { TokenReports(c.quota, cell, user, cost, now); }
    else { LeakReports(c.quota, cell, user, cost, now); }
    hide Ideal.TokenCell, Ideal.LeakCell, SaneCell, R.Written;
  }

  lemma TokenReports(q: Quota, cell: Option<Value>, user: string, cost: nat, now: real)
    requires q.Valid()
    ensures var e := Ideal.TokenCell(q, cell, Limit(user, cost, now));
      var p := Ideal.TokenCell(q, R.Written(cell, e), Peek(user, now)).response;
      && e.response.Decision? && p.Snapshot? && (!e.response.limited ==> e.response.state.retryAfter == 0.0)
      && e.response.state.(retryAfter := 0.0) == p.state.(retryAfter := 0.0)
  {
    hide Quota.FillRate, T.Refill, T.BucketTtl;
    RatesAreReciprocal(q);
    B.RefillMonotone(0, 0, q.FillRate());
    DivBounds(0.0, q.FillRate(), 0.0);
  }

  lemma LeakReports(q: Quota, cell: Option<Value>, user: string, cost: nat, now: real)
    requires q.Valid() && SaneCell(Config(LEAKING_BUCKET, q), cell, now)
    ensures var e := Ideal.LeakCell(q, cell, Limit(user, cost, now));
      var p := Ideal.LeakCell(q, R.Written(cell, e), Peek(user, now)).response;
      && e.response.Decision? && p.Snapshot? && (!e.response.limited ==> e.response.state.retryAfter == 0.0)
      && e.response.state.(retryAfter := 0.0) == p.state.(retryAfter := 0.0)
  {
    hide Quota.FillRate, T.Refill, T.BucketTtl;
    RatesAreReciprocal(q);
    B.RefillMonotone(0, 0, q.FillRate());
    DivBounds(0.0, q.FillRate(), 0.0);
  }

  /** What one decision does to the snapshots around it; `begun` says whether its window had a counter before. */
  ghost predicate Accounts(c: Config, before: Response, d: Response, after: Response, cost: nat, begun: bool) {
    && before.Snapshot? && d.Decision? && after.Snapshot?
    && d.state.limit == before.state.limit == after.state.limit
    && d.state.resetAfter == after.state.resetAfter
    && (d.Admits() ==>
          d.state.retryAfter == 0.0 && d.state.remaining == after.state.remaining == before.state.remaining - cost)
    && (d.limited ==> AccountsForDenial(c, before.state, d.state, after.state, begun))
  }

  /** A denial costs a bucket nothing. A window limiter reports that nothing is left: the fixed window because it counts
      the denied cost; the sliding window whether or not, and if it does not count it, what was left still is. */
  ghost predicate AccountsForDenial(c: Config, before: RateLimitState, d: RateLimitState, after: RateLimitState,
                                    begun: bool)
  {
    if c.algorithm.IsBucket() then after == before && d.remaining == after.remaining
    else d.remaining == 0 && after.remaining == if c.algorithm.SLIDING_WINDOW? && begun then before.remaining else 0
  }

  lemma GcraAccounts(q: Quota, cell: Option<Value>, user: string, cost: nat, now: real)
    requires q.Valid() && SaneCell(Config(GCRA, q), cell, now) && 0.0 <= now
    ensures var e := Ideal.GcraCell(q, cell, Limit(user, cost, now));
      var p0 := Ideal.GcraCell(q, cell, Peek(user, now)).response;
      var p := Ideal.GcraCell(q, R.Written(cell, e), Peek(user, now)).response;
      forall begun :: Accounts(Config(GCRA, q), p0, e.response, p, cost, begun)
  {
    hide G.Decide, G.Look, Quota.EmissionInterval, R.Horizon;
    GcraReports(q, cell, user, cost, now);
    RatesAreReciprocal(q);
    SaneTat(q, cell, now);
    LookThenDecide(G.LastTat(cell, now), q.EmissionInterval(), q.burst, cost, now);
    hide SaneCell;
  }

  lemma SaneTat(q: Quota, cell: Option<Value>, now: real)
    requires q.Valid() && SaneCell(Config(GCRA, q), cell, now)
    ensures G.LastTat(cell, now) <= now + q.burst as real * q.EmissionInterval()
  {
    RatesAreReciprocal(q);
    ProductZero(q.burst, q.EmissionInterval());
    hide Quota.EmissionInterval;
  }

  lemma LookThenDecide(lastTat: real, ei: real, capacity: nat, cost: nat, now: real)
    requires ei > 0.0 && lastTat <= now + capacity as real * ei
    ensures var v, p := G.Decide(lastTat, ei, capacity, cost, now), G.Look(lastTat, ei, capacity, now);
      && p.limit == capacity && (!v.limited ==> v.remaining == p.remaining - cost)
      && (v.limited ==> v.newTat.None?)
  {
    var x := now - Max(now, lastTat);
    DivBounds(x, ei, (0 - capacity) as real);
    assert (0 - capacity) as real * ei == -(capacity as real * ei);
    hide Max;
  }

  lemma BucketAccounts(c: Config, cell: Option<Value>, user: string, cost: nat, now: real)
    requires c.quota.Valid() && (c.algorithm.TOKEN_BUCKET? || c.algorithm.LEAKING_BUCKET?) && SaneCell(c, cell, now)
    ensures var e := Ideal.CellServe(c, cell, Limit(user, cost, now));
      var p0 := Ideal.CellServe(c, cell, Peek(user, now)).response;
      var p := Ideal.CellServe(c, R.Written(cell, e), Peek(user, now)).response;
      forall begun :: Accounts(c, p0, e.response, p, cost, begun)
  {
    hide Quota.FillRate, T.Refill, T.RefillSec, T.BucketTtl;
    BucketReports(c, cell, user, cost, now);
    RatesAreReciprocal(c.quota);
  }

  lemma MapAccounts(c: Config, m: Ideal.Memory, user: string, cost: nat, now: real)
    requires c.quota.Valid() && Sane(c, m, user, now) && 0.0 <= now
    ensures var (m1, d) := Ideal.Serve(c, m, Limit(user, cost, now));
      var (before, after) := (Ideal.Serve(c, m, Peek(user, now)).1, Ideal.Serve(c, m1, Peek(user, now)).1);
      Accounts(c, before, d, after, cost, F.CurrentKey(user, now, c.quota.periodSec) in m)
  {
    if c.algorithm.IsBucket() {
      var cell := Ideal.Cell(m, Plain(user));
      if c.algorithm.GCRA? { GcraAccounts(c.quota, cell, user, cost, now); }
      else { BucketAccounts(c, cell, user, cost, now); }
      var e := Ideal.CellServe(c, cell, Limit(user, cost, now));
      assert Ideal.Cell(Ideal.Serve(c, m, Limit(user, cost, now)).0, Plain(user)) == R.Written(cell, e);
      hide Ideal.GcraCell, Ideal.TokenCell, Ideal.LeakCell, SaneCell, Accounts;
    } else {
      hide SW.PreviousProportion, SW.RetryAfter, F.ResetAfter, SW.Previous, F.WindowIndex;
    }
  }

  /** On a reached store the current window has a counter exactly when it has one on the map. */
  lemma BegunOnBoth(cs: Configs, maxSize: nat, start: real, rs: seq<Request>, r: Request)
    requires Reached(cs, maxSize, start, rs, [r]) && r.user in cs
    ensures UsersKnown(cs, rs) && cs[r.user].quota.Valid()
    ensures var key := F.CurrentKey(r.user, r.now, cs[r.user].quota.periodSec);
      !cs[r.user].algorithm.IsBucket() ==>
        (key in Final(cs, EmptyStore(maxSize), rs).entries <==> key in Ideal.Final(cs, map[], rs))
  {
    hide Final, Ideal.Final, Transparency.Simulates, Transparency.Fits, Transparency.RoomFor, F.WindowIndex;
    Transparency.AfterRun(cs, maxSize, start, rs, [r]);
    assert [r][0] == r;
    var room := Transparency.RoomFor(cs, maxSize, rs + [r]);
    var (s, m) := (Final(cs, EmptyStore(maxSize), rs), Ideal.Final(cs, map[], rs));
    Transparency.SimulationWaits(cs, room, s, m, EndTime(start, rs), r.now);
    if !cs[r.user].algorithm.IsBucket() {
      Transparency.ReadsTheMap(cs, room, s, m, r.now, F.CurrentKey(r.user, r.now, cs[r.user].quota.periodSec));
    }
  }

  /** Main result, after any run: an admission reports what a peek at that instant then shows and takes exactly its cost
      off `remaining`. A denial takes nothing off a bucket and reports it as it is; a fixed window's leaves nothing. A
      sliding window's denial always reports nothing left, but unless it was the first request of its window the next
      peek shows what was left before. */
  lemma DecisionsAccount(cs: Configs, maxSize: nat, start: real, rs: seq<Request>, user: string, cost: nat, now: real)
    requires Reached(cs, maxSize, start, rs, [Limit(user, cost, now)]) && user in cs
    ensures UsersKnown(cs, rs) && cs[user].quota.Valid()
    ensures var (c, s) := (cs[user], Final(cs, EmptyStore(maxSize), rs));
      var (s1, d) := Serve(c, s, Limit(user, cost, now));
      var (before, after) := (Serve(c, s, Peek(user, now)).1, Serve(c, s1, Peek(user, now)).1);
      Accounts(c, before, d, after, cost, F.CurrentKey(user, now, c.quota.periodSec) in s.entries)
  {
    hide Serve, Ideal.Serve, Final, Ideal.Final, Transparency.Simulates, Transparency.RoomFor, Sane, Accounts, Reached;
    hide F.WindowIndex;
    var r := Limit(user, cost, now);
    ReachedState(cs, maxSize, start, rs, r, Peek(user, now));
    ReachedState(cs, maxSize, start, rs, r, r);
    QuotaOf(cs, maxSize, start, rs, [r], user);
    BegunOnBoth(cs, maxSize, start, rs, r);
    var (s, m) := (Final(cs, EmptyStore(maxSize), rs), Ideal.Final(cs, map[], rs));
    Transparency.StepSimulates(cs, Transparency.RoomFor(cs, maxSize, rs + [r]), Serve(cs[user], s, r).0,
                               Ideal.Serve(cs[user], m, r).0, now, Peek(user, now));
    MapAccounts(cs[user], m, user, cost, now);
    if cs[user].algorithm.IsBucket() {
      BegunIsForWindows(cs[user], Serve(cs[user], s, Peek(user, now)).1, Serve(cs[user], s, r).1,
                        Serve(cs[user], Serve(cs[user], s, r).0, Peek(user, now)).1, cost);
    }
  }

  lemma BegunIsForWindows(c: Config, before: Response, d: Response, after: Response, cost: nat)
    requires c.algorithm.IsBucket()
    ensures forall x, y :: Accounts(c, before, d, after, cost, x) ==> Accounts(c, before, d, after, cost, y)
  {
  }

  /** A denial's `remaining` is the next peek's, for every limiter, unless it is a sliding window's that had a counter
      and something left. */
  lemma DenialReportsNextPeek(cs: Configs, maxSize: nat, start: real, rs: seq<Request>, user: string, cost: nat,
                              now: real)
    requires Reached(cs, maxSize, start, rs, [Limit(user, cost, now)]) && user in cs
    ensures UsersKnown(cs, rs) && cs[user].quota.Valid()
    ensures var (c, s) := (cs[user], Final(cs, EmptyStore(maxSize), rs));
      var (s1, d) := Serve(c, s, Limit(user, cost, now));
      var (before, after) := (Serve(c, s, Peek(user, now)).1, Serve(c, s1, Peek(user, now)).1);
      var begun := F.CurrentKey(user, now, c.quota.periodSec) in s.entries;
      && before.Snapshot? && d.Decision? && after.Snapshot?
      && (d.limited ==>
            (d.state.remaining == after.state.remaining <==>
             !c.algorithm.SLIDING_WINDOW? || !begun || before.state.remaining == 0))
  {
    DecisionsAccount(cs, maxSize, start, rs, user, cost, now);
    hide Serve, Final, Reached, F.WindowIndex;
  }

  /** Seven of ten admitted and five denied at the same instant: the denial reports nothing left, and three are. */
  lemma DenialUnderreports(user: string)
    ensures var cs: Configs := map[user := Config(SLIDING_WINDOW, Quota(10, 1, 10))];
      var rs := [Limit(user, 7, 0.0)];
      && ValidConfigs(cs) && UsersKnown(cs, rs)
      && var m := Ideal.Final(cs, map[], rs);
         var (m1, d) := Ideal.Serve(cs[user], m, Limit(user, 5, 0.0));
         var p := Ideal.Serve(cs[user], m1, Peek(user, 0.0)).1;
         && d.Decision? && d.limited && d.state.remaining == 0 && p.Snapshot? && p.state.remaining == 3
  {
    var cs: Configs := map[user := Config(SLIDING_WINDOW, Quota(10, 1, 10))];
    var none: Ideal.Memory := map[];
    var r := Limit(user, 7, 0.0);
    assert [r][1..] == [] && Seconds(0.0) == 0 && Millis(0.0) == 0;
    assert SW.PreviousProportion(0, 1) == 1.0 && SW.Previous(0, 1.0) == 0;
    var m := Ideal.Serve(cs[user], none, r).0;
    assert m == map[Window(user, 0) := IntVal(7)];
    assert Ideal.Final(cs, m, []) == m;
  }
}
