/** `retry_after` and `reset_after` against the clock: what waiting that long does for a key nobody else uses. */
module RetryHints {
  import opened Base
  import opened Store
  import opened Limiters
  import Ideal
  import G = Gcra
  import T = TokenBucket
  import L = LeakingBucket
  import F = FixedWindow
  import SW = SlidingWindow
  import B = BucketCells
  import W = WindowRecency
  import R = Refinement
  import WB = WindowBounds
  import M = Mirror
  import opened Estimates

  /** Every denial of every limiter, from whatever store, asks for a positive wait. */
  lemma DenialsAskToWait(c: Config, s: Store, r: Request)
    requires c.quota.Valid() && r.Limit?
    ensures var a := Serve(c, s, r).1; a.Failed? || (a.Decision? && (a.limited ==> a.state.retryAfter > 0.0))
  {
    hide Get, HGetAll, Set, HSet, Expire, ClientPut;
    var q := c.quota;
    RatesAreReciprocal(q);
    match c.algorithm
    case GCRA =>
      forall lastTat { GcraWaits(lastTat, q.EmissionInterval(), q.burst, r.cost, r.now); }
      hide G.Decide, Quota.EmissionInterval;
    case SLIDING_WINDOW =>
      hide F.CountOf, SW.PreviousProportion;
      forall previous, current { SlidingWaits(previous, current, r.cost, r.now, q.periodSec, q.limit); }
      hide SW.Decide, SW.Previous;
    case FIXED_WINDOW =>
    case _ =>
      forall tokens { RefillWaits(q.FillRate(), r.cost, tokens); }
      hide T.Tokens, L.Level, T.RefillSec, Quota.FillRate, T.BucketTtl;
  }

  lemma GcraWaits(lastTat: real, ei: real, capacity: int, cost: int, now: real)
    requires ei > 0.0
    ensures var v := G.Decide(lastTat, ei, capacity, cost, now); v.limited ==> v.retryAfter > 0.0
  {
    var x := now - Max(now, lastTat);
    DivBounds(x, ei, (cost - capacity) as real);
    assert (cost - capacity) as real * ei == -((capacity - cost) as real * ei);
  }

  lemma RefillWaits(rate: real, upper: int, remaining: int)
    requires rate > 0.0
    ensures remaining < upper ==> T.RefillSec(rate, upper, remaining) > 0
  {
    if remaining < upper { DivBounds((upper - remaining) as real, rate, 0.0); }
  }

  lemma SlidingWaits(previous: int, current: int, cost: nat, now: real, period: int, limit: int)
    requires period >= 1
    ensures var share := SW.PreviousProportion(Millis(now), period);
      var (limited, _, wait) := SW.Decide(previous, current, cost, share, period, limit);
      limited ==> wait > 0.0
  {
    WB.SharePositive(now, period);
    hide SW.PreviousProportion;
    var share := SW.PreviousProportion(Millis(now), period) * period as real;
    MulStrict(0.0, period as real, SW.PreviousProportion(Millis(now), period));
    if 0 < cost <= previous {
      MulStrict(0.0, cost as real, share);
      DivBounds(share * cost as real, previous as real, 0.0);
    }
  }

  // ----- GCRA

  lemma GcraRetryOnMap(c: Config, m: Ideal.Memory, user: string, cost: nat, now: real, t: real)
    requires c.quota.Valid() && c.algorithm.GCRA? && Sane(c, m, user, now) && 0.0 <= now <= t
    requires !Ideal.Serve(c, m, Limit(user, cost, now)).1.Admits()
    ensures var (m1, a) := Ideal.Serve(c, m, Limit(user, cost, now));
      Ideal.Serve(c, m1, Limit(user, cost, t)).1.Admits() <==> cost <= c.quota.burst && t >= now + a.state.retryAfter
  {
    hide Quota.EmissionInterval, Ideal.GcraCell, R.NewTat, R.Horizon, Max, G.LastTat;
    var q, cell := c.quota, Ideal.Cell(m, Plain(user));
    TatIsPositive(c, m, user, now);
    hide Sane;
    RatesAreReciprocal(q);
    R.GcraAdmission(q, cell, Limit(user, cost, now));
    R.GcraAdmission(q, cell, Limit(user, cost, t));
    GcraHint(q, cell, user, cost, now);
    TatWaits(q.EmissionInterval(), cell, q.burst, cost, now, t);
  }

  lemma TatIsPositive(c: Config, m: Ideal.Memory, user: string, now: real)
    requires c.quota.Valid() && c.algorithm.GCRA? && Sane(c, m, user, now)
    ensures var cell := Ideal.Cell(m, Plain(user)); cell.Some? ==> cell.value.FloatVal? && cell.value.f > 0.0
  {
    hide Quota.EmissionInterval;
  }

  lemma TatWaits(ei: real, cell: Option<Value>, burst: int, cost: nat, now: real, t: real)
    requires ei > 0.0 && now <= t && R.NewTat(cell, cost, ei, now) > R.Horizon(burst, ei, now)
    requires cell.Some? ==> cell.value.FloatVal? && cell.value.f > 0.0
    ensures R.NewTat(cell, cost, ei, t) <= R.Horizon(burst, ei, t) <==>
      cost <= burst && t >= Max(now, G.LastTat(cell, now)) - (burst - cost) as real * ei
  {
    assert R.NewTat(cell, cost, ei, now) == Max(now, G.LastTat(cell, now)) + cost as real * ei;
    assert R.NewTat(cell, cost, ei, t) == Max(t, G.LastTat(cell, t)) + cost as real * ei;
    assert R.Horizon(burst, ei, now) == now + burst as real * ei;
    assert R.Horizon(burst, ei, t) == t + burst as real * ei;
    assert G.LastTat(cell, t) == G.LastTat(cell, now) || (G.LastTat(cell, now) == now && G.LastTat(cell, t) == t);
    hide *;
    ScaleOrder(cost as real, burst as real, ei);
    SubMulInt(burst, cost, ei);
    CatchUp(now, t, G.LastTat(cell, now), G.LastTat(cell, t), cost as real * ei, burst as real * ei,
            (burst - cost) as real * ei, R.NewTat(cell, cost, ei, t), R.Horizon(burst, ei, t), cost <= burst);
  }

  /** The TAT and the clock, once the products are named. */
  lemma CatchUp(now: real, t: real, tat: real, tat': real, need: real, allow: real, spare: real, newTat: real,
                horizon: real, fits: bool)
    requires now <= t && Max(now, tat) + need > now + allow
    requires tat' == tat || (tat == now && tat' == t)
    requires spare == allow - need && (fits <==> need <= allow) && newTat == Max(t, tat') + need && horizon == t + allow
    ensures newTat <= horizon <==> fits && t >= Max(now, tat) - spare
  {
  }

  lemma GcraHint(q: Quota, cell: Option<Value>, user: string, cost: nat, now: real)
    requires q.Valid() && !Ideal.GcraCell(q, cell, Limit(user, cost, now)).response.Admits()
    ensures Ideal.GcraCell(q, cell, Limit(user, cost, now)).write.None?
    ensures var a, ei := Ideal.GcraCell(q, cell, Limit(user, cost, now)).response, q.EmissionInterval();
      a.Decision? && now + a.state.retryAfter == Max(now, G.LastTat(cell, now)) - (q.burst - cost) as real * ei
  {
    RatesAreReciprocal(q);
    R.GcraAdmission(q, cell, Limit(user, cost, now));
    var ei := q.EmissionInterval();
    hide Quota.EmissionInterval;
    assert (q.burst - cost) as real * ei == q.burst as real * ei - cost as real * ei;
  }

  /** Main result: after any run, GCRA's hint is the least wait that admits, and no wait admits a cost over the
      burst. */
  lemma GcraRetryIsLeast(cs: Configs, maxSize: nat, start: real, rs: seq<Request>, user: string, cost: nat, now: real,
                         t: real)
    requires Reached(cs, maxSize, start, rs, [Limit(user, cost, now), Limit(user, cost, t)])
    requires user in cs && cs[user].algorithm.GCRA?
    ensures UsersKnown(cs, rs)
    ensures var c := cs[user];
      var (s1, a) := Serve(c, Final(cs, EmptyStore(maxSize), rs), Limit(user, cost, now));
      && a.Decision?
      && (a.limited ==>
            (Serve(c, s1, Limit(user, cost, t)).1.Admits() <==>
             cost <= c.quota.burst && t >= now + a.state.retryAfter))
  {
    hide Serve, Ideal.Serve, Final, Ideal.Final, Sane, Reached;
    ReachedTwice(cs, maxSize, start, rs, Limit(user, cost, now), Limit(user, cost, t));
    var m := Ideal.Final(cs, map[], rs);
    MapDecides(cs[user], m, user, cost, now);
    if !Ideal.Serve(cs[user], m, Limit(user, cost, now)).1.Admits() { GcraRetryOnMap(cs[user], m, user, cost, now, t); }
  }

  lemma MapDecides(c: Config, m: Ideal.Memory, user: string, cost: nat, now: real)
    requires c.quota.Valid()
    ensures Ideal.Serve(c, m, Limit(user, cost, now)).1.Decision?
  {
    hide G.Decide, T.Tokens, L.Level, SW.Decide, F.ResetAfter;
  }

  // ----- token and leaking bucket

  /** The least whole seconds whose refill covers the tokens missing. */
  ghost predicate LeastSeconds(seconds: real, rate: real, missing: int) {
    exists h: nat :: seconds == h as real && T.Refill(h, rate) >= missing && LessIsTooLittle(h, rate, missing)
  }

  ghost predicate LessIsTooLittle(h: nat, rate: real, missing: int) {
    forall d :: 0 <= d < h ==> T.Refill(d, rate) < missing
  }

  /** Whatever the store holds, and for costs over the burst too: a bucket's reset_after is the least whole seconds that
      refill what is missing from the burst; a denial's hint, from the cost. */
  lemma BucketHintsAreLeast(c: Config, s: Store, r: Request)
    requires c.quota.Valid() && (c.algorithm.TOKEN_BUCKET? || c.algorithm.LEAKING_BUCKET?)
    ensures var (a, rate) := (Serve(c, s, r).1, c.quota.FillRate());
      !a.Failed? ==>
        && LeastSeconds(a.state.resetAfter, rate, c.quota.burst - a.state.remaining)
        && (if r.Limit? && a.Decision? && a.limited
            then LeastSeconds(a.state.retryAfter, rate, r.cost - a.state.remaining)
            else a.state.retryAfter == 0.0)
  {
    hide HGetAll, HSet, Expire, Quota.FillRate, T.Refill, T.BucketTtl, LeastSeconds;
    var (q, rate) := (c.quota, c.quota.FillRate());
    RatesAreReciprocal(q);
    forall upper, remaining | remaining <= upper
      ensures LeastSeconds(T.RefillSec(rate, upper, remaining) as real, rate, upper - remaining)
    {
      RefillSecIsLeast(rate, upper, remaining);
    }
    hide T.RefillSec;
    var a := Serve(c, s, r).1;
    if r.Peek? && a.Snapshot? { RefillSecIsLeast(rate, q.burst, a.state.remaining); }
  }

  lemma RefillSecIsLeast(rate: real, upper: int, remaining: int)
    requires rate > 0.0 && remaining <= upper
    ensures LeastSeconds(T.RefillSec(rate, upper, remaining) as real, rate, upper - remaining)
    ensures T.RefillSec(rate, upper, remaining) == Ceil((upper - remaining) as real / rate)
  {
    var missing := upper - remaining;
    var h := Ceil(missing as real / rate);
    DivBounds(missing as real, rate, 0.0);
    EnoughSeconds(missing as real, rate, h, h);
    RefillIsFloor(h, rate, missing);
    forall d | 0 <= d < h ensures T.Refill(d, rate) < missing {
      DivBounds(missing as real, rate, d as real);
      RefillIsFloor(d, rate, missing);
    }
    assert LessIsTooLittle(h, rate, missing);
    hide T.Refill, LessIsTooLittle;
  }

  lemma RefillIsFloor(d: int, rate: real, missing: int)
    ensures T.Refill(d, rate) >= missing <==> d as real * rate >= missing as real
  {
  }

  /** The hint against the refill: enough seconds bring the cost, and no fewer than the hint less a token's time do. */
  lemma RefillTime(tok: int, e0: int, d: int, rate: real, cost: nat)
    requires rate > 0.0 && tok + T.Refill(e0, rate) < cost
    ensures var h := T.RefillSec(rate, cost, tok + T.Refill(e0, rate));
      && (d >= h ==> tok + T.Refill(e0 + d, rate) >= cost)
      && (tok + T.Refill(e0 + d, rate) >= cost ==> d >= h - Ceil(1.0 / rate))
  {
    var n := tok + T.Refill(e0, rate);
    var missing := (cost - n) as real;
    var h := T.RefillSec(rate, cost, n);
    SplitProduct(e0, d, rate);
    if d >= h { EnoughSeconds(missing, rate, h, d); }
    if tok + T.Refill(e0 + d, rate) >= cost { SecondsNeeded(missing, rate, h, d, d as real * rate); }
  }

  lemma SplitProduct(e0: int, d: int, rate: real)
    ensures (e0 + d) as real * rate == e0 as real * rate + d as real * rate
    ensures T.Refill(e0 + d, rate) >= T.Refill(e0, rate) + (d as real * rate).Floor
    ensures T.Refill(e0 + d, rate) as real < T.Refill(e0, rate) as real + 1.0 + d as real * rate
  {
    assert (e0 + d) as real * rate == e0 as real * rate + d as real * rate;
  }

  lemma EnoughSeconds(missing: real, rate: real, h: int, d: int)
    requires rate > 0.0 && h == Ceil(missing / rate) && d >= h
    ensures d as real * rate >= missing
  {
    DivBounds(missing, rate, h as real);
    MulMonotone(h as real, d as real, rate);
  }

  lemma SecondsNeeded(missing: real, rate: real, h: int, d: int, gained: real)
    requires rate > 0.0 && h == Ceil(missing / rate) && gained == d as real * rate && missing - 1.0 < gained
    ensures d >= h - Ceil(1.0 / rate)
  {
    DivBounds(missing, rate, d as real + 1.0 / rate);
    DivBounds(1.0, rate, 1.0 / rate);
    assert (d as real + 1.0 / rate) * rate == gained + (1.0 / rate) * rate;
  }

  lemma BucketRetryOnMap(c: Config, m: Ideal.Memory, user: string, cost: nat, now: real, t: real)
    requires c.quota.Valid() && (c.algorithm.TOKEN_BUCKET? || c.algorithm.LEAKING_BUCKET?)
    requires Sane(c, m, user, now) && 0.0 <= now <= t && cost <= c.quota.burst
    requires !Ideal.Serve(c, m, Limit(user, cost, now)).1.Admits()
    ensures var (m1, a) := Ideal.Serve(c, m, Limit(user, cost, now));
      var (b, waited) := (Ideal.Serve(c, m1, Limit(user, cost, t)).1, (Seconds(t) - Seconds(now)) as real);
      && a.Decision?
      && (waited >= a.state.retryAfter ==> b.Admits())
      && (b.Admits() ==> waited >= a.state.retryAfter - Ceil(c.quota.EmissionInterval()) as real)
  {
    var q, cell := c.quota, Ideal.Cell(m, Plain(user));
    if c.algorithm.TOKEN_BUCKET? {
      TokenHint(q, cell, user, cost, now, t);
      hide Ideal.TokenCell, Quota.FillRate, Quota.EmissionInterval;
    } else {
      var v := if cell.None? then None else Some(M.MirrorValue(q.burst, cell.value));
      assert cell.Some? ==> cell.value.kv == T.Bucket(cell.value.kv["tokens"], cell.value.kv["last_refreshed"]);
      assert M.MirrorsCell(q, v, cell, now) && M.MirrorsCell(q, v, cell, t);
      M.CellsMirror(q, v, cell, Limit(user, cost, now));
      M.CellsMirror(q, v, cell, Limit(user, cost, t));
      TokenHint(q, v, user, cost, now, t);
      hide Ideal.TokenCell, Ideal.LeakCell, Quota.FillRate, Quota.EmissionInterval;
    }
  }

  /** Main result: after any run, waiting out a bucket's hint on the second clock suffices, and the hint exceeds the
      least sufficient wait by at most a token's time rounded up. */
  lemma BucketRetrySuffices(cs: Configs, maxSize: nat, start: real, rs: seq<Request>, user: string, cost: nat,
                            now: real, t: real)
    requires Reached(cs, maxSize, start, rs, [Limit(user, cost, now), Limit(user, cost, t)]) && user in cs
    requires (cs[user].algorithm.TOKEN_BUCKET? || cs[user].algorithm.LEAKING_BUCKET?) && cost <= cs[user].quota.burst
    ensures UsersKnown(cs, rs) && cs[user].quota.Valid()
    ensures var c := cs[user];
      var (s1, a) := Serve(c, Final(cs, EmptyStore(maxSize), rs), Limit(user, cost, now));
      var (b, waited) := (Serve(c, s1, Limit(user, cost, t)).1, (Seconds(t) - Seconds(now)) as real);
      && a.Decision?
      && (a.limited && waited >= a.state.retryAfter ==> b.Admits())
      && (a.limited && b.Admits() ==> waited >= a.state.retryAfter - Ceil(c.quota.EmissionInterval()) as real)
  {
    hide Serve, Ideal.Serve, Final, Ideal.Final, Sane, Reached;
    ReachedTwice(cs, maxSize, start, rs, Limit(user, cost, now), Limit(user, cost, t));
    var m := Ideal.Final(cs, map[], rs);
    MapDecides(cs[user], m, user, cost, now);
    if !Ideal.Serve(cs[user], m, Limit(user, cost, now)).1.Admits() {
      BucketRetryOnMap(cs[user], m, user, cost, now, t);
    }
  }

  /** The bucket hints are whole seconds. */
  lemma BucketHintIsWhole(c: Config, m: Ideal.Memory, user: string, cost: nat, now: real)
    requires c.quota.Valid() && (c.algorithm.TOKEN_BUCKET? || c.algorithm.LEAKING_BUCKET?)
    ensures var a := Ideal.Serve(c, m, Limit(user, cost, now)).1;
      a.Decision? && a.state.retryAfter == a.state.retryAfter.Floor as real
  {
    RatesAreReciprocal(c.quota);
    hide Quota.FillRate, T.Tokens, L.Level, T.RefillSec, T.BucketTtl;
  }

  lemma Reciprocal(ei: real, rate: real)
    requires rate > 0.0 && ei * rate == 1.0
    ensures 1.0 / rate == ei
  {
    DivBounds(1.0, rate, ei);
  }

  lemma TokenHint(q: Quota, cell: Option<Value>, user: string, cost: nat, now: real, t: real)
    requires q.Valid() && B.CellTyped(Config(TOKEN_BUCKET, q), cell, now) && now <= t && cost <= q.burst
    requires !Ideal.TokenCell(q, cell, Limit(user, cost, now)).response.Admits()
    ensures Ideal.TokenCell(q, cell, Limit(user, cost, now)).write.None?
    ensures var a := Ideal.TokenCell(q, cell, Limit(user, cost, now)).response;
      var (b, waited) := (Ideal.TokenCell(q, cell, Limit(user, cost, t)).response, (Seconds(t) - Seconds(now)) as real);
      && a.Decision? && a.limited
      && (waited >= a.state.retryAfter ==> b.Admits())
      && (b.Admits() ==> waited >= a.state.retryAfter - Ceil(q.EmissionInterval()) as real)
  {
    hide Quota.FillRate, Quota.EmissionInterval, T.Refill, T.RefillSec, T.BucketTtl;
    RatesAreReciprocal(q);
    FloorMonotone(now, t);
    var kv, rate := Ideal.Hash(cell), q.FillRate();
    var tok, last := T.Field(kv, "tokens", q.burst), T.Field(kv, "last_refreshed", Seconds(now));
    B.RefillMonotone(0, 0, rate);
    Reciprocal(q.EmissionInterval(), rate);
    if cell.Some? { RefillTime(tok, Seconds(now) - last, Seconds(t) - Seconds(now), rate, cost); }
  }

  // ----- fixed window

  lemma WindowEnds(now: real, t: real, p: int)
    requires p >= 1 && now <= t
    ensures Seconds(t) >= Seconds(now) + F.ResetAfter(now, p) <==> F.WindowIndex(t, p) > F.WindowIndex(now, p)
    ensures F.ResetAfter(now, p) >= 1
  {
    var a, b := Seconds(now), Seconds(t);
    var i, j := a / p, b / p;
    assert a == i * p + a % p && b == j * p + b % p;
    W.MulInt(i + 1, if j > i then j else i + 1, p);
    W.MulInt(if j > i then i else j, i, p);
    W.WindowsAdvance(now, t, p);
  }

  lemma FixedRetryOnMap(c: Config, m: Ideal.Memory, user: string, cost: nat, now: real, t: real)
    requires c.quota.Valid() && c.algorithm.FIXED_WINDOW? && Sane(c, m, user, now) && now <= t
    requires !Ideal.Serve(c, m, Limit(user, cost, now)).1.Admits()
    ensures var (m1, a) := Ideal.Serve(c, m, Limit(user, cost, now));
      Ideal.Serve(c, m1, Limit(user, cost, t)).1.Admits() <==>
        cost <= c.quota.limit && Seconds(t) as real >= Seconds(now) as real + a.state.retryAfter
  {
    WindowEnds(now, t, c.quota.periodSec);
    W.WindowsAdvance(now, t, c.quota.periodSec);
    hide F.WindowIndex, F.ResetAfter, SW.PreviousProportion;
  }

  /** Main result: after any run, the fixed-window hint is the least wait on the second clock that admits, and no wait
      admits a cost over the limit. */
  lemma FixedRetryIsLeast(cs: Configs, maxSize: nat, start: real, rs: seq<Request>, user: string, cost: nat, now: real,
                          t: real)
    requires Reached(cs, maxSize, start, rs, [Limit(user, cost, now), Limit(user, cost, t)])
    requires user in cs && cs[user].algorithm.FIXED_WINDOW?
    ensures UsersKnown(cs, rs)
    ensures var c := cs[user];
      var (s1, a) := Serve(c, Final(cs, EmptyStore(maxSize), rs), Limit(user, cost, now));
      var (b, waited) := (Serve(c, s1, Limit(user, cost, t)).1, (Seconds(t) - Seconds(now)) as real);
      a.Decision? && (a.limited ==> (b.Admits() <==> cost <= c.quota.limit && waited >= a.state.retryAfter))
  {
    hide Serve, Ideal.Serve, Final, Ideal.Final, Sane, Reached;
    ReachedTwice(cs, maxSize, start, rs, Limit(user, cost, now), Limit(user, cost, t));
    var m := Ideal.Final(cs, map[], rs);
    MapDecides(cs[user], m, user, cost, now);
    if !Ideal.Serve(cs[user], m, Limit(user, cost, now)).1.Admits() {
      FixedRetryOnMap(cs[user], m, user, cost, now, t);
    }
  }

  // ----- reset_after

  /** The wait has gone by on the clock the limiter reads. */
  predicate Passed(c: Config, now: real, t: real, wait: real) {
    if c.algorithm.GCRA? then t >= now + wait else Seconds(t) as real >= Seconds(now) as real + wait
  }

  predicate Full(a: Response) { a.Snapshot? && a.state.remaining == a.state.limit }

  /** What the bucket hints may exceed the least wait by. */
  function Excess(c: Config): real
    requires c.quota.Valid()
  {
    if c.algorithm.TOKEN_BUCKET? || c.algorithm.LEAKING_BUCKET? then Ceil(c.quota.EmissionInterval()) as real else 0.0
  }

  /** A request for all there is. */
  function All(c: Config, user: string, now: real): Request
    requires c.quota.Valid()
  {
    Limit(user, Allowance(c), now)
  }

  /** A peek's `reset_after` is the `retry_after` of a denied request for everything. */
  lemma ResetIsRetryForAll(c: Config, m: Ideal.Memory, user: string, now: real)
    requires c.quota.Valid() && !c.algorithm.SLIDING_WINDOW? && Sane(c, m, user, now)
    ensures var (p, (m1, a)) := (Ideal.Serve(c, m, Peek(user, now)).1, Ideal.Serve(c, m, All(c, user, now)));
      && (a.Admits() <==> Full(p)) && a.Decision? && p.Snapshot?
      && (a.limited && c.algorithm.IsBucket() ==> m1 == m)
      && (a.limited ==> a.state.retryAfter == p.state.resetAfter)
  {
    var all := All(c, user, now);
    MapRemainingIsExact(c, m, user, all.cost, now);
    RatesAreReciprocal(c.quota);
    hide Quota.EmissionInterval, Quota.FillRate, T.Refill, F.ResetAfter, SW.PreviousProportion, F.WindowIndex;
    if c.algorithm.GCRA? {
      R.GcraAdmission(c.quota, Ideal.Cell(m, Plain(user)), all);
      assert (c.quota.burst - all.cost) as real * c.quota.EmissionInterval() == 0.0;
    }
  }

  /** A full bucket stays full. */
  lemma FullStays(c: Config, m: Ideal.Memory, user: string, now: real, t: real)
    requires c.quota.Valid() && c.algorithm.IsBucket() && Sane(c, m, user, now) && now <= t
    requires Full(Ideal.Serve(c, m, Peek(user, now)).1)
    ensures Full(Ideal.Serve(c, m, Peek(user, t)).1)
  {
    var q, cell := c.quota, Ideal.Cell(m, Plain(user));
    RatesAreReciprocal(q);
    if c.algorithm.GCRA? {
      var x, y := now - Max(now, G.LastTat(cell, now)), t - Max(t, G.LastTat(cell, t));
      hide Quota.EmissionInterval;
      DivBounds(x, q.EmissionInterval(), 0.0);
      DivBounds(y, q.EmissionInterval(), 0.0);
    } else if cell.Some? {
      var last := cell.value.kv["last_refreshed"];
      B.RefillMonotone(Seconds(now) - last, Seconds(t) - last, q.FillRate());
      hide Quota.FillRate, T.Refill;
    } else {
      B.RefillMonotone(0, 0, q.FillRate());
      hide Quota.FillRate, T.Refill;
    }
  }

  lemma FixedReset(c: Config, m: Ideal.Memory, user: string, now: real, t: real)
    requires c.quota.Valid() && c.algorithm.FIXED_WINDOW? && Sane(c, m, user, now) && now <= t
    ensures var (p, p') := (Ideal.Serve(c, m, Peek(user, now)).1, Ideal.Serve(c, m, Peek(user, t)).1);
      && p.Snapshot? && (Passed(c, now, t, p.state.resetAfter) ==> Full(p'))
      && (!Full(p) && Full(p') ==> Passed(c, now, t, p.state.resetAfter))
  {
    WindowEnds(now, t, c.quota.periodSec);
    W.WindowsAdvance(now, t, c.quota.periodSec);
    hide F.WindowIndex, F.ResetAfter, SW.PreviousProportion;
  }

  /** `reset_after` on an undisturbed key: waiting that long brings everything back, and, for a key that is not full,
      no shorter wait does, apart from one token's time for the two buckets. */
  lemma ResetBringsAllBack(c: Config, m: Ideal.Memory, user: string, now: real, t: real)
    requires c.quota.Valid() && !c.algorithm.SLIDING_WINDOW? && Sane(c, m, user, now) && 0.0 <= now <= t
    ensures var (p, p') := (Ideal.Serve(c, m, Peek(user, now)).1, Ideal.Serve(c, m, Peek(user, t)).1);
      && p.Snapshot? && (Passed(c, now, t, p.state.resetAfter) ==> Full(p'))
      && (!Full(p) && Full(p') ==> Passed(c, now, t, p.state.resetAfter - Excess(c)))
  {
    if c.algorithm.FIXED_WINDOW? { FixedReset(c, m, user, now, t); return; }
    var all := All(c, user, now);
    ResetIsRetryForAll(c, m, user, now);
    SaneWaits(c, m, user, now, t);
    ResetIsRetryForAll(c, m, user, t);
    var (m1, a) := Ideal.Serve(c, m, all);
    hide Ideal.Serve, Sane, Full;
    if a.Admits() { FullStays(c, m, user, now, t); }
    else if c.algorithm.GCRA? { GcraRetryOnMap(c, m, user, all.cost, now, t); }
    else { BucketRetryOnMap(c, m, user, all.cost, now, t); }
  }

  /** Main result: the same on the store, after any run. */
  lemma ResetMeansFull(cs: Configs, maxSize: nat, start: real, rs: seq<Request>, user: string, now: real, t: real)
    requires Reached(cs, maxSize, start, rs, [Peek(user, now), Peek(user, t)])
    requires user in cs && !cs[user].algorithm.SLIDING_WINDOW?
    ensures UsersKnown(cs, rs) && cs[user].quota.Valid()
    ensures var c := cs[user];
      var (s1, p) := Serve(c, Final(cs, EmptyStore(maxSize), rs), Peek(user, now));
      var p' := Serve(c, s1, Peek(user, t)).1;
      && p.Snapshot? && (Passed(c, now, t, p.state.resetAfter) ==> Full(p'))
      && (!Full(p) && Full(p') ==> Passed(c, now, t, p.state.resetAfter - Excess(c)))
  {
    hide Serve, Ideal.Serve, Final, Ideal.Final, Sane, Full, Passed, Excess, Reached;
    ReachedTwice(cs, maxSize, start, rs, Peek(user, now), Peek(user, t));
    var m := Ideal.Final(cs, map[], rs);
    Transparency.PeekKeepsMap(cs[user], m, Peek(user, now));
    ResetBringsAllBack(cs[user], m, user, now, t);
  }

  /** The sliding window's `reset_after` is always the period: after one request of the whole limit, less than
      everything is back when it has gone by. */
  lemma SlidingResetFallsShort(user: string)
    ensures var c := Config(SLIDING_WINDOW, Quota(10, 1, 10));
      var (m1, a) := Ideal.Serve(c, map[], Limit(user, 10, 0.0));
      && a.Admits() && a.state.resetAfter == 1.0
      && !Full(Ideal.Serve(c, m1, Peek(user, 1.0)).1)
  {
    assert SW.PreviousProportion(Millis(0.0), 1) == 1.0 && SW.PreviousProportion(Millis(1.0), 1) == 1.0;
    assert Seconds(0.0) == 0 && Seconds(1.0) == 1;
  }

  lemma OnePeriodOn(now: real, p: int)
    requires p >= 1
    ensures F.WindowIndex(now + p as real, p) == F.WindowIndex(now, p) + 1
    ensures SW.PreviousProportion(Millis(now + p as real), p) == SW.PreviousProportion(Millis(now), p)
  {
    W.PeriodsOn(now, 1, p);
    W.AddMultiple(Millis(now), 1, p * 1000);
    hide F.WindowIndex, Millis;
  }

  lemma SlidingFull(c: Config, m: Ideal.Memory, user: string, t: real)
    requires c.quota.Valid() && c.algorithm.SLIDING_WINDOW?
    ensures var p := c.quota.periodSec;
      var (v, a) := (F.WindowIndex(t, p), Ideal.Serve(c, m, Peek(user, t)).1);
      var used := SW.Previous(WB.Count(m, user, v - 1), SW.PreviousProportion(Millis(t), p)) + WB.Count(m, user, v);
      && a.Snapshot? && a.state.resetAfter == p as real
      && (used >= 0 ==> (Full(a) <==> used == 0))
  {
    hide F.WindowIndex, SW.PreviousProportion, SW.Previous, Millis;
  }

  lemma CountsUpTo(c: Config, m: Ideal.Memory, user: string, now: real, i: int)
    requires c.quota.Valid() && !c.algorithm.IsBucket() && Sane(c, m, user, now)
    ensures WB.Count(m, user, i) >= 0 && (i > F.WindowIndex(now, c.quota.periodSec) ==> WB.Count(m, user, i) == 0)
  {
  }

  lemma NothingOfNothing(share: real)
    ensures SW.Previous(0, share) == 0
  {
  }

  lemma SlidingResetOnMap(c: Config, m: Ideal.Memory, user: string, now: real, t: real)
    requires c.quota.Valid() && c.algorithm.SLIDING_WINDOW? && Sane(c, m, user, now)
    requires now + c.quota.periodSec as real <= t
    ensures var p := c.quota.periodSec;
      var little := SW.Previous(WB.Count(m, user, F.WindowIndex(now, p)), SW.PreviousProportion(Millis(now), p)) == 0;
      var (a, b) := (Ideal.Serve(c, m, Peek(user, now)).1, Ideal.Serve(c, m, Peek(user, t)).1);
      && a.Snapshot? && a.state.resetAfter == p as real
      && (little ==> Full(b)) && (t == now + a.state.resetAfter && Full(b) ==> little)
  {
    hide Ideal.Serve, Full, Sane, WB.Count, WB.Counters, F.WindowIndex, SW.PreviousProportion, SW.Previous, Millis;
    var p := c.quota.periodSec;
    var next := now + p as real;
    var w, v := F.WindowIndex(now, p), F.WindowIndex(t, p);
    var share, later := SW.PreviousProportion(Millis(now), p), SW.PreviousProportion(Millis(t), p);
    SlidingFull(c, m, user, now);
    SlidingFull(c, m, user, t);
    OnePeriodOn(now, p);
    W.WindowsAdvance(next, t, p);
    WB.SharePositive(t, p);
    CountsUpTo(c, m, user, now, w);
    CountsUpTo(c, m, user, now, v);
    CountsUpTo(c, m, user, now, v - 1);
    NothingOfNothing(later);
    WB.SharePositive(now, p);
    WB.ShareNotNegative(WB.Count(m, user, w), share);
    WB.ShareNotNegative(WB.Count(m, user, w), later);
    if v == w + 1 {
      WB.ShareShrinks(next, t, p);
      WB.PreviousMonotone(WB.Count(m, user, w), WB.Count(m, user, w), later, share);
    }
  }

  /** What this window's count will still be charged as when the period has gone by. */
  function ChargedNext(m: Ideal.Memory, user: string, p: int, now: real): int
    requires p >= 1
  {
    SW.Previous(WB.Count(m, user, F.WindowIndex(now, p)), SW.PreviousProportion(Millis(now), p))
  }

  /** When it is enough, after any run: once the period has gone by everything is back, if and only if the share left of
      the current count (on the map the run leaves) rounds down to nothing. */
  lemma SlidingResetIffLittle(cs: Configs, maxSize: nat, start: real, rs: seq<Request>, user: string, now: real,
                              t: real)
    requires Reached(cs, maxSize, start, rs, [Peek(user, now), Peek(user, t)])
    requires user in cs && cs[user].algorithm.SLIDING_WINDOW?
    ensures ValidConfigs(cs) && UsersKnown(cs, rs) && cs[user].quota.periodSec >= 1
    ensures var (c, m) := (cs[user], Ideal.Final(cs, map[], rs));
      var (s1, a) := Serve(c, Final(cs, EmptyStore(maxSize), rs), Peek(user, now));
      var (b, little) := (Serve(c, s1, Peek(user, t)).1, ChargedNext(m, user, c.quota.periodSec, now) == 0);
      && a.Snapshot? && a.state.resetAfter == c.quota.periodSec as real
      && (t >= now + a.state.resetAfter && little ==> Full(b))
      && (t == now + a.state.resetAfter && Full(b) ==> little)
  {
    hide Serve, Ideal.Serve, Final, Ideal.Final, Sane, Full, Reached;
    ReachedTwice(cs, maxSize, start, rs, Peek(user, now), Peek(user, t));
    var (c, m) := (cs[user], Ideal.Final(cs, map[], rs));
    Transparency.PeekKeepsMap(c, m, Peek(user, now));
    SlidingFull(c, m, user, now);
    if t >= now + c.quota.periodSec as real { SlidingResetOnMap(c, m, user, now, t); }
    hide F.WindowIndex, SW.PreviousProportion, SW.Previous, Millis, WB.Count;
  }
}
