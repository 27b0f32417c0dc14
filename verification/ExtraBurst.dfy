/** At the requests' own times, GCRA needs a larger burst to admit what a token bucket admitted: how much larger. */
module ExtraBurst {
  import opened Base
  import opened Store
  import opened Limiters
  import opened Refinement
  import Ideal
  import G = Gcra
  import T = TokenBucket
  import B = BucketCells
  import GcraRate

  function More(q: Quota, extra: nat): Quota { Quota(q.limit, q.periodSec, q.burst + extra) }

  ghost predicate RefinedBy(q: Quota, extra: nat, user: string, rs: seq<Request>)
    requires q.Valid()
  {
    UsersKnown(One(TOKEN_BUCKET, q, user), rs) ==>
      var rp := Replay(rs, Ideal.Run(One(TOKEN_BUCKET, q, user), map[], rs), false);
      UsersKnown(One(GCRA, More(q, extra), user), rp) ==>
        AllAdmitted(Ideal.Run(One(GCRA, More(q, extra), user), map[], rp))
  }

  /** Every run of a lone user, replayed at its own times into GCRA with so much more burst, is admitted. */
  ghost predicate RefinesAtOwnTimes(q: Quota, extra: nat, user: string)
    requires q.Valid()
  {
    forall start, rs :: 0.0 <= start && ValidRun(One(TOKEN_BUCKET, q, user), start, rs) ==>
      RefinedBy(q, extra, user, rs)
  }

  /** Drain the bucket late in a second, then ask for one token at the first whole second that grants it. */
  function Overtaking(q: Quota, user: string): seq<Request>
    requires q.Valid() && q.burst >= 0
  {
    var k := Ceil(q.EmissionInterval()) as real;
    [Limit(user, q.burst, (Max(0.0, k - q.EmissionInterval()) + 1.0) / 2.0), Limit(user, 1, k)]
  }

  lemma TwoRequests(cs: Configs, m: Ideal.Memory, r1: Request, r2: Request)
    requires ValidConfigs(cs) && r1.user in cs && r2.user in cs
    ensures UsersKnown(cs, [r1, r2])
    ensures var (m1, a1) := Ideal.Serve(cs[r1.user], m, r1);
      Ideal.Run(cs, m, [r1, r2]) == [a1, Ideal.Serve(cs[r2.user], m1, r2).1]
  {
    RunCons(cs, m, r1, [r2]);
    RunCons(cs, Ideal.Serve(cs[r1.user], m, r1).0, r2, []);
    assert [r1] + [r2] == [r1, r2] && [r2] + [] == [r2];
  }

  lemma OvertakingTimes(q: Quota, user: string)
    requires q.Valid() && q.burst >= 1
    ensures var rs, ei := Overtaking(q, user), q.EmissionInterval();
      && 0.0 < rs[0].now < 1.0 <= rs[1].now && Seconds(rs[0].now) == 0 && Seconds(rs[1].now) == Ceil(ei)
      && rs[1].now < rs[0].now + ei && T.Refill(Ceil(ei), q.FillRate()) >= 1
  {
    RatesAreReciprocal(q);
    hide Quota.EmissionInterval, Quota.FillRate;
    RefillsOne(q.EmissionInterval(), q.FillRate());
  }

  lemma RefillsOne(ei: real, rate: real)
    requires ei > 0.0 && rate > 0.0 && ei * rate == 1.0
    ensures T.Refill(Ceil(ei), rate) >= 1
  {
    MulMonotone(ei, Ceil(ei) as real, rate);
  }

  /** A full bucket drained in the first second admits what the seconds on its clock have refilled by then. */
  lemma BucketAdmitsBoth(q: Quota, r1: Request, r2: Request)
    requires q.Valid() && r1.Limit? && r2.Limit? && r1.user == r2.user && r1.cost == q.burst && r2.cost <= q.burst
    requires Seconds(r1.now) == 0 && Seconds(r2.now) >= 0 && r2.cost <= T.Refill(Seconds(r2.now), q.FillRate())
    ensures var b: Ideal.Memory := map[];
      var (b1, a1) := Ideal.Serve(Config(TOKEN_BUCKET, q), b, r1);
      a1.Admits() && Ideal.Serve(Config(TOKEN_BUCKET, q), b1, r2).1.Admits()
  {
    RatesAreReciprocal(q);
    B.RefillMonotone(0, 0, q.FillRate());
    BucketAdmission(q, None, r1);
    assert Left(q, None, r1) == 0;
    var cell := Some(DictVal(T.Bucket(0, 0)));
    BucketAdmission(q, cell, r2);
    assert Left(q, cell, r2) >= 0;
    hide Ideal.TokenCell, Quota.EmissionInterval, Quota.FillRate, T.Refill, Left;
  }

  /** GCRA refuses the second of two requests that come too soon for it. */
  lemma GcraRefusesSecond(q: Quota, r1: Request, r2: Request)
    requires q.Valid() && r1.Limit? && r2.Limit? && r1.user == r2.user && 0.0 < r1.now <= r2.now
    requires 1 <= r1.cost <= q.burst
    requires r2.now + Debt(q.burst, r1.cost + r2.cost, q.EmissionInterval()) < r1.now
    ensures var b: Ideal.Memory := map[];
      !Ideal.Serve(Config(GCRA, q), Ideal.Serve(Config(GCRA, q), b, r1).0, r2).1.Admits()
  {
    hide Ideal.GcraCell, Ideal.Serve, Quota.EmissionInterval, NewTat, Horizon, Debt;
    RatesAreReciprocal(q);
    var ei := q.EmissionInterval();
    FirstTat(q, None, r1);
    var tat := Ideal.GcraCell(q, None, r1).write.value.0;
    GcraAdmission(q, Some(tat), r2);
    TooSoon(q.burst, r1.cost, r2.cost, ei, tat.f, r1.now, r2.now);
    ServeTwice(q, r1, r2);
  }

  lemma ServeTwice(q: Quota, r1: Request, r2: Request)
    requires q.Valid() && r1.user == r2.user && Ideal.GcraCell(q, None, r1).write.Some?
    ensures var b: Ideal.Memory := map[];
      Ideal.Serve(Config(GCRA, q), Ideal.Serve(Config(GCRA, q), b, r1).0, r2).1 ==
        Ideal.GcraCell(q, Some(Ideal.GcraCell(q, None, r1).write.value.0), r2).response
  {
    hide Ideal.GcraCell;
  }

  lemma TooSoon(burst: int, cost1: nat, cost2: nat, ei: real, tat: real, t1: real, t2: real)
    requires ei > 0.0 && 0.0 < t1 <= t2 && t2 + Debt(burst, cost1 + cost2, ei) < t1 && tat == t1 + cost1 as real * ei
    ensures NewTat(Some(FloatVal(tat)), cost2, ei, t2) > Horizon(burst, ei, t2)
  {
    MulMonotone(0.0, cost1 as real, ei);
    assert Debt(burst, cost1 + cost2, ei) == burst as real * ei - cost1 as real * ei - cost2 as real * ei;
  }

  lemma FirstTat(q: Quota, tat: Option<Value>, r: Request)
    requires q.Valid() && r.Limit? && 1 <= r.cost <= q.burst && tat.None?
    ensures var e := Ideal.GcraCell(q, tat, r);
      e.write.Some? && e.write.value.0 == FloatVal(r.now + r.cost as real * q.EmissionInterval())
  {
    RatesAreReciprocal(q);
    GcraRate.AdmissionTest(r.now, q.EmissionInterval(), q.burst, r.cost, r.now);
    MulMonotone(1.0, r.cost as real, q.EmissionInterval());
    MulMonotone(r.cost as real, q.burst as real, q.EmissionInterval());
    hide Quota.EmissionInterval;
  }

  /** Two requests that the bucket admits and GCRA does not are a run that is not refined. */
  lemma NotRefined(q: Quota, extra: nat, user: string, r1: Request, r2: Request)
    requires q.Valid() && r1.Limit? && r2.Limit? && r1.user == r2.user == user && 0.0 <= r1.now <= r2.now
    requires var b: Ideal.Memory := map[];
      var (b1, a1) := Ideal.Serve(Config(TOKEN_BUCKET, q), b, r1);
      a1.Admits() && Ideal.Serve(Config(TOKEN_BUCKET, q), b1, r2).1.Admits()
    requires var b: Ideal.Memory := map[];
      var g := Config(GCRA, More(q, extra));
      !Ideal.Serve(g, Ideal.Serve(g, b, r1).0, r2).1.Admits()
    ensures ValidRun(One(TOKEN_BUCKET, q, user), 0.0, [r1, r2]) && !RefinedBy(q, extra, user, [r1, r2])
  {
    var t, g, rs := One(TOKEN_BUCKET, q, user), One(GCRA, More(q, extra), user), [r1, r2];
    var none: Ideal.Memory := map[];
    ValidRunCons(t, r1.now, r2, []);
    ValidRunCons(t, 0.0, r1, [r2]);
    assert [r2] + [] == [r2] && [r1] + [r2] == rs && rs[1..] == [r2];
    TwoRequests(t, none, r1, r2);
    TwoRequests(g, none, r1, r2);
    var answers := Ideal.Run(t, none, rs);
    hide Ideal.Run, Ideal.Serve, ValidRun;
    assert answers[1..] == [answers[1]];
    assert Replay([r2], [answers[1]], false) == [r2];
    assert Replay(rs, answers, false) == rs;
    assert !Ideal.Run(g, none, rs)[1].Admits();
  }

  lemma Overtakes(q: Quota, user: string)
    requires q.Valid() && q.burst >= 1
    ensures ValidRun(One(TOKEN_BUCKET, q, user), 0.0, Overtaking(q, user))
    ensures !RefinedBy(q, 0, user, Overtaking(q, user))
  {
    OvertakingTimes(q, user);
    var r1, r2 := Overtaking(q, user)[0], Overtaking(q, user)[1];
    RatesAreReciprocal(q);
    BucketAdmitsBoth(q, r1, r2);
    assert More(q, 0) == q;
    assert Debt(q.burst, q.burst + 1, q.EmissionInterval()) == -q.EmissionInterval();
    GcraRefusesSecond(q, r1, r2);
    NotRefined(q, 0, user, r1, r2);
    assert Overtaking(q, user) == [r1, r2];
  }

  // ----- the least burst to add

  /** Drain the bucket late in the first second, then ask for all that the first period refills. */
  function Draining(q: Quota, extra: nat, user: string): (Request, Request)
    requires q.Valid()
  {
    (Limit(user, q.burst, (extra as real * q.EmissionInterval() + 1.0) / 2.0),
     Limit(user, q.limit, q.periodSec as real))
  }

  lemma DrainingTimes(q: Quota, extra: nat, user: string)
    requires q.Valid() && extra < Ceil(q.FillRate())
    ensures var (r1, r2) := Draining(q, extra, user);
      && extra as real * q.EmissionInterval() < r1.now && 0.0 < r1.now < 1.0 <= r2.now
      && Seconds(r1.now) == 0 && Seconds(r2.now) == q.periodSec && T.Refill(q.periodSec, q.FillRate()) == q.limit
  {
    RatesAreReciprocal(q);
    var ei, rate := q.EmissionInterval(), q.FillRate();
    MulStrict(extra as real, rate, ei);
    MulMonotone(0.0, extra as real, ei);
    assert q.periodSec as real * rate == q.limit as real;
  }

  lemma GcraRefusesDraining(q: Quota, extra: nat, user: string)
    requires q.Valid() && q.burst >= q.limit && extra < Ceil(q.FillRate())
    ensures var (r1, r2) := Draining(q, extra, user);
      var b: Ideal.Memory := map[];
      var g := Config(GCRA, More(q, extra));
      !Ideal.Serve(g, Ideal.Serve(g, b, r1).0, r2).1.Admits()
  {
    DrainingTimes(q, extra, user);
    var (r1, r2) := Draining(q, extra, user);
    var ei := q.EmissionInterval();
    assert More(q, extra).EmissionInterval() == ei;
    assert q.limit as real * ei == q.periodSec as real;
    assert Debt(q.burst + extra, q.burst + q.limit, ei) == extra as real * ei - q.limit as real * ei;
    hide Quota.EmissionInterval, Ideal.Serve;
    GcraRefusesSecond(More(q, extra), r1, r2);
  }

  /** Drain the bucket late in the first second, then again at the next. */
  function DrainingTwice(q: Quota, extra: nat, user: string): (Request, Request)
    requires q.Valid()
  {
    var late := Max(0.0, 1.0 - (q.burst - extra) as real * q.EmissionInterval());
    (Limit(user, q.burst, (late + 1.0) / 2.0), Limit(user, q.burst, 1.0))
  }

  lemma DrainingTwiceTimes(q: Quota, extra: nat, user: string)
    requires q.Valid() && q.burst as real <= q.FillRate() && extra < q.burst
    ensures var (r1, r2) := DrainingTwice(q, extra, user);
      && r1 == Limit(user, q.burst, r1.now) && r2 == Limit(user, q.burst, 1.0)
      && 0.0 < r1.now < 1.0 && Seconds(r1.now) == 0 && T.Refill(1, q.FillRate()) >= q.burst
      && More(q, extra).EmissionInterval() == q.EmissionInterval()
      && 1.0 + Debt(q.burst + extra, q.burst + q.burst, q.EmissionInterval()) < r1.now
  {
    RatesAreReciprocal(q);
    var ei := q.EmissionInterval();
    FloorMonotone(q.burst as real, q.FillRate());
    assert More(q, extra).EmissionInterval() == ei;
    hide Quota.EmissionInterval, Quota.FillRate;
    MulStrict(0.0, (q.burst - extra) as real, ei);
    assert Debt(q.burst + extra, q.burst + q.burst, ei) == -((q.burst - extra) as real * ei);
  }

  /** A second that refills the whole bucket lets it be drained twice at nearly one time. */
  lemma DrainsTwice(q: Quota, extra: nat, user: string)
    requires q.Valid() && q.burst as real <= q.FillRate() && extra < q.burst
    ensures !RefinesAtOwnTimes(q, extra, user)
  {
    hide Quota.EmissionInterval, Quota.FillRate, DrainingTwice, Ideal.Serve, RefinedBy, Debt, T.Refill;
    var (r1, r2) := DrainingTwice(q, extra, user);
    DrainingTwiceTimes(q, extra, user);
    BucketAdmitsBoth(q, r1, r2);
    GcraRefusesSecond(More(q, extra), r1, r2);
    NotRefined(q, extra, user, r1, r2);
  }

  lemma DrainsPeriod(q: Quota, extra: nat, user: string)
    requires q.Valid() && q.burst >= q.limit && extra < Ceil(q.FillRate())
    ensures !RefinesAtOwnTimes(q, extra, user)
  {
    DrainingTimes(q, extra, user);
    GcraRefusesDraining(q, extra, user);
    var (r1, r2) := Draining(q, extra, user);
    assert r1.cost == q.burst && r2.cost == q.limit && r1.user == r2.user == user;
    hide Draining, Ideal.Serve, RefinedBy, Quota.FillRate, Quota.EmissionInterval, T.Refill;
    BucketAdmitsBoth(q, r1, r2);
    NotRefined(q, extra, user, r1, r2);
  }

  // ----- the burst itself always suffices

  /** Where an admission at `a` that leaves the bucket so full has put the TAT: within twice the burst. */
  ghost predicate Close(q: Quota, bucket: Option<Value>, tat: Option<Value>, a: real)
    requires q.Valid()
  {
    && NoFurther(q, bucket, tat, false)
    && (bucket.Some? ==> 0 <= bucket.value.kv["tokens"] <= q.burst && bucket.value.kv["last_refreshed"] == Seconds(a))
    && (tat.Some? ==> tat.value.f <= a + Debt(2 * q.burst, bucket.value.kv["tokens"], q.EmissionInterval()))
  }

  /** Within a second nothing is refilled, and a whole second on the clock pays the rounding. */
  lemma StaysClose(burst: int, tok: int, fill: int, elapsed: int, cost: nat, last: int, tat: Option<Value>, ei: real,
                   a: real, now: real)
    requires ei > 0.0 && 0 <= tok <= burst && elapsed >= 0 && fill >= 0 && (elapsed == 0 ==> fill == 0)
    requires a <= now && (last + elapsed) as real <= now
    requires var t := G.LastTat(tat, now);
      t <= now || (t <= last as real + 1.0 + Debt(burst, tok, ei) && t <= a + Debt(2 * burst, tok, ei))
    ensures NewTat(tat, cost, ei, now) <= now + Debt(2 * burst, MinInt(burst, tok + fill) - cost, ei)
  {
    hide G.LastTat, Debt;
    var tokens := MinInt(burst, tok + fill);
    DebtPaid(2 * burst, tokens, cost, ei);
    DebtOrder(0, 0, 2 * burst, tokens, ei);
    DebtOrder(burst, tok, 2 * burst, tokens, ei);
    if elapsed >= 1 { assert last as real + 1.0 <= now; } else { assert tokens == tok; }
  }

  lemma DebtPaid(burst: int, tokens: int, cost: int, ei: real)
    ensures Debt(burst, tokens - cost, ei) == Debt(burst, tokens, ei) + cost as real * ei
    ensures Debt(0, 0, ei) == 0.0
  {
    SubMulInt(burst - tokens, -cost, ei);
    SubMulInt(0, cost, ei);
  }

  lemma DebtOrder(burst: int, tokens: int, burst': int, tokens': int, ei: real)
    requires burst - tokens <= burst' - tokens' && ei >= 0.0
    ensures Debt(burst, tokens, ei) <= Debt(burst', tokens', ei)
  {
    MulMonotone((burst - tokens) as real, (burst' - tokens') as real, ei);
  }

  lemma CloseTat(q: Quota, bucket: Option<Value>, tat: Option<Value>, a: real, now: real)
    requires q.Valid() && Close(q, bucket, tat, a) && 0.0 <= a <= now
    ensures var tok := T.Field(Ideal.Hash(bucket), "tokens", q.burst);
      && 0 <= tok <= q.burst && T.Field(Ideal.Hash(bucket), "last_refreshed", Seconds(now)) <= Seconds(now)
      && (G.LastTat(tat, now) <= now || G.LastTat(tat, now) <= a + Debt(2 * q.burst, tok, q.EmissionInterval()))
  {
    hide Quota.EmissionInterval, Debt;
    FloorMonotone(a, now);
  }

  lemma CloseNewTat(q: Quota, bucket: Option<Value>, tat: Option<Value>, a: real, r: Request)
    requires q.Valid() && r.Limit? && Close(q, bucket, tat, a) && 0.0 <= a <= r.now && Left(q, bucket, r) >= 0
    ensures NewTat(tat, r.cost, q.EmissionInterval(), r.now)
         <= r.now + Debt(2 * q.burst, Left(q, bucket, r), q.EmissionInterval())
  {
    hide Quota.EmissionInterval, Quota.FillRate, T.Refill, Debt, NewTat, G.LastTat, Close, NoFurther;
    RatesAreReciprocal(q);
    CloseFacts(q, bucket, tat, a, r.now);
    CloseTat(q, bucket, tat, a, r.now);
    var tok := T.Field(Ideal.Hash(bucket), "tokens", q.burst);
    var last := T.Field(Ideal.Hash(bucket), "last_refreshed", Seconds(r.now));
    var elapsed := Seconds(r.now) - last;
    B.RefillMonotone(0, elapsed, q.FillRate());
    TatBehind(q, bucket, tat, r.now, false);
    StaysClose(q.burst, tok, T.Refill(elapsed, q.FillRate()), elapsed, r.cost, last, tat, q.EmissionInterval(), a,
               r.now);
  }

  /** One admission of the bucket is one of GCRA with twice the burst. */
  lemma AdmissionIsClose(q: Quota, bucket: Option<Value>, tat: Option<Value>, a: real, r: Request)
    requires q.Valid() && r.Limit? && Close(q, bucket, tat, a) && 0.0 <= a <= r.now
    requires Ideal.TokenCell(q, bucket, r).response.Admits()
    ensures var b := Ideal.TokenCell(q, bucket, r);
      var g := Ideal.GcraCell(More(q, q.burst), tat, r);
      g.response.Admits() && Close(q, Written(bucket, b), Written(tat, g), r.now)
  {
    hide Quota.EmissionInterval, Ideal.TokenCell, Ideal.GcraCell, Left, Wider, NewTat, Debt, Close, NoFurther, More;
    var left, ei := Left(q, bucket, r), q.EmissionInterval();
    BucketAdmission(q, bucket, r);
    LeftWithin(q, bucket, r);
    CloseNewTat(q, bucket, tat, a, r);
    CloseFacts(q, bucket, tat, a, r.now);
    CellsCatchUp(q, bucket, tat, r, false);
    MoreIs(q);
    GcraAdmission(More(q, q.burst), tat, r);
    WithinTwice(q.burst, left, ei);
    if tat.Some? { OlderTat(q, tat, r.cost, r.now); }
    IsClose(q, left, Written(tat, Ideal.GcraCell(More(q, q.burst), tat, r)), r.now);
  }

  lemma MoreIs(q: Quota)
    requires q.Valid()
    ensures var twice := More(q, q.burst);
      twice.Valid() && twice.burst == q.burst + q.burst && twice.EmissionInterval() == q.EmissionInterval() > 0.0
  {
    RatesAreReciprocal(q);
  }

  lemma CloseFacts(q: Quota, bucket: Option<Value>, tat: Option<Value>, a: real, now: real)
    requires q.Valid() && Close(q, bucket, tat, a) && 0.0 <= a <= now
    ensures NoFurther(q, bucket, tat, false) && (tat.Some? ==> tat.value.FloatVal? && tat.value.f > 0.0)
    ensures bucket.Some? ==> bucket.value.DictVal? && "last_refreshed" in bucket.value.kv
    ensures bucket.Some? ==> bucket.value.kv["last_refreshed"] <= Seconds(now)
  {
    FloorMonotone(a, now);
  }

  lemma IsClose(q: Quota, left: int, tat: Option<Value>, now: real)
    requires q.Valid() && 0 <= left <= q.burst && (tat.Some? ==> tat.value.FloatVal? && tat.value.f > 0.0)
    requires tat.Some? ==>
      tat.value.f <= Seconds(now) as real + Slack(false) + Debt(q.burst, left, q.EmissionInterval())
    requires tat.Some? ==> tat.value.f <= now + Debt(2 * q.burst, left, q.EmissionInterval())
    ensures Close(q, Some(DictVal(T.Bucket(left, Seconds(now)))), tat, now)
  {
    hide Debt, Quota.EmissionInterval;
  }

  lemma LeftWithin(q: Quota, bucket: Option<Value>, r: Request)
    requires q.Valid() && r.Limit?
    ensures Left(q, bucket, r) <= q.burst
  {
  }

  lemma WithinTwice(burst: int, left: int, ei: real)
    requires ei > 0.0 && left >= 0
    ensures Debt(2 * burst, left, ei) <= (burst + burst) as real * ei
  {
    MulMonotone((2 * burst - left) as real, (burst + burst) as real, ei);
  }

  lemma {:induction false} TwiceTheBurstAdmits(q: Quota, user: string, m: Ideal.Memory, g: Ideal.Memory, a: real,
                                               start: real, rs: seq<Request>)
    requires q.Valid() && Close(q, Ideal.Cell(m, Plain(user)), Ideal.Cell(g, Plain(user)), a) && 0.0 <= a <= start
    requires ValidRun(One(TOKEN_BUCKET, q, user), start, rs) && UsersKnown(One(TOKEN_BUCKET, q, user), rs)
    ensures var rp := Replay(rs, Ideal.Run(One(TOKEN_BUCKET, q, user), m, rs), false);
      && UsersKnown(One(GCRA, More(q, q.burst), user), rp)
      && AllAdmitted(Ideal.Run(One(GCRA, More(q, q.burst), user), g, rp))
    decreases |rs|
  {
    var t, gs := One(TOKEN_BUCKET, q, user), One(GCRA, More(q, q.burst), user);
    if rs != [] {
      var r := rs[0];
      var bucket, tat := Ideal.Cell(m, Plain(user)), Ideal.Cell(g, Plain(user));
      RefusalKeepsBucket(q, bucket, r);
      ServeWrites(t[user], m, r);
      ServeWrites(gs[user], g, r);
      ReplayCons(t, m, rs, false);
      hide Ideal.TokenCell, Ideal.GcraCell, Close, Ideal.Serve, Ideal.Run, Replay, UsersKnown, AllAdmitted, Left;
      var (m', b) := Ideal.Serve(t[user], m, r);
      if r.Limit? && b.Admits() {
        AdmissionIsClose(q, bucket, tat, a, r);
        assert Restamped(r, false) == r;
        var g' := Ideal.Serve(gs[user], g, r).0;
        TwiceTheBurstAdmits(q, user, m', g', r.now, r.now, rs[1..]);
        AdmittedCons(gs, g, r, Replay(rs[1..], Ideal.Run(t, m', rs[1..]), false));
      } else {
        TwiceTheBurstAdmits(q, user, m', g, a, r.now, rs[1..]);
      }
    } else {
      ReplayOfNothing(t, m, g, false);
    }
  }

  /** Main result: one second's refill, rounded up, or as much again as the burst, is more burst enough for GCRA to
      admit what the token bucket admitted. Nothing less than the first is, for a burst of at least the limit; nothing
      less than the second, for a burst that one second refills. */
  lemma ExtraIsLeast(q: Quota, user: string)
    requires q.Valid()
    ensures Ceil(q.FillRate()) >= 0 && RefinesAtOwnTimes(q, Ceil(q.FillRate()), user)
    ensures RefinesAtOwnTimes(q, q.burst, user)
    ensures q.burst >= q.limit ==>
      forall extra: nat :: extra < Ceil(q.FillRate()) ==> !RefinesAtOwnTimes(q, extra, user)
    ensures q.burst as real <= q.FillRate() ==>
      forall extra: nat :: extra < q.burst ==> !RefinesAtOwnTimes(q, extra, user)
  {
    ExtraCovers(q, false);
    hide RefinedBy, ValidRun, Quota.FillRate, Quota.EmissionInterval;
    var cs := One(TOKEN_BUCKET, q, user);
    forall start, rs | 0.0 <= start && ValidRun(cs, start, rs)
      ensures RefinedBy(q, Ceil(q.FillRate()), user, rs) && RefinedBy(q, q.burst, user, rs)
    {
      LoneRunRefines(q, user, start, rs);
      LoneRunRefinesTwice(q, user, start, rs);
    }
    if q.burst >= q.limit {
      forall extra: nat | extra < Ceil(q.FillRate()) ensures !RefinesAtOwnTimes(q, extra, user) {
        DrainsPeriod(q, extra, user);
      }
    }
    if q.burst as real <= q.FillRate() {
      forall extra: nat | extra < q.burst ensures !RefinesAtOwnTimes(q, extra, user) { DrainsTwice(q, extra, user); }
    }
  }

  lemma LoneRunRefines(q: Quota, user: string, start: real, rs: seq<Request>)
    requires q.Valid() && 0.0 <= start && ValidRun(One(TOKEN_BUCKET, q, user), start, rs) && Ceil(q.FillRate()) >= 0
    ensures RefinedBy(q, Ceil(q.FillRate()), user, rs)
  {
    var cs := One(TOKEN_BUCKET, q, user);
    RunUsersKnown(cs, start, rs);
    ReplayIsAdmitted(cs, map[], map[], start, rs, false);
    assert GcraConfigs(cs, false) == One(GCRA, More(q, Ceil(q.FillRate())), user);
  }

  lemma LoneRunRefinesTwice(q: Quota, user: string, start: real, rs: seq<Request>)
    requires q.Valid() && 0.0 <= start && ValidRun(One(TOKEN_BUCKET, q, user), start, rs)
    ensures RefinedBy(q, q.burst, user, rs)
  {
    RunUsersKnown(One(TOKEN_BUCKET, q, user), start, rs);
    TwiceTheBurstAdmits(q, user, map[], map[], start, start, rs);
  }

  lemma EmptyBucketStep(q: Quota, bucket: Option<Value>, r: Request)
    requires q.Valid() && q.burst == 0 && r.Limit? && Ideal.TokenCell(q, bucket, r).response.Admits()
    ensures Ideal.GcraCell(q, None, r).response.Admits() && Ideal.GcraCell(q, None, r).write.None?
  {
    BucketAdmission(q, bucket, r);
    GcraAdmission(q, None, r);
    assert r.cost == 0;
    hide Ideal.TokenCell, Ideal.GcraCell, Quota.EmissionInterval, Left;
  }

  lemma {:induction false} EmptyBucketRefines(q: Quota, user: string, m: Ideal.Memory, rs: seq<Request>)
    requires q.Valid() && q.burst == 0 && UsersKnown(One(TOKEN_BUCKET, q, user), rs)
    ensures var rp := Replay(rs, Ideal.Run(One(TOKEN_BUCKET, q, user), m, rs), false);
      UsersKnown(One(GCRA, q, user), rp) && AllAdmitted(Ideal.Run(One(GCRA, q, user), map[], rp))
    decreases |rs|
  {
    var t, g := One(TOKEN_BUCKET, q, user), One(GCRA, q, user);
    if rs != [] {
      var r := rs[0];
      var (m', a) := Ideal.Serve(t[user], m, r);
      EmptyBucketRefines(q, user, m', rs[1..]);
      assert Ideal.Run(t, m, rs)[1..] == Ideal.Run(t, m', rs[1..]);
      if r.Limit? && a.Admits() {
        EmptyBucketStep(q, Ideal.Cell(m, Plain(user)), r);
        hide Ideal.TokenCell, Ideal.GcraCell;
        RunCons(g, map[], Restamped(r, false), Replay(rs[1..], Ideal.Run(t, m', rs[1..]), false));
      }
    }
  }

  /** With the same quota the token bucket refines GCRA at the requests' own times exactly when its burst is 0
      and it admits nothing that costs. */
  lemma RefinesAtOwnTimesIffEmpty(q: Quota, user: string)
    requires q.Valid()
    ensures RefinesAtOwnTimes(q, 0, user) <==> q.burst == 0
  {
    if q.burst == 0 {
      forall start, rs | 0.0 <= start && ValidRun(One(TOKEN_BUCKET, q, user), start, rs)
        ensures RefinedBy(q, 0, user, rs)
      {
        assert More(q, 0) == q;
        if UsersKnown(One(TOKEN_BUCKET, q, user), rs) { EmptyBucketRefines(q, user, map[], rs); }
      }
    } else {
      Overtakes(q, user);
      hide ValidRun, Overtaking, RefinedBy;
    }
  }
}
