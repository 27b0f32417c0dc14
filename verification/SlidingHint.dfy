/** The memory sliding window's `retry_after`: exactly when waiting that long admits the request. */
module SlidingHint {
  import opened Base
  import opened Store
  import opened Limiters
  import Ideal
  import F = FixedWindow
  import SW = SlidingWindow
  import WB = WindowBounds
  import RS = RedisSlidingWindow
  import H = RetryHints
  import opened SlidingShare
  import opened Estimates

  /** Asked at any time from `start` on, the request is admitted. */
  ghost predicate AdmitsFrom(c: Config, m: Ideal.Memory, user: string, cost: nat, start: real)
    requires c.quota.Valid()
  {
    forall t :: start <= t ==> Ideal.Serve(c, m, Limit(user, cost, t)).1.Admits()
  }

  /** The window has a counter already, and what is counted fits the limit. */
  ghost predicate FitsAlready(m: Ideal.Memory, user: string, q: Quota, now: real)
    requires q.Valid()
  {
    F.CurrentKey(user, now, q.periodSec) in m && FitsAt(m, user, q, 0, now)
  }

  /** A sliding window denies a request. */
  ghost predicate Denied(c: Config, m: Ideal.Memory, user: string, cost: nat, now: real) {
    && c.quota.Valid() && c.algorithm.SLIDING_WINDOW? && UpTo(m, user, c.quota.periodSec, now)
    && !Ideal.Serve(c, m, Limit(user, cost, now)).1.Admits()
  }

  /** What a denial answers and leaves: with the weighted previous count its counter fits the limit exactly if the
      counts did before and the counter was there. */
  lemma Denial(c: Config, m: Ideal.Memory, user: string, cost: nat, now: real)
    requires Denied(c, m, user, cost, now)
    ensures var (m1, a) := Ideal.Serve(c, m, Limit(user, cost, now));
      var (p, w) := (c.quota.periodSec, F.WindowIndex(now, c.quota.periodSec));
      && p >= 1 && cost > 0 && UpTo(m1, user, p, now)
      && a.Decision? && Weighted(m1, user, p, now) == Weighted(m, user, p, now)
      && a.state.retryAfter == SW.RetryAfter(Weighted(m, user, p, now), ShareNow(now, p), p, cost)
      && (FitsAlready(m, user, c.quota, now) <==> FitsAt(m1, user, c.quota, 0, now))
  {
    WB.CountStep(c, m, Limit(user, cost, now), user, F.WindowIndex(now, c.quota.periodSec));
    hide F.WindowIndex, SW.PreviousProportion, SW.Previous, SW.RetryAfter;
  }

  lemma AdmitsIsFits(c: Config, m: Ideal.Memory, user: string, cost: nat, t: real)
    requires c.quota.Valid() && c.algorithm.SLIDING_WINDOW? && cost > 0
    ensures Ideal.Serve(c, m, Limit(user, cost, t)).1.Admits() <==> FitsAt(m, user, c.quota, cost, t)
  {
    hide F.WindowIndex, SW.PreviousProportion, SW.Previous, SW.RetryAfter;
  }

  lemma AdmitsFromIsFitsFrom(c: Config, m: Ideal.Memory, user: string, cost: nat, start: real)
    requires c.quota.Valid() && c.algorithm.SLIDING_WINDOW? && cost > 0
    ensures AdmitsFrom(c, m, user, cost, start) <==> FitsFrom(m, user, c.quota, cost, start)
  {
    hide Ideal.Serve, FitsAt;
    forall t ensures Ideal.Serve(c, m, Limit(user, cost, t)).1.Admits() <==> FitsAt(m, user, c.quota, cost, t) {
      AdmitsIsFits(c, m, user, cost, t);
    }
  }

  /** On an undisturbed key, waiting at least as long as a denial's hint admits the request, if and only if what is due
      when the hint ends is within the limit, counted with the ticks the clock then shows. */
  lemma HintSufficesIffDue(c: Config, m: Ideal.Memory, user: string, cost: nat, now: real)
    requires Denied(c, m, user, cost, now)
    ensures var (m1, a) := Ideal.Serve(c, m, Limit(user, cost, now));
      && c.quota.periodSec >= 1 && a.Decision?
      && (AdmitsFrom(c, m1, user, cost, now + a.state.retryAfter) <==>
          DueAtHint(m1, user, c.quota.periodSec, cost, now, a.state.retryAfter) <= c.quota.limit)
  {
    var (m1, a) := Ideal.Serve(c, m, Limit(user, cost, now));
    Denial(c, m, user, cost, now);
    hide *;
    DeniedIs(c, m, user, cost, now);
    var q, wait := c.quota, a.state.retryAfter;
    RS.HintIsPart(m1, user, q.periodSec, cost, now);
    FitsFromHint(m1, user, q, cost, now, Part(ShareNow(now, q.periodSec), cost, Weighted(m1, user, q.periodSec, now)),
                 wait);
    AdmitsFromIsFitsFrom(c, m1, user, cost, now + wait);
  }

  lemma DeniedIs(c: Config, m: Ideal.Memory, user: string, cost: nat, now: real)
    requires Denied(c, m, user, cost, now)
    ensures c.quota.Valid() && c.algorithm.SLIDING_WINDOW? && c.quota.periodSec >= 1
  {
  }

  /** For a cost within the weighted previous count: a hint of whole milliseconds suffices if and only if the counts
      fitted the limit already, the denied request not being the first of its window; and then any hint suffices with
      one millisecond more. For a larger cost, told to wait for the window to end: if and only if it fits the limit
      with what this window has counted. */
  lemma HintSufficesIffFits(c: Config, m: Ideal.Memory, user: string, cost: nat, now: real)
    requires Denied(c, m, user, cost, now)
    ensures var (m1, a) := Ideal.Serve(c, m, Limit(user, cost, now));
      var (q, wait) := (c.quota, a.state.retryAfter);
      && a.Decision?
      && (cost <= Weighted(m, user, q.periodSec, now) ==>
            && (Whole(wait) ==> (AdmitsFrom(c, m1, user, cost, now + wait) <==> FitsAlready(m, user, q, now)))
            && (FitsAlready(m, user, q, now) ==> AdmitsFrom(c, m1, user, cost, now + wait + 0.001)))
      && (cost > Weighted(m, user, q.periodSec, now) ==>
            (AdmitsFrom(c, m1, user, cost, now + wait) <==>
             WB.Count(m1, user, F.WindowIndex(now, q.periodSec)) + cost <= q.limit))
  {
    HintSufficesIffDue(c, m, user, cost, now);
    Denial(c, m, user, cost, now);
    hide *;
    DeniedIs(c, m, user, cost, now);
    var (m1, p) := (Ideal.Serve(c, m, Limit(user, cost, now)).0, c.quota.periodSec);
    FitsIs(m1, user, c.quota, 0, now);
    if cost <= Weighted(m, user, p, now) {
      DueWhenWhole(m1, user, p, cost, now);
      if FitsAlready(m, user, c.quota, now) { LateHintSuffices(c, m, user, cost, now); }
    } else {
      DueAtTheEnd(m1, user, p, cost, now);
    }
  }

  lemma LateHintSuffices(c: Config, m: Ideal.Memory, user: string, cost: nat, now: real)
    requires Denied(c, m, user, cost, now) && FitsAlready(m, user, c.quota, now)
    requires cost <= Weighted(m, user, c.quota.periodSec, now)
    ensures var (m1, a) := Ideal.Serve(c, m, Limit(user, cost, now));
      a.Decision? && AdmitsFrom(c, m1, user, cost, now + a.state.retryAfter + 0.001)
  {
    var (m1, a) := Ideal.Serve(c, m, Limit(user, cost, now));
    Denial(c, m, user, cost, now);
    hide Ideal.Serve, Weighted, SW.RetryAfter, FitsAt, UpTo, FitsAlready;
    var q, wait := c.quota, a.state.retryAfter;
    RS.HintIsPart(m1, user, q.periodSec, cost, now);
    forall t | now + wait + 0.001 <= t ensures FitsAt(m1, user, q, cost, t) {
      RS.ClockShows(now, t, wait);
      FitsOncePassed(m1, user, q, cost, now, t);
    }
    AdmitsFromIsFitsFrom(c, m1, user, cost, now + wait + 0.001);
  }

  // ----- on the store

  /** Asked once, at any time from `start` on, the store admits the request. */
  ghost predicate StoreAdmitsFrom(c: Config, s: Store, user: string, cost: nat, start: real)
    requires c.quota.Valid()
  {
    forall t :: start <= t ==> Serve(c, s, Limit(user, cost, t)).1.Admits()
  }

  /** A store that has served a run has room for this request and for its repetition at any later time. */
  ghost predicate Repeatable(cs: Configs, maxSize: nat, start: real, rs: seq<Request>, user: string, cost: nat,
                             now: real)
  {
    && user in cs && cs[user].algorithm.SLIDING_WINDOW?
    && forall t :: now <= t ==> Reached(cs, maxSize, start, rs, [Limit(user, cost, now), Limit(user, cost, t)])
  }

  /** Such a store answers the request, and its repetition at any time, as the map the run leaves. */
  lemma RepeatsAsOnMap(cs: Configs, maxSize: nat, start: real, rs: seq<Request>, user: string, cost: nat, now: real,
                       from: real)
    requires Repeatable(cs, maxSize, start, rs, user, cost, now) && now <= from
    ensures ValidConfigs(cs) && UsersKnown(cs, rs)
    ensures user in cs && cs[user].quota.Valid() && cs[user].quota.periodSec >= 1
    ensures var (c, m) := (cs[user], Ideal.Final(cs, map[], rs));
      var (s1, a) := Serve(c, Final(cs, EmptyStore(maxSize), rs), Limit(user, cost, now));
      var (m1, b) := Ideal.Serve(c, m, Limit(user, cost, now));
      && a == b && a.Decision? && (a.limited <==> Denied(c, m, user, cost, now))
      && (StoreAdmitsFrom(c, s1, user, cost, from) <==> AdmitsFrom(c, m1, user, cost, from))
  {
    hide Serve, Ideal.Serve, Final, Ideal.Final, Reached, Sane, UpTo;
    var r := Limit(user, cost, now);
    assert Reached(cs, maxSize, start, rs, [r, Limit(user, cost, now)]);
    ReachedTwice(cs, maxSize, start, rs, r, r);
    var (c, m) := (cs[user], Ideal.Final(cs, map[], rs));
    var s1, m1 := Serve(c, Final(cs, EmptyStore(maxSize), rs), r).0, Ideal.Serve(c, m, r).0;
    H.MapDecides(c, m, user, cost, now);
    SaneIsUpTo(c, m, user, now);
    forall t | from <= t
      ensures Serve(c, s1, Limit(user, cost, t)).1.Admits() <==> Ideal.Serve(c, m1, Limit(user, cost, t)).1.Admits()
    {
      assert Reached(cs, maxSize, start, rs, [r, Limit(user, cost, t)]);
      ReachedTwice(cs, maxSize, start, rs, r, Limit(user, cost, t));
    }
  }

  /** Main result: on a store that has served any run, a denied request is admitted whenever it comes again no earlier
      than its hint, if and only if what is due when the hint ends is within the limit. The map is what the run leaves;
      `WindowBounds.CountIsCounted` says what its counters are. */
  lemma StoreHintSufficesIffDue(cs: Configs, maxSize: nat, start: real, rs: seq<Request>, user: string, cost: nat,
                                now: real)
    requires Repeatable(cs, maxSize, start, rs, user, cost, now)
    ensures ValidConfigs(cs) && UsersKnown(cs, rs) && cs[user].quota.periodSec >= 1
    ensures var c := cs[user];
      var (s1, a) := Serve(c, Final(cs, EmptyStore(maxSize), rs), Limit(user, cost, now));
      var m1 := Ideal.Serve(c, Ideal.Final(cs, map[], rs), Limit(user, cost, now)).0;
      && a.Decision?
      && (a.limited ==>
            (StoreAdmitsFrom(c, s1, user, cost, now + a.state.retryAfter) <==>
             DueAtHint(m1, user, c.quota.periodSec, cost, now, a.state.retryAfter) <= c.quota.limit))
  {
    hide *;
    RepeatsAsOnMap(cs, maxSize, start, rs, user, cost, now, now);
    var (c, m) := (cs[user], Ideal.Final(cs, map[], rs));
    var a := Ideal.Serve(c, m, Limit(user, cost, now)).1;
    if Denied(c, m, user, cost, now) {
      HintSufficesIffDue(c, m, user, cost, now);
      HintNotNegative(c, m, user, cost, now);
      RepeatsAsOnMap(cs, maxSize, start, rs, user, cost, now, now + a.state.retryAfter);
    }
  }

  /** Main result: the same in the two cases that need no ticks, a hint of whole milliseconds and one that goes to the
      end of the window. */
  lemma StoreHintSufficesIffFits(cs: Configs, maxSize: nat, start: real, rs: seq<Request>, user: string, cost: nat,
                                 now: real)
    requires Repeatable(cs, maxSize, start, rs, user, cost, now)
    ensures ValidConfigs(cs) && UsersKnown(cs, rs) && cs[user].quota.periodSec >= 1
    ensures var (c, m) := (cs[user], Ideal.Final(cs, map[], rs));
      var (s1, a) := Serve(c, Final(cs, EmptyStore(maxSize), rs), Limit(user, cost, now));
      var (m1, p) := (Ideal.Serve(c, m, Limit(user, cost, now)).0, c.quota.periodSec);
      && a.Decision?
      && (a.limited && cost <= Weighted(m, user, p, now) && Whole(a.state.retryAfter) ==>
            (StoreAdmitsFrom(c, s1, user, cost, now + a.state.retryAfter) <==> FitsAlready(m, user, c.quota, now)))
      && (a.limited && cost > Weighted(m, user, p, now) ==>
            (StoreAdmitsFrom(c, s1, user, cost, now + a.state.retryAfter) <==>
             WB.Count(m1, user, F.WindowIndex(now, p)) + cost <= c.quota.limit))
  {
    hide *;
    RepeatsAsOnMap(cs, maxSize, start, rs, user, cost, now, now);
    var (c, m) := (cs[user], Ideal.Final(cs, map[], rs));
    var a := Ideal.Serve(c, m, Limit(user, cost, now)).1;
    if Denied(c, m, user, cost, now) {
      HintSufficesIffFits(c, m, user, cost, now);
      HintNotNegative(c, m, user, cost, now);
      RepeatsAsOnMap(cs, maxSize, start, rs, user, cost, now, now + a.state.retryAfter);
    }
  }

  lemma HintNotNegative(c: Config, m: Ideal.Memory, user: string, cost: nat, now: real)
    requires Denied(c, m, user, cost, now)
    ensures var a := Ideal.Serve(c, m, Limit(user, cost, now)).1; a.Decision? && a.state.retryAfter >= 0.0
  {
    Denial(c, m, user, cost, now);
    hide *;
    DeniedIs(c, m, user, cost, now);
    RS.HintIsPart(Ideal.Serve(c, m, Limit(user, cost, now)).0, user, c.quota.periodSec, cost, now);
  }

  lemma SaneIsUpTo(c: Config, m: Ideal.Memory, user: string, now: real)
    requires c.quota.Valid() && c.algorithm.SLIDING_WINDOW? && Sane(c, m, user, now)
    ensures c.quota.periodSec >= 1 && UpTo(m, user, c.quota.periodSec, now)
  {
  }

  // ----- where it falls short

  /** The map one or two requests leave, which come in order. */
  lemma OneRequest(cs: Configs, r: Request)
    requires ValidConfigs(cs) && r.user in cs && 0.0 <= r.now
    ensures UsersKnown(cs, [r]) && ValidRun(cs, 0.0, [r])
    ensures Ideal.Final(cs, map[], [r]) == Ideal.Serve(cs[r.user], map[], r).0
  {
    hide Ideal.Serve;
    assert [r][1..] == [];
  }

  lemma TwoRequests(cs: Configs, r1: Request, r2: Request)
    requires ValidConfigs(cs) && r1.user in cs && r2.user in cs && 0.0 <= r1.now <= r2.now
    ensures UsersKnown(cs, [r1, r2]) && ValidRun(cs, 0.0, [r1, r2])
    ensures Ideal.Final(cs, map[], [r1, r2]) == Ideal.Serve(cs[r2.user], Ideal.Serve(cs[r1.user], map[], r1).0, r2).0
  {
    hide Ideal.Serve;
    assert [r1, r2][1..] == [r2] && [r2][1..] == [];
    assert ValidRun(cs, r2.now, []);
    assert ValidRun(cs, r1.now, [r2]);
    var m1 := Ideal.Serve(cs[r1.user], map[], r1).0;
    assert Ideal.Final(cs, m1, [r2]) == Ideal.Serve(cs[r2.user], m1, r2).0;
  }

  /** The first request of a window is counted when it is denied: ten admitted in window 0 of a ten-a-second limit, and
      the first request of window 1 is denied again when its whole hint has gone by. */
  lemma FirstRequestFallsShort(user: string)
    ensures var c := Config(SLIDING_WINDOW, Quota(10, 1, 10));
      var cs: Configs := map[user := c];
      var rs := [Limit(user, 10, 0.0)];
      && ValidConfigs(cs) && UsersKnown(cs, rs) && ValidRun(cs, 0.0, rs)
      && var (m1, a) := Ideal.Serve(c, Ideal.Final(cs, map[], rs), Limit(user, 1, 1.0));
         && a.Decision? && a.limited && a.state.retryAfter == 0.1
         && !Ideal.Serve(c, m1, Limit(user, 1, 1.0 + a.state.retryAfter)).1.Admits()
  {
    var c := Config(SLIDING_WINDOW, Quota(10, 1, 10));
    var cs: Configs := map[user := c];
    OneRequest(cs, Limit(user, 10, 0.0));
    assert Seconds(0.0) == 0 && Seconds(1.0) == 1 && Seconds(1.1) == 1;
    assert Millis(0.0) == 0 && Millis(1.0) == 1000 && Millis(1.1) == 1100;
    assert SW.PreviousProportion(0, 1) == 1.0 && SW.PreviousProportion(1000, 1) == 1.0;
    assert SW.PreviousProportion(1100, 1) == 0.9;
    assert Ideal.Final(cs, map[], [Limit(user, 10, 0.0)]) == map[Window(user, 0) := IntVal(10)];
  }

  /** A hint that is no whole number of milliseconds can fall short though the counts fitted: 2000 admitted in the first
      of one-second windows, 200 early in the second, and then 201 asked for. */
  lemma FractionFallsShort(user: string)
    ensures var c := Config(SLIDING_WINDOW, Quota(2000, 1, 2000));
      var cs: Configs := map[user := c];
      var rs := [Limit(user, 2000, 0.0), Limit(user, 200, 1.1)];
      && ValidConfigs(cs) && UsersKnown(cs, rs) && ValidRun(cs, 0.0, rs)
      && var m := Ideal.Final(cs, map[], rs);
         var (m1, a) := Ideal.Serve(c, m, Limit(user, 201, 1.1));
         && FitsAlready(m, user, c.quota, 1.1) && a.Decision? && a.limited && a.state.retryAfter == 0.1005
         && !Ideal.Serve(c, m1, Limit(user, 201, 1.1 + a.state.retryAfter)).1.Admits()
  {
    var c := Config(SLIDING_WINDOW, Quota(2000, 1, 2000));
    var cs: Configs := map[user := c];
    TwoRequests(cs, Limit(user, 2000, 0.0), Limit(user, 200, 1.1));
    FractionRun(user);
    var m: Ideal.Memory := map[Window(user, 0) := IntVal(2000), Window(user, 1) := IntVal(200)];
    assert Seconds(1.1) == 1 && Millis(1.1) == 1100 && Seconds(1.2005) == 1 && Millis(1.2005) == 1200;
    assert SW.PreviousProportion(1100, 1) == 0.9 && SW.PreviousProportion(1200, 1) == 0.8;
    assert SW.Previous(2000, 0.9) == 1800 && SW.Previous(2000, 0.8) == 1600;
    var (m1, a) := Ideal.Serve(c, m, Limit(user, 201, 1.1));
    assert m1 == m;
  }

  lemma FractionRun(user: string)
    ensures var c := Config(SLIDING_WINDOW, Quota(2000, 1, 2000));
      var none: Ideal.Memory := map[];
      var m1 := Ideal.Serve(c, none, Limit(user, 2000, 0.0)).0;
      Ideal.Serve(c, m1, Limit(user, 200, 1.1)).0 ==
        map[Window(user, 0) := IntVal(2000), Window(user, 1) := IntVal(200)]
  {
    var c := Config(SLIDING_WINDOW, Quota(2000, 1, 2000));
    var none: Ideal.Memory := map[];
    assert Seconds(0.0) == 0 && Millis(0.0) == 0 && Seconds(1.1) == 1 && Millis(1.1) == 1100;
    assert SW.PreviousProportion(0, 1) == 1.0 && SW.PreviousProportion(1100, 1) == 0.9;
    assert SW.Previous(0, 1.0) == 0 && SW.Previous(2000, 0.9) == 1800;
    assert Ideal.Serve(c, none, Limit(user, 2000, 0.0)).0 == map[Window(user, 0) := IntVal(2000)];
  }
}
