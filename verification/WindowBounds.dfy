/** How much the window limiters admit, over whole runs. */
module WindowBounds {
  import opened Base
  import opened Store
  import opened Limiters
  import opened Admission
  import Ideal
  import F = FixedWindow
  import SW = SlidingWindow
  import W = WindowRecency
  import Transparency

  function Count(m: Ideal.Memory, user: string, i: int): int { F.CountOf(Ideal.Cell(m, Window(user, i))) }

  /** Counters are integers and never negative. */
  ghost predicate Counters(m: Ideal.Memory, user: string) {
    forall i {:trigger Window(user, i)} ::
      Window(user, i) in m ==> m[Window(user, i)].IntVal? && m[Window(user, i)].i >= 0
  }

  /** Admitted in window `i` no later than `hi`. */
  function AdmittedBy(r: Request, a: Response, user: string, p: int, i: int, hi: real): nat
    requires p >= 1
  {
    if r.Limit? && a.Admits() && r.user == user && F.WindowIndex(r.now, p) == i && r.now <= hi then r.cost else 0
  }

  function AdmittedIn(rs: seq<Request>, answers: seq<Response>, user: string, p: int, i: int, hi: real): nat
    requires |answers| == |rs| && p >= 1
    decreases |rs|
  {
    if rs == [] then 0
    else AdmittedBy(rs[0], answers[0], user, p, i, hi) + AdmittedIn(rs[1..], answers[1..], user, p, i, hi)
  }

  lemma AdmittedStep(cs: Configs, m: Ideal.Memory, rs: seq<Request>, user: string, p: int, i: int, hi: real)
    requires ValidConfigs(cs) && UsersKnown(cs, rs) && rs != [] && p >= 1
    ensures UsersKnown(cs, rs[1..])
    ensures var (m', a) := Ideal.Serve(cs[rs[0].user], m, rs[0]);
      AdmittedIn(rs, Ideal.Run(cs, m, rs), user, p, i, hi) ==
        AdmittedBy(rs[0], a, user, p, i, hi) + AdmittedIn(rs[1..], Ideal.Run(cs, m', rs[1..]), user, p, i, hi)
  {
    var (m', a) := Ideal.Serve(cs[rs[0].user], m, rs[0]);
    assert Ideal.Run(cs, m, rs)[1..] == Ideal.Run(cs, m', rs[1..]);
  }

  /** A request of another user, or of another window, leaves a counter alone; a counter never drops. */
  lemma CountStep(c: Config, m: Ideal.Memory, r: Request, user: string, i: int)
    requires W.IsWindow(c) && Counters(m, user)
    ensures var (m', a) := Ideal.Serve(c, m, r);
      var mine := r.Limit? && r.user == user && F.WindowIndex(r.now, c.quota.periodSec) == i;
      && Counters(m', user) && Count(m, user, i) >= 0
      && Count(m, user, i) <= Count(m', user, i)
      && (!mine ==> Count(m', user, i) == Count(m, user, i))
      && (mine && a.Admits() ==> Count(m', user, i) == Count(m, user, i) + r.cost)
  {
    hide SW.PreviousProportion, SW.RetryAfter, SW.Previous, F.ResetAfter;
  }

  /** What an admission leaves room for: the count, and for the sliding window the share of the previous one. */
  lemma AdmissionFits(c: Config, m: Ideal.Memory, r: Request)
    requires W.IsWindow(c) && r.Limit? && Counters(m, r.user) && Ideal.Serve(c, m, r).1.Admits() && r.cost > 0
    ensures var p := c.quota.periodSec;
      var w := F.WindowIndex(r.now, p);
      && (c.algorithm.FIXED_WINDOW? ==> Count(m, r.user, w) + r.cost <= c.quota.limit)
      && (c.algorithm.SLIDING_WINDOW? ==>
            var share := SW.PreviousProportion(Millis(r.now), p);
            SW.Previous(Count(m, r.user, w - 1), share) + Count(m, r.user, w) + r.cost <= c.quota.limit)
  {
    hide SW.PreviousProportion, SW.RetryAfter, SW.Previous, F.ResetAfter;
  }

  lemma ShareNotNegative(n: int, share: real)
    requires n >= 0 && share >= 0.0
    ensures SW.Previous(n, share) >= 0
  {
    MulMonotone(0.0, share, n as real);
  }

  /** A request of another user, whatever its limiter, leaves the counters alone. */
  lemma OthersKeepCounters(c: Config, m: Ideal.Memory, r: Request, user: string)
    requires c.quota.Valid() && r.user != user
    ensures var m' := Ideal.Serve(c, m, r).0;
      && (forall i {:trigger Window(user, i)} :: Ideal.Cell(m', Window(user, i)) == Ideal.Cell(m, Window(user, i)))
      && (Counters(m, user) ==> Counters(m', user))
  {
    hide Ideal.CellServe, SW.Decide, F.Report, SW.PreviousProportion;
    var m' := Ideal.Serve(c, m, r).0;
    assert forall i {:trigger Window(user, i)} :: Ideal.Cell(m', Window(user, i)) == Ideal.Cell(m, Window(user, i));
  }

  /** What one request of a run does to a user's counter. */
  lemma RunCountStep(cs: Configs, m: Ideal.Memory, r: Request, user: string, i: int)
    requires ValidConfigs(cs) && r.user in cs && user in cs && W.IsWindow(cs[user]) && Counters(m, user)
    ensures var (m', a) := Ideal.Serve(cs[r.user], m, r);
      var mine := r.Limit? && r.user == user && F.WindowIndex(r.now, cs[user].quota.periodSec) == i;
      && Counters(m', user) && 0 <= Count(m, user, i) <= Count(m', user, i)
      && (mine && a.Admits() ==> Count(m', user, i) == Count(m, user, i) + r.cost)
  {
    hide Ideal.Serve, Counters, F.WindowIndex;
    if r.user == user { CountStep(cs[user], m, r, user, i); } else { OthersKeepCounters(cs[r.user], m, r, user); }
    CountNotNegative(m, user, i);
  }

  lemma CountNotNegative(m: Ideal.Memory, user: string, i: int)
    requires Counters(m, user)
    ensures Count(m, user, i) >= 0
  {
  }

  /** No window of either limiter admits more than the limit. */
  lemma {:induction false} WindowAdmitsLimit(cs: Configs, m: Ideal.Memory, rs: seq<Request>, user: string, i: int,
                                             hi: real)
    requires ValidConfigs(cs) && UsersKnown(cs, rs) && user in cs && W.IsWindow(cs[user]) && Counters(m, user)
    ensures var n := AdmittedIn(rs, Ideal.Run(cs, m, rs), user, cs[user].quota.periodSec, i, hi);
      n > 0 ==> Count(m, user, i) + n <= cs[user].quota.limit
    decreases |rs|
  {
    hide Ideal.Serve, Ideal.Run, Counters, Count, SW.PreviousProportion, F.WindowIndex;
    if rs != [] {
      var r, p := rs[0], cs[user].quota.periodSec;
      var (m', a) := Ideal.Serve(cs[r.user], m, r);
      AdmittedStep(cs, m, rs, user, p, i, hi);
      RunCountStep(cs, m, r, user, i);
      WindowAdmitsLimit(cs, m', rs[1..], user, i, hi);
      if AdmittedBy(r, a, user, p, i, hi) > 0 {
        AdmissionFits(cs[user], m, r);
        CountNotNegative(m, user, i - 1);
        if cs[user].algorithm.SLIDING_WINDOW? {
          SharePositive(r.now, p);
          ShareNotNegative(Count(m, user, i - 1), SW.PreviousProportion(Millis(r.now), p));
        }
      }
    }
  }

  lemma SharePositive(now: real, p: int)
    requires p >= 1
    ensures 0.0 < SW.PreviousProportion(Millis(now), p) <= 1.0
  {
    var ms, pms := (Millis(now) % (p * 1000)) as real, (p * 1000) as real;
    DivBounds(ms, pms, 1.0);
    DivBounds(ms, pms, 0.0);
  }

  // ----- the sliding window's bound

  /** Within a window the share of the previous one only shrinks. */
  lemma ShareShrinks(now: real, later: real, p: int)
    requires p >= 1 && now <= later && F.WindowIndex(now, p) == F.WindowIndex(later, p)
    ensures SW.PreviousProportion(Millis(now), p) >= SW.PreviousProportion(Millis(later), p)
  {
    W.WindowsAdvance(now, later, p);
    W.WindowsAdvance(later, later, p);
    MillisInWindow(now, p);
    MillisInWindow(later, p);
    hide F.WindowIndex, Millis;
    assert 0 <= Millis(now) % (p * 1000) <= Millis(later) % (p * 1000);
    DivOrder((Millis(now) % (p * 1000)) as real, (Millis(later) % (p * 1000)) as real, (p * 1000) as real);
  }

  lemma DivOrder(a: real, b: real, d: real)
    requires a <= b && d > 0.0
    ensures a / d <= b / d
  {
    DivBounds(a, d, b / d);
    DivBounds(b, d, b / d);
  }

  lemma MillisInWindow(now: real, p: int)
    requires p >= 1
    ensures Millis(now) % (p * 1000) == Millis(now) - F.WindowIndex(now, p) * (p * 1000)
  {
    W.WindowsAdvance(now, now, p);
    var w, d := F.WindowIndex(now, p), p * 1000;
    hide F.WindowIndex;
    assert w * d == (w * p) * 1000 && (w + 1) * d == ((w + 1) * p) * 1000;
    Remainder(Millis(now), w, d);
  }

  lemma Remainder(x: int, w: int, d: int)
    requires d >= 1 && w * d <= x < (w + 1) * d
    ensures x % d == x - w * d
  {
    var k := x / d;
    assert x == k * d + x % d;
    if k < w { W.MulInt(k + 1, w, d); }
    if k > w { W.MulInt(w + 1, k, d); }
  }

  lemma PreviousMonotone(n: int, n': int, share: real, share': real)
    requires 0 <= n <= n' && 0.0 <= share <= share'
    ensures SW.Previous(n, share) <= SW.Previous(n', share')
  {
    LargerShare(n, share, share');
    LargerCount(n, n', share');
    hide *;
  }

  lemma LargerShare(n: int, share: real, share': real)
    requires 0 <= n && share <= share'
    ensures SW.Previous(n, share) <= SW.Previous(n, share')
  {
    MulMonotone(share, share', n as real);
    FloorMonotone(share * n as real, share' * n as real);
  }

  lemma LargerCount(n: int, n': int, share: real)
    requires n <= n' && 0.0 <= share
    ensures SW.Previous(n, share) <= SW.Previous(n', share)
  {
    MulMonotoneLeft(share, n as real, n' as real);
    FloorMonotone(share * n as real, share * n' as real);
  }

  /** Nothing later than `hi`, and no window before the clock's, is still to be admitted. */
  lemma {:induction false} NothingOutside(cs: Configs, m: Ideal.Memory, start: real, rs: seq<Request>, user: string,
                                          p: int, i: int, hi: real)
    requires ValidConfigs(cs) && UsersKnown(cs, rs) && ValidRun(cs, start, rs) && p >= 1
    requires start > hi || F.WindowIndex(start, p) > i
    ensures AdmittedIn(rs, Ideal.Run(cs, m, rs), user, p, i, hi) == 0
    decreases |rs|
  {
    hide Ideal.Serve, Ideal.Run, F.WindowIndex;
    if rs != [] {
      W.WindowsAdvance(start, rs[0].now, p);
      AdmittedStep(cs, m, rs, user, p, i, hi);
      NothingOutside(cs, Ideal.Serve(cs[rs[0].user], m, rs[0]).0, rs[0].now, rs[1..], user, p, i, hi);
    }
  }

  /** What `user` is admitted in the window of `e` by `e`, and the share of the previous window left at `e`, stay within
      the limit together. */
  lemma {:induction false} SlidingBound(cs: Configs, m: Ideal.Memory, start: real, rs: seq<Request>, user: string,
                                        e: real)
    requires ValidConfigs(cs) && UsersKnown(cs, rs) && user in cs && cs[user].algorithm.SLIDING_WINDOW?
    requires ValidRun(cs, start, rs) && Counters(m, user)
    ensures var p := cs[user].quota.periodSec;
      var w, share, answers := F.WindowIndex(e, p), SW.PreviousProportion(Millis(e), p), Ideal.Run(cs, m, rs);
      var n, before := AdmittedIn(rs, answers, user, p, w, e), AdmittedIn(rs, answers, user, p, w - 1, e);
      n > 0 ==> SW.Previous(Count(m, user, w - 1) + before, share) + Count(m, user, w) + n <= cs[user].quota.limit
    decreases |rs|
  {
    hide Ideal.Serve, Ideal.Run, Counters, Count, SW.PreviousProportion, SW.Previous, F.WindowIndex;
    if rs != [] {
      var r, p := rs[0], cs[user].quota.periodSec;
      var w, share := F.WindowIndex(e, p), SW.PreviousProportion(Millis(e), p);
      var (m', a) := Ideal.Serve(cs[r.user], m, r);
      var rest := Ideal.Run(cs, m', rs[1..]);
      AdmittedStep(cs, m, rs, user, p, w, e);
      AdmittedStep(cs, m, rs, user, p, w - 1, e);
      RunCountStep(cs, m, r, user, w);
      RunCountStep(cs, m, r, user, w - 1);
      SlidingBound(cs, m', r.now, rs[1..], user, e);
      SharePositive(e, p);
      var before := AdmittedIn(rs[1..], rest, user, p, w - 1, e);
      var old_, new_ := Count(m, user, w - 1), Count(m', user, w - 1);
      PreviousMonotone(old_ + AdmittedBy(r, a, user, p, w - 1, e) + before, new_ + before, share, share);
      if AdmittedBy(r, a, user, p, w, e) > 0 {
        AdmissionFits(cs[user], m, r);
        W.WindowsAdvance(r.now, e, p);
        NothingOutside(cs, m', r.now, rs[1..], user, p, w - 1, e);
        ShareShrinks(r.now, e, p);
        PreviousMonotone(old_, old_, share, SW.PreviousProportion(Millis(r.now), p));
      }
    }
  }

  /** An interval no longer than a period that ends in window w holds nothing but windows w - 1 and w. */
  lemma {:induction false} IntervalIsTwoWindows(rs: seq<Request>, answers: seq<Response>, user: string, p: int,
                                                lo: real, hi: real)
    requires |answers| == |rs| && p >= 1 && hi - p as real <= lo
    ensures AdmittedCost(rs, answers, user, lo, hi) <=
      AdmittedIn(rs, answers, user, p, F.WindowIndex(hi, p) - 1, hi) +
      AdmittedIn(rs, answers, user, p, F.WindowIndex(hi, p), hi)
    decreases |rs|
  {
    if rs != [] {
      var t := rs[0].now;
      IntervalIsTwoWindows(rs[1..], answers[1..], user, p, lo, hi);
      if lo <= t <= hi { AtMostOneBack(t, hi, p); }
      hide F.WindowIndex;
    }
  }

  lemma AtMostOneBack(t: real, hi: real, p: int)
    requires p >= 1 && hi - p as real <= t <= hi
    ensures F.WindowIndex(hi, p) - 1 <= F.WindowIndex(t, p) <= F.WindowIndex(hi, p)
  {
    hide *;
    assert 1 * p == p;
    assert hi - p as real + (1 * p) as real == hi;
    W.PeriodsOn(hi - p as real, 1, p);
    W.WindowsAdvance(hi - p as real, t, p);
    W.WindowsAdvance(t, hi, p);
  }

  /** The elapsed fraction of what the previous window admitted, rounded up. */
  function ElapsedPart(before: nat, share: real): int { Ceil((1.0 - share) * before as real) }

  /** The sliding window's own rounding: what it does not charge for the previous window is its elapsed part. */
  lemma ShareIsRest(before: nat, share: real)
    requires 0.0 <= share <= 1.0
    ensures before - SW.Previous(before, share) == ElapsedPart(before, share) >= 0
  {
    assert (1.0 - share) * before as real == before as real - share * before as real;
    MulMonotone(share, 1.0, before as real);
  }

  lemma IdealSlidingBound(cs: Configs, m: Ideal.Memory, start: real, rs: seq<Request>, user: string, e: real)
    requires ValidConfigs(cs) && UsersKnown(cs, rs) && user in cs && cs[user].algorithm.SLIDING_WINDOW?
    requires ValidRun(cs, start, rs) && m == map[]
    ensures var p, answers := cs[user].quota.periodSec, Ideal.Run(cs, m, rs);
      var before := AdmittedIn(rs, answers, user, p, F.WindowIndex(e, p) - 1, e);
      && before <= cs[user].quota.limit
      && AdmittedCost(rs, answers, user, e - p as real, e)
           <= cs[user].quota.limit + ElapsedPart(before, SW.PreviousProportion(Millis(e), p))
  {
    hide SW.PreviousProportion, SW.Previous, F.WindowIndex, Millis;
    hide Ideal.Run, AdmittedCost, AdmittedIn, ElapsedPart, ValidRun;
    var p, answers := cs[user].quota.periodSec, Ideal.Run(cs, m, rs);
    var w, share := F.WindowIndex(e, p), SW.PreviousProportion(Millis(e), p);
    WindowAdmitsLimit(cs, m, rs, user, w - 1, e);
    SlidingBound(cs, m, start, rs, user, e);
    IntervalIsTwoWindows(rs, answers, user, p, e - p as real, e);
    SharePositive(e, p);
    ShareIsRest(AdmittedIn(rs, answers, user, p, w - 1, e), share);
  }

  /** Main result: in any interval of one period, a sliding window admits at most limit + ceil(f * P), where f is the
      fraction of the last window elapsed and P what the window before admitted, whatever limiters share the store. */
  lemma SlidingWindowBound(cs: Configs, maxSize: nat, start: real, rs: seq<Request>, user: string, e: real)
    requires ValidConfigs(cs) && user in cs && cs[user].algorithm.SLIDING_WINDOW?
    requires 0 < maxSize && Transparency.Fits(cs, maxSize, rs) && ValidRun(cs, start, rs)
    ensures UsersKnown(cs, rs)
    ensures var p, answers := cs[user].quota.periodSec, Run(cs, EmptyStore(maxSize), rs);
      var before := AdmittedIn(rs, answers, user, p, F.WindowIndex(e, p) - 1, e);
      && before <= cs[user].quota.limit
      && AdmittedCost(rs, answers, user, e - p as real, e)
           <= cs[user].quota.limit + ElapsedPart(before, SW.PreviousProportion(Millis(e), p))
  {
    hide *;
    Transparency.EmptyStoreIsTransparent(cs, maxSize, start, rs);
    IdealSlidingBound(cs, map[], start, rs, user, e);
  }

  // ----- the fixed window's prefix

  /** What `user` asked for in window `i`, admitted or not. */
  function Asked(rs: seq<Request>, user: string, p: int, i: int): nat
    requires p >= 1
  {
    if rs == [] then 0 else
    var mine := rs[0].Limit? && rs[0].user == user && F.WindowIndex(rs[0].now, p) == i;
    (if mine then rs[0].cost else 0) + Asked(rs[1..], user, p, i)
  }

  /** The fixed window's counter is all that was asked for, denials included. */
  lemma {:induction false} CountIsAsked(cs: Configs, m: Ideal.Memory, rs: seq<Request>, user: string, i: int)
    requires ValidConfigs(cs) && UsersKnown(cs, rs) && user in cs && cs[user].algorithm.FIXED_WINDOW?
    ensures Count(Ideal.Final(cs, m, rs), user, i) == Count(m, user, i) + Asked(rs, user, cs[user].quota.periodSec, i)
    decreases |rs|
  {
    if rs != [] {
      CountIsAsked(cs, Ideal.Serve(cs[rs[0].user], m, rs[0]).0, rs[1..], user, i);
      if rs[0].user == user {
        FixedCountStep(cs[user], m, rs[0], i);
      } else {
        OthersKeepCounters(cs[rs[0].user], m, rs[0], user);
      }
      hide Ideal.Serve, F.WindowIndex;
    }
  }

  lemma FixedCountStep(c: Config, m: Ideal.Memory, r: Request, i: int)
    requires W.IsWindow(c) && c.algorithm.FIXED_WINDOW?
    ensures Count(Ideal.Serve(c, m, r).0, r.user, i) ==
      Count(m, r.user, i) + (if r.Limit? && F.WindowIndex(r.now, c.quota.periodSec) == i then r.cost else 0)
  {
    hide F.WindowIndex, F.Report, F.ResetAfter;
  }

  lemma FixedAdmission(c: Config, m: Ideal.Memory, r: Request)
    requires W.IsWindow(c) && c.algorithm.FIXED_WINDOW? && r.Limit?
    ensures Ideal.Serve(c, m, r).1.Admits() <==>
      r.cost == 0 || Count(m, r.user, F.WindowIndex(r.now, c.quota.periodSec)) + r.cost <= c.quota.limit
  {
    hide F.WindowIndex, F.ResetAfter;
  }

  /** Main result: a fixed-window request is admitted exactly when all its user asked for in its window,
      itself included, is within the limit (or it costs nothing): a window admits the longest prefix that fits. */
  lemma FixedWindowAdmitsPrefix(cs: Configs, maxSize: nat, start: real, rs: seq<Request>, r: Request)
    requires ValidConfigs(cs) && r.Limit? && r.user in cs && cs[r.user].algorithm.FIXED_WINDOW?
    requires 0 < maxSize && Transparency.Fits(cs, maxSize, rs + [r]) && ValidRun(cs, start, rs + [r])
    ensures UsersKnown(cs, rs)
    ensures var q := cs[r.user].quota;
      Serve(cs[r.user], Final(cs, EmptyStore(maxSize), rs), r).1.Admits() <==>
        r.cost == 0 || Asked(rs, r.user, q.periodSec, F.WindowIndex(r.now, q.periodSec)) + r.cost <= q.limit
  {
    var none: Ideal.Memory := map[];
    var i := F.WindowIndex(r.now, cs[r.user].quota.periodSec);
    assert Count(none, r.user, i) == 0;
    hide *;
    Transparency.RequestAfterRun(cs, maxSize, start, rs, r);
    CountIsAsked(cs, none, rs, r.user, i);
    WindowHasQuota(cs, r.user);
    FixedAdmission(cs[r.user], Ideal.Final(cs, none, rs), r);
  }

  lemma WindowHasQuota(cs: Configs, user: string)
    requires ValidConfigs(cs) && user in cs && !cs[user].algorithm.IsBucket()
    ensures W.IsWindow(cs[user])
  {
  }

  /** No interval of one period admits more than twice the limit of either window limiter. */
  lemma WindowsAdmitTwiceLimit(cs: Configs, maxSize: nat, start: real, rs: seq<Request>, user: string, lo: real,
                               hi: real)
    requires ValidConfigs(cs) && user in cs && W.IsWindow(cs[user]) && 0 < maxSize && Transparency.Fits(cs, maxSize, rs)
    requires ValidRun(cs, start, rs) && hi - cs[user].quota.periodSec as real <= lo
    ensures UsersKnown(cs, rs)
    ensures AdmittedCost(rs, Run(cs, EmptyStore(maxSize), rs), user, lo, hi) <= 2 * cs[user].quota.limit
  {
    hide Transparency.Fits, F.WindowIndex, Ideal.Run, Run, AdmittedCost, AdmittedIn;
    var none: Ideal.Memory := map[];
    var p := cs[user].quota.periodSec;
    Transparency.EmptyStoreIsTransparent(cs, maxSize, start, rs);
    var answers := Run(cs, EmptyStore(maxSize), rs);
    WindowAdmitsLimit(cs, none, rs, user, F.WindowIndex(hi, p) - 1, hi);
    WindowAdmitsLimit(cs, none, rs, user, F.WindowIndex(hi, p), hi);
    IntervalIsTwoWindows(rs, answers, user, p, lo, hi);
  }

  // ----- the sliding window's decision, from the history

  /** What `user`'s requests count for in window `i`: the first one always, the others if admitted. */
  function Counted(rs: seq<Request>, answers: seq<Response>, user: string, p: int, i: int, begun: bool): nat
    requires |answers| == |rs| && p >= 1
    decreases |rs|
  {
    if rs == [] then 0 else
    var mine := rs[0].Limit? && rs[0].user == user && F.WindowIndex(rs[0].now, p) == i;
    var rest := Counted(rs[1..], answers[1..], user, p, i, begun || mine);
    (if mine && (!begun || answers[0].Admits()) then rs[0].cost else 0) + rest
  }

  lemma SlidingCountStep(c: Config, m: Ideal.Memory, r: Request, i: int)
    requires W.IsWindow(c) && c.algorithm.SLIDING_WINDOW?
    ensures var (m', a) := Ideal.Serve(c, m, r);
      var mine := r.Limit? && F.WindowIndex(r.now, c.quota.periodSec) == i;
      var begun := Window(r.user, i) in m;
      && (Window(r.user, i) in m' <==> begun || mine)
      && Count(m', r.user, i) == Count(m, r.user, i) + (if mine && (!begun || a.Admits()) then r.cost else 0)
  {
    hide SW.PreviousProportion, SW.RetryAfter, SW.Previous, F.ResetAfter, F.WindowIndex;
  }

  lemma OthersKeepPresence(c: Config, m: Ideal.Memory, r: Request, user: string, i: int)
    requires c.quota.Valid() && r.user != user
    ensures var m' := Ideal.Serve(c, m, r).0;
      Count(m', user, i) == Count(m, user, i) && (Window(user, i) in m' <==> Window(user, i) in m)
  {
    OthersKeepCounters(c, m, r, user);
    var m' := Ideal.Serve(c, m, r).0;
    hide Ideal.Serve;
    assert Ideal.Cell(m', Window(user, i)) == Ideal.Cell(m, Window(user, i));
  }

  /** The sliding window's counter is what was admitted, and the first request of the window if that was denied. */
  lemma {:induction false} CountIsCounted(cs: Configs, m: Ideal.Memory, rs: seq<Request>, user: string, i: int)
    requires ValidConfigs(cs) && UsersKnown(cs, rs) && user in cs && cs[user].algorithm.SLIDING_WINDOW?
    ensures Count(Ideal.Final(cs, m, rs), user, i) ==
      Count(m, user, i) + Counted(rs, Ideal.Run(cs, m, rs), user, cs[user].quota.periodSec, i, Window(user, i) in m)
    decreases |rs|
  {
    hide Ideal.Serve, F.WindowIndex, Count;
    if rs != [] {
      var r := rs[0];
      var (m', a) := Ideal.Serve(cs[r.user], m, r);
      if r.user == user { SlidingCountStep(cs[user], m, r, i); } else { OthersKeepPresence(cs[r.user], m, r, user, i); }
      CountIsCounted(cs, m', rs[1..], user, i);
      assert Ideal.Run(cs, m, rs)[1..] == Ideal.Run(cs, m', rs[1..]);
    }
  }

  lemma SlidingAdmission(c: Config, m: Ideal.Memory, r: Request)
    requires W.IsWindow(c) && c.algorithm.SLIDING_WINDOW? && r.Limit?
    ensures var p := c.quota.periodSec;
      var w, share := F.WindowIndex(r.now, p), SW.PreviousProportion(Millis(r.now), p);
      var used := SW.Previous(Count(m, r.user, w - 1), share) + Count(m, r.user, w) + r.cost;
      Ideal.Serve(c, m, r).1.Admits() <==> r.cost == 0 || used <= c.quota.limit
  {
    hide SW.PreviousProportion, SW.RetryAfter, SW.Previous, F.WindowIndex;
  }

  lemma MapAdmitsExactly(cs: Configs, rs: seq<Request>, r: Request)
    requires ValidConfigs(cs) && UsersKnown(cs, rs) && r.Limit? && r.user in cs && cs[r.user].algorithm.SLIDING_WINDOW?
    ensures var q, answers := cs[r.user].quota, Ideal.Run(cs, map[], rs);
      var w, share := F.WindowIndex(r.now, q.periodSec), SW.PreviousProportion(Millis(r.now), q.periodSec);
      var before := Counted(rs, answers, r.user, q.periodSec, w - 1, false);
      var current := Counted(rs, answers, r.user, q.periodSec, w, false);
      Ideal.Serve(cs[r.user], Ideal.Final(cs, map[], rs), r).1.Admits() <==>
        r.cost == 0 || SW.Previous(before, share) + current + r.cost <= q.limit
  {
    hide Ideal.Serve, Ideal.Final, Ideal.Run, Counted, F.WindowIndex, SW.PreviousProportion, SW.Previous, Millis;
    var none: Ideal.Memory := map[];
    var i := F.WindowIndex(r.now, cs[r.user].quota.periodSec);
    assert Count(none, r.user, i) == 0 && Count(none, r.user, i - 1) == 0;
    CountIsCounted(cs, none, rs, r.user, i);
    CountIsCounted(cs, none, rs, r.user, i - 1);
    SlidingAdmission(cs[r.user], Ideal.Final(cs, none, rs), r);
  }

  /** Main result: a sliding-window request is admitted exactly when it fits the limit together with what was counted
      in its window and the share, rounded down, of what was counted in the window before (or it costs nothing). */
  lemma SlidingWindowAdmitsExactly(cs: Configs, maxSize: nat, start: real, rs: seq<Request>, r: Request)
    requires ValidConfigs(cs) && r.Limit? && r.user in cs && cs[r.user].algorithm.SLIDING_WINDOW?
    requires 0 < maxSize && Transparency.Fits(cs, maxSize, rs + [r]) && ValidRun(cs, start, rs + [r])
    ensures UsersKnown(cs, rs)
    ensures var q, answers := cs[r.user].quota, Run(cs, EmptyStore(maxSize), rs);
      var w, share := F.WindowIndex(r.now, q.periodSec), SW.PreviousProportion(Millis(r.now), q.periodSec);
      var before := Counted(rs, answers, r.user, q.periodSec, w - 1, false);
      var current := Counted(rs, answers, r.user, q.periodSec, w, false);
      Serve(cs[r.user], Final(cs, EmptyStore(maxSize), rs), r).1.Admits() <==>
        r.cost == 0 || SW.Previous(before, share) + current + r.cost <= q.limit
  {
    hide *;
    Transparency.RequestAfterRun(cs, maxSize, start, rs, r);
    MapAdmitsExactly(cs, rs, r);
  }
}
