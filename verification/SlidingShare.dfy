/** The sliding window's hint against the millisecond clock: where a wait of the hint lands, and what fits from there
    on. */
module SlidingShare {
  import opened Base
  import opened Store
  import Ideal
  import F = FixedWindow
  import SW = SlidingWindow
  import W = WindowRecency
  import WB = WindowBounds

  /** The weighted previous count a decision at `now` uses. */
  function Weighted(m: Ideal.Memory, user: string, p: int, now: real): int
    requires p >= 1
  {
    SW.Previous(WB.Count(m, user, F.WindowIndex(now, p) - 1), SW.PreviousProportion(Millis(now), p))
  }

  /** A request of this cost would fit the limit at `t`. */
  predicate FitsAt(m: Ideal.Memory, user: string, q: Quota, cost: nat, t: real)
    requires q.Valid()
  {
    Weighted(m, user, q.periodSec, t) + WB.Count(m, user, F.WindowIndex(t, q.periodSec)) + cost <= q.limit
  }

  ghost predicate FitsFrom(m: Ideal.Memory, user: string, q: Quota, cost: nat, start: real)
    requires q.Valid()
  {
    forall t :: start <= t ==> FitsAt(m, user, q, cost, t)
  }

  /** The counters hold no window later than the clock's. */
  ghost predicate UpTo(m: Ideal.Memory, user: string, p: int, now: real)
    requires p >= 1
  {
    WB.Counters(m, user) && forall i {:trigger Window(user, i)} :: Window(user, i) in m ==> i <= F.WindowIndex(now, p)
  }

  // ----- ticks

  /** Milliseconds into the window. */
  function Into(now: real, p: int): int
    requires p >= 1
  {
    Millis(now) % (p * 1000)
  }

  /** The share of the previous window so many milliseconds into this one. */
  function ShareAt(used: int, p: int): real
    requires p >= 1
  {
    1.0 - used as real / (p * 1000) as real
  }

  /** The milliseconds the clock gains in a wait: the wait, rounded down or up. */
  function Ticks(now: real, wait: real): int { Millis(now + wait) - Millis(now) }

  lemma ShareOrder(used: int, later: int, p: int)
    requires p >= 1 && used <= later <= p * 1000
    ensures 0.0 <= ShareAt(later, p) <= ShareAt(used, p) && ShareAt(p * 1000, p) == 0.0 && ShareAt(0, p) == 1.0
  {
    var d := (p * 1000) as real;
    WB.DivOrder(used as real, later as real, d);
    WB.DivOrder(later as real, d, d);
  }

  /** Where the clock is after some ticks: in the same window, or at or past its end. */
  lemma WindowTicks(now: real, t: real, p: int)
    requires p >= 1 && now <= t
    ensures var w, v, used := F.WindowIndex(now, p), F.WindowIndex(t, p), Into(now, p) + Millis(t) - Millis(now);
      && w <= v && 0 <= Into(now, p) <= used && 0 <= Into(t, p) < p * 1000
      && (v == w ==> Into(t, p) == used) && (v > w ==> used >= p * 1000)
      && (used == p * 1000 ==> v == w + 1 && Into(t, p) == 0)
  {
    FloorMonotone(now * 1000.0, t * 1000.0);
    WB.MillisInWindow(now, p);
    WB.MillisInWindow(t, p);
    InOrder(now, t, p);
    hide F.WindowIndex, Millis;
    Remainders(Millis(now), Millis(t), F.WindowIndex(now, p), F.WindowIndex(t, p), p * 1000);
  }

  lemma InOrder(now: real, t: real, p: int)
    requires p >= 1 && now <= t
    ensures F.WindowIndex(now, p) <= F.WindowIndex(t, p)
  {
    W.WindowsAdvance(now, t, p);
  }

  lemma Remainders(ms: int, mt: int, w: int, v: int, d: int)
    requires d >= 1 && w <= v && ms % d == ms - w * d && mt % d == mt - v * d
    ensures var used := ms % d + mt - ms;
      && (v == w ==> mt % d == used) && (v > w ==> used >= d) && (used == d ==> v == w + 1 && mt % d == 0)
  {
    var k := v - w;
    assert v * d == w * d + k * d;
    if k > 0 { W.MulInt(1, k, d); }
    if k > 1 { W.MulInt(2, k, d); }
  }

  /** A wait for at most the share that is left ends no later than the first tick of the next window. */
  lemma HintLands(now: real, p: int, part: real, wait: real)
    requires p >= 1 && 0.0 <= part <= ShareAt(Into(now, p), p) && wait == part * p as real
    ensures wait >= 0.0 && 0 <= Ticks(now, wait) && Into(now, p) + Ticks(now, wait) <= p * 1000
  {
    PartOfWindow(Into(now, p), p, part, wait);
    hide Into, ShareAt;
    TicksWithin(now * 1000.0, 1000.0 * wait, Into(now, p), p * 1000);
    assert (now + wait) * 1000.0 == now * 1000.0 + 1000.0 * wait;
  }

  /** A part of the share left is no more than the milliseconds left. */
  lemma PartOfWindow(used: int, p: int, part: real, wait: real)
    requires p >= 1 && 0.0 <= part <= ShareAt(used, p) && wait == part * p as real
    ensures 0.0 <= 1000.0 * wait <= (p * 1000 - used) as real
  {
    var d, x := (p * 1000) as real, used as real / (p * 1000) as real;
    DivBounds(used as real, d, x);
    MulMonotone(0.0, part, d);
    MulMonotone(part, 1.0 - x, d);
    SubMul(1.0, x, d);
    MulSwap(part, 1000.0, p as real);
    assert d == 1000.0 * p as real;
  }

  lemma TicksWithin(x: real, gap: real, used: int, d: int)
    requires 0.0 <= gap <= (d - used) as real
    ensures 0 <= (x + gap).Floor - x.Floor <= d - used
  {
  }

  // ----- from the hint on

  lemma PreviousOfNothing(n: int)
    ensures SW.Previous(n, 0.0) == 0 && SW.Previous(n, 1.0) == n && forall share: real :: SW.Previous(0, share) == 0
  {
    forall share: real ensures SW.Previous(0, share) == 0 { assert share * 0.0 == 0.0; }
  }

  lemma CountsUpTo(m: Ideal.Memory, user: string, p: int, now: real, i: int)
    requires p >= 1 && UpTo(m, user, p, now)
    ensures WB.Count(m, user, i) >= 0 && (i > F.WindowIndex(now, p) ==> WB.Count(m, user, i) == 0)
  {
  }

  /** Within the window the weighted previous count follows the ticks; past it, it is at most what the window
      counted. */
  lemma WeightedAt(m: Ideal.Memory, user: string, p: int, now: real, t: real)
    requires p >= 1 && now <= t && UpTo(m, user, p, now)
    ensures var w, v, used := F.WindowIndex(now, p), F.WindowIndex(t, p), Into(now, p) + Millis(t) - Millis(now);
      && (v == w ==> Weighted(m, user, p, t) == SW.Previous(WB.Count(m, user, w - 1), ShareAt(used, p)))
      && (v > w ==> WB.Count(m, user, v) == 0 && 0 <= Weighted(m, user, p, t) <= WB.Count(m, user, w))
      && (used == p * 1000 ==> v == w + 1 && Weighted(m, user, p, t) == WB.Count(m, user, w))
  {
    var w, v := F.WindowIndex(now, p), F.WindowIndex(t, p);
    WindowTicks(now, t, p);
    CountsUpTo(m, user, p, now, v);
    CountsUpTo(m, user, p, now, v - 1);
    ShareOrder(0, Into(t, p), p);
    assert SW.PreviousProportion(Millis(t), p) == ShareAt(Into(t, p), p);
    var before := WB.Count(m, user, v - 1);
    hide F.WindowIndex, Millis, SW.PreviousProportion, SW.Previous, WB.Count, UpTo, Into, ShareAt;
    PreviousOfNothing(before);
    WB.PreviousMonotone(before, before, ShareAt(Into(t, p), p), 1.0);
    WB.ShareNotNegative(before, ShareAt(Into(t, p), p));
  }

  /** What is left of the previous count when the hint ends, with the count of this window and the cost. */
  function DueAtHint(m: Ideal.Memory, user: string, p: int, cost: nat, now: real, wait: real): int
    requires p >= 1
  {
    var w := F.WindowIndex(now, p);
    SW.Previous(WB.Count(m, user, w - 1), ShareAt(Into(now, p) + Ticks(now, wait), p)) + WB.Count(m, user, w) + cost
  }

  /** On counters nobody changes, a cost fits at every instant from the end of a hint on, exactly if it is due then. */
  lemma FitsFromHint(m: Ideal.Memory, user: string, q: Quota, cost: nat, now: real, part: real, wait: real)
    requires q.Valid() && UpTo(m, user, q.periodSec, now)
    requires 0.0 <= part <= ShareAt(Into(now, q.periodSec), q.periodSec) && wait == part * q.periodSec as real
    ensures FitsFrom(m, user, q, cost, now + wait) <==> DueAtHint(m, user, q.periodSec, cost, now, wait) <= q.limit
  {
    var p := q.periodSec;
    HintLands(now, p, part, wait);
    hide F.WindowIndex, Millis, SW.PreviousProportion, SW.Previous, WB.Count, UpTo, Into, ShareAt, FitsAt, DueAtHint;
    if DueAtHint(m, user, p, cost, now, wait) <= q.limit {
      forall t | now + wait <= t ensures FitsAt(m, user, q, cost, t) { FitsLater(m, user, q, cost, now, wait, t); }
    } else {
      NotYet(m, user, q, cost, now, wait);
    }
  }

  lemma NotYet(m: Ideal.Memory, user: string, q: Quota, cost: nat, now: real, wait: real)
    requires q.Valid() && UpTo(m, user, q.periodSec, now) && wait >= 0.0
    requires Into(now, q.periodSec) + Ticks(now, wait) <= q.periodSec * 1000
    requires DueAtHint(m, user, q.periodSec, cost, now, wait) > q.limit
    ensures !FitsAt(m, user, q, cost, now + wait)
  {
    var p := q.periodSec;
    var w := F.WindowIndex(now, p);
    WeightedAt(m, user, p, now, now + wait);
    WindowTicks(now, now + wait, p);
    ShareOrder(0, p * 1000, p);
    PreviousOfNothing(WB.Count(m, user, w - 1));
    hide F.WindowIndex, Millis, SW.PreviousProportion, SW.Previous, WB.Count, UpTo, Into, ShareAt, Weighted;
  }

  lemma FitsLater(m: Ideal.Memory, user: string, q: Quota, cost: nat, now: real, wait: real, t: real)
    requires q.Valid() && UpTo(m, user, q.periodSec, now) && 0.0 <= wait && now + wait <= t
    requires Into(now, q.periodSec) + Ticks(now, wait) <= q.periodSec * 1000
    requires DueAtHint(m, user, q.periodSec, cost, now, wait) <= q.limit
    ensures FitsAt(m, user, q, cost, t)
  {
    var p := q.periodSec;
    var w, a, k := F.WindowIndex(now, p), Into(now, p), Ticks(now, wait);
    var before := WB.Count(m, user, w - 1);
    FloorMonotone((now + wait) * 1000.0, t * 1000.0);
    WeightedAt(m, user, p, now, t);
    WindowTicks(now, t, p);
    CountsUpTo(m, user, p, now, w - 1);
    ShareOrder(a + k, p * 1000, p);
    WB.ShareNotNegative(before, ShareAt(a + k, p));
    if F.WindowIndex(t, p) == w {
      var used := a + Millis(t) - Millis(now);
      ShareOrder(a + k, used, p);
      WB.PreviousMonotone(before, before, ShareAt(used, p), ShareAt(a + k, p));
    }
    hide F.WindowIndex, Millis, SW.PreviousProportion, SW.Previous, WB.Count, UpTo, Into, ShareAt, Weighted;
  }

  // ----- the hint itself

  /** The part of the share a hint waits for: what the cost is of the previous count, or all of it. */
  function Part(share: real, cost: nat, previous: int): real {
    if cost <= previous && previous != 0 then share * cost as real / previous as real else share
  }

  /** The share left at `now`, and the previous count it weighs. */
  function ShareNow(now: real, p: int): real
    requires p >= 1
  {
    SW.PreviousProportion(Millis(now), p)
  }

  /** A hint is its part of the share, in seconds. */
  lemma RetryIsPart(previous: int, share: real, p: int, cost: nat)
    requires p >= 1 && 0.0 < share && 0 < cost && 0 <= previous
    ensures SW.RetryAfter(previous, share, p, cost) == Part(share, cost, previous) * p as real
    ensures 0.0 < Part(share, cost, previous) <= share
  {
    if cost <= previous {
      var x, y, d := share * p as real * cost as real, share * cost as real / previous as real, previous as real;
      MulStrict(0.0, cost as real, share);
      DivBounds(share * cost as real, d, y);
      DivBounds(share * cost as real, d, 0.0);
      MulMonotone(cost as real, d, share);
      DivBounds(share * cost as real, d, share);
      assert (y * p as real) * d == x;
      DivBounds(x, d, y * p as real);
    }
  }

  /** The share of `n` left when the hint for `cost` of it has gone by is short by `cost`, exactly so if nothing more
      has. */
  lemma ShareAfterHint(n: nat, share: real, share': real, cost: nat)
    requires 0.0 < share && 0 < cost <= SW.Previous(n, share)
    requires 0.0 <= share' <= share - Part(share, cost, SW.Previous(n, share))
    ensures SW.Previous(n, share') <= SW.Previous(n, share) - cost
    ensures share' == share - Part(share, cost, SW.Previous(n, share)) ==>
      SW.Previous(n, share') == SW.Previous(n, share) - cost
  {
    var previous := SW.Previous(n, share);
    var x, cut := share * n as real, Part(share, cost, previous);
    DivBounds(share * cost as real, previous as real, cut);
    MulSwap(cut, n as real, previous as real);
    MulSwap(share, cost as real, n as real);
    MulSwap(share * n as real, cost as real, 1.0);
    CutBounds(cut * n as real, previous as real, cost as real, x);
    MulMonotone(share', share - cut, n as real);
    SubMul(share, cut, n as real);
    FloorsBelow(share' * n as real, x - cut * n as real, x, previous, cost);
  }

  lemma FloorsBelow(y: real, z: real, x: real, previous: int, cost: int)
    requires previous == x.Floor && y <= z <= x - cost as real && (previous - cost) as real <= z
    ensures y.Floor <= previous - cost && (y == z ==> y.Floor == previous - cost)
  {
    FloorShift(x, 0 - cost);
    FloorMonotone(y, x - cost as real);
  }

  /** The cut is cost * x / previous, with x between the previous count and one more. */
  lemma CutBounds(cut: real, previous: real, cost: real, x: real)
    requires previous > 0.0 && cut * previous == cost * x && x >= previous >= cost >= 0.0
    ensures cost <= cut && x - cut >= previous - cost
  {
    MulMonotoneLeft(cost, previous, x);
    ScaleOrder(cost, cut, previous);
    MulMonotoneLeft(previous - cost, previous, x);
    SubMul(previous, cost, x);
    SubMul(x, cut, previous);
    MulSwap(x, previous, 1.0);
    ScaleOrder(previous - cost, x - cut, previous);
  }

  /** The millisecond clock shows at least the whole wait gone by. */
  predicate HintPassed(now: real, t: real, wait: real) { Millis(t) as real >= Millis(now) as real + 1000.0 * wait }

  /** Ticks against a part of the share. */
  lemma TicksOfPart(used: int, ticks: int, p: int, part: real, wait: real)
    requires p >= 1 && wait == part * p as real
    ensures ticks as real >= 1000.0 * wait ==> ShareAt(used + ticks, p) <= ShareAt(used, p) - part
    ensures ticks as real == 1000.0 * wait ==> ShareAt(used + ticks, p) == ShareAt(used, p) - part
  {
    var d := (p * 1000) as real;
    var x := used as real / d;
    assert 1000.0 * wait == part * d;
    DivBounds(used as real, d, x);
    DivBounds((used + ticks) as real, d, x + part);
    assert (x + part) * d == x * d + part * d;
  }

  /** A cost within the weighted previous count fits once the clock shows the hint gone by, if the counts fitted
      before. */
  lemma FitsOncePassed(m: Ideal.Memory, user: string, q: Quota, cost: nat, now: real, t: real)
    requires q.Valid() && UpTo(m, user, q.periodSec, now) && now <= t && FitsAt(m, user, q, 0, now)
    requires 0 < cost <= Weighted(m, user, q.periodSec, now)
    requires var p := q.periodSec;
      HintPassed(now, t, SW.RetryAfter(Weighted(m, user, p, now), ShareNow(now, p), p, cost))
    ensures FitsAt(m, user, q, cost, t)
  {
    var p := q.periodSec;
    var w, share, previous := F.WindowIndex(now, p), ShareNow(now, p), Weighted(m, user, p, now);
    var before, used := WB.Count(m, user, w - 1), Into(now, p) + Millis(t) - Millis(now);
    hide *;
    NowIs(m, user, p, now);
    CountsUpTo(m, user, p, now, w - 1);
    WeightedAt(m, user, p, now, t);
    WindowTicks(now, t, p);
    RetryIsPart(previous, share, p, cost);
    TicksOfPart(Into(now, p), Millis(t) - Millis(now), p, Part(share, cost, previous),
                SW.RetryAfter(previous, share, p, cost));
    PassedTicks(now, t, SW.RetryAfter(previous, share, p, cost));
    FitsIs(m, user, q, cost, t);
    FitsIs(m, user, q, 0, now);
    if F.WindowIndex(t, p) == w {
      ShareOrder(used, p * 1000, p);
      ShareAfterHint(before, share, ShareAt(used, p), cost);
    }
  }

  lemma PassedTicks(now: real, t: real, wait: real)
    ensures HintPassed(now, t, wait) <==> (Millis(t) - Millis(now)) as real >= 1000.0 * wait
  {
  }

  lemma FitsIs(m: Ideal.Memory, user: string, q: Quota, cost: nat, t: real)
    requires q.Valid()
    ensures FitsAt(m, user, q, cost, t) <==>
      Weighted(m, user, q.periodSec, t) + WB.Count(m, user, F.WindowIndex(t, q.periodSec)) + cost <= q.limit
  {
  }

  /** A wait of whole milliseconds. */
  predicate Whole(wait: real) { (1000.0 * wait).Floor as real == 1000.0 * wait }

  lemma WholeTicks(now: real, wait: real)
    requires Whole(wait)
    ensures Ticks(now, wait) as real == 1000.0 * wait
  {
    FloorShift(now * 1000.0, (1000.0 * wait).Floor);
    assert (now + wait) * 1000.0 == now * 1000.0 + 1000.0 * wait;
  }

  /** When a hint of whole milliseconds for a cost within the weighted previous count ends, all that is due is what
      was counted before. */
  lemma DueWhenWhole(m: Ideal.Memory, user: string, p: int, cost: nat, now: real)
    requires p >= 1 && UpTo(m, user, p, now) && 0 < cost <= Weighted(m, user, p, now)
    ensures var wait := SW.RetryAfter(Weighted(m, user, p, now), ShareNow(now, p), p, cost);
      Whole(wait) ==>
        DueAtHint(m, user, p, cost, now, wait) == Weighted(m, user, p, now) + WB.Count(m, user, F.WindowIndex(now, p))
  {
    hide *;
    var w, share, previous := F.WindowIndex(now, p), ShareNow(now, p), Weighted(m, user, p, now);
    var before, a, wait := WB.Count(m, user, w - 1), Into(now, p), SW.RetryAfter(previous, share, p, cost);
    NowIs(m, user, p, now);
    CountsUpTo(m, user, p, now, w - 1);
    DueIs(m, user, p, cost, now, wait);
    if Whole(wait) {
      RetryIsPart(previous, share, p, cost);
      WholeTicks(now, wait);
      TicksOfPart(a, Ticks(now, wait), p, Part(share, cost, previous), wait);
      ShareAfterHint(before, share, ShareAt(a + Ticks(now, wait), p), cost);
    }
  }

  lemma RetryIsAll(previous: int, share: real, p: int, cost: nat)
    requires cost > previous
    ensures SW.RetryAfter(previous, share, p, cost) == share * p as real
  {
  }

  /** A larger cost is told to wait for the window to end; then this window's count and the cost are due. */
  lemma DueAtTheEnd(m: Ideal.Memory, user: string, p: int, cost: nat, now: real)
    requires p >= 1 && UpTo(m, user, p, now) && cost > Weighted(m, user, p, now)
    ensures var wait := SW.RetryAfter(Weighted(m, user, p, now), ShareNow(now, p), p, cost);
      Whole(wait) && DueAtHint(m, user, p, cost, now, wait) == WB.Count(m, user, F.WindowIndex(now, p)) + cost
  {
    hide *;
    var wait := SW.RetryAfter(Weighted(m, user, p, now), ShareNow(now, p), p, cost);
    RetryIsAll(Weighted(m, user, p, now), ShareNow(now, p), p, cost);
    NowIs(m, user, p, now);
    DueIs(m, user, p, cost, now, wait);
    WaitsForTheEnd(Into(now, p), p, wait);
    WholeTicks(now, wait);
    assert Into(now, p) + Ticks(now, wait) == p * 1000;
    PreviousOfNothing(WB.Count(m, user, F.WindowIndex(now, p) - 1));
  }

  /** The share and the weighted previous count at `now`, in ticks. */
  lemma NowIs(m: Ideal.Memory, user: string, p: int, now: real)
    requires p >= 1 && UpTo(m, user, p, now)
    ensures var share := ShareNow(now, p);
      && 0.0 < share <= 1.0 && share == ShareAt(Into(now, p), p)
      && 0 <= Weighted(m, user, p, now) == SW.Previous(WB.Count(m, user, F.WindowIndex(now, p) - 1), share)
  {
    WB.SharePositive(now, p);
    CountsUpTo(m, user, p, now, F.WindowIndex(now, p) - 1);
    WB.ShareNotNegative(WB.Count(m, user, F.WindowIndex(now, p) - 1), ShareNow(now, p));
  }

  lemma DueIs(m: Ideal.Memory, user: string, p: int, cost: nat, now: real, wait: real)
    requires p >= 1
    ensures var w := F.WindowIndex(now, p);
      DueAtHint(m, user, p, cost, now, wait) ==
        SW.Previous(WB.Count(m, user, w - 1), ShareAt(Into(now, p) + Ticks(now, wait), p)) + WB.Count(m, user, w) + cost
  {
  }

  /** A wait for all of the share is the milliseconds left of the window. */
  lemma WaitsForTheEnd(used: int, p: int, wait: real)
    requires p >= 1 && wait == ShareAt(used, p) * p as real
    ensures Whole(wait) && 1000.0 * wait == (p * 1000 - used) as real && ShareAt(p * 1000, p) == 0.0
  {
    var d := (p * 1000) as real;
    DivBounds(used as real, d, used as real / d);
    assert (1.0 - used as real / d) * d == d - (used as real / d) * d;
    assert 1000.0 * wait == ShareAt(used, p) * d;
    WholeIs(p * 1000 - used, wait);
  }

  lemma WholeIs(n: int, wait: real)
    requires 1000.0 * wait == n as real
    ensures Whole(wait)
  {
  }
}
