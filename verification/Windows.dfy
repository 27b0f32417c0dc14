/** `throttled/rate_limiter/fixed_window.py`: one counter per key and window. */
module FixedWindow {
  import opened Base
  import opened Store
  import MemoryBackend

  /** `int(raw)`, truncating a float towards zero. */
  function IntOf(v: Value): (i: int)
    ensures v.FloatVal? ==> Abs(i as real) <= Abs(v.f) < Abs(i as real) + 1.0
    ensures v.FloatVal? ==> if v.f < 0.0 then i <= 0 else i >= 0
  {
    match v
    case IntVal(i) => i
    case FloatVal(f) => if f >= 0.0 then f.Floor else Ceil(f)
    case DictVal(_) => 0
  }

  /** `int(store.get(key) or 0)`. */
  function CountOf(cell: Option<Value>): int {
    match cell case None => 0 case Some(v) => IntOf(v)
  }

  /** `now_sec() // period`. */
  function WindowIndex(now: real, period: int): int
    requires period >= 1
  {
    Seconds(now) / period
  }

  function CurrentKey(user: string, now: real, period: int): Key
    requires period >= 1
  {
    Window(user, WindowIndex(now, period))
  }

  /** Seconds until the window ends. */
  function ResetAfter(now: real, period: int): int
    requires period >= 1
  {
    period - Seconds(now) % period
  }

  function Report(current: int, q: Quota, cost: int, now: real): Response
    requires q.Valid()
  {
    var limited := current > q.limit && cost != 0;
    var reset := ResetAfter(now, q.periodSec) as real;
    Decision(limited, RateLimitState(q.limit, MaxInt(0, q.limit - current), reset, if limited then reset else 0.0))
  }

  function LimitOn(s: Store, user: string, q: Quota, cost: int, now: real): (Store, Response)
    requires q.Valid()
  {
    var key := CurrentKey(user, now, q.periodSec);
    var (s1, r) := Get(s, key, now);
    if r.DataError? then (s1, Failed) else
    if r.value.None? then (Set(s1, key, IntVal(cost), q.periodSec, now), Report(cost, q, cost, now)) else
    var current := IntOf(r.value.value) + cost;
    (ClientPut(s1, key, IntVal(current)), Report(current, q, cost, now))
  }

  function PeekOn(s: Store, user: string, q: Quota, now: real): (Store, Response)
    requires q.Valid()
  {
    var (s1, r) := Get(s, CurrentKey(user, now, q.periodSec), now);
    if r.DataError? then (s1, Failed) else
    var reset := ResetAfter(now, q.periodSec) as real;
    (s1, Snapshot(RateLimitState(q.limit, MaxInt(0, q.limit - CountOf(r.value)), reset, 0.0)))
  }

  /** `FixedWindowRateLimiter._limit` with its memory action. */
  method Limit(backend: MemoryBackend.Backend, user: string, q: Quota, cost: int, now: real) returns (r: Response)
    requires backend.Valid() && q.Valid()
    modifies backend
    ensures backend.Valid()
    ensures (backend.State(), r) == LimitOn(old(backend.State()), user, q, cost, now)
  {
    hide Get, Set;
    var key := CurrentKey(user, now, q.periodSec);
    PresentAfter(backend.State(), key, IntVal(cost), q.periodSec, key, now);
    var currentRaw := backend.Get(key, now);
    if currentRaw.DataError? { return Failed; }
    var current;
    if currentRaw.value.None? {
      current := cost;
      backend.Set(key, IntVal(current), q.periodSec, now);
    } else {
      current := IntOf(currentRaw.value.value) + cost;
      backend.ClientPut(key, IntVal(current));
    }
    return Report(current, q, cost, now);
  }

  method Peek(backend: MemoryBackend.Backend, user: string, q: Quota, now: real) returns (r: Response)
    requires backend.Valid() && q.Valid()
    modifies backend
    ensures backend.Valid()
    ensures (backend.State(), r) == PeekOn(old(backend.State()), user, q, now)
  {
    var currentRaw := backend.Get(CurrentKey(user, now, q.periodSec), now);
    if currentRaw.DataError? { return Failed; }
    var current := CountOf(currentRaw.value);
    return Snapshot(RateLimitState(q.limit, MaxInt(0, q.limit - current), ResetAfter(now, q.periodSec) as real, 0.0));
  }
}

/** `throttled/rate_limiter/sliding_window.py`: this window's counter plus a share of the previous one. */
module SlidingWindow {
  import opened Base
  import opened Store
  import F = FixedWindow
  import MemoryBackend

  function PreviousKey(user: string, now: real, period: int): Key
    requires period >= 1
  {
    Window(user, F.WindowIndex(now, period) - 1)
  }

  /** `1 - (now_ms % period_ms) / period_ms`. */
  function PreviousProportion(nowMs: int, period: int): real
    requires period >= 1
  {
    1.0 - (nowMs % (period * 1000)) as real / (period * 1000) as real
  }

  /** The previous window's weighted, floored count. */
  function Previous(count: int, proportion: real): int { (proportion * count as real).Floor }

  function RetryAfter(previous: int, proportion: real, period: int, cost: int): real {
    if cost <= previous && previous != 0
    then proportion * period as real * cost as real / previous as real
    else proportion * period as real
  }

  /** `(limited, used, retry_after)` from the three counts. */
  function Decide(previous: int, current: int, cost: int, proportion: real, period: int, limit: int): (bool, int,
      real) {
    var used := previous + current + cost;
    var limited := used > limit && cost != 0;
    (limited, used, if limited then RetryAfter(previous, proportion, period, cost) else 0.0)
  }

  lemma Decides(previous: int, current: int, cost: int, proportion: real, period: int, limit: int)
    ensures var limited := previous + current + cost > limit && cost != 0;
      Decide(previous, current, cost, proportion, period, limit) ==
        (limited, previous + current + cost, if limited then RetryAfter(previous, proportion, period, cost) else 0.0)
  {
  }

  /** The limit action on the store: the first request of a window is stored before it is decided. */
  function DoLimit(s: Store, currentKey: Key, previousKey: Key, period: int, limit: int, cost: int, now: real)
    : (Store, Result<(bool, int, real)>)
    requires period >= 1
  {
    var (s1, cur) := Get(s, currentKey, now);
    if cur.DataError? then (s1, DataError) else
    var s2 := if cur.value.None? then Set(s1, currentKey, IntVal(cost), 3 * period, now) else s1;
    var (s3, prev) := Get(s2, previousKey, now);
    if prev.DataError? then (s3, DataError) else
    var proportion := PreviousProportion(Millis(now), period);
    var current := F.CountOf(cur.value);
    var d := Decide(Previous(F.CountOf(prev.value), proportion), current, cost, proportion, period, limit);
    (if d.0 then s3 else ClientPut(s3, currentKey, IntVal(current + cost)), Ok(d))
  }

  function ToResult(d: (bool, int, real), q: Quota): Response {
    Decision(d.0, RateLimitState(q.limit, MaxInt(0, q.limit - d.1), q.periodSec as real, d.2))
  }

  function LimitOn(s: Store, user: string, q: Quota, cost: int, now: real): (Store, Response)
    requires q.Valid()
  {
    var (s1, r) := DoLimit(s, F.CurrentKey(user, now, q.periodSec), PreviousKey(user, now, q.periodSec),
                           q.periodSec, q.limit, cost, now);
    (s1, if r.DataError? then Failed else ToResult(r.value, q))
  }

  /** What a peek reports from the two cells. */
  function Look(prev: Option<Value>, cur: Option<Value>, q: Quota, now: real): RateLimitState
    requires q.Valid()
  {
    var used := Previous(F.CountOf(prev), PreviousProportion(Millis(now), q.periodSec)) + F.CountOf(cur);
    RateLimitState(q.limit, MaxInt(0, q.limit - used), q.periodSec as real, 0.0)
  }

  function PeekOn(s: Store, user: string, q: Quota, now: real): (Store, Response)
    requires q.Valid()
  {
    var (s1, prev) := Get(s, PreviousKey(user, now, q.periodSec), now);
    if prev.DataError? then (s1, Failed) else
    var (s2, cur) := Get(s1, F.CurrentKey(user, now, q.periodSec), now);
    if cur.DataError? then (s2, Failed) else (s2, Snapshot(Look(prev.value, cur.value, q, now)))
  }

  /** `MemoryLimitActionLogic._do`; the two keys name different windows. */
  method LimitAction(backend: MemoryBackend.Backend, currentKey: Key, previousKey: Key,
                     period: int, limit: int, cost: int, now: real) returns (r: Result<(bool, int, real)>)
    requires backend.Valid() && period >= 1 && currentKey != previousKey
    modifies backend
    ensures backend.Valid()
    ensures (backend.State(), r) == DoLimit(old(backend.State()), currentKey, previousKey, period, limit, cost, now)
  {
    hide Get, Set, PreviousProportion, Previous, RetryAfter, Millis, F.IntOf, Decide, NoDup;
    PresentAfter(backend.State(), currentKey, IntVal(cost), 0, previousKey, now);
    var currentRaw := backend.Get(currentKey, now);
    if currentRaw.DataError? { return DataError; }
    PresentAfter(backend.State(), currentKey, IntVal(cost), 3 * period, previousKey, now);
    var current := 0;
    if currentRaw.value.None? {
      backend.Set(currentKey, IntVal(cost), 3 * period, now);
    } else {
      current := F.IntOf(currentRaw.value.value);
    }

    var previousProportion := PreviousProportion(Millis(now), period);
    PresentAfter(backend.State(), currentKey, IntVal(cost), 0, previousKey, now);
    var previousRaw := backend.Get(previousKey, now);
    if previousRaw.DataError? { return DataError; }
    var previous := Previous(F.CountOf(previousRaw.value), previousProportion);

    var retryAfter, used := 0.0, previous + current + cost;
    var limited := used > limit && cost != 0;
    Decides(previous, current, cost, previousProportion, period, limit);
    if limited {
      retryAfter := RetryAfter(previous, previousProportion, period, cost);
    } else {
      backend.ClientPut(currentKey, IntVal(current + cost));
    }
    return Ok((limited, used, retryAfter));
  }

  method Peek(backend: MemoryBackend.Backend, user: string, q: Quota, now: real) returns (r: Response)
    requires backend.Valid() && q.Valid()
    modifies backend
    ensures backend.Valid()
    ensures (backend.State(), r) == PeekOn(old(backend.State()), user, q, now)
  {
    hide Get, PreviousProportion;
    var previousRaw := backend.Get(PreviousKey(user, now, q.periodSec), now);
    if previousRaw.DataError? { return Failed; }
    var currentRaw := backend.Get(F.CurrentKey(user, now, q.periodSec), now);
    if currentRaw.DataError? { return Failed; }
    return Snapshot(Look(previousRaw.value, currentRaw.value, q, now));
  }
}
