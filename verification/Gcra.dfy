/** `throttled/rate_limiter/gcra.py`: one theoretical arrival time (TAT) per key. */
module Gcra {
  import opened Base
  import opened Store
  import MemoryBackend

  /** What the limit action works out before it touches the store again. */
  datatype Verdict = Verdict(limited: bool, remaining: int, resetAfter: real, retryAfter: real, newTat: Option<real>)
  {
    function ToResponse(capacity: int): Response {
      Decision(limited, RateLimitState(capacity, remaining, resetAfter, retryAfter))
    }
  }

  /** `float(backend.get(key) or now)`: a missing or zero TAT counts as now. */
  function LastTat(cell: Option<Value>, now: real): real {
    match cell
    case None => now
    case Some(v) =>
      var tat := match v case IntVal(i) => i as real case FloatVal(f) => f case DictVal(_) => 0.0;
      if tat == 0.0 then now else tat
  }

  /** The arithmetic of `MemoryLimitActionLogic._do`. */
  function Decide(lastTat: real, ei: real, capacity: int, cost: int, now: real): Verdict
    requires ei > 0.0
  {
    var tat := Max(now, lastTat) + cost as real * ei;
    var timeFromTat := now - Max(now, lastTat);
    var timeElapsed := timeFromTat + (capacity - cost) as real * ei;
    var remaining := capacity - cost + (timeFromTat / ei).Floor;
    if remaining < 0 then
      Verdict(true, MinInt(capacity, cost + remaining), Max(0.0, lastTat - now), Abs(timeElapsed), None)
    else
      Verdict(false, remaining, tat - now, 0.0, if tat - now > 0.0 then Some(tat) else None)
  }

  /** The arithmetic of `MemoryPeekActionLogic._do`. */
  function Look(tat: real, ei: real, capacity: int, now: real): RateLimitState
    requires ei > 0.0
  {
    var timeFromTat := now - Max(now, tat);
    var remaining := capacity + (timeFromTat / ei).Floor;
    if remaining < 1
    then RateLimitState(capacity, 0, Max(0.0, tat - now), Abs(timeFromTat + capacity as real * ei))
    else RateLimitState(capacity, remaining, Max(0.0, tat - now), 0.0)
  }

  /** The limit action on the store: read the TAT, decide, and write the new one, to expire when it is due. */
  function DoLimit(s: Store, key: Key, ei: real, capacity: int, cost: int, now: real): (Store, Result<Verdict>)
    requires ei > 0.0
  {
    var (s1, r) := Get(s, key, now);
    if r.DataError? then (s1, DataError) else
    var v := Decide(LastTat(r.value, now), ei, capacity, cost, now);
    (if v.newTat.Some? then Set(s1, key, FloatVal(v.newTat.value), Ceil(v.resetAfter), now) else s1, Ok(v))
  }

  function DoPeek(s: Store, key: Key, ei: real, capacity: int, now: real): (Store, Result<RateLimitState>)
    requires ei > 0.0
  {
    var (s1, r) := Get(s, key, now);
    if r.DataError? then (s1, DataError) else (s1, Ok(Look(LastTat(r.value, now), ei, capacity, now)))
  }

  function LimitOn(s: Store, key: Key, q: Quota, cost: int, now: real): (Store, Response)
    requires q.Valid()
  {
    RatesAreReciprocal(q);
    var (s1, r) := DoLimit(s, key, q.EmissionInterval(), q.burst, cost, now);
    (s1, if r.DataError? then Failed else r.value.ToResponse(q.burst))
  }

  function PeekOn(s: Store, key: Key, q: Quota, now: real): (Store, Response)
    requires q.Valid()
  {
    RatesAreReciprocal(q);
    var (s1, r) := DoPeek(s, key, q.EmissionInterval(), q.burst, now);
    (s1, if r.DataError? then Failed else Snapshot(r.value))
  }

  /** `MemoryLimitActionLogic._do`. */
  method LimitAction(backend: MemoryBackend.Backend, key: Key, emissionInterval: real, capacity: int, cost: int,
                     now: real)
    returns (r: Result<Verdict>)
    requires backend.Valid() && emissionInterval > 0.0
    modifies backend
    ensures backend.Valid()
    ensures (backend.State(), r) == DoLimit(old(backend.State()), key, emissionInterval, capacity, cost, now)
  {
    hide Get, Set;
    var stored := backend.Get(key, now);
    if stored.DataError? { return DataError; }
    var lastTat := LastTat(stored.value, now);

    var fillTimeForCost := cost as real * emissionInterval;
    var tat := Max(now, lastTat) + fillTimeForCost;
    var timeFromTat := now - Max(now, lastTat);
    var timeElapsed := timeFromTat + (capacity - cost) as real * emissionInterval;

    var remaining := capacity - cost + (timeFromTat / emissionInterval).Floor;
    var limited, retryAfter, resetAfter := false, 0.0, tat - now;
    var newTat: Option<real> := None;
    if remaining < 0 {
      limited := true;
      retryAfter := Abs(timeElapsed);
      resetAfter := Max(0.0, lastTat - now);
      remaining := MinInt(capacity, cost + remaining);
    } else if resetAfter > 0.0 {
      // a cost of 0 on an idle key leaves the TAT alone
      newTat := Some(tat);
      backend.Set(key, FloatVal(tat), Ceil(resetAfter), now);
    }
    return Ok(Verdict(limited, remaining, resetAfter, retryAfter, newTat));
  }

  /** `MemoryPeekActionLogic._do`. */
  method PeekAction(backend: MemoryBackend.Backend, key: Key, emissionInterval: real, capacity: int, now: real)
    returns (r: Result<RateLimitState>)
    requires backend.Valid() && emissionInterval > 0.0
    modifies backend
    ensures backend.Valid()
    ensures (backend.State(), r) == DoPeek(old(backend.State()), key, emissionInterval, capacity, now)
  {
    hide Get;
    var stored := backend.Get(key, now);
    if stored.DataError? { return DataError; }
    var tat := LastTat(stored.value, now);
    var timeFromTat := now - Max(now, tat);
    var timeElapsed := timeFromTat + capacity as real * emissionInterval;

    var resetAfter := Max(0.0, tat - now);
    var remaining, retryAfter := capacity + (timeFromTat / emissionInterval).Floor, 0.0;
    if remaining < 1 {
      remaining := 0;
      retryAfter := Abs(timeElapsed);
    }
    return Ok(RateLimitState(capacity, remaining, resetAfter, retryAfter));
  }
}
