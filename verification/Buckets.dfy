/** `throttled/rate_limiter/token_bucket.py`: whole tokens, refilled by the second. */
module TokenBucket {
  import opened Base
  import opened Store
  import MemoryBackend

  /** `bucket.get(field, default)`. */
  function Field(kv: map<string, int>, field: string, default: int): int {
    if field in kv then kv[field] else default
  }

  /** `math.floor(time_elapsed * rate)`. */
  function Refill(elapsed: int, rate: real): int { (elapsed as real * rate).Floor }

  /** The tokens a bucket holds now. */
  function Tokens(kv: map<string, int>, rate: real, capacity: int, now: real): int {
    var elapsed := MaxInt(0, Seconds(now) - Field(kv, "last_refreshed", Seconds(now)));
    MinInt(capacity, Field(kv, "tokens", capacity) + Refill(elapsed, rate))
  }

  function Bucket(tokens: int, lastRefreshed: int): map<string, int> {
    map["tokens" := tokens, "last_refreshed" := lastRefreshed]
  }

  /** `_refill_sec`: whole seconds until `remaining` grows to `upper`. */
  function RefillSec(rate: real, upper: int, remaining: int): int
    requires rate > 0.0
  {
    if remaining >= upper then 0 else Ceil((upper - remaining) as real / rate)
  }

  /** `_to_result`. */
  function ToResult(rate: real, limited: bool, cost: int, tokens: int, capacity: int): Response
    requires rate > 0.0
  {
    var retryAfter := if limited then RefillSec(rate, cost, tokens) else 0;
    Decision(limited, RateLimitState(capacity, tokens, RefillSec(rate, capacity, tokens) as real, retryAfter as real))
  }

  /** How long both buckets keep their hash: twice the time to fill, rounded up. */
  function BucketTtl(rate: real, capacity: int): int
    requires rate > 0.0
  {
    Ceil(2.0 * (capacity as real / rate))
  }

  /** The limit action on the store: whether it limits, and the tokens it reports. */
  function DoLimit(s: Store, key: Key, rate: real, capacity: int, cost: int, now: real): (Store, Result<(bool, int)>)
    requires rate > 0.0
  {
    var (s1, bucket) := HGetAll(s, key, now);
    if bucket.DataError? then (s1, DataError) else
    var tokens := Tokens(bucket.value, rate, capacity, now);
    if tokens < cost then (s1, Ok((true, tokens))) else
    var (s2, stored) := HSet(s1, key, Bucket(tokens - cost, Seconds(now)));
    if stored.DataError? then (s2, DataError) else
    (Expire(s2, key, BucketTtl(rate, capacity), now), Ok((false, tokens - cost)))
  }

  function LimitOn(s: Store, key: Key, q: Quota, cost: int, now: real): (Store, Response)
    requires q.Valid()
  {
    RatesAreReciprocal(q);
    var (s1, r) := DoLimit(s, key, q.FillRate(), q.burst, cost, now);
    (s1, if r.DataError? then Failed else ToResult(q.FillRate(), r.value.0, cost, r.value.1, q.burst))
  }

  function Look(kv: map<string, int>, rate: real, capacity: int, now: real): RateLimitState
    requires rate > 0.0
  {
    var tokens := Tokens(kv, rate, capacity, now);
    RateLimitState(capacity, tokens, Ceil((capacity - tokens) as real / rate) as real, 0.0)
  }

  function PeekOn(s: Store, key: Key, q: Quota, now: real): (Store, Response)
    requires q.Valid()
  {
    RatesAreReciprocal(q);
    var (s1, bucket) := HGetAll(s, key, now);
    if bucket.DataError? then (s1, Failed) else
    (s1, Snapshot(Look(bucket.value, q.FillRate(), q.burst, now)))
  }

  /** `MemoryLimitActionLogic._do`. */
  method LimitAction(backend: MemoryBackend.Backend, key: Key, rate: real, capacity: int, cost: int, now: real)
    returns (r: Result<(bool, int)>)
    requires backend.Valid() && rate > 0.0
    modifies backend
    ensures backend.Valid()
    ensures (backend.State(), r) == DoLimit(old(backend.State()), key, rate, capacity, cost, now)
  {
    hide HGetAll, HSet;
    var nowSec := Seconds(now);
    var bucket := backend.HGetAll(key, now);
    if bucket.DataError? { return DataError; }
    var lastTokens := Field(bucket.value, "tokens", capacity);
    var lastRefreshed := Field(bucket.value, "last_refreshed", nowSec);

    var timeElapsed := MaxInt(0, nowSec - lastRefreshed);
    var tokens := MinInt(capacity, lastTokens + Refill(timeElapsed, rate));
    if tokens < cost { return Ok((true, tokens)); }

    tokens := tokens - cost;
    var stored := backend.HSet(key, Bucket(tokens, nowSec));
    if stored.DataError? { return DataError; }
    var fillTime := capacity as real / rate;
    backend.Expire(key, Ceil(2.0 * fillTime), now);
    return Ok((false, tokens));
  }

  /** `TokenBucketRateLimiter._peek`. */
  method Peek(backend: MemoryBackend.Backend, key: Key, q: Quota, now: real) returns (r: Response)
    requires backend.Valid() && q.Valid()
    modifies backend
    ensures backend.Valid()
    ensures (backend.State(), r) == PeekOn(old(backend.State()), key, q, now)
  {
    hide HGetAll;
    RatesAreReciprocal(q);
    var bucket := backend.HGetAll(key, now);
    if bucket.DataError? { return Failed; }
    return Snapshot(Look(bucket.value, q.FillRate(), q.burst, now));
  }
}

/** `throttled/rate_limiter/leaking_bucket.py`: the same hash holds the water level instead. */
module LeakingBucket {
  import opened Base
  import opened Store
  import MemoryBackend
  import T = TokenBucket

  /** The level of a bucket now. */
  function Level(kv: map<string, int>, rate: real, now: real): int {
    var elapsed := Seconds(now) - T.Field(kv, "last_refreshed", Seconds(now));
    MaxInt(0, T.Field(kv, "tokens", 0) - T.Refill(elapsed, rate))
  }

  /** The limit action on the store; the expiry is set before the hash. */
  function DoLimit(s: Store, key: Key, rate: real, capacity: int, cost: int, now: real): (Store, Result<(bool, int)>)
    requires rate > 0.0
  {
    var (s1, bucket) := HGetAll(s, key, now);
    if bucket.DataError? then (s1, DataError) else
    var level := Level(bucket.value, rate, now);
    if level + cost > capacity then (s1, Ok((true, capacity - level))) else
    var s2 := Expire(s1, key, T.BucketTtl(rate, capacity), now);
    var (s3, stored) := HSet(s2, key, T.Bucket(level + cost, Seconds(now)));
    if stored.DataError? then (s3, DataError) else
    (s3, Ok((false, capacity - (level + cost))))
  }

  function LimitOn(s: Store, key: Key, q: Quota, cost: int, now: real): (Store, Response)
    requires q.Valid()
  {
    RatesAreReciprocal(q);
    var (s1, r) := DoLimit(s, key, q.FillRate(), q.burst, cost, now);
    (s1, if r.DataError? then Failed else T.ToResult(q.FillRate(), r.value.0, cost, r.value.1, q.burst))
  }

  /** The peek guards the elapsed time, which the limit action does not. */
  function Look(kv: map<string, int>, rate: real, capacity: int, now: real): RateLimitState
    requires rate > 0.0
  {
    var elapsed := MaxInt(0, Seconds(now) - T.Field(kv, "last_refreshed", Seconds(now)));
    var level := MaxInt(0, T.Field(kv, "tokens", 0) - T.Refill(elapsed, rate));
    RateLimitState(capacity, capacity - level, Ceil(level as real / rate) as real, 0.0)
  }

  function PeekOn(s: Store, key: Key, q: Quota, now: real): (Store, Response)
    requires q.Valid()
  {
    RatesAreReciprocal(q);
    var (s1, bucket) := HGetAll(s, key, now);
    if bucket.DataError? then (s1, Failed) else
    (s1, Snapshot(Look(bucket.value, q.FillRate(), q.burst, now)))
  }

  /** `MemoryLimitActionLogic._do`. */
  method LimitAction(backend: MemoryBackend.Backend, key: Key, rate: real, capacity: int, cost: int, now: real)
    returns (r: Result<(bool, int)>)
    requires backend.Valid() && rate > 0.0
    modifies backend
    ensures backend.Valid()
    ensures (backend.State(), r) == DoLimit(old(backend.State()), key, rate, capacity, cost, now)
  {
    hide HGetAll, HSet;
    var nowSec := Seconds(now);
    var bucket := backend.HGetAll(key, now);
    if bucket.DataError? { return DataError; }
    var lastTokens := T.Field(bucket.value, "tokens", 0);
    var lastRefreshed := T.Field(bucket.value, "last_refreshed", nowSec);

    var timeElapsed := nowSec - lastRefreshed;
    var tokens := MaxInt(0, lastTokens - T.Refill(timeElapsed, rate));
    if tokens + cost > capacity { return Ok((true, capacity - tokens)); }

    var fillTime := capacity as real / rate;
    backend.Expire(key, Ceil(2.0 * fillTime), now);
    var stored := backend.HSet(key, T.Bucket(tokens + cost, nowSec));
    if stored.DataError? { return DataError; }
    return Ok((false, capacity - (tokens + cost)));
  }

  /** `LeakingBucketRateLimiter._peek`. */
  method Peek(backend: MemoryBackend.Backend, key: Key, q: Quota, now: real) returns (r: Response)
    requires backend.Valid() && q.Valid()
    modifies backend
    ensures backend.Valid()
    ensures (backend.State(), r) == PeekOn(old(backend.State()), key, q, now)
  {
    hide HGetAll;
    RatesAreReciprocal(q);
    var bucket := backend.HGetAll(key, now);
    if bucket.DataError? { return Failed; }
    return Snapshot(Look(bucket.value, q.FillRate(), q.burst, now));
  }
}
