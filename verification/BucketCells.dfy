/** The one cell a bucket limiter keeps: when its value stands for no value, and how its writes reach the store. */
module BucketCells {
  import opened Base
  import opened Store
  import opened Limiters
  import Ideal
  import T = TokenBucket
  import L = LeakingBucket

  /** The shape of the values a bucket limiter writes under its key. */
  ghost predicate CellOk(c: Config, v: Value, now: real) {
    if c.algorithm.GCRA? then v.FloatVal? else
    && v.DictVal?
    && v.kv.Keys == {"tokens", "last_refreshed"}
    && 0 <= v.kv["tokens"] <= c.quota.burst
    && v.kv["last_refreshed"] <= Seconds(now)
  }

  ghost predicate CellTyped(c: Config, cell: Option<Value>, now: real) {
    cell.Some? ==> CellOk(c, cell.value, now)
  }

  /** From `t` on, the value stands for the same state as no value at all. */
  ghost predicate Dead(c: Config, v: Value, t: real)
    requires c.quota.Valid() && CellOk(c, v, t)
  {
    if c.algorithm.GCRA? then v.f <= t else
    var refill := T.Refill(Seconds(t) - v.kv["last_refreshed"], c.quota.FillRate());
    if c.algorithm.TOKEN_BUCKET? then v.kv["tokens"] + refill >= c.quota.burst
    else v.kv["tokens"] <= refill
  }

  lemma RefillMonotone(a: int, b: int, rate: real)
    requires a <= b && rate >= 0.0
    ensures T.Refill(a, rate) <= T.Refill(b, rate)
    ensures 0 <= a ==> 0 <= T.Refill(a, rate)
    ensures T.Refill(0, rate) == 0
  {
    RefillOrder(a, b, rate);
    if 0 <= a { RefillOrder(0, a, rate); }
    assert T.Refill(0, rate) == 0;
    hide T.Refill;
  }

  lemma RefillOrder(a: int, b: int, rate: real)
    requires a <= b && rate >= 0.0
    ensures T.Refill(a, rate) <= T.Refill(b, rate)
  {
    MulMonotone(a as real, b as real, rate);
    FloorMonotone(a as real * rate, b as real * rate);
    assert T.Refill(a, rate) == (a as real * rate).Floor && T.Refill(b, rate) == (b as real * rate).Floor;
    hide *;
  }

  lemma DeadStays(c: Config, v: Value, t: real, later: real)
    requires c.quota.Valid() && CellOk(c, v, t) && Dead(c, v, t) && t <= later
    ensures CellOk(c, v, later) && Dead(c, v, later)
  {
    if !c.algorithm.GCRA? {
      RatesAreReciprocal(c.quota);
      var last := v.kv["last_refreshed"];
      RefillMonotone(Seconds(t) - last, Seconds(later) - last, c.quota.FillRate());
    }
  }

  /** A dead cell answers every request as an absent one, and leaves the same value behind. */
  lemma DeadIsAbsent(c: Config, v: Value, r: Request)
    requires c.quota.Valid() && c.algorithm.IsBucket()
    requires CellOk(c, v, r.now) && Dead(c, v, r.now)
    ensures Ideal.CellServe(c, Some(v), r) == Ideal.CellServe(c, None, r)
  {
    RatesAreReciprocal(c.quota);
    var q, rate := c.quota, c.quota.FillRate();
    RefillMonotone(0, 0, rate);
    if c.algorithm.TOKEN_BUCKET? {
      assert T.Tokens(v.kv, rate, q.burst, r.now) == T.Tokens(map[], rate, q.burst, r.now);
    } else if c.algorithm.LEAKING_BUCKET? {
      assert L.Level(v.kv, rate, r.now) == L.Level(map[], rate, r.now);
    }
  }

  /** Twice the time to fill, rounded up, refills any bucket. */
  lemma TtlRefills(rate: real, burst: int)
    requires rate > 0.0 && burst >= 0
    ensures T.BucketTtl(rate, burst) >= 0 && T.Refill(T.BucketTtl(rate, burst), rate) >= burst
  {
    var fill := burst as real / rate;
    DivBounds(burst as real, rate, 0.0);
    DivBounds(burst as real, rate, fill);
    MulMonotone(fill, T.BucketTtl(rate, burst) as real, rate);
  }

  /** The timeout written with a value outlives it: when the entry expires, the value is dead. */
  lemma WriteOutlives(c: Config, cell: Option<Value>, r: Request, v: Value, ttl: int)
    requires c.quota.Valid() && c.algorithm.IsBucket()
    requires cell.Some? ==> CellOk(c, cell.value, r.now)
    requires Ideal.CellServe(c, cell, r).write == Some((v, ttl))
    ensures ttl >= 0 && CellOk(c, v, r.now) && CellOk(c, v, r.now + ttl as real) && Dead(c, v, r.now + ttl as real)
  {
    RatesAreReciprocal(c.quota);
    if !c.algorithm.GCRA? {
      var kv, rate := Ideal.Hash(cell), c.quota.FillRate();
      TtlRefills(rate, c.quota.burst);
      var elapsed := Seconds(r.now) - T.Field(kv, "last_refreshed", Seconds(r.now));
      RefillMonotone(0, elapsed, rate);
      FloorShift(r.now, ttl);
    }
  }

  // ----- the three ways of writing a bucket are one

  /** The store after a read of `key`, whichever command reads it. */
  function Touch(s: Store, key: Key, now: real): Store {
    if HasExpired(s, key, now) then Delete(s, key)
    else if key in s.entries then MoveToEnd(s, key)
    else s
  }

  /** The store never holds a value of another shape under a bucket's key. */
  ghost predicate Typed(c: Config, s: Store, key: Key, now: real) {
    key in s.entries ==> CellOk(c, s.entries[key], now)
  }

  /** `hset` then `expire` on a fresh or complete hash is a `set`. */
  lemma HSetThenExpireIsSet(s: Store, key: Key, tokens: int, last: int, ttl: int, now: real)
    requires s.Valid()
    requires key in s.entries ==> s.entries[key].DictVal? && s.entries[key].kv.Keys == {"tokens", "last_refreshed"}
    ensures var (s1, r) := HSet(s, key, T.Bucket(tokens, last));
      r.Ok? && Expire(s1, key, ttl, now) == Set(s, key, DictVal(T.Bucket(tokens, last)), ttl, now)
  {
    var b := T.Bucket(tokens, last);
    assert "tokens" in b;
    if key in s.entries { assert s.entries[key].kv + b == b; }
  }

  /** So is `expire` then `hset`: the orphan expiry of a missing key is adopted at once. */
  lemma ExpireThenHSetIsSet(s: Store, key: Key, tokens: int, last: int, ttl: int, now: real)
    requires s.Valid()
    requires key in s.entries ==> s.entries[key].DictVal? && s.entries[key].kv.Keys == {"tokens", "last_refreshed"}
    ensures HSet(Expire(s, key, ttl, now), key, T.Bucket(tokens, last))
         == (Set(s, key, DictVal(T.Bucket(tokens, last)), ttl, now), Ok(()))
  {
    var b := T.Bucket(tokens, last);
    assert "tokens" in b;
    if key in s.entries {
      assert s.entries[key].kv + b == b;
    } else if |s.order| >= s.maxSize {
      var f := s.order[0];
      assert f in s.entries;
      assert s.expireInfo[key := now + ttl as real] - {f} == (s.expireInfo - {f})[key := now + ttl as real];
    }
  }

  lemma TouchedCell(s: Store, key: Key, now: real)
    requires s.Valid()
    ensures var s1 := Touch(s, key, now);
      && s1.Valid()
      && (key in s1.entries <==> Lookup(s, key, now).Some?)
      && (key in s1.entries ==> s1.entries[key] == s.entries[key])
  {
    DeleteValid(s, key);
    if key in s.entries { MoveToEndValid(s, key); }
  }

  /** Every bucket request is: touch the key, decide on what it shows, and set the new value if there is one. */
  lemma ServeIsTouchThenSet(c: Config, s: Store, r: Request)
    requires c.quota.Valid() && c.algorithm.IsBucket() && s.Valid() && Typed(c, s, Plain(r.user), r.now)
    ensures var key := Plain(r.user);
      var s1, e := Touch(s, key, r.now), Ideal.CellServe(c, Lookup(s, key, r.now), r);
      Serve(c, s, r) ==
        (if e.write.Some? then Set(s1, key, e.write.value.0, e.write.value.1, r.now) else s1, e.response)
  {
    hide Set, HSet, Expire, MoveToEnd, Delete, HasExpired, T.Tokens, T.ToResult, T.BucketTtl, L.Level;
    var key, q := Plain(r.user), c.quota;
    RatesAreReciprocal(q);
    TouchedCell(s, key, r.now);
    var s1, e := Touch(s, key, r.now), Ideal.CellServe(c, Lookup(s, key, r.now), r);
    if r.Limit? && e.write.Some? && !c.algorithm.GCRA? {
      var (v, ttl) := e.write.value;
      var tokens := v.kv["tokens"];
      if c.algorithm.TOKEN_BUCKET? {
        HSetThenExpireIsSet(s1, key, tokens, Seconds(r.now), ttl, r.now);
      } else {
        ExpireThenHSetIsSet(s1, key, tokens, Seconds(r.now), ttl, r.now);
      }
    }
  }

  // ----- counting the keys of bucket limiters

  ghost function PlainKeys(users: set<string>): set<Key> { set u | u in users :: Plain(u) }

  lemma {:induction false} PlainKeysCount(users: set<string>)
    ensures |PlainKeys(users)| == |users|
    decreases |users|
  {
    if users != {} {
      var u :| u in users;
      PlainKeysCount(users - {u});
      assert PlainKeys(users) == PlainKeys(users - {u}) + {Plain(u)};
    }
  }
}
