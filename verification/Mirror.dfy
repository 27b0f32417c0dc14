/** Token bucket and leaking bucket are one algorithm: level is capacity less tokens, on any store, evictions
    included. */
module Mirror {
  import opened Base
  import opened Store
  import opened Limiters
  import Ideal
  import T = TokenBucket
  import L = LeakingBucket
  import G = Gcra
  import F = FixedWindow
  import SW = SlidingWindow
  import B = BucketCells

  /** The leaking-bucket hash that says the same as a token-bucket hash. */
  function MirrorValue(burst: int, v: Value): Value
    requires v.DictVal? && v.kv.Keys == {"tokens", "last_refreshed"}
  {
    DictVal(T.Bucket(burst - v.kv["tokens"], v.kv["last_refreshed"]))
  }

  ghost predicate MirrorsCell(q: Quota, v: Option<Value>, w: Option<Value>, now: real) {
    && (v.None? <==> w.None?)
    && (v.Some? ==> B.CellOk(Config(TOKEN_BUCKET, q), v.value, now) && w.value == MirrorValue(q.burst, v.value))
  }

  /** The two limiters answer alike and write mirrored hashes with the same timeout. */
  lemma CellsMirror(q: Quota, v: Option<Value>, w: Option<Value>, r: Request)
    requires q.Valid() && MirrorsCell(q, v, w, r.now)
    ensures var e, f := Ideal.TokenCell(q, v, r), Ideal.LeakCell(q, w, r);
      && e.response == f.response && (e.write.Some? <==> f.write.Some?)
      && (e.write.Some? ==> e.write.value.1 == f.write.value.1)
      && (e.write.Some? ==> MirrorsCell(q, Some(e.write.value.0), Some(f.write.value.0), r.now))
  {
    RatesAreReciprocal(q);
    var kv, lv, rate := Ideal.Hash(v), Ideal.Hash(w), q.FillRate();
    var elapsed := Seconds(r.now) - T.Field(kv, "last_refreshed", Seconds(r.now));
    B.RefillMonotone(0, elapsed, rate);
    hide T.Refill, Quota.FillRate, T.ToResult, T.BucketTtl;
    assert T.Tokens(kv, rate, q.burst, r.now) == q.burst - L.Level(lv, rate, r.now);
  }

  /** They part only when the clock is behind the last refresh: then a token bucket refills nothing and a leaking
      bucket's peek leaks nothing, but its limit action takes the whole tokens of the lag for used, rounded up. */
  lemma LaggingClock(tokens: int, last: int, rate: real, capacity: int, now: real)
    requires rate > 0.0 && Seconds(now) < last
    ensures var (kv, lag) := (T.Bucket(tokens, last), (last - Seconds(now)) as real * rate);
      && T.Tokens(kv, rate, capacity, now) == MinInt(capacity, tokens)
      && L.Look(kv, rate, capacity, now).remaining == capacity - MaxInt(0, tokens)
      && L.Level(kv, rate, now) == MaxInt(0, tokens + Ceil(lag))
  {
    B.RefillMonotone(0, 0, rate);
    SubMulInt(Seconds(now), last, rate);
    SubMulInt(last, Seconds(now), rate);
    hide T.Refill;
    LagRefill(Seconds(now) - last, rate);
  }

  lemma LagRefill(elapsed: int, rate: real)
    ensures T.Refill(elapsed, rate) == -Ceil((-elapsed) as real * rate)
  {
    assert (-elapsed) as real * rate == -(elapsed as real * rate);
  }

  /** Every token bucket becomes a leaking bucket; other limiters stay what they are. */
  function LeakingConfigs(cs: Configs): (r: Configs)
    ensures r.Keys == cs.Keys
  {
    map u | u in cs :: if cs[u].algorithm.TOKEN_BUCKET? then Config(LEAKING_BUCKET, cs[u].quota) else cs[u]
  }

  predicate Swapped(cs: Configs, k: Key) { k.Plain? && k.user in cs && cs[k.user].algorithm.TOKEN_BUCKET? }

  /** Same size, same recency order, same expiries; mirrored hashes for the swapped users, equal values for the
      others. */
  ghost predicate Mirrors(cs: Configs, s: Store, t: Store, now: real) {
    && s.Valid() && t.Valid()
    && s.maxSize == t.maxSize && s.order == t.order && s.expireInfo == t.expireInfo
    && forall k :: MirrorsAt(cs, s, t, now, k)
  }

  ghost predicate MirrorsAt(cs: Configs, s: Store, t: Store, now: real, k: Key) {
    && (k in s.entries <==> k in t.entries)
    && (k in s.entries ==>
          if Swapped(cs, k) then MirrorsCell(cs[k.user].quota, Some(s.entries[k]), Some(t.entries[k]), now)
          else s.entries[k] == t.entries[k])
  }

  lemma MirrorsWait(cs: Configs, s: Store, t: Store, now: real, later: real)
    requires Mirrors(cs, s, t, now) && now <= later
    ensures Mirrors(cs, s, t, later)
  {
    forall k ensures MirrorsAt(cs, s, t, later, k) { assert MirrorsAt(cs, s, t, now, k); }
  }

  // ----- the commands on mirrored stores

  lemma TouchMirrors(cs: Configs, s: Store, t: Store, now: real, key: Key)
    requires Mirrors(cs, s, t, now)
    ensures Mirrors(cs, B.Touch(s, key, now), B.Touch(t, key, now), now)
  {
    hide Mirrors, Delete, MoveToEnd, NoDup, Swapped;
    SameOrders(cs, s, t, now, key);
    DeleteMirrors(cs, s, t, now, key);
    if key in s.entries { MoveMirrors(cs, s, t, now, key); }
  }

  lemma DeleteMirrors(cs: Configs, s: Store, t: Store, now: real, key: Key)
    requires Mirrors(cs, s, t, now)
    ensures Mirrors(cs, Delete(s, key), Delete(t, key), now)
  {
    hide Mirrors, NoDup, Without;
    SameOrders(cs, s, t, now, key);
    DeleteValid(s, key);
    DeleteValid(t, key);
    DropMirrors(cs, s, t, now, key, Delete(s, key), Delete(t, key));
  }

  lemma MoveMirrors(cs: Configs, s: Store, t: Store, now: real, key: Key)
    requires Mirrors(cs, s, t, now) && key in s.entries
    ensures Mirrors(cs, MoveToEnd(s, key), MoveToEnd(t, key), now)
  {
    hide MirrorsCell, NoDup, Without, Swapped;
    assert MirrorsAt(cs, s, t, now, key);
    MoveToEndValid(s, key);
    MoveToEndValid(t, key);
    var s1, t1 := MoveToEnd(s, key), MoveToEnd(t, key);
    forall k ensures MirrorsAt(cs, s1, t1, now, k) { assert MirrorsAt(cs, s, t, now, k); }
  }

  lemma LookupMirrors(cs: Configs, s: Store, t: Store, now: real, user: string)
    requires Mirrors(cs, s, t, now) && Swapped(cs, Plain(user))
    ensures MirrorsCell(cs[user].quota, Lookup(s, Plain(user), now), Lookup(t, Plain(user), now), now)
  {
    assert MirrorsAt(cs, s, t, now, Plain(user));
  }

  lemma EvictMirrors(cs: Configs, s: Store, t: Store, now: real, key: Key)
    requires Mirrors(cs, s, t, now)
    ensures Mirrors(cs, CheckAndEvict(s, key), CheckAndEvict(t, key), now)
  {
    hide Mirrors, NoDup, Swapped;
    SameOrders(cs, s, t, now, key);
    CheckAndEvictValid(s, key);
    CheckAndEvictValid(t, key);
    if |s.order| >= s.maxSize && key !in s.entries {
      DropMirrors(cs, s, t, now, s.order[0], CheckAndEvict(s, key), CheckAndEvict(t, key));
    }
  }

  lemma DropMirrors(cs: Configs, s: Store, t: Store, now: real, key: Key, s1: Store, t1: Store)
    requires Mirrors(cs, s, t, now) && s1.Valid() && t1.Valid()
    requires s1.maxSize == t1.maxSize && s1.order == t1.order && s1.expireInfo == t1.expireInfo
    requires s1.entries == s.entries - {key} && t1.entries == t.entries - {key}
    ensures Mirrors(cs, s1, t1, now)
  {
    hide MirrorsCell, NoDup, Swapped;
    forall k ensures MirrorsAt(cs, s1, t1, now, k) { assert MirrorsAt(cs, s, t, now, k); }
  }

  lemma InsertMirrors(cs: Configs, s: Store, t: Store, now: real, key: Key, v: Value, w: Value, s1: Store, t1: Store)
    requires Mirrors(cs, s, t, now)
    requires if Swapped(cs, key) then MirrorsCell(cs[key.user].quota, Some(v), Some(w), now) else v == w
    requires s1.Valid() && t1.Valid()
    requires s1.maxSize == t1.maxSize && s1.order == t1.order && s1.expireInfo == t1.expireInfo
    requires s1.entries == s.entries[key := v] && t1.entries == t.entries[key := w]
    ensures Mirrors(cs, s1, t1, now)
  {
    hide MirrorsCell, NoDup, Swapped;
    forall k ensures MirrorsAt(cs, s1, t1, now, k) { assert MirrorsAt(cs, s, t, now, k); }
  }

  lemma SameOrders(cs: Configs, s: Store, t: Store, now: real, key: Key)
    requires Mirrors(cs, s, t, now)
    ensures s.Valid() && t.Valid() && s.maxSize == t.maxSize && s.order == t.order && s.expireInfo == t.expireInfo
    ensures key in s.entries <==> key in t.entries
    ensures key in s.entries && !Swapped(cs, key) ==> s.entries[key] == t.entries[key]
  {
    assert MirrorsAt(cs, s, t, now, key);
  }

  /** Storing values under one key of both stores: what they evict is the same. */
  lemma SetMirrors(cs: Configs, s: Store, t: Store, now: real, key: Key, v: Value, w: Value, ttl: int)
    requires Mirrors(cs, s, t, now)
    requires if Swapped(cs, key) then MirrorsCell(cs[key.user].quota, Some(v), Some(w), now) else v == w
    ensures Mirrors(cs, Set(s, key, v, ttl, now), Set(t, key, w, ttl, now), now)
  {
    hide Mirrors, MirrorsCell, CheckAndEvict, Set, NoDup, Without;
    EvictMirrors(cs, s, t, now, key);
    SameOrders(cs, s, t, now, key);
    SameOrders(cs, CheckAndEvict(s, key), CheckAndEvict(t, key), now, key);
    SetIsEvictThenInsert(s, key, v, ttl, now);
    SetIsEvictThenInsert(t, key, w, ttl, now);
    InsertMirrors(cs, CheckAndEvict(s, key), CheckAndEvict(t, key), now, key, v, w,
                  Set(s, key, v, ttl, now), Set(t, key, w, ttl, now));
  }

  lemma GetMirrors(cs: Configs, s: Store, t: Store, now: real, key: Key)
    requires Mirrors(cs, s, t, now) && !Swapped(cs, key)
    ensures var ((s', a), (t', b)) := (Get(s, key, now), Get(t, key, now));
      a == b && Mirrors(cs, s', t', now) && (key in s.entries <==> key in t.entries)
  {
    TouchMirrors(cs, s, t, now, key);
    assert MirrorsAt(cs, s, t, now, key);
    hide MirrorsAt, NoDup, Without;
  }

  lemma HGetAllMirrors(cs: Configs, s: Store, t: Store, now: real, key: Key)
    requires Mirrors(cs, s, t, now) && !Swapped(cs, key)
    ensures var ((s', a), (t', b)) := (HGetAll(s, key, now), HGetAll(t, key, now));
      a == b && Mirrors(cs, s', t', now)
  {
    TouchMirrors(cs, s, t, now, key);
    assert MirrorsAt(cs, s, t, now, key);
    hide MirrorsAt, NoDup, Without;
  }

  lemma HSetMirrors(cs: Configs, s: Store, t: Store, now: real, key: Key, mapping: map<string, int>)
    requires Mirrors(cs, s, t, now) && !Swapped(cs, key)
    ensures var ((s', a), (t', b)) := (HSet(s, key, mapping), HSet(t, key, mapping));
      a == b && Mirrors(cs, s', t', now)
  {
    hide Mirrors, MirrorsCell, CheckAndEvict, NoDup, Without;
    EvictMirrors(cs, s, t, now, key);
    SameOrders(cs, s, t, now, key);
    SameOrders(cs, CheckAndEvict(s, key), CheckAndEvict(t, key), now, key);
    if mapping != map[] && (key in s.entries ==> s.entries[key].DictVal?) {
      HSetIsEvictThenInsert(s, key, mapping);
      HSetIsEvictThenInsert(t, key, mapping);
      hide HSet;
      var v := DictVal(if key in s.entries then s.entries[key].kv + mapping else mapping);
      InsertMirrors(cs, CheckAndEvict(s, key), CheckAndEvict(t, key), now, key, v, v,
                    HSet(s, key, mapping).0, HSet(t, key, mapping).0);
    }
  }

  lemma ExpireMirrors(cs: Configs, s: Store, t: Store, now: real, key: Key, timeout: int)
    requires Mirrors(cs, s, t, now)
    ensures Mirrors(cs, Expire(s, key, timeout, now), Expire(t, key, timeout, now), now)
  {
    hide MirrorsCell;
    var s1, t1 := Expire(s, key, timeout, now), Expire(t, key, timeout, now);
    forall k ensures MirrorsAt(cs, s1, t1, now, k) { assert MirrorsAt(cs, s, t, now, k); }
  }

  lemma PutMirrors(cs: Configs, s: Store, t: Store, now: real, key: Key, v: Value)
    requires Mirrors(cs, s, t, now) && !Swapped(cs, key) && key in s.entries
    ensures Mirrors(cs, ClientPut(s, key, v), ClientPut(t, key, v), now)
  {
    hide MirrorsCell;
    assert MirrorsAt(cs, s, t, now, key);
    var s1, t1 := ClientPut(s, key, v), ClientPut(t, key, v);
    forall k ensures MirrorsAt(cs, s1, t1, now, k) { assert MirrorsAt(cs, s, t, now, k); }
  }

  // ----- the limiters on mirrored stores

  lemma MirrorsTyped(cs: Configs, s: Store, t: Store, now: real, user: string)
    requires ValidConfigs(cs) && Mirrors(cs, s, t, now) && Swapped(cs, Plain(user))
    ensures s.Valid() && t.Valid()
    ensures B.Typed(Config(TOKEN_BUCKET, cs[user].quota), s, Plain(user), now)
    ensures B.Typed(Config(LEAKING_BUCKET, cs[user].quota), t, Plain(user), now)
  {
    assert MirrorsAt(cs, s, t, now, Plain(user));
  }

  /** A swapped user's request. */
  lemma SwappedStep(cs: Configs, s: Store, t: Store, r: Request)
    requires ValidConfigs(cs) && Mirrors(cs, s, t, r.now) && Swapped(cs, Plain(r.user))
    ensures var ((s', a), (t', b)) := (Serve(cs[r.user], s, r), Serve(LeakingConfigs(cs)[r.user], t, r));
      a == b && Mirrors(cs, s', t', r.now)
  {
    hide Serve, Set, Mirrors, MirrorsCell, Ideal.TokenCell, Ideal.LeakCell, B.Touch, Lookup, B.Typed;
    var c, d, key := cs[r.user], LeakingConfigs(cs)[r.user], Plain(r.user);
    MirrorsTyped(cs, s, t, r.now, r.user);
    B.ServeIsTouchThenSet(c, s, r);
    B.ServeIsTouchThenSet(d, t, r);
    TouchMirrors(cs, s, t, r.now, key);
    LookupMirrors(cs, s, t, r.now, r.user);
    var v, w := Lookup(s, key, r.now), Lookup(t, key, r.now);
    CellsMirror(c.quota, v, w, r);
    var e, f := Ideal.TokenCell(c.quota, v, r), Ideal.LeakCell(c.quota, w, r);
    if e.write.Some? {
      SetMirrors(cs, B.Touch(s, key, r.now), B.Touch(t, key, r.now), r.now, key, e.write.value.0, f.write.value.0,
                 e.write.value.1);
    }
  }

  /** A request of a bucket limiter that stays what it is. */
  lemma BucketStep(cs: Configs, s: Store, t: Store, r: Request)
    requires ValidConfigs(cs) && Mirrors(cs, s, t, r.now) && r.user in cs
    requires cs[r.user].algorithm.GCRA? || cs[r.user].algorithm.LEAKING_BUCKET?
    ensures var ((s', a), (t', b)) := (Serve(cs[r.user], s, r), Serve(cs[r.user], t, r));
      a == b && Mirrors(cs, s', t', r.now)
  {
    hide Mirrors, Get, Set, HGetAll, HSet, Expire, G.Decide, G.Look, L.Level, L.Look, T.ToResult, T.BucketTtl;
    hide Quota.EmissionInterval, Quota.FillRate;
    var c, key, now := cs[r.user], Plain(r.user), r.now;
    RatesAreReciprocal(c.quota);
    if c.algorithm.GCRA? {
      GetMirrors(cs, s, t, now, key);
      var (s1, t1) := (Get(s, key, now).0, Get(t, key, now).0);
      forall v, ttl ensures Mirrors(cs, Set(s1, key, v, ttl, now), Set(t1, key, v, ttl, now), now) {
        SetMirrors(cs, s1, t1, now, key, v, v, ttl);
      }
    } else {
      HGetAllMirrors(cs, s, t, now, key);
      var (s1, bucket) := HGetAll(s, key, now);
      var t1 := HGetAll(t, key, now).0;
      if r.Limit? && bucket.Ok? {
        var ttl := T.BucketTtl(c.quota.FillRate(), c.quota.burst);
        ExpireMirrors(cs, s1, t1, now, key, ttl);
        var level := L.Level(bucket.value, c.quota.FillRate(), now);
        HSetMirrors(cs, Expire(s1, key, ttl, now), Expire(t1, key, ttl, now), now, key,
                    T.Bucket(level + r.cost, Seconds(now)));
      }
    }
  }

  lemma FixedStep(cs: Configs, s: Store, t: Store, r: Request)
    requires ValidConfigs(cs) && Mirrors(cs, s, t, r.now) && r.user in cs && cs[r.user].algorithm.FIXED_WINDOW?
    ensures var ((s', a), (t', b)) := (Serve(cs[r.user], s, r), Serve(cs[r.user], t, r));
      a == b && Mirrors(cs, s', t', r.now)
  {
    hide Mirrors, Get, Set, ClientPut, F.Report, F.ResetAfter, F.WindowIndex;
    var q, now := cs[r.user].quota, r.now;
    var key := F.CurrentKey(r.user, now, q.periodSec);
    GetMirrors(cs, s, t, now, key);
    PresentAfter(s, key, IntVal(0), 0, key, now);
    var ((s1, a), t1) := (Get(s, key, now), Get(t, key, now).0);
    if r.Limit? && a.Ok? {
      if a.value.None? { SetMirrors(cs, s1, t1, now, key, IntVal(r.cost), IntVal(r.cost), q.periodSec); }
      else { PutMirrors(cs, s1, t1, now, key, IntVal(F.IntOf(a.value.value) + r.cost)); }
    }
  }

  lemma SlidingPeekStep(cs: Configs, s: Store, t: Store, r: Request)
    requires ValidConfigs(cs) && Mirrors(cs, s, t, r.now)
    requires r.user in cs && cs[r.user].algorithm.SLIDING_WINDOW? && r.Peek?
    ensures var ((s', a), (t', b)) := (Serve(cs[r.user], s, r), Serve(cs[r.user], t, r));
      a == b && Mirrors(cs, s', t', r.now)
  {
    hide Mirrors, Get, SW.Look, F.WindowIndex;
    var q, now := cs[r.user].quota, r.now;
    var prev, cur := SW.PreviousKey(r.user, now, q.periodSec), F.CurrentKey(r.user, now, q.periodSec);
    GetMirrors(cs, s, t, now, prev);
    GetMirrors(cs, Get(s, prev, now).0, Get(t, prev, now).0, now, cur);
  }

  lemma SlidingLimitStep(cs: Configs, s: Store, t: Store, r: Request)
    requires ValidConfigs(cs) && Mirrors(cs, s, t, r.now)
    requires r.user in cs && cs[r.user].algorithm.SLIDING_WINDOW? && r.Limit?
    ensures var ((s', a), (t', b)) := (Serve(cs[r.user], s, r), Serve(cs[r.user], t, r));
      a == b && Mirrors(cs, s', t', r.now)
  {
    hide Mirrors, Get, Set, ClientPut, SW.Decide, SW.PreviousProportion, F.WindowIndex;
    var q, now := cs[r.user].quota, r.now;
    var prev, cur := SW.PreviousKey(r.user, now, q.periodSec), F.CurrentKey(r.user, now, q.periodSec);
    GetMirrors(cs, s, t, now, cur);
    PresentAfter(s, cur, IntVal(r.cost), 0, prev, now);
    var ((s1, a), t1) := (Get(s, cur, now), Get(t, cur, now).0);
    if a.Ok? {
      var s2, t2 := s1, t1;
      if a.value.None? {
        var v, ttl := IntVal(r.cost), 3 * q.periodSec;
        SetMirrors(cs, s1, t1, now, cur, v, v, ttl);
        PresentAfter(s1, cur, v, ttl, prev, now);
        s2, t2 := Set(s1, cur, v, ttl, now), Set(t1, cur, v, ttl, now);
      }
      GetMirrors(cs, s2, t2, now, prev);
      PresentAfter(s2, cur, IntVal(r.cost), 0, prev, now);
      PutMirrors(cs, Get(s2, prev, now).0, Get(t2, prev, now).0, now, cur, IntVal(F.CountOf(a.value) + r.cost));
    }
  }

  lemma StepMirrors(cs: Configs, s: Store, t: Store, now: real, r: Request)
    requires ValidConfigs(cs) && Mirrors(cs, s, t, now) && r.user in cs && now <= r.now
    ensures LeakingConfigs(cs)[r.user].quota.Valid()
    ensures var ((s', a), (t', b)) := (Serve(cs[r.user], s, r), Serve(LeakingConfigs(cs)[r.user], t, r));
      a == b && Mirrors(cs, s', t', r.now)
  {
    hide Serve, Mirrors;
    MirrorsWait(cs, s, t, now, r.now);
    var c := cs[r.user];
    if c.algorithm.TOKEN_BUCKET? { SwappedStep(cs, s, t, r); }
    else if c.algorithm.IsBucket() { BucketStep(cs, s, t, r); }
    else if c.algorithm.FIXED_WINDOW? { FixedStep(cs, s, t, r); }
    else if r.Limit? { SlidingLimitStep(cs, s, t, r); }
    else { SlidingPeekStep(cs, s, t, r); }
  }

  /** Main result: on stores of any size, whatever other limiters share them, every run answers alike when token buckets
      are swapped for leaking buckets, and the stores stay mirrored: same order, same expiries, same evictions. */
  lemma {:induction false} LeakingBucketMirrorsTokenBucket(cs: Configs, s: Store, t: Store, start: real,
                                                           rs: seq<Request>)
    requires ValidConfigs(cs) && Mirrors(cs, s, t, start) && ValidRun(cs, start, rs)
    ensures ValidConfigs(LeakingConfigs(cs)) && UsersKnown(cs, rs)
    ensures Run(cs, s, rs) == Run(LeakingConfigs(cs), t, rs)
    ensures Mirrors(cs, Final(cs, s, rs), Final(LeakingConfigs(cs), t, rs), EndTime(start, rs))
    decreases |rs|
  {
    hide Serve, Mirrors;
    RunUsersKnown(cs, start, rs);
    if rs != [] {
      var r := rs[0];
      StepMirrors(cs, s, t, start, r);
      var (s', t') := (Serve(cs[r.user], s, r).0, Serve(LeakingConfigs(cs)[r.user], t, r).0);
      LeakingBucketMirrorsTokenBucket(cs, s', t', r.now, rs[1..]);
    }
  }
}
