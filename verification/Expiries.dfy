/** How long what the limiters write stays in the store: long enough, and no longer than the source says. */
module Expiries {
  import opened Base
  import opened Store
  import opened Limiters
  import Ideal
  import T = TokenBucket
  import L = LeakingBucket
  import G = Gcra
  import F = FixedWindow
  import SW = SlidingWindow
  import B = BucketCells
  import GcraRate

  /** The time a bucket takes to fill, twice. */
  function TwiceToFill(q: Quota): real
    requires q.Valid()
  {
    2.0 * (q.burst as real * q.EmissionInterval())
  }

  /** A TAT is kept until it is due, and a bucket for twice the time it takes to fill: in whole seconds, rounded up. */
  lemma WriteStays(c: Config, cell: Option<Value>, r: Request, v: Value, ttl: int)
    requires c.quota.Valid() && c.algorithm.IsBucket() && Ideal.CellServe(c, cell, r).write == Some((v, ttl))
    ensures if c.algorithm.GCRA? then v.FloatVal? && v.f <= r.now + ttl as real < v.f + 1.0
            else v.DictVal? && TwiceToFill(c.quota) <= ttl as real < TwiceToFill(c.quota) + 1.0
  {
    hide Quota.EmissionInterval, Quota.FillRate, T.Tokens, T.Look, L.Level, L.Look, T.ToResult, T.BucketTtl, G.Decide;
    RatesAreReciprocal(c.quota);
    BucketTtlIs(c.quota);
    if c.algorithm.GCRA? && r.Limit? {
      DecideStores(G.LastTat(cell, r.now), c.quota.EmissionInterval(), c.quota.burst, r.cost, r.now);
    }
    hide TwiceToFill;
  }

  lemma BucketTtlIs(q: Quota)
    requires q.Valid() && q.FillRate() > 0.0 && q.EmissionInterval() * q.FillRate() == 1.0
    ensures TwiceToFill(q) <= T.BucketTtl(q.FillRate(), q.burst) as real < TwiceToFill(q) + 1.0
  {
    hide Quota.EmissionInterval, Quota.FillRate;
    FillTime(q.burst, q.EmissionInterval(), q.FillRate());
  }

  lemma DecideStores(lastTat: real, ei: real, capacity: int, cost: int, now: real)
    requires ei > 0.0
    ensures var v := G.Decide(lastTat, ei, capacity, cost, now);
      v.newTat.Some? ==> v.newTat.value == now + v.resetAfter
  {
  }

  lemma FillTime(burst: int, ei: real, rate: real)
    requires rate > 0.0 && ei * rate == 1.0
    ensures burst as real / rate == burst as real * ei
  {
    DivBounds(burst as real, rate, burst as real * ei);
    assert burst as real * ei * rate == burst as real * (ei * rate);
  }

  /** On the store: an admission renews a bucket's entry for that long. */
  lemma BucketEntryStays(c: Config, s: Store, user: string, cost: nat, now: real)
    requires c.quota.Valid() && c.algorithm.IsBucket() && s.Valid() && B.Typed(c, s, Plain(user), now)
    ensures var ((s', a), key) := (Serve(c, s, Limit(user, cost, now)), Plain(user));
      a.Admits() && (c.algorithm.GCRA? ==> cost > 0) ==>
        && key in s'.entries && key in s'.expireInfo
        && if c.algorithm.GCRA? then
             s'.entries[key].FloatVal? && s'.entries[key].f <= s'.expireInfo[key] < s'.entries[key].f + 1.0
           else TwiceToFill(c.quota) <= s'.expireInfo[key] - now < TwiceToFill(c.quota) + 1.0
  {
    var r, key := Limit(user, cost, now), Plain(user);
    B.ServeIsTouchThenSet(c, s, r);
    B.TouchedCell(s, key, now);
    AdmissionWrites(c, Lookup(s, key, now), r);
    var e := Ideal.CellServe(c, Lookup(s, key, now), r);
    hide Ideal.CellServe, Serve, B.Touch, Lookup, TwiceToFill;
    if e.write.Some? {
      WriteStays(c, Lookup(s, key, now), r, e.write.value.0, e.write.value.1);
      SetIsEvictThenInsert(B.Touch(s, key, now), key, e.write.value.0, e.write.value.1, now);
      hide Set;
    }
  }

  lemma AdmissionWrites(c: Config, cell: Option<Value>, r: Request)
    requires c.quota.Valid() && c.algorithm.IsBucket() && r.Limit?
    ensures var e := Ideal.CellServe(c, cell, r);
      e.response.Admits() && (c.algorithm.GCRA? ==> r.cost > 0) ==> e.write.Some?
  {
    hide Quota.EmissionInterval, T.Tokens, L.Level, T.RefillSec, T.BucketTtl, G.Decide;
    RatesAreReciprocal(c.quota);
    if c.algorithm.GCRA? && r.cost > 0 {
      DecideWrites(G.LastTat(cell, r.now), c.quota.EmissionInterval(), c.quota.burst, r.cost, r.now);
    }
  }

  lemma DecideWrites(lastTat: real, ei: real, capacity: int, cost: nat, now: real)
    requires ei > 0.0 && cost > 0
    ensures var v := G.Decide(lastTat, ei, capacity, cost, now); !v.limited ==> v.newTat.Some?
  {
    MulStrict(0.0, cost as real, ei);
    GcraRate.AdmissionTest(lastTat, ei, capacity, cost, now);
    hide G.Decide;
  }

  /** A window's counter expires one period, or three, after the request that found none; later requests leave that. */
  lemma CounterStays(c: Config, s: Store, user: string, cost: nat, now: real)
    requires c.quota.Valid() && !c.algorithm.IsBucket() && s.Valid()
    ensures var ((s', a), key) := (Serve(c, s, Limit(user, cost, now)), F.CurrentKey(user, now, c.quota.periodSec));
      !a.Failed? ==>
        && key in s'.entries
        && Expiry(s', key) ==
           if Lookup(s, key, now).Some? then Expiry(s, key)
           else Some(now + (if c.algorithm.FIXED_WINDOW? then c.quota.periodSec else 3 * c.quota.periodSec) as real)
  {
    hide Get, Set, Lookup, Expiry, ClientPut, Store.Valid;
    hide F.WindowIndex, F.Report, F.ResetAfter, SW.PreviousProportion, SW.Previous, SW.Decide;
    var p := c.quota.periodSec;
    var key, prev := F.CurrentKey(user, now, p), SW.PreviousKey(user, now, p);
    var ttl := if c.algorithm.FIXED_WINDOW? then p else 3 * p;
    GetKeeps(s, key, key, now);
    var s1 := Get(s, key, now).0;
    var s2 := Set(s1, key, IntVal(cost), ttl, now);
    SetStays(s1, key, IntVal(cost), ttl, now);
    var found := Get(s, key, now).1;
    if found.Ok? {
      var current := IntVal(F.CountOf(found.value) + cost);
      if c.algorithm.SLIDING_WINDOW? {
        GetKeeps(s1, prev, key, now);
        GetKeeps(s2, prev, key, now);
        PutStays(Get(s1, prev, now).0, key, current);
        PutStays(Get(s2, prev, now).0, key, current);
      } else {
        PutStays(s1, key, current);
      }
    }
  }

  lemma SetStays(s: Store, key: Key, v: Value, ttl: int, now: real)
    requires s.Valid()
    ensures var s' := Set(s, key, v, ttl, now);
      s'.Valid() && key in s'.entries && Expiry(s', key) == Some(now + ttl as real)
  {
    SetIsEvictThenInsert(s, key, v, ttl, now);
    hide Set, CheckAndEvict, Without, NoDup;
  }

  lemma PutStays(s: Store, key: Key, v: Value)
    ensures var s' := ClientPut(s, key, v); key in s'.entries && Expiry(s', key) == Expiry(s, key)
  {
  }

  /** A get answers what is live, and leaves a key that is live, or another than the one it reads, as it was. */
  lemma GetKeeps(s: Store, key: Key, other: Key, now: real)
    requires s.Valid()
    ensures var (s', r) := Get(s, key, now);
      && s'.Valid() && (r.Ok? ==> r.value == Lookup(s, key, now))
      && (other != key || Lookup(s, key, now).Some? ==>
            (other in s'.entries <==> other in s.entries) && Expiry(s', other) == Expiry(s, other))
      && (Lookup(s, key, now).Some? ==> key in s.entries)
  {
    hide NoDup, Without;
    GetValid(s, key, now);
  }
}
