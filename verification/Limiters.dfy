/** The five limiters behind one interface, and whole runs of them on a shared store. */
module Limiters {
  import opened Base
  import opened Store
  import G = Gcra
  import T = TokenBucket
  import L = LeakingBucket
  import F = FixedWindow
  import W = SlidingWindow

  /** `constants.RateLimiterType`. */
  datatype Algorithm = FIXED_WINDOW | SLIDING_WINDOW | LEAKING_BUCKET | TOKEN_BUCKET | GCRA
  {
    predicate IsBucket() { GCRA? || TOKEN_BUCKET? || LEAKING_BUCKET? }
  }

  datatype Config = Config(algorithm: Algorithm, quota: Quota)

  datatype Request =
    | Limit(user: string, cost: nat, now: real)
    | Peek(user: string, now: real)

  /** One call of a limiter on the store. */
  function Serve(c: Config, s: Store, r: Request): (Store, Response)
    requires c.quota.Valid()
  {
    match r
    case Limit(user, cost, now) => (
      match c.algorithm
      case GCRA => G.LimitOn(s, Plain(user), c.quota, cost, now)
      case TOKEN_BUCKET => T.LimitOn(s, Plain(user), c.quota, cost, now)
      case LEAKING_BUCKET => L.LimitOn(s, Plain(user), c.quota, cost, now)
      case FIXED_WINDOW => F.LimitOn(s, user, c.quota, cost, now)
      case SLIDING_WINDOW => W.LimitOn(s, user, c.quota, cost, now))
    case Peek(user, now) => (
      match c.algorithm
      case GCRA => G.PeekOn(s, Plain(user), c.quota, now)
      case TOKEN_BUCKET => T.PeekOn(s, Plain(user), c.quota, now)
      case LEAKING_BUCKET => L.PeekOn(s, Plain(user), c.quota, now)
      case FIXED_WINDOW => F.PeekOn(s, user, c.quota, now)
      case SLIDING_WINDOW => W.PeekOn(s, user, c.quota, now))
  }

  /** Who is limited, and how; every request of a run names one of them. */
  type Configs = map<string, Config>

  predicate ValidConfigs(cs: Configs) {
    forall u :: u in cs ==> cs[u].quota.Valid()
  }

  predicate UsersKnown(cs: Configs, rs: seq<Request>) {
    forall i :: 0 <= i < |rs| ==> rs[i].user in cs
  }

  /** The requests name configured users, and the clock does not run backwards from `start`. */
  ghost predicate ValidRun(cs: Configs, start: real, rs: seq<Request>)
    decreases |rs|
  {
    rs != [] ==> rs[0].user in cs && start <= rs[0].now && ValidRun(cs, rs[0].now, rs[1..])
  }

  lemma {:induction false} RunUsersKnown(cs: Configs, start: real, rs: seq<Request>)
    requires ValidRun(cs, start, rs)
    ensures UsersKnown(cs, rs)
    decreases |rs|
  {
    if rs != [] {
      RunUsersKnown(cs, rs[0].now, rs[1..]);
      assert forall i :: 1 <= i < |rs| ==> rs[i] == rs[1..][i - 1];
    }
  }

  /** The answers of a run on the store. */
  function Run(cs: Configs, s: Store, rs: seq<Request>): (r: seq<Response>)
    requires ValidConfigs(cs)
    requires UsersKnown(cs, rs)
    ensures |r| == |rs|
    decreases |rs|
  {
    if rs == [] then [] else
    var (s1, a) := Serve(cs[rs[0].user], s, rs[0]);
    [a] + Run(cs, s1, rs[1..])
  }

  /** The store a run leaves. */
  function Final(cs: Configs, s: Store, rs: seq<Request>): Store
    requires ValidConfigs(cs) && UsersKnown(cs, rs)
    decreases |rs|
  {
    if rs == [] then s else Final(cs, Serve(cs[rs[0].user], s, rs[0]).0, rs[1..])
  }

  /** The time of the last request. */
  function EndTime(start: real, rs: seq<Request>): real
    decreases |rs|
  {
    if rs == [] then start else EndTime(rs[0].now, rs[1..])
  }

  lemma {:induction false} RunThenOne(cs: Configs, s: Store, rs: seq<Request>, r: Request)
    requires ValidConfigs(cs) && UsersKnown(cs, rs) && r.user in cs
    ensures UsersKnown(cs, rs + [r])
    ensures Run(cs, s, rs + [r]) == Run(cs, s, rs) + [Serve(cs[r.user], Final(cs, s, rs), r).1]
    decreases |rs|
  {
    if rs != [] {
      assert (rs + [r])[1..] == rs[1..] + [r];
      RunThenOne(cs, Serve(cs[rs[0].user], s, rs[0]).0, rs[1..], r);
    } else {
      assert [r][1..] == [] && rs + [r] == [r];
    }
  }
}

/** The same limiters over a map that never forgets: no expiry, no size bound, no order. */
module Ideal {
  import opened Base
  import opened Store
  import opened Limiters
  import G = Gcra
  import T = TokenBucket
  import L = LeakingBucket
  import F = FixedWindow
  import W = SlidingWindow

  type Memory = map<Key, Value>

  function Cell(m: Memory, key: Key): Option<Value> { if key in m then Some(m[key]) else None }

  /** What a request of a bucket limiter answers, and the value (with its timeout) it writes. */
  datatype Effect = Effect(response: Response, write: Option<(Value, int)>)

  function Hash(cell: Option<Value>): map<string, int> {
    match cell case Some(DictVal(kv)) => kv case _ => map[]
  }

  function GcraCell(q: Quota, cell: Option<Value>, r: Request): Effect
    requires q.Valid()
  {
    RatesAreReciprocal(q);
    var ei, lastTat := q.EmissionInterval(), G.LastTat(cell, r.now);
    match r
    case Limit(_, cost, now) =>
      var v := G.Decide(lastTat, ei, q.burst, cost, now);
      Effect(v.ToResponse(q.burst),
             if v.newTat.Some? then Some((FloatVal(v.newTat.value), Ceil(v.resetAfter))) else None)
    case Peek(_, now) => Effect(Snapshot(G.Look(lastTat, ei, q.burst, now)), None)
  }

  function TokenCell(q: Quota, cell: Option<Value>, r: Request): Effect
    requires q.Valid()
  {
    RatesAreReciprocal(q);
    var rate := q.FillRate();
    match r
    case Limit(_, cost, now) =>
      var tokens := T.Tokens(Hash(cell), rate, q.burst, now);
      if tokens < cost then Effect(T.ToResult(rate, true, cost, tokens, q.burst), None)
      else Effect(T.ToResult(rate, false, cost, tokens - cost, q.burst),
                  Some((DictVal(T.Bucket(tokens - cost, Seconds(now))), T.BucketTtl(rate, q.burst))))
    case Peek(_, now) => Effect(Snapshot(T.Look(Hash(cell), rate, q.burst, now)), None)
  }

  function LeakCell(q: Quota, cell: Option<Value>, r: Request): Effect
    requires q.Valid()
  {
    RatesAreReciprocal(q);
    var rate := q.FillRate();
    match r
    case Limit(_, cost, now) =>
      var level := L.Level(Hash(cell), rate, now);
      if level + cost > q.burst then Effect(T.ToResult(rate, true, cost, q.burst - level, q.burst), None)
      else Effect(T.ToResult(rate, false, cost, q.burst - (level + cost), q.burst),
                  Some((DictVal(T.Bucket(level + cost, Seconds(now))), T.BucketTtl(rate, q.burst))))
    case Peek(_, now) => Effect(Snapshot(L.Look(Hash(cell), rate, q.burst, now)), None)
  }

  /** A bucket limiter seen through the one cell it reads. */
  function CellServe(c: Config, cell: Option<Value>, r: Request): Effect
    requires c.quota.Valid() && c.algorithm.IsBucket()
  {
    if c.algorithm.GCRA? then GcraCell(c.quota, cell, r)
    else if c.algorithm.TOKEN_BUCKET? then TokenCell(c.quota, cell, r)
    else LeakCell(c.quota, cell, r)
  }

  /** A request of any limiter against the map. */
  function Serve(c: Config, m: Memory, r: Request): (Memory, Response)
    requires c.quota.Valid()
  {
    var q, u, now := c.quota, r.user, r.now;
    if c.algorithm.IsBucket() then
      var e := CellServe(c, Cell(m, Plain(u)), r);
      (if e.write.Some? then m[Plain(u) := e.write.value.0] else m, e.response)
    else
      var cur, prev := F.CurrentKey(u, now, q.periodSec), W.PreviousKey(u, now, q.periodSec);
      var count := F.CountOf(Cell(m, cur));
      match r
      case Limit(_, cost, _) =>
        if c.algorithm.FIXED_WINDOW? then
          (m[cur := IntVal(count + cost)], F.Report(count + cost, q, cost, now))
        else
          var proportion := W.PreviousProportion(Millis(now), q.periodSec);
          var previous := W.Previous(F.CountOf(Cell(m, prev)), proportion);
          var d := W.Decide(previous, count, cost, proportion, q.periodSec, q.limit);
          // a limited request is still counted if it is the first of its window
          (if d.0 && cur in m then m else m[cur := IntVal(count + cost)], W.ToResult(d, q))
      case Peek(_, _) =>
        if c.algorithm.FIXED_WINDOW? then
          var reset := F.ResetAfter(now, q.periodSec) as real;
          (m, Snapshot(RateLimitState(q.limit, MaxInt(0, q.limit - count), reset, 0.0)))
        else (m, Snapshot(W.Look(Cell(m, prev), Cell(m, cur), q, now)))
  }

  /** The answers of a run against the map. */
  function Run(cs: Configs, m: Memory, rs: seq<Request>): (r: seq<Response>)
    requires ValidConfigs(cs)
    requires UsersKnown(cs, rs)
    ensures |r| == |rs|
    decreases |rs|
  {
    if rs == [] then [] else
    var (m1, a) := Serve(cs[rs[0].user], m, rs[0]);
    [a] + Run(cs, m1, rs[1..])
  }

  function Final(cs: Configs, m: Memory, rs: seq<Request>): Memory
    requires ValidConfigs(cs) && UsersKnown(cs, rs)
    decreases |rs|
  {
    if rs == [] then m else Final(cs, Serve(cs[rs[0].user], m, rs[0]).0, rs[1..])
  }

  lemma {:induction false} RunThenOne(cs: Configs, m: Memory, rs: seq<Request>, r: Request)
    requires ValidConfigs(cs) && UsersKnown(cs, rs) && r.user in cs
    ensures UsersKnown(cs, rs + [r])
    ensures Run(cs, m, rs + [r]) == Run(cs, m, rs) + [Serve(cs[r.user], Final(cs, m, rs), r).1]
    decreases |rs|
  {
    if rs != [] {
      assert (rs + [r])[1..] == rs[1..] + [r];
      RunThenOne(cs, Serve(cs[rs[0].user], m, rs[0]).0, rs[1..], r);
    } else {
      assert [r][1..] == [] && rs + [r] == [r];
    }
  }
}
