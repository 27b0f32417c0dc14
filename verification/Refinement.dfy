/** What a token bucket admits, GCRA with the same quota would have admitted too: where that holds, and where it does
    not. */
module Refinement {
  import opened Base
  import opened Store
  import opened Limiters
  import opened Admission
  import Ideal
  import G = Gcra
  import T = TokenBucket
  import B = BucketCells
  import GcraRate
  import Mirror
  import Transparency
  import O = OwnRuns

  /** The clock GCRA sees in a replay: the whole seconds the bucket works with, or the time itself. */
  function Stamp(now: real, whole: bool): real { if whole then Seconds(now) as real else now }

  function Restamped(r: Request, whole: bool): Request
    requires r.Limit?
  {
    Limit(r.user, r.cost, Stamp(r.now, whole))
  }

  /** The requests that were admitted, in order. */
  function Replay(rs: seq<Request>, answers: seq<Response>, whole: bool): seq<Request>
    requires |answers| == |rs|
    decreases |rs|
  {
    if rs == [] then [] else
    var rest := Replay(rs[1..], answers[1..], whole);
    if rs[0].Limit? && answers[0].Admits() then [Restamped(rs[0], whole)] + rest else rest
  }

  /** Burst added to GCRA: none on whole seconds, one second's refill in real time. */
  function Extra(q: Quota, whole: bool): int
    requires q.Valid()
  {
    if whole then 0 else Ceil(q.FillRate())
  }

  function Wider(q: Quota, whole: bool): Quota
    requires q.Valid()
  {
    Quota(q.limit, q.periodSec, q.burst + Extra(q, whole))
  }

  function GcraConfigs(cs: Configs, whole: bool): (r: Configs)
    requires ValidConfigs(cs)
    ensures r.Keys == cs.Keys
  {
    map u | u in cs :: Config(GCRA, Wider(cs[u].quota, whole))
  }

  ghost predicate AllAdmitted(answers: seq<Response>) {
    forall i :: 0 <= i < |answers| ==> answers[i].Admits()
  }

  lemma ExtraCovers(q: Quota, whole: bool)
    requires q.Valid()
    ensures q.EmissionInterval() > 0.0 && Extra(q, whole) >= 0 && Wider(q, whole).Valid()
    ensures Wider(q, whole).EmissionInterval() == q.EmissionInterval()
    ensures Extra(q, whole) as real * q.EmissionInterval() >= Slack(whole)
  {
    RatesAreReciprocal(q);
    MulMonotone(q.FillRate(), Ceil(q.FillRate()) as real, q.EmissionInterval());
  }

  function Slack(whole: bool): real { if whole then 0.0 else 1.0 }

  /** Tokens missing from a full bucket, as time. */
  function Debt(burst: int, tokens: int, ei: real): real { (burst - tokens) as real * ei }

  /** Where an admission puts the TAT, and how far ahead it may be put. */
  function NewTat(tat: Option<Value>, cost: int, ei: real, now: real): real {
    Max(now, G.LastTat(tat, now)) + cost as real * ei
  }

  function Horizon(burst: int, ei: real, now: real): real { now + burst as real * ei }

  /** The TAT is no further ahead than the tokens missing from the bucket, counted from its last refresh. */
  ghost predicate NoFurther(q: Quota, bucket: Option<Value>, tat: Option<Value>, whole: bool)
    requires q.Valid()
  {
    && (tat.Some? ==> tat.value.FloatVal? && tat.value.f > 0.0 && bucket.Some?)
    && (bucket.Some? ==> bucket.value.DictVal? && bucket.value.kv.Keys == {"tokens", "last_refreshed"})
    && (tat.Some? ==> tat.value.f <= bucket.value.kv["last_refreshed"] as real + Slack(whole)
                                     + Debt(q.burst, bucket.value.kv["tokens"], q.EmissionInterval()))
  }

  /** The arithmetic of one admission: what the refill grants, the TAT has caught up. */
  lemma CatchesUp(tok: int, burst: int, elapsed: int, rate: real, ei: real, cost: nat,
                  last: int, tat: real, slack: real, stamp: real)
    requires ei > 0.0 && rate > 0.0 && ei * rate == 1.0 && elapsed >= 0
    requires cost <= MinInt(burst, tok + T.Refill(elapsed, rate))
    requires (last + elapsed) as real <= stamp <= (last + elapsed) as real + slack
    requires tat <= last as real + slack + (burst - tok) as real * ei || tat <= stamp
    ensures var left := MinInt(burst, tok + T.Refill(elapsed, rate)) - cost;
      && Max(stamp, tat) + cost as real * ei <= (last + elapsed) as real + slack + (burst - left) as real * ei
      && Max(stamp, tat) + cost as real * ei <= stamp + slack + burst as real * ei
  {
    var fill, sec := T.Refill(elapsed, rate), (last + elapsed) as real;
    var tokens := MinInt(burst, tok + fill);
    var left := tokens - cost;
    var e := elapsed as real;
    // the floor grants no more than the time elapsed
    MulMonotone(fill as real, e * rate, ei);
    assert (e * rate) * ei == e;
    assert (burst - left) as real * ei == (burst - tokens) as real * ei + cost as real * ei;
    MulMonotone(0.0, (burst - tokens) as real, ei);
    MulMonotone((burst - tok - fill) as real, (burst - tokens) as real, ei);
    assert (burst - tok - fill) as real * ei == (burst - tok) as real * ei - fill as real * ei;
    assert Max(stamp, tat) <= sec + slack + (burst - tokens) as real * ei;
    MulMonotone((burst - left) as real, burst as real, ei);
  }

  function Written(cell: Option<Value>, e: Ideal.Effect): Option<Value> {
    if e.write.Some? then Some(e.write.value.0) else cell
  }

  /** What an admission leaves in the bucket. */
  function Left(q: Quota, bucket: Option<Value>, r: Request): int
    requires q.Valid() && r.Limit?
  {
    T.Tokens(Ideal.Hash(bucket), q.FillRate(), q.burst, r.now) - r.cost
  }

  lemma BucketAdmission(q: Quota, bucket: Option<Value>, r: Request)
    requires q.Valid() && r.Limit?
    ensures var e := Ideal.TokenCell(q, bucket, r);
      && (e.response.Admits() <==> Left(q, bucket, r) >= 0)
      && (e.response.Admits() <==> e.write.Some?)
      && (e.write.Some? ==> e.write.value.0 == DictVal(T.Bucket(Left(q, bucket, r), Seconds(r.now))))
  {
  }

  lemma GcraAdmission(q: Quota, tat: Option<Value>, r: Request)
    requires q.Valid() && r.Limit?
    ensures var e, ei := Ideal.GcraCell(q, tat, r), q.EmissionInterval();
      && (e.response.Admits() <==> NewTat(tat, r.cost, ei, r.now) <= Horizon(q.burst, ei, r.now))
      && (e.write.Some? ==> e.response.Admits() && e.write.value.0 == FloatVal(NewTat(tat, r.cost, ei, r.now)))
      && (e.write.Some? ==> NewTat(tat, r.cost, ei, r.now) > r.now)
  {
    hide Quota.EmissionInterval, G.Decide, G.LastTat;
    RatesAreReciprocal(q);
    Decided(G.LastTat(tat, r.now), q.EmissionInterval(), q.burst, r.cost, r.now);
  }

  lemma Decided(lastTat: real, ei: real, capacity: int, cost: int, now: real)
    requires ei > 0.0
    ensures var v, newTat := G.Decide(lastTat, ei, capacity, cost, now), Max(now, lastTat) + cost as real * ei;
      && (v.limited <==> newTat > Horizon(capacity, ei, now))
      && (v.newTat.Some? ==> !v.limited && v.newTat.value == newTat > now)
  {
    GcraRate.AdmissionTest(lastTat, ei, capacity, cost, now);
  }

  lemma CellsCatchUp(q: Quota, bucket: Option<Value>, tat: Option<Value>, r: Request, whole: bool)
    requires q.Valid() && r.Limit? && NoFurther(q, bucket, tat, whole) && Left(q, bucket, r) >= 0
    requires bucket.Some? ==> bucket.value.kv["last_refreshed"] <= Seconds(r.now)
    ensures var ei, stamp := q.EmissionInterval(), Stamp(r.now, whole);
      && NewTat(tat, r.cost, ei, stamp) <= Seconds(r.now) as real + Slack(whole) + Debt(q.burst, Left(q, bucket, r), ei)
      && NewTat(tat, r.cost, ei, stamp) <= Horizon(Wider(q, whole).burst, ei, stamp)
  {
    hide Quota.EmissionInterval, Quota.FillRate, T.Refill, Debt, NewTat, Horizon, G.LastTat, NoFurther;
    RatesAreReciprocal(q);
    ExtraCovers(q, whole);
    FurtherFacts(q, bucket, tat, whole);
    var ei, rate, stamp := q.EmissionInterval(), q.FillRate(), Stamp(r.now, whole);
    var tok := T.Field(Ideal.Hash(bucket), "tokens", q.burst);
    var last := T.Field(Ideal.Hash(bucket), "last_refreshed", Seconds(r.now));
    TatBehind(q, bucket, tat, r.now, whole);
    assert last <= Seconds(r.now);
    Units(tok, q.burst, Extra(q, whole), Seconds(r.now) - last, rate, ei, r.cost, last, tat, Slack(whole), stamp);
  }

  lemma Units(tok: int, burst: int, extra: int, elapsed: int, rate: real, ei: real, cost: nat,
              last: int, tat: Option<Value>, slack: real, stamp: real)
    requires ei > 0.0 && rate > 0.0 && ei * rate == 1.0 && elapsed >= 0
    requires cost <= MinInt(burst, tok + T.Refill(elapsed, rate)) && extra as real * ei >= slack
    requires (last + elapsed) as real <= stamp <= (last + elapsed) as real + slack
    requires var t := G.LastTat(tat, stamp); t <= last as real + slack + Debt(burst, tok, ei) || t <= stamp
    ensures var left := MinInt(burst, tok + T.Refill(elapsed, rate)) - cost;
      && NewTat(tat, cost, ei, stamp) <= (last + elapsed) as real + slack + Debt(burst, left, ei)
      && NewTat(tat, cost, ei, stamp) <= Horizon(burst + extra, ei, stamp)
  {
    hide G.LastTat, T.Refill;
    CatchesUp(tok, burst, elapsed, rate, ei, cost, last, G.LastTat(tat, stamp), slack, stamp);
    assert (burst + extra) as real * ei == burst as real * ei + extra as real * ei;
  }

  lemma TatBehind(q: Quota, bucket: Option<Value>, tat: Option<Value>, now: real, whole: bool)
    requires q.Valid() && NoFurther(q, bucket, tat, whole)
    ensures var lastTat, kv := G.LastTat(tat, Stamp(now, whole)), Ideal.Hash(bucket);
      || lastTat <= T.Field(kv, "last_refreshed", Seconds(now)) as real + Slack(whole)
                    + Debt(q.burst, T.Field(kv, "tokens", q.burst), q.EmissionInterval())
      || lastTat <= Stamp(now, whole)
  {
    hide Quota.EmissionInterval;
  }

  /** One admission of the bucket is one of GCRA, and keeps the TAT behind the bucket. */
  lemma AdmissionIsReplayed(q: Quota, bucket: Option<Value>, tat: Option<Value>, r: Request, whole: bool)
    requires q.Valid() && r.Limit? && NoFurther(q, bucket, tat, whole)
    requires bucket.Some? ==> bucket.value.kv["last_refreshed"] <= Seconds(r.now)
    requires Ideal.TokenCell(q, bucket, r).response.Admits() && 0.0 <= r.now
    ensures Wider(q, whole).Valid()
    ensures var b := Ideal.TokenCell(q, bucket, r);
      var g := Ideal.GcraCell(Wider(q, whole), tat, Restamped(r, whole));
      g.response.Admits() && NoFurther(q, Written(bucket, b), Written(tat, g), whole)
  {
    hide Quota.EmissionInterval, Ideal.TokenCell, Ideal.GcraCell, Left, Wider, Stamp, Slack, NewTat, Debt, Horizon;
    hide NoFurther, Restamped;
    var left, stamped := Left(q, bucket, r), Restamped(r, whole);
    ExtraCovers(q, whole);
    BucketAdmission(q, bucket, r);
    CellsCatchUp(q, bucket, tat, r, whole);
    RestampedFields(r, whole);
    GcraAdmission(Wider(q, whole), tat, stamped);
    FurtherFacts(q, bucket, tat, whole);
    if tat.Some? { OlderTat(q, tat, r.cost, stamped.now); }
    IsNoFurther(q, left, r.now, Written(tat, Ideal.GcraCell(Wider(q, whole), tat, stamped)), whole);
  }

  lemma FurtherFacts(q: Quota, bucket: Option<Value>, tat: Option<Value>, whole: bool)
    requires q.Valid() && NoFurther(q, bucket, tat, whole)
    ensures tat.Some? ==> tat.value.FloatVal? && tat.value.f > 0.0
    ensures bucket.Some? ==> bucket.value.DictVal? && "last_refreshed" in bucket.value.kv
  {
  }

  lemma IsNoFurther(q: Quota, left: int, now: real, tat: Option<Value>, whole: bool)
    requires q.Valid() && (tat.Some? ==> tat.value.FloatVal? && tat.value.f > 0.0)
    requires tat.Some? ==>
      tat.value.f <= Seconds(now) as real + Slack(whole) + Debt(q.burst, left, q.EmissionInterval())
    ensures NoFurther(q, Some(DictVal(T.Bucket(left, Seconds(now)))), tat, whole)
  {
    hide Debt, Quota.EmissionInterval;
  }

  lemma OlderTat(q: Quota, tat: Option<Value>, cost: nat, now: real)
    requires q.Valid() && tat.Some? && tat.value.FloatVal?
    ensures tat.value.f == 0.0 || tat.value.f <= NewTat(tat, cost, q.EmissionInterval(), now)
  {
    RatesAreReciprocal(q);
    MulMonotone(0.0, cost as real, q.EmissionInterval());
  }

  // ----- whole runs

  ghost predicate Behind(cs: Configs, m: Ideal.Memory, g: Ideal.Memory, now: real, whole: bool)
    requires ValidConfigs(cs)
  {
    forall u :: u in cs ==> BehindAt(cs[u].quota, Ideal.Cell(m, Plain(u)), Ideal.Cell(g, Plain(u)), now, whole)
  }

  ghost predicate BehindAt(q: Quota, bucket: Option<Value>, tat: Option<Value>, now: real, whole: bool)
    requires q.Valid()
  {
    && NoFurther(q, bucket, tat, whole)
    && (bucket.Some? ==> bucket.value.kv["last_refreshed"] <= Seconds(now))
  }

  /** A request that is not admitted leaves the bucket as it was. */
  lemma RefusalKeepsBucket(q: Quota, bucket: Option<Value>, r: Request)
    requires q.Valid()
    ensures var e := Ideal.TokenCell(q, bucket, r);
      e.write.Some? ==> r.Limit? && e.response.Admits() && Written(bucket, e).value.DictVal?
                        && Written(bucket, e).value.kv == T.Bucket(Left(q, bucket, r), Seconds(r.now))
    ensures !(r.Limit? && Ideal.TokenCell(q, bucket, r).response.Admits()) ==> Ideal.TokenCell(q, bucket, r).write.None?
  {
  }

  ghost predicate TokenBuckets(cs: Configs) {
    ValidConfigs(cs) && forall u :: u in cs ==> cs[u].algorithm.TOKEN_BUCKET?
  }

  /** The admitted requests, replayed, still name known users, and their clock does not run backwards. */
  lemma {:induction false} ReplayIsRun(cs: Configs, start: real, rs: seq<Request>, answers: seq<Response>, whole: bool)
    requires ValidConfigs(cs) && ValidRun(cs, start, rs) && |answers| == |rs|
    ensures ValidRun(GcraConfigs(cs, whole), Stamp(start, whole), Replay(rs, answers, whole))
    decreases |rs|
  {
    if rs != [] {
      StampMonotone(start, rs[0].now, whole);
      ReplayHead(rs, answers, whole);
      hide Stamp, GcraConfigs, Replay, Restamped;
      var gs, rest := GcraConfigs(cs, whole), Replay(rs[1..], answers[1..], whole);
      ReplayIsRun(cs, rs[0].now, rs[1..], answers[1..], whole);
      hide ValidRun;
      if rs[0].Limit? && answers[0].Admits() {
        RestampedFields(rs[0], whole);
        ValidRunCons(gs, Stamp(start, whole), Restamped(rs[0], whole), rest);
      } else {
        ValidRunEarlier(gs, Stamp(start, whole), Stamp(rs[0].now, whole), rest);
      }
    }
  }

  lemma StampMonotone(now: real, later: real, whole: bool)
    requires now <= later
    ensures Stamp(now, whole) <= Stamp(later, whole)
  {
    FloorMonotone(now, later);
  }

  lemma RestampedFields(r: Request, whole: bool)
    requires r.Limit?
    ensures var s := Restamped(r, whole);
      && s.Limit? && s.user == r.user && s.cost == r.cost && s.now == Stamp(r.now, whole)
      && (r.now >= 0.0 ==> s.now >= 0.0)
  {
  }

  lemma ReplayHead(rs: seq<Request>, answers: seq<Response>, whole: bool)
    requires |answers| == |rs| && rs != []
    ensures var rest := Replay(rs[1..], answers[1..], whole);
      Replay(rs, answers, whole) ==
        if rs[0].Limit? && answers[0].Admits() then [Restamped(rs[0], whole)] + rest else rest
  {
  }

  lemma ValidRunCons(cs: Configs, start: real, r: Request, rest: seq<Request>)
    requires r.user in cs && start <= r.now && ValidRun(cs, r.now, rest)
    ensures ValidRun(cs, start, [r] + rest)
  {
    assert ([r] + rest)[1..] == rest;
  }

  lemma ValidRunEarlier(cs: Configs, start: real, later: real, rs: seq<Request>)
    requires start <= later && ValidRun(cs, later, rs)
    ensures ValidRun(cs, start, rs)
  {
  }

  /** The bucket's state after a request, and GCRA's after its replay. */
  lemma StepStaysBehind(cs: Configs, m: Ideal.Memory, g: Ideal.Memory, start: real, r: Request, whole: bool)
    requires TokenBuckets(cs) && Behind(cs, m, g, start, whole) && r.user in cs && 0.0 <= start <= r.now
    requires ValidConfigs(GcraConfigs(cs, whole))
    ensures var (m', a) := Ideal.Serve(cs[r.user], m, r);
      if r.Limit? && a.Admits() then
        var (g', b) := Ideal.Serve(GcraConfigs(cs, whole)[r.user], g, Restamped(r, whole));
        b.Admits() && Behind(cs, m', g', r.now, whole)
      else Behind(cs, m', g, r.now, whole)
  {
    var u := r.user;
    var q, bucket, tat := cs[u].quota, Ideal.Cell(m, Plain(u)), Ideal.Cell(g, Plain(u));
    assert BehindAt(q, bucket, tat, start, whole);
    CellBehind(q, bucket, tat, start, r, whole);
    ExtraCovers(q, whole);
    ServeWrites(Config(TOKEN_BUCKET, q), m, r);
    hide Ideal.TokenCell, Ideal.GcraCell, Ideal.Serve, BehindAt, Wider, Stamp, Behind;
    var (m', a) := Ideal.Serve(cs[u], m, r);
    if r.Limit? && a.Admits() {
      var again := Restamped(r, whole);
      ServeWrites(Config(GCRA, Wider(q, whole)), g, again);
      var (g', b) := Ideal.Serve(GcraConfigs(cs, whole)[u], g, again);
      BehindStays(cs, m, g, m', g', start, r.now, u, whole);
    } else {
      BehindStays(cs, m, g, m', g, start, r.now, u, whole);
    }
  }

  lemma ServeWrites(c: Config, m: Ideal.Memory, r: Request)
    requires c.quota.Valid() && c.algorithm.IsBucket()
    ensures var (m', a) := Ideal.Serve(c, m, r);
      var e := Ideal.CellServe(c, Ideal.Cell(m, Plain(r.user)), r);
      && a == e.response && Ideal.Cell(m', Plain(r.user)) == Written(Ideal.Cell(m, Plain(r.user)), e)
      && forall u :: u != r.user ==> Ideal.Cell(m', Plain(u)) == Ideal.Cell(m, Plain(u))
  {
    hide Ideal.CellServe;
  }

  /** The user's bucket after a request, and GCRA's cell after its replay. */
  lemma CellBehind(q: Quota, bucket: Option<Value>, tat: Option<Value>, start: real, r: Request, whole: bool)
    requires q.Valid() && BehindAt(q, bucket, tat, start, whole) && 0.0 <= start <= r.now
    ensures Wider(q, whole).Valid()
    ensures var b := Ideal.TokenCell(q, bucket, r);
      if r.Limit? && b.response.Admits() then
        var g := Ideal.GcraCell(Wider(q, whole), tat, Restamped(r, whole));
        g.response.Admits() && BehindAt(q, Written(bucket, b), Written(tat, g), r.now, whole)
      else BehindAt(q, Written(bucket, b), tat, r.now, whole)
  {
    hide Ideal.TokenCell, Ideal.GcraCell, NoFurther, Wider, Stamp, Left;
    FloorMonotone(start, r.now);
    ExtraCovers(q, whole);
    FurtherFacts(q, bucket, tat, whole);
    RefusalKeepsBucket(q, bucket, r);
    if r.Limit? && Ideal.TokenCell(q, bucket, r).response.Admits() {
      AdmissionIsReplayed(q, bucket, tat, r, whole);
      BucketAdmission(q, bucket, r);
    }
  }

  lemma GcraConfigsValid(cs: Configs, whole: bool)
    requires ValidConfigs(cs)
    ensures ValidConfigs(GcraConfigs(cs, whole))
  {
    forall u | u in cs ensures GcraConfigs(cs, whole)[u].quota.Valid() { ExtraCovers(cs[u].quota, whole); }
  }

  lemma {:induction false} ReplayIsAdmitted(cs: Configs, m: Ideal.Memory, g: Ideal.Memory, start: real,
                                            rs: seq<Request>, whole: bool)
    requires TokenBuckets(cs) && Behind(cs, m, g, start, whole)
    requires ValidRun(cs, start, rs) && UsersKnown(cs, rs) && 0.0 <= start
    ensures var gs, rp := GcraConfigs(cs, whole), Replay(rs, Ideal.Run(cs, m, rs), whole);
      ValidConfigs(gs) && UsersKnown(gs, rp) && AllAdmitted(Ideal.Run(gs, g, rp))
    decreases |rs|
  {
    GcraConfigsValid(cs, whole);
    if rs != [] {
      var r, gs := rs[0], GcraConfigs(cs, whole);
      if r.Limit? { RestampedFields(r, whole); }
      ReplayCons(cs, m, rs, whole);
      hide Ideal.Serve, Behind, GcraConfigs, Restamped, Ideal.Run, Replay, TokenBuckets, UsersKnown, AllAdmitted;
      StepStaysBehind(cs, m, g, start, r, whole);
      var (m', a) := Ideal.Serve(cs[r.user], m, r);
      if r.Limit? && a.Admits() {
        var head := Restamped(r, whole);
        var g' := Ideal.Serve(gs[r.user], g, head).0;
        ReplayIsAdmitted(cs, m', g', r.now, rs[1..], whole);
        AdmittedCons(gs, g, head, Replay(rs[1..], Ideal.Run(cs, m', rs[1..]), whole));
      } else {
        ReplayIsAdmitted(cs, m', g, r.now, rs[1..], whole);
      }
    } else {
      ReplayOfNothing(cs, m, g, whole);
    }
  }

  lemma ReplayOfNothing(cs: Configs, m: Ideal.Memory, g: Ideal.Memory, whole: bool)
    requires ValidConfigs(cs) && ValidConfigs(GcraConfigs(cs, whole))
    ensures Replay([], Ideal.Run(cs, m, []), whole) == [] && Ideal.Run(GcraConfigs(cs, whole), g, []) == []
  {
  }

  lemma ReplayCons(cs: Configs, m: Ideal.Memory, rs: seq<Request>, whole: bool)
    requires ValidConfigs(cs) && UsersKnown(cs, rs) && rs != []
    ensures UsersKnown(cs, rs[1..])
    ensures var (m', a) := Ideal.Serve(cs[rs[0].user], m, rs[0]);
      var rest := Replay(rs[1..], Ideal.Run(cs, m', rs[1..]), whole);
      Replay(rs, Ideal.Run(cs, m, rs), whole) ==
        if rs[0].Limit? && a.Admits() then [Restamped(rs[0], whole)] + rest else rest
  {
    var (m', a) := Ideal.Serve(cs[rs[0].user], m, rs[0]);
    assert Ideal.Run(cs, m, rs)[1..] == Ideal.Run(cs, m', rs[1..]);
    ReplayHead(rs, Ideal.Run(cs, m, rs), whole);
  }

  lemma RunCons(cs: Configs, m: Ideal.Memory, r: Request, rest: seq<Request>)
    requires ValidConfigs(cs) && r.user in cs && UsersKnown(cs, rest)
    ensures UsersKnown(cs, [r] + rest) && r.user == ([r] + rest)[0].user
    ensures var (m', a) := Ideal.Serve(cs[r.user], m, r); Ideal.Run(cs, m, [r] + rest) == [a] + Ideal.Run(cs, m', rest)
  {
    assert ([r] + rest)[1..] == rest;
  }

  lemma AdmittedCons(cs: Configs, m: Ideal.Memory, r: Request, rest: seq<Request>)
    requires ValidConfigs(cs) && r.user in cs && UsersKnown(cs, rest)
    requires var (m', a) := Ideal.Serve(cs[r.user], m, r); a.Admits() && AllAdmitted(Ideal.Run(cs, m', rest))
    ensures UsersKnown(cs, [r] + rest) && AllAdmitted(Ideal.Run(cs, m, [r] + rest))
  {
    RunCons(cs, m, r, rest);
  }

  lemma BehindStays(cs: Configs, m: Ideal.Memory, g: Ideal.Memory, m': Ideal.Memory, g': Ideal.Memory,
                    start: real, now: real, user: string, whole: bool)
    requires TokenBuckets(cs) && Behind(cs, m, g, start, whole) && start <= now && user in cs
    requires forall u :: u != user ==> Ideal.Cell(m', Plain(u)) == Ideal.Cell(m, Plain(u))
    requires forall u :: u != user ==> Ideal.Cell(g', Plain(u)) == Ideal.Cell(g, Plain(u))
    requires BehindAt(cs[user].quota, Ideal.Cell(m', Plain(user)), Ideal.Cell(g', Plain(user)), now, whole)
    ensures Behind(cs, m', g', now, whole)
  {
    forall u | u in cs ensures BehindAt(cs[u].quota, Ideal.Cell(m', Plain(u)), Ideal.Cell(g', Plain(u)), now, whole) {
      assert BehindAt(cs[u].quota, Ideal.Cell(m, Plain(u)), Ideal.Cell(g, Plain(u)), start, whole);
    }
  }

  // ----- one user, whatever else the store serves

  function One(a: Algorithm, q: Quota, user: string): Configs { O.One(Config(a, q), user) }

  lemma OneBehind(q: Quota, user: string, m: Ideal.Memory, start: real, whole: bool)
    requires q.Valid() && B.CellTyped(Config(TOKEN_BUCKET, q), Ideal.Cell(m, Plain(user)), start)
    ensures TokenBuckets(One(TOKEN_BUCKET, q, user)) && Behind(One(TOKEN_BUCKET, q, user), m, map[], start, whole)
    ensures Wider(q, whole).Valid()
    ensures GcraConfigs(One(TOKEN_BUCKET, q, user), whole) == One(GCRA, Wider(q, whole), user)
  {
    ExtraCovers(q, whole);
    hide Quota.EmissionInterval;
  }

  /** On the map: what a token bucket in any state admits, GCRA that starts unused admits too. */
  lemma MapRefines(q: Quota, user: string, m: Ideal.Memory, start: real, own: seq<Request>, whole: bool)
    requires q.Valid() && B.CellTyped(Config(TOKEN_BUCKET, q), Ideal.Cell(m, Plain(user)), start)
    requires 0.0 <= start && ValidRun(One(TOKEN_BUCKET, q, user), start, own)
    ensures UsersKnown(One(TOKEN_BUCKET, q, user), own) && Wider(q, whole).Valid()
    ensures var g := One(GCRA, Wider(q, whole), user);
      var rp := Replay(own, Ideal.Run(One(TOKEN_BUCKET, q, user), m, own), whole);
      ValidRun(g, Stamp(start, whole), rp) && UsersKnown(g, rp) && AllAdmitted(Ideal.Run(g, map[], rp))
  {
    var t := One(TOKEN_BUCKET, q, user);
    OneBehind(q, user, m, start, whole);
    RunUsersKnown(t, start, own);
    hide Behind, Ideal.Run, Replay, ValidRun, GcraConfigs, Stamp, Wider, AllAdmitted;
    ReplayIsRun(t, start, own, Ideal.Run(t, m, own), whole);
    ReplayIsAdmitted(t, m, map[], start, own, whole);
  }

  /** Main result: on a store with room, whatever other limiters share it and however much of the bucket is used,
      replaying what a token bucket admitted into GCRA admits it all: at whole seconds with the same quota, and at the
      requests' own times with one second's refill more burst. */
  lemma TokenBucketRefinesGcra(cs: Configs, room: Transparency.Room, s: Store, m: Ideal.Memory, start: real,
                               rs: seq<Request>, user: string, whole: bool)
    requires ValidConfigs(cs) && Transparency.Simulates(cs, room, s, m, start) && Transparency.Lasts(cs, room, s, m, rs)
    requires ValidRun(cs, start, rs) && 0.0 <= start && user in cs && cs[user].algorithm.TOKEN_BUCKET?
    ensures UsersKnown(cs, rs) && Wider(cs[user].quota, whole).Valid()
    ensures var g := One(GCRA, Wider(cs[user].quota, whole), user);
      var rp := Replay(O.Own(rs, user), O.OwnAnswers(rs, Run(cs, s, rs), user), whole);
      && ValidRun(g, Stamp(start, whole), rp) && UsersKnown(g, rp)
      && AllAdmitted(Ideal.Run(g, map[], rp)) && AllAdmitted(Run(g, EmptyStore(1), rp))
  {
    GcraRate.CellOfSimulation(cs, room, s, m, start, user);
    hide *;
    O.OthersDoNotShow(cs, room, s, m, start, rs, user);
    OneIs(cs, user);
    MapRefines(cs[user].quota, user, m, start, O.Own(rs, user), whole);
    var rp := Replay(O.Own(rs, user), O.OwnAnswers(rs, Run(cs, s, rs), user), whole);
    AloneOnStore(Config(GCRA, Wider(cs[user].quota, whole)), user, Stamp(start, whole), rp);
  }

  lemma OneIs(cs: Configs, user: string)
    requires ValidConfigs(cs) && user in cs && cs[user].algorithm.TOKEN_BUCKET?
    ensures O.One(cs[user], user) == One(TOKEN_BUCKET, cs[user].quota, user)
    ensures cs[user] == Config(TOKEN_BUCKET, cs[user].quota) && cs[user].quota.Valid()
  {
  }

  /** One entry is room enough for one bucket limiter with one user. */
  lemma AloneOnStore(c: Config, user: string, start: real, rs: seq<Request>)
    requires c.quota.Valid() && c.algorithm.IsBucket() && ValidRun(O.One(c, user), start, rs)
    ensures ValidConfigs(O.One(c, user)) && UsersKnown(O.One(c, user), rs)
    ensures Run(O.One(c, user), EmptyStore(1), rs) == Ideal.Run(O.One(c, user), map[], rs)
  {
    assert |O.One(c, user)| == 1;
    hide ValidRun, Run, Ideal.Run;
    Transparency.EmptyStoreIsTransparent(O.One(c, user), 1, start, rs);
  }

  ghost predicate OnWholeSeconds(rs: seq<Request>) {
    forall i :: 0 <= i < |rs| ==> rs[i].now == Seconds(rs[i].now) as real
  }

  lemma {:induction false} WholeReplayIsSame(rs: seq<Request>, answers: seq<Response>)
    requires |answers| == |rs| && OnWholeSeconds(rs)
    ensures Replay(rs, answers, false) == Replay(rs, answers, true)
    decreases |rs|
  {
    if rs != [] {
      assert forall i :: 0 <= i < |rs[1..]| ==> rs[1..][i] == rs[i + 1];
      WholeReplayIsSame(rs[1..], answers[1..]);
    }
  }

  /** Requests that come on whole seconds are replayed at their own times, with the same quota. */
  lemma WholeSecondsRefine(cs: Configs, room: Transparency.Room, s: Store, m: Ideal.Memory, start: real,
                           rs: seq<Request>, user: string)
    requires ValidConfigs(cs) && Transparency.Simulates(cs, room, s, m, start) && Transparency.Lasts(cs, room, s, m, rs)
    requires ValidRun(cs, start, rs) && 0.0 <= start && user in cs && cs[user].algorithm.TOKEN_BUCKET?
    requires OnWholeSeconds(O.Own(rs, user))
    ensures UsersKnown(cs, rs) && cs[user].quota.Valid()
    ensures var g := One(GCRA, cs[user].quota, user);
      var rp := Replay(O.Own(rs, user), O.OwnAnswers(rs, Run(cs, s, rs), user), false);
      UsersKnown(g, rp) && AllAdmitted(Run(g, EmptyStore(1), rp))
  {
    TokenBucketRefinesGcra(cs, room, s, m, start, rs, user, true);
    WholeReplayIsSame(O.Own(rs, user), O.OwnAnswers(rs, Run(cs, s, rs), user));
    assert Wider(cs[user].quota, true) == cs[user].quota;
    hide Transparency.Simulates, Run, Replay, AllAdmitted, ValidRun;
  }

  // ----- the rate the refinement buys

  lemma StampsWithin(now: real, lo: real, hi: real)
    requires lo <= now <= hi
    ensures Stamp(lo, true) <= Stamp(now, true) <= Stamp(hi, true)
  {
    StampMonotone(lo, now, true);
    StampMonotone(now, hi, true);
  }

  /** What was admitted in [lo, hi] is replayed within the whole seconds of lo and hi. */
  lemma {:induction false} ReplayKeepsCost(rs: seq<Request>, answers: seq<Response>, again: seq<Response>,
                                           user: string, lo: real, hi: real)
    requires |answers| == |rs| && |again| == |Replay(rs, answers, true)| && AllAdmitted(again)
    ensures AdmittedCost(rs, answers, user, lo, hi) <=
      AdmittedCost(Replay(rs, answers, true), again, user, Stamp(lo, true), Stamp(hi, true))
    decreases |rs|
  {
    hide Stamp;
    if rs != [] {
      var rest := Replay(rs[1..], answers[1..], true);
      if rs[0].Limit? && answers[0].Admits() {
        assert Replay(rs, answers, true)[1..] == rest;
        if lo <= rs[0].now <= hi { StampsWithin(rs[0].now, lo, hi); }
        ReplayKeepsCost(rs[1..], answers[1..], again[1..], user, lo, hi);
      } else {
        ReplayKeepsCost(rs[1..], answers[1..], again, user, lo, hi);
      }
    }
  }

  /** On the map: a token bucket in any state admits at most its burst and its rate over the whole seconds its clock
      gains in the interval. */
  lemma MapRate(q: Quota, user: string, m: Ideal.Memory, start: real, own: seq<Request>, lo: real, hi: real)
    requires q.Valid() && B.CellTyped(Config(TOKEN_BUCKET, q), Ideal.Cell(m, Plain(user)), start)
    requires 0.0 <= start && ValidRun(One(TOKEN_BUCKET, q, user), start, own) && 0.0 <= lo <= hi
    ensures UsersKnown(One(TOKEN_BUCKET, q, user), own)
    ensures AdmittedCost(own, Ideal.Run(One(TOKEN_BUCKET, q, user), m, own), user, lo, hi) as real
         <= q.burst as real + (Seconds(hi) - Seconds(lo)) as real / q.EmissionInterval()
  {
    WholeStamps(q, start, lo, hi);
    var t, g := One(TOKEN_BUCKET, q, user), One(GCRA, q, user);
    OneGcra(q, user, Stamp(start, true));
    hide *;
    MapRefines(q, user, m, start, own, true);
    var answers := Ideal.Run(t, m, own);
    var rp := Replay(own, answers, true);
    ReplayKeepsCost(own, answers, Ideal.Run(g, map[], rp), user, lo, hi);
    GcraRate.MapRate(g, map[], Stamp(start, true), rp, user, Stamp(lo, true), Stamp(hi, true));
  }

  lemma WholeStamps(q: Quota, start: real, lo: real, hi: real)
    requires q.Valid() && 0.0 <= start && 0.0 <= lo <= hi
    ensures Wider(q, true) == q && q.EmissionInterval() > 0.0
    ensures 0.0 <= Stamp(start, true) && 0.0 <= Stamp(lo, true) <= Stamp(hi, true)
    ensures Stamp(hi, true) - Stamp(lo, true) == (Seconds(hi) - Seconds(lo)) as real
  {
    RatesAreReciprocal(q);
    FloorMonotone(lo, hi);
  }

  /** GCRA for one user, unused: what the bound on its rate asks for. */
  lemma OneGcra(q: Quota, user: string, now: real)
    requires q.Valid()
    ensures var g := One(GCRA, q, user);
      && ValidConfigs(g) && user in g && g[user].quota == q && g[user].algorithm.GCRA?
      && B.CellTyped(g[user], Ideal.Cell(map[], Plain(user)), now)
  {
  }

  /** Main result: in every run and interval, whatever limiters share the store, a token bucket admits at most its burst
      and its rate over the whole seconds its clock gains. */
  lemma TokenBucketRateSafety(cs: Configs, room: Transparency.Room, s: Store, m: Ideal.Memory, start: real,
                              rs: seq<Request>, user: string, lo: real, hi: real)
    requires ValidConfigs(cs) && Transparency.Simulates(cs, room, s, m, start) && Transparency.Lasts(cs, room, s, m, rs)
    requires ValidRun(cs, start, rs) && 0.0 <= start && 0.0 <= lo <= hi
    requires user in cs && cs[user].algorithm.TOKEN_BUCKET?
    ensures UsersKnown(cs, rs) && cs[user].quota.Valid() && cs[user].quota.EmissionInterval() > 0.0
    ensures AdmittedCost(rs, Run(cs, s, rs), user, lo, hi) as real
         <= cs[user].quota.burst as real + (Seconds(hi) - Seconds(lo)) as real / cs[user].quota.EmissionInterval()
  {
    GcraRate.CellOfSimulation(cs, room, s, m, start, user);
    RatesAreReciprocal(cs[user].quota);
    hide *;
    OneIs(cs, user);
    O.OthersDoNotShow(cs, room, s, m, start, rs, user);
    MapRate(cs[user].quota, user, m, start, O.Own(rs, user), lo, hi);
    O.OwnCost(rs, Run(cs, s, rs), user, lo, hi);
  }

  /** On the map a leaking bucket answers a user as the token bucket that mirrors it. */
  lemma {:induction false} MapMirror(q: Quota, user: string, m: Ideal.Memory, n: Ideal.Memory, start: real,
                                     own: seq<Request>)
    requires q.Valid() && Mirror.MirrorsCell(q, Ideal.Cell(m, Plain(user)), Ideal.Cell(n, Plain(user)), start)
    requires ValidRun(One(LEAKING_BUCKET, q, user), start, own)
    ensures UsersKnown(One(TOKEN_BUCKET, q, user), own) && UsersKnown(One(LEAKING_BUCKET, q, user), own)
    ensures ValidRun(One(TOKEN_BUCKET, q, user), start, own)
    ensures Ideal.Run(One(LEAKING_BUCKET, q, user), n, own) == Ideal.Run(One(TOKEN_BUCKET, q, user), m, own)
    decreases |own|
  {
    RunUsersKnown(One(LEAKING_BUCKET, q, user), start, own);
    if own != [] {
      hide Ideal.TokenCell, Ideal.LeakCell;
      var r := own[0];
      var v, w := Ideal.Cell(m, Plain(user)), Ideal.Cell(n, Plain(user));
      MirrorWaits(q, v, w, start, r.now);
      Mirror.CellsMirror(q, v, w, r);
      hide Mirror.MirrorsCell;
      var m' := Ideal.Serve(Config(TOKEN_BUCKET, q), m, r).0;
      var n' := Ideal.Serve(Config(LEAKING_BUCKET, q), n, r).0;
      MapMirror(q, user, m', n', r.now, own[1..]);
    }
  }

  lemma MirrorWaits(q: Quota, v: Option<Value>, w: Option<Value>, now: real, later: real)
    requires Mirror.MirrorsCell(q, v, w, now) && now <= later
    ensures Mirror.MirrorsCell(q, v, w, later)
  {
  }

  /** So does the leaking bucket, its mirror. */
  lemma LeakingBucketRateSafety(cs: Configs, room: Transparency.Room, s: Store, m: Ideal.Memory, start: real,
                                rs: seq<Request>, user: string, lo: real, hi: real)
    requires ValidConfigs(cs) && Transparency.Simulates(cs, room, s, m, start) && Transparency.Lasts(cs, room, s, m, rs)
    requires ValidRun(cs, start, rs) && 0.0 <= start && 0.0 <= lo <= hi
    requires user in cs && cs[user].algorithm.LEAKING_BUCKET?
    ensures UsersKnown(cs, rs) && cs[user].quota.Valid() && cs[user].quota.EmissionInterval() > 0.0
    ensures AdmittedCost(rs, Run(cs, s, rs), user, lo, hi) as real
         <= cs[user].quota.burst as real + (Seconds(hi) - Seconds(lo)) as real / cs[user].quota.EmissionInterval()
  {
    GcraRate.CellOfSimulation(cs, room, s, m, start, user);
    RatesAreReciprocal(cs[user].quota);
    var q, cell := cs[user].quota, Ideal.Cell(m, Plain(user));
    assert O.One(cs[user], user) == One(LEAKING_BUCKET, q, user);
    var n := Mirrored(q, user, cell, start);
    hide *;
    O.OthersDoNotShow(cs, room, s, m, start, rs, user);
    MapMirror(q, user, n, m, start, O.Own(rs, user));
    MapRate(q, user, n, start, O.Own(rs, user), lo, hi);
    O.OwnCost(rs, Run(cs, s, rs), user, lo, hi);
  }

  /** The map of the token bucket that mirrors a leaking bucket's cell. */
  lemma Mirrored(q: Quota, user: string, cell: Option<Value>, now: real) returns (n: Ideal.Memory)
    requires B.CellTyped(Config(LEAKING_BUCKET, q), cell, now)
    ensures Mirror.MirrorsCell(q, Ideal.Cell(n, Plain(user)), cell, now)
    ensures B.CellTyped(Config(TOKEN_BUCKET, q), Ideal.Cell(n, Plain(user)), now)
  {
    n := map[];
    if cell.Some? {
      var kv := cell.value.kv;
      n := map[Plain(user) := Mirror.MirrorValue(q.burst, cell.value)];
      assert kv == T.Bucket(kv["tokens"], kv["last_refreshed"]);
    }
  }
}
