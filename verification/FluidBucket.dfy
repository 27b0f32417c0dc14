/** The other form of the Generic Cell Rate Algorithm (Annex A of ITU-T I.371): a bucket that refills continuously. */
module FluidBucket {
  import opened Base
  import opened Store
  import opened Limiters
  import Ideal
  import G = Gcra
  import Transparency
  import O = OwnRuns

  /** So many tokens (a real number of them) at such a time. */
  datatype Fluid = Fluid(tokens: real, at: real)

  /** A bucket nobody used is full. */
  function Level(f: Option<Fluid>, burst: int, rate: real, now: real): real {
    match f
    case None => burst as real
    case Some(b) => Min(burst as real, b.tokens + (now - b.at) * rate)
  }

  /** Admit while the bucket holds the cost; report whole tokens, and the times to full and to the cost. */
  function Serve(q: Quota, f: Option<Fluid>, r: Request): (Option<Fluid>, Response)
    requires q.Valid()
  {
    RatesAreReciprocal(q);
    var rate := q.FillRate();
    var level := Level(f, q.burst, rate, r.now);
    match r
    case Limit(_, cost, now) =>
      var left := level - cost as real;
      if left >= 0.0 then (Some(Fluid(left, now)), Decision(false, Granted(q.burst, left, rate)))
      else (f, Decision(true, Refused(q.burst, level, cost, rate)))
    case Peek(_, _) => (f, Snapshot(Seen(q.burst, level, rate)))
  }

  /** After an admission: the whole tokens left, and the time to a full bucket. */
  function Granted(burst: int, left: real, rate: real): RateLimitState
    requires rate > 0.0
  {
    RateLimitState(burst, left.Floor, (burst as real - left) / rate, 0.0)
  }

  /** After a refusal: the whole tokens there are, and the times to a full bucket and to the cost. */
  function Refused(burst: int, level: real, cost: int, rate: real): RateLimitState
    requires rate > 0.0
  {
    RateLimitState(burst, level.Floor, (burst as real - level) / rate, (cost as real - level) / rate)
  }

  /** A peek; its retry hint is the part of a token the bucket has, as time. */
  function Seen(burst: int, level: real, rate: real): RateLimitState
    requires rate > 0.0
  {
    RateLimitState(burst, if level < 1.0 then 0 else level.Floor, (burst as real - level) / rate,
                   if level < 1.0 then level / rate else 0.0)
  }

  /** The tokens missing from a full bucket, as time. */
  function Missing(burst: real, tokens: real, ei: real): real { (burst - tokens) * ei }

  /** The TAT of a bucket holding so many tokens now. */
  function TatOf(burst: int, tokens: real, ei: real, now: real): real { now + Missing(burst as real, tokens, ei) }

  /** The answers to one user's requests. */
  function Run(q: Quota, f: Option<Fluid>, rs: seq<Request>): (r: seq<Response>)
    requires q.Valid()
    ensures |r| == |rs|
    decreases |rs|
  {
    if rs == [] then [] else
    var (f', a) := Serve(q, f, rs[0]);
    [a] + Run(q, f', rs[1..])
  }

  /** The level is the burst less what the TAT is ahead of the clock, in emission intervals. */
  ghost predicate SameState(q: Quota, cell: Option<Value>, f: Option<Fluid>, now: real)
    requires q.Valid()
  {
    var ei, burst := q.EmissionInterval(), q.burst as real;
    && (cell.Some? ==> cell.value.FloatVal? && cell.value.f > 0.0)
    && (f.Some? ==> 0.0 <= f.value.tokens <= burst && f.value.at <= now)
    && (f.Some? ==> if cell.Some? && cell.value.f >= f.value.at
                    then cell.value.f - f.value.at == Missing(burst, f.value.tokens, ei)
                    else f.value.tokens == burst)
    && (f.None? ==> cell.None?)
  }

  /** How far the TAT is ahead of the clock. */
  function Ahead(cell: Option<Value>, now: real): real {
    Max(now, G.LastTat(cell, now)) - now
  }

  lemma LevelIsAhead(q: Quota, cell: Option<Value>, f: Option<Fluid>, now: real)
    requires q.Valid() && SameState(q, cell, f, now)
    ensures q.EmissionInterval() > 0.0
    ensures Missing(q.burst as real, Level(f, q.burst, q.FillRate(), now), q.EmissionInterval()) == Ahead(cell, now)
    ensures 0.0 <= Level(f, q.burst, q.FillRate(), now) <= q.burst as real
  {
    RatesAreReciprocal(q);
    hide *;
    var burst, ei, rate := q.burst as real, q.EmissionInterval(), q.FillRate();
    AheadInState(q, cell, f, now);
    LevelIs(f, q.burst, rate, now);
    if f.Some? {
      Refilled(burst, f.value.tokens, now - f.value.at, rate, ei, Level(f, q.burst, rate, now));
    } else {
      NoneMissing(burst, ei);
    }
  }

  /** What the state says of how far the TAT is ahead. */
  lemma AheadInState(q: Quota, cell: Option<Value>, f: Option<Fluid>, now: real)
    requires q.Valid() && SameState(q, cell, f, now)
    ensures q.burst >= 0 && (f.None? ==> Ahead(cell, now) == 0.0)
    ensures f.Some? ==> 0.0 <= f.value.tokens <= q.burst as real && f.value.at <= now
    ensures f.Some? ==>
      Ahead(cell, now) == Max(0.0, Missing(q.burst as real, f.value.tokens, q.EmissionInterval()) - (now - f.value.at))
  {
    hide Quota.EmissionInterval, Missing;
    AheadIs(cell, now);
    NoneMissing(q.burst as real, q.EmissionInterval());
  }

  lemma NoneMissing(burst: real, ei: real)
    ensures Missing(burst, burst, ei) == 0.0
  {
  }

  lemma AheadIs(cell: Option<Value>, now: real)
    ensures Ahead(cell, now) == Max(now, G.LastTat(cell, now)) - now
    ensures cell.None? ==> Ahead(cell, now) == 0.0
    ensures cell.Some? && cell.value.FloatVal? && cell.value.f > 0.0 ==>
      Ahead(cell, now) == Max(0.0, cell.value.f - now)
  {
  }

  lemma LevelIs(f: Option<Fluid>, burst: int, rate: real, now: real)
    ensures f.None? ==> Level(f, burst, rate, now) == burst as real
    ensures f.Some? ==> Level(f, burst, rate, now) == Min(burst as real, f.value.tokens + (now - f.value.at) * rate)
  {
  }

  /** What is missing after a refill, as time. */
  lemma Refilled(burst: real, tokens: real, elapsed: real, rate: real, ei: real, level: real)
    requires rate > 0.0 && ei > 0.0 && ei * rate == 1.0 && elapsed >= 0.0 && 0.0 <= tokens <= burst
    requires level == Min(burst, tokens + elapsed * rate)
    ensures 0.0 <= level <= burst && Missing(burst, level, ei) == Max(0.0, Missing(burst, tokens, ei) - elapsed)
  {
    var gained := elapsed * rate;
    MulMonotone(0.0, elapsed, rate);
    GainedTime(elapsed, rate, ei);
    RestIs(burst, tokens, gained, ei);
    ScaleOrder(0.0, burst - (tokens + gained), ei);
    ScaleOrder(burst - (tokens + gained), 0.0, ei);
    NoneMissing(burst, ei);
  }

  lemma GainedTime(elapsed: real, rate: real, ei: real)
    requires ei * rate == 1.0
    ensures (elapsed * rate) * ei == elapsed
  {
    assert (elapsed * rate) * ei == elapsed * (ei * rate);
  }

  lemma RestIs(burst: real, tokens: real, gained: real, ei: real)
    ensures (burst - (tokens + gained)) * ei == (burst - tokens) * ei - gained * ei
  {
  }

  /** The floor and the quotients of the TAT form, as tokens. */
  lemma TokensFromTime(x: real, ei: real, rate: real, burst: int, level: real, cost: int)
    requires ei > 0.0 && rate > 0.0 && ei * rate == 1.0 && Missing(burst as real, level, ei) == x
    ensures (-x / ei).Floor == level.Floor - burst
    ensures (burst as real - level) / rate == x
    ensures (cost as real - level) / rate == x + (cost - burst) as real * ei
    ensures level / rate == burst as real * ei - x
  {
    var b, c := burst as real, cost as real;
    assert (-x) / ei == level - b by {
      assert (level - b) * ei == -x;
      DivBounds(-x, ei, level - b);
    }
    FloorShift(level, -burst);
    InverseScale(b - level, ei, rate);
    InverseScale(c - level, ei, rate);
    InverseScale(level, ei, rate);
    assert (c - level) * ei == (b - level) * ei + (cost - burst) as real * ei;
    assert level * ei == b * ei - (b - level) * ei;
  }

  lemma InverseScale(y: real, ei: real, rate: real)
    requires ei > 0.0 && rate > 0.0 && ei * rate == 1.0
    ensures y / rate == y * ei
  {
    assert (y * ei) * rate == y * (ei * rate);
    DivBounds(y, rate, y * ei);
  }

  lemma DecideIsSame(lastTat: real, ei: real, rate: real, burst: int, level: real, cost: nat, now: real)
    requires ei > 0.0 && rate > 0.0 && ei * rate == 1.0 && 0.0 <= level <= burst as real
    requires Missing(burst as real, level, ei) == Max(now, lastTat) - now
    ensures var v, left := G.Decide(lastTat, ei, burst, cost, now), level - cost as real;
      && v.ToResponse(burst) == Decision(left < 0.0, if left < 0.0 then Refused(burst, level, cost, rate)
                                                     else Granted(burst, left, rate))
      && v.newTat == (if 0.0 <= left < burst as real then Some(TatOf(burst, left, ei, now)) else None)
  {
    if level - cost as real < 0.0 { DecideRefuses(lastTat, ei, rate, burst, level, cost, now); }
    else { DecideGrants(lastTat, ei, rate, burst, level, cost, now); }
    hide G.Decide, Refused, Granted, TatOf;
  }

  /** The decision with its floor and its product named. */
  lemma DecideAs(lastTat: real, ei: real, burst: int, cost: nat, now: real, ahead: real, floor: int, short: real)
    requires ei > 0.0 && ahead == Max(now, lastTat) - now && floor == (-ahead / ei).Floor
    requires short == (cost - burst) as real * ei
    ensures var v := G.Decide(lastTat, ei, burst, cost, now);
      && (burst - cost + floor >= 0 ==>
            var reset := ahead + cost as real * ei;
            v == G.Verdict(false, burst - cost + floor, reset, 0.0, if reset > 0.0 then Some(now + reset) else None))
      && (burst - cost + floor < 0 ==>
            v == G.Verdict(true, MinInt(burst, burst + floor), ahead, Abs(ahead + short), None))
  {
    assert now - Max(now, lastTat) == -ahead;
    NegatedInt(cost - burst, ei);
    assert burst - cost == -(cost - burst);
  }

  lemma NegatedInt(n: int, ei: real)
    ensures (-n) as real * ei == -(n as real * ei)
  {
  }

  lemma DecideRefuses(lastTat: real, ei: real, rate: real, burst: int, level: real, cost: nat, now: real)
    requires ei > 0.0 && rate > 0.0 && ei * rate == 1.0 && 0.0 <= level <= burst as real
    requires Missing(burst as real, level, ei) == Max(now, lastTat) - now && level < cost as real
    ensures var v := G.Decide(lastTat, ei, burst, cost, now);
      v.ToResponse(burst) == Decision(true, Refused(burst, level, cost, rate)) && v.newTat == None
  {
    var x := Max(now, lastTat) - now;
    RefuseFacts(x, ei, rate, burst, level, cost);
    DecideAs(lastTat, ei, burst, cost, now, x, level.Floor - burst, (cost - burst) as real * ei);
    hide G.Decide, Missing, Max;
  }

  lemma RefuseFacts(x: real, ei: real, rate: real, burst: int, level: real, cost: nat)
    requires ei > 0.0 && rate > 0.0 && ei * rate == 1.0 && Missing(burst as real, level, ei) == x
    requires level < cost as real
    ensures (-x / ei).Floor == level.Floor - burst && level.Floor < cost
    ensures (burst as real - level) / rate == x
    ensures (cost as real - level) / rate == x + (cost - burst) as real * ei > 0.0
  {
    TokensFromTime(x, ei, rate, burst, level, cost);
    InverseScale(cost as real - level, ei, rate);
    ScaleOrder(cost as real - level, 0.0, ei);
  }

  lemma DecideGrants(lastTat: real, ei: real, rate: real, burst: int, level: real, cost: nat, now: real)
    requires ei > 0.0 && rate > 0.0 && ei * rate == 1.0 && 0.0 <= level <= burst as real
    requires Missing(burst as real, level, ei) == Max(now, lastTat) - now && level >= cost as real
    ensures var v, left := G.Decide(lastTat, ei, burst, cost, now), level - cost as real;
      && v.ToResponse(burst) == Decision(false, Granted(burst, left, rate))
      && v.newTat == (if left < burst as real then Some(TatOf(burst, left, ei, now)) else None)
  {
    var x := Max(now, lastTat) - now;
    GrantFacts(x, ei, rate, burst, level, cost);
    DecideAs(lastTat, ei, burst, cost, now, x, level.Floor - burst, (cost - burst) as real * ei);
    hide G.Decide, Missing, Max;
  }

  lemma GrantFacts(x: real, ei: real, rate: real, burst: int, level: real, cost: nat)
    requires ei > 0.0 && rate > 0.0 && ei * rate == 1.0 && Missing(burst as real, level, ei) == x
    requires level >= cost as real
    ensures var left := level - cost as real;
      && (-x / ei).Floor == level.Floor - burst && left.Floor == level.Floor - cost && left.Floor >= 0
      && (burst as real - left) / rate == Missing(burst as real, left, ei) == x + cost as real * ei
      && (left < burst as real <==> x + cost as real * ei > 0.0)
  {
    var left := level - cost as real;
    TokensFromTime(x, ei, rate, burst, level, cost);
    FloorShift(level, 0 - cost);
    RestIs(burst as real, level, 0.0 - cost as real, ei);
    NegativeGain(cost as real, ei);
    InverseScale(burst as real - left, ei, rate);
    ScaleOrder(burst as real - left, 0.0, ei);
    assert burst as real - left == burst as real - (level + (0.0 - cost as real));
  }

  lemma NegativeGain(x: real, ei: real)
    ensures (0.0 - x) * ei == -(x * ei)
  {
  }

  lemma LookIsSame(tat: real, ei: real, rate: real, burst: int, level: real, now: real)
    requires ei > 0.0 && rate > 0.0 && ei * rate == 1.0 && 0.0 <= level <= burst as real
    requires Missing(burst as real, level, ei) == Max(now, tat) - now
    ensures G.Look(tat, ei, burst, now) == Seen(burst, level, rate)
  {
    TokensFromTime(Max(now, tat) - now, ei, rate, burst, level, 0);
    InverseScale(level, ei, rate);
    ScaleOrder(0.0, level, ei);
  }

  /** What the TAT form does with a request, told in tokens. */
  lemma CellInTokens(q: Quota, cell: Option<Value>, f: Option<Fluid>, r: Request)
    requires q.Valid() && SameState(q, cell, f, r.now)
    ensures var level, e := Level(f, q.burst, q.FillRate(), r.now), Ideal.GcraCell(q, cell, r);
      && e.response == Serve(q, f, r).1
      && (e.write.Some? <==> r.Limit? && 0.0 <= level - r.cost as real < q.burst as real)
      && (e.write.Some? ==>
            e.write.value.0 == FloatVal(TatOf(q.burst, level - r.cost as real, q.EmissionInterval(), r.now)))
  {
    LevelIsAhead(q, cell, f, r.now);
    if r.Peek? { PeekInTokens(q, cell, f, r); } else { LimitInTokens(q, cell, f, r); }
  }

  lemma PeekInTokens(q: Quota, cell: Option<Value>, f: Option<Fluid>, r: Request)
    requires q.Valid() && r.Peek?
    requires var level := Level(f, q.burst, q.FillRate(), r.now);
      0.0 <= level <= q.burst as real && Missing(q.burst as real, level, q.EmissionInterval()) == Ahead(cell, r.now)
    ensures Ideal.GcraCell(q, cell, r) == Ideal.Effect(Serve(q, f, r).1, None)
  {
    RatesAreReciprocal(q);
    hide G.Look, Quota.EmissionInterval, Quota.FillRate, Level, Seen;
    LookIsSame(G.LastTat(cell, r.now), q.EmissionInterval(), q.FillRate(), q.burst,
               Level(f, q.burst, q.FillRate(), r.now), r.now);
  }

  lemma LimitInTokens(q: Quota, cell: Option<Value>, f: Option<Fluid>, r: Request)
    requires q.Valid() && r.Limit?
    requires var level := Level(f, q.burst, q.FillRate(), r.now);
      0.0 <= level <= q.burst as real && Missing(q.burst as real, level, q.EmissionInterval()) == Ahead(cell, r.now)
    ensures var left, e := Level(f, q.burst, q.FillRate(), r.now) - r.cost as real, Ideal.GcraCell(q, cell, r);
      && e.response == Serve(q, f, r).1
      && (e.write.Some? <==> 0.0 <= left < q.burst as real)
      && (e.write.Some? ==> e.write.value.0 == FloatVal(TatOf(q.burst, left, q.EmissionInterval(), r.now)))
  {
    RatesAreReciprocal(q);
    hide *;
    AheadIs(cell, r.now);
    CellIsDecide(q, cell, r);
    ServeIsLevel(q, f, r);
    var level := Level(f, q.burst, q.FillRate(), r.now);
    DecideIsSame(G.LastTat(cell, r.now), q.EmissionInterval(), q.FillRate(), q.burst, level, r.cost, r.now);
  }

  lemma ServeIsLevel(q: Quota, f: Option<Fluid>, r: Request)
    requires q.Valid() && r.Limit? && q.FillRate() > 0.0
    ensures var level := Level(f, q.burst, q.FillRate(), r.now);
      var left := level - r.cost as real;
      Serve(q, f, r).1 == Decision(left < 0.0, if left < 0.0 then Refused(q.burst, level, r.cost, q.FillRate())
                                               else Granted(q.burst, left, q.FillRate()))
  {
    hide Quota.FillRate, Level, Granted, Refused;
  }

  lemma CellIsDecide(q: Quota, cell: Option<Value>, r: Request)
    requires q.Valid() && r.Limit? && q.EmissionInterval() > 0.0
    ensures var e := Ideal.GcraCell(q, cell, r);
      var v := G.Decide(G.LastTat(cell, r.now), q.EmissionInterval(), q.burst, r.cost, r.now);
      && e.response == v.ToResponse(q.burst) && (e.write.Some? <==> v.newTat.Some?)
      && (e.write.Some? ==> e.write.value.0 == FloatVal(v.newTat.value))
  {
    hide Quota.EmissionInterval, G.Decide;
  }

  /** One request answers the same in both forms and leaves the same state. */
  lemma StepIsSame(q: Quota, cell: Option<Value>, f: Option<Fluid>, r: Request)
    requires q.Valid() && SameState(q, cell, f, r.now) && 0.0 <= r.now
    ensures var (f', a) := Serve(q, f, r);
      var e := Ideal.GcraCell(q, cell, r);
      a == e.response && SameState(q, if e.write.Some? then Some(e.write.value.0) else cell, f', r.now)
  {
    CellInTokens(q, cell, f, r);
    LevelIsAhead(q, cell, f, r.now);
    IdleAtFull(q, cell, f, r.now);
    var level := Level(f, q.burst, q.FillRate(), r.now);
    hide Quota.EmissionInterval, Quota.FillRate, Level, Ideal.GcraCell, Granted, Refused, Seen, TatOf, SameState;
    if r.Limit? && level - r.cost as real >= 0.0 {
      StateAfterAdmission(q, cell, level - r.cost as real, r.now);
    }
  }

  lemma IdleAtFull(q: Quota, cell: Option<Value>, f: Option<Fluid>, now: real)
    requires q.Valid() && SameState(q, cell, f, now)
    ensures cell.Some? ==> cell.value.FloatVal? && cell.value.f > 0.0
    ensures Level(f, q.burst, q.FillRate(), now) == q.burst as real ==> Ahead(cell, now) == 0.0
  {
    LevelIsAhead(q, cell, f, now);
  }

  lemma StateAfterAdmission(q: Quota, cell: Option<Value>, left: real, now: real)
    requires q.Valid() && 0.0 <= left <= q.burst as real && 0.0 <= now
    ensures left < q.burst as real ==>
      SameState(q, Some(FloatVal(TatOf(q.burst, left, q.EmissionInterval(), now))), Some(Fluid(left, now)), now)
    ensures (left == q.burst as real && Ahead(cell, now) == 0.0
             && (cell.Some? ==> cell.value.FloatVal? && cell.value.f > 0.0)) ==>
      SameState(q, cell, Some(Fluid(left, now)), now)
  {
    RatesAreReciprocal(q);
    hide Quota.EmissionInterval;
    var ei := q.EmissionInterval();
    if left < q.burst as real { MulStrict(0.0, q.burst as real - left, ei); }
    ZeroMissing(q.burst as real, left, ei);
  }

  lemma ZeroMissing(burst: real, left: real, ei: real)
    ensures left == burst ==> (burst - left) * ei == 0.0
  {
  }

  /** Waiting changes neither state. */
  lemma SameStateWaits(q: Quota, cell: Option<Value>, f: Option<Fluid>, now: real, later: real)
    requires q.Valid() && SameState(q, cell, f, now) && now <= later
    ensures SameState(q, cell, f, later)
  {
  }

  /** Every run of one user's requests is answered the same in both forms. */
  lemma {:induction false} IdealRunIsFluid(q: Quota, user: string, m: Ideal.Memory, f: Option<Fluid>, start: real,
                                           rs: seq<Request>)
    requires q.Valid() && SameState(q, Ideal.Cell(m, Plain(user)), f, start) && 0.0 <= start
    requires ValidRun(O.One(Config(GCRA, q), user), start, rs)
    ensures UsersKnown(O.One(Config(GCRA, q), user), rs)
    ensures Ideal.Run(O.One(Config(GCRA, q), user), m, rs) == Run(q, f, rs)
    decreases |rs|
  {
    var one := O.One(Config(GCRA, q), user);
    RunUsersKnown(one, start, rs);
    if rs != [] {
      var r, cell := rs[0], Ideal.Cell(m, Plain(user));
      SameStateWaits(q, cell, f, start, r.now);
      StepIsSame(q, cell, f, r);
      hide SameState, Ideal.GcraCell, Serve, UsersKnown;
      var m' := Ideal.Serve(one[user], m, r).0;
      IdealRunIsFluid(q, user, m', Serve(q, f, r).0, r.now, rs[1..]);
    }
  }

  /** Main result: on a store with room, whatever other limiters share it, GCRA answers a user's requests as the
      continuous bucket does that starts in the equivalent state. */
  lemma GcraIsFluidBucket(cs: Configs, room: Transparency.Room, s: Store, m: Ideal.Memory, f: Option<Fluid>,
                          start: real, rs: seq<Request>, user: string)
    requires ValidConfigs(cs) && Transparency.Simulates(cs, room, s, m, start) && Transparency.Lasts(cs, room, s, m, rs)
    requires ValidRun(cs, start, rs) && 0.0 <= start && user in cs && cs[user].algorithm.GCRA?
    requires SameState(cs[user].quota, Ideal.Cell(m, Plain(user)), f, start)
    ensures UsersKnown(cs, rs) && cs[user].quota.Valid()
    ensures O.OwnAnswers(rs, Limiters.Run(cs, s, rs), user) == Run(cs[user].quota, f, O.Own(rs, user))
  {
    assert cs[user] == Config(GCRA, cs[user].quota) && cs[user].quota.Valid();
    hide *;
    O.OthersDoNotShow(cs, room, s, m, start, rs, user);
    IdealRunIsFluid(cs[user].quota, user, m, f, start, O.Own(rs, user));
  }

  /** A key that was never used is a bucket that was never used. */
  lemma UnusedIsSame(q: Quota, now: real)
    requires q.Valid()
    ensures SameState(q, None, None, now)
  {
  }
}
