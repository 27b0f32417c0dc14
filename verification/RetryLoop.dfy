/** `Throttled._do_limit` and `_wait`: ask, sleep, ask again, for about as long as the caller allows. */
module RetryLoop {
  import opened Base
  import S = Store
  import opened Limiters
  import Ideal
  import G = Gcra
  import T = TokenBucket
  import L = LeakingBucket
  import F = FixedWindow
  import W = SlidingWindow
  import MemoryBackend
  import H = RetryHints
  import Estimates
  import Transparency
  import SlidingHint
  import SlidingShare
  type Room = Transparency.Room

  const NON_BLOCKING := -1.0
  const WAIT_INTERVAL := 0.5
  const WAIT_MIN_INTERVAL := 0.2

  /** `_validate_timeout`. */
  predicate ValidTimeout(timeout: real) { timeout == NON_BLOCKING || timeout > 0.0 }

  /** `_get_wait_time`: the hint, but no longer than half a second and no shorter than a fifth. */
  function WaitTime(retryAfter: real): (w: real)
    ensures 0.2 <= w <= 0.5
    ensures w < retryAfter ==> w == 0.5
    ensures w > retryAfter ==> w == 0.2
  {
    Max(Min(retryAfter, WAIT_INTERVAL), WAIT_MIN_INTERVAL)
  }

  /** The limiter calls a timeout leaves time for. */
  function MaxCalls(timeout: real): int { 1 + Ceil(timeout / WAIT_MIN_INTERVAL) }

  /** One more call after less than the timeout. */
  lemma CallsFit(calls: int, timeout: real)
    requires timeout > 0.0 ==> WAIT_MIN_INTERVAL * (calls - 2) as real < timeout
    ensures timeout > 0.0 ==> calls <= MaxCalls(timeout)
  {
    if timeout > 0.0 { DivBounds(timeout, WAIT_MIN_INTERVAL, (calls - 2) as real); }
  }

  /** What a caller cannot control: how long a sleep really takes, and what other callers do to the store meanwhile. */
  class Environment {
    /** sleeps take exactly as long as asked, and nothing else takes time */
    const exact: bool
    /** nobody else uses the store */
    const alone: bool
    var now: real

    constructor (now: real, exact: bool, alone: bool)
      ensures this.now == now && this.exact == exact && this.alone == alone
    {
      this.now, this.exact, this.alone := now, exact, alone;
    }

    method Sleep(seconds: real)
      requires seconds >= 0.0
      modifies this
      ensures now >= old(now) + seconds
      ensures exact ==> now == old(now) + seconds
    {
      var late: real :| late >= 0.0 && (exact ==> late == 0.0);
      now := now + seconds + late;
    }

    /** Other callers may leave the store in any valid state. */
    method Others(backend: MemoryBackend.Backend)
      requires backend.Valid()
      modifies backend
      ensures backend.Valid()
      ensures alone ==> backend.State() == old(backend.State())
    {
      if !alone {
        assert S.Store(backend.maxSize, backend.order, backend.entries, backend.expireInfo).Valid();
        var order, entries, expireInfo :| S.Store(backend.maxSize, order, entries, expireInfo).Valid();
        backend.order, backend.entries, backend.expireInfo := order, entries, expireInfo;
      }
    }
  }

  /** `BaseRateLimiter.limit`: the configured limiter's action on the shared backend. */
  method LimiterLimit(backend: MemoryBackend.Backend, c: Config, user: string, cost: nat,
                      now: real) returns (r: Response)
    requires backend.Valid() && c.quota.Valid()
    modifies backend
    ensures backend.Valid()
    ensures (backend.State(), r) == Serve(c, old(backend.State()), Limit(user, cost, now))
    ensures r.Failed? || (r.Decision? && (r.limited ==> r.state.retryAfter > 0.0))
  {
    hide G.DoLimit, T.DoLimit, L.DoLimit, W.DoLimit, F.LimitOn, Quota.EmissionInterval, Quota.FillRate;
    RatesAreReciprocal(c.quota);
    H.DenialsAskToWait(c, backend.State(), Limit(user, cost, now));
    var q := c.quota;
    match c.algorithm
    case GCRA =>
      var v := G.LimitAction(backend, S.Plain(user), q.EmissionInterval(), q.burst, cost, now);
      r := if v.DataError? then Failed else v.value.ToResponse(q.burst);
    case TOKEN_BUCKET =>
      var v := T.LimitAction(backend, S.Plain(user), q.FillRate(), q.burst, cost, now);
      r := if v.DataError? then Failed else T.ToResult(q.FillRate(), v.value.0, cost, v.value.1, q.burst);
    case LEAKING_BUCKET =>
      var v := L.LimitAction(backend, S.Plain(user), q.FillRate(), q.burst, cost, now);
      r := if v.DataError? then Failed else T.ToResult(q.FillRate(), v.value.0, cost, v.value.1, q.burst);
    case FIXED_WINDOW =>
      r := F.Limit(backend, user, q, cost, now);
    case SLIDING_WINDOW =>
      var v := W.LimitAction(backend, F.CurrentKey(user, now, q.periodSec), W.PreviousKey(user, now, q.periodSec),
                             q.periodSec, q.limit, cost, now);
      r := if v.DataError? then Failed else W.ToResult(v.value, q);
  }

  /** The largest cost a limiter can ever admit. */
  function Capacity(c: Config): int { if c.algorithm.FIXED_WINDOW? then c.quota.limit else c.quota.burst }

  /** What a lone caller knows: nobody but this store's limiters has written it, whatever their mix, the store has room
      for two more requests, and the clock is not negative. */
  ghost predicate LoneStore(cs: Configs, room: Room, s: S.Store, m: Ideal.Memory, user: string, now: real) {
    && ValidConfigs(cs) && user in cs && 0.0 <= now
    && Transparency.Simulates(cs, room, s, m, now) && Transparency.Spare(cs, room, s, user, 2)
    && Estimates.Sane(cs[user], m, user, now)
  }

  /** The room with what the first request writes. */
  ghost function RoomAfter(room: Room, c: Config, user: string, cost: nat, now: real): Room
    requires c.quota.Valid()
  {
    Transparency.Widened(room, Transparency.WrittenKey(c, Limit(user, cost, now)))
  }

  /** What a first request needs so that a second, once its hint has gone by, is admitted: a cost the limiter can admit;
      for the sliding window, that what is due when the hint ends is within the limit. */
  ghost predicate RetryFits(c: Config, m: Ideal.Memory, user: string, cost: nat, now: real)
    requires c.quota.Valid()
  {
    if c.algorithm.SLIDING_WINDOW? then
      var (m1, a) := Ideal.Serve(c, m, Limit(user, cost, now));
      a.Decision? && (a.limited ==>
        SlidingShare.DueAtHint(m1, user, c.quota.periodSec, cost, now, a.state.retryAfter) <= c.quota.limit)
    else cost <= Capacity(c)
  }

  /** Then, for all five limiters, waiting out a denial's hint is enough. */
  lemma HintSuffices(c: Config, m: Ideal.Memory, user: string, cost: nat, now: real, t: real)
    requires c.quota.Valid() && Estimates.Sane(c, m, user, now) && 0.0 <= now <= t && RetryFits(c, m, user, cost, now)
    requires var a := Ideal.Serve(c, m, Limit(user, cost, now)).1;
      a.Decision? && a.limited && t >= now + a.state.retryAfter
    ensures var m1 := Ideal.Serve(c, m, Limit(user, cost, now)).0; Ideal.Serve(c, m1, Limit(user, cost, t)).1.Admits()
  {
    if c.algorithm.SLIDING_WINDOW? { SlidingHintSuffices(c, m, user, cost, now, t); }
    else { PlainHintSuffices(c, m, user, cost, now, t); }
    hide *;
  }

  lemma SlidingHintSuffices(c: Config, m: Ideal.Memory, user: string, cost: nat, now: real, t: real)
    requires c.quota.Valid() && c.algorithm.SLIDING_WINDOW? && Estimates.Sane(c, m, user, now)
    requires RetryFits(c, m, user, cost, now)
    requires var a := Ideal.Serve(c, m, Limit(user, cost, now)).1;
      a.Decision? && a.limited && t >= now + a.state.retryAfter
    ensures var m1 := Ideal.Serve(c, m, Limit(user, cost, now)).0; Ideal.Serve(c, m1, Limit(user, cost, t)).1.Admits()
  {
    hide Ideal.Serve, Estimates.Sane, SlidingShare.DueAtHint, SlidingShare.UpTo;
    SlidingHint.SaneIsUpTo(c, m, user, now);
    SlidingHint.HintSufficesIffDue(c, m, user, cost, now);
  }

  lemma PlainHintSuffices(c: Config, m: Ideal.Memory, user: string, cost: nat, now: real, t: real)
    requires c.quota.Valid() && !c.algorithm.SLIDING_WINDOW? && Estimates.Sane(c, m, user, now)
    requires 0.0 <= now <= t && cost <= Capacity(c)
    requires var a := Ideal.Serve(c, m, Limit(user, cost, now)).1;
      a.Decision? && a.limited && t >= now + a.state.retryAfter
    ensures var m1 := Ideal.Serve(c, m, Limit(user, cost, now)).0; Ideal.Serve(c, m1, Limit(user, cost, t)).1.Admits()
  {
    if c.algorithm.GCRA? {
      H.GcraRetryOnMap(c, m, user, cost, now, t);
    } else if c.algorithm.FIXED_WINDOW? {
      H.FixedRetryOnMap(c, m, user, cost, now, t);
      WholeSecondsWait(now, t, F.ResetAfter(now, c.quota.periodSec));
    } else {
      H.BucketRetryOnMap(c, m, user, cost, now, t);
      H.BucketHintIsWhole(c, m, user, cost, now);
      var a := Ideal.Serve(c, m, Limit(user, cost, now)).1;
      WholeSecondsWait(now, t, a.state.retryAfter.Floor);
    }
  }

  /** A lone caller for whom the first retry will do: the request will fit, and the first hint is within the timeout. */
  ghost predicate RetryWillDo(cs: Configs, room: Room, s: S.Store, c: Config, m: Ideal.Memory, user: string, cost: nat,
                              now: real, timeout: real)
    requires c.quota.Valid()
  {
    && LoneStore(cs, room, s, m, user, now) && cs[user] == c
    && RetryFits(c, m, user, cost, now) && FirstHint(c, m, user, cost, now) <= timeout
  }

  /** The hint of the first answer, 0 if it admits. */
  ghost function FirstHint(c: Config, m: Ideal.Memory, user: string, cost: nat, now: real): real
    requires c.quota.Valid()
  {
    var a := Ideal.Serve(c, m, Limit(user, cost, now)).1;
    if a.Decision? then a.state.retryAfter else 0.0
  }

  /** What such a caller knows after the first answer: it is the map's, and store and map are together. */
  ghost predicate Asked(cs: Configs, room: Room, s1: S.Store, c: Config, m: Ideal.Memory, user: string, cost: nat,
                        now: real, a: Response)
    requires c.quota.Valid()
  {
    && ValidConfigs(cs) && user in cs && cs[user] == c && 0.0 <= now
    && Estimates.Sane(c, m, user, now) && RetryFits(c, m, user, cost, now)
    && var (m1, b) := Ideal.Serve(c, m, Limit(user, cost, now));
      var room1 := RoomAfter(room, c, user, cost, now);
      && a == b && a.Decision?
      && Transparency.Simulates(cs, room1, s1, m1, now) && Transparency.Spare(cs, room1, s1, user, 1)
  }

  lemma LoneFirst(cs: Configs, room: Room, s: S.Store, c: Config, m: Ideal.Memory, user: string, cost: nat, now: real,
                  timeout: real)
    requires c.quota.Valid() && RetryWillDo(cs, room, s, c, m, user, cost, now, timeout)
    ensures var (s1, a) := Serve(c, s, Limit(user, cost, now));
      a.Decision? && a.state.retryAfter <= timeout && Asked(cs, room, s1, c, m, user, cost, now, a)
  {
    hide Serve, Ideal.Serve, Transparency.Simulates, Transparency.Spare, Estimates.Sane, RetryFits;
    var r := Limit(user, cost, now);
    Transparency.Widen(cs, room, s, m, now, r, 1);
    Transparency.StepSimulates(cs, RoomAfter(room, c, user, cost, now), s, m, now, r);
    H.MapDecides(c, m, user, cost, now);
    var s1 := Serve(c, s, r).0;
    assert s1.maxSize == s.maxSize;
    assert Transparency.Spare(cs, Transparency.Widened(room, Transparency.WrittenKey(c, r)), s1, user, 1);
  }

  /** After waiting out the hint, the second request is admitted. */
  lemma LoneSecond(cs: Configs, room: Room, s1: S.Store, c: Config, m: Ideal.Memory, user: string, cost: nat, now: real,
                   a: Response, t: real)
    requires c.quota.Valid() && Asked(cs, room, s1, c, m, user, cost, now, a)
    requires a.Decision? && a.limited && t >= now && t >= now + a.state.retryAfter
    ensures Serve(c, s1, Limit(user, cost, t)).1.Admits()
  {
    hide Serve, Ideal.Serve, Transparency.Simulates, Transparency.Spare, Estimates.Sane, RetryFits;
    var m1, r := Ideal.Serve(c, m, Limit(user, cost, now)).0, Limit(user, cost, t);
    HintSuffices(c, m, user, cost, now, t);
    var room1 := RoomAfter(room, c, user, cost, now);
    Transparency.Widen(cs, room1, s1, m1, now, r, 0);
    Transparency.StepSimulates(cs, RoomAfter(room1, c, user, cost, t), s1, m1, now, r);
  }

  lemma WholeSecondsWait(now: real, t: real, h: int)
    requires t >= now + h as real
    ensures Seconds(t) >= Seconds(now) + h
  {
  }

  // ----- what a caller and the limiter say to each other

  /** One call of the limiter: the store it found, when, and its answer. */
  datatype Call = Call(store: S.Store, now: real, answer: Response)

  /** The answer denies. */
  predicate Denies(a: Response) { a.Decision? && a.limited }

  /** The `i`-th answer is the caller's: a timeout of -1 does not block, or the answer is no denial, or it asks for more
      than the timeout, or it comes, at a retry, when the timeout has passed. */
  predicate Ends(log: seq<Call>, i: nat, timeout: real)
    requires i < |log|
  {
    || timeout == -1.0
    || !Denies(log[i].answer)
    || log[i].answer.state.retryAfter > timeout
    || (i > 0 && log[i].now - log[0].now >= timeout)
  }

  /** So many sleeps of one length. */
  function Sleeps(n: nat, length: real): real { n as real * length }

  /** The least number of whole sleeps that reaches the hint or the timeout. */
  ghost predicate InSleeps(slept: real, hint: real, timeout: real) {
    var length := WaitTime(hint);
    && Min(hint, timeout) <= slept < Min(hint, timeout) + length
    && exists n :: n >= 1 && slept == Sleeps(n, length)
  }

  /** The call `q` follows the denial `p`, after the wait it asked for or the timeout. */
  ghost predicate Follows(c: Config, user: string, cost: nat, timeout: real, exact: bool, alone: bool, p: Call, q: Call)
    requires c.quota.Valid()
  {
    && Denies(p.answer)
    && q.now - p.now >= Max(0.2, Min(p.answer.state.retryAfter, timeout))
    && (exact ==> InSleeps(q.now - p.now, p.answer.state.retryAfter, timeout))
    && (alone ==> q.store == Serve(c, p.store, Limit(user, cost, p.now)).0)
  }

  /** All answers are the limiter's, on the store it found; each call but the first follows one that did not end it. */
  ghost predicate Dialogue(c: Config, user: string, cost: nat, timeout: real, exact: bool, alone: bool, log: seq<Call>)
    requires c.quota.Valid()
  {
    && log != []
    && (forall i :: 0 <= i < |log| ==> log[i].answer == Serve(c, log[i].store, Limit(user, cost, log[i].now)).1)
    && (forall i :: 0 <= i < |log| - 1 ==> GoesOn(c, user, cost, timeout, exact, alone, log, i))
  }

  ghost predicate GoesOn(c: Config, user: string, cost: nat, timeout: real, exact: bool, alone: bool, log: seq<Call>,
                         i: nat)
    requires c.quota.Valid() && i < |log| - 1
  {
    !Ends(log, i, timeout) && Follows(c, user, cost, timeout, exact, alone, log[i], log[i + 1])
  }

  lemma DialogueGrows(c: Config, user: string, cost: nat, timeout: real, exact: bool, alone: bool, log: seq<Call>,
                      q: Call)
    requires c.quota.Valid() && Dialogue(c, user, cost, timeout, exact, alone, log)
    requires !Ends(log, |log| - 1, timeout)
    requires Follows(c, user, cost, timeout, exact, alone, log[|log| - 1], q)
    requires q.answer == Serve(c, q.store, Limit(user, cost, q.now)).1
    ensures Dialogue(c, user, cost, timeout, exact, alone, log + [q])
  {
    hide Serve, Follows;
    var grown := log + [q];
    forall i | 0 <= i < |log| ensures GoesOn(c, user, cost, timeout, exact, alone, grown, i) {
      assert Ends(grown, i, timeout) == Ends(log, i, timeout);
      if i < |log| - 1 { assert GoesOn(c, user, cost, timeout, exact, alone, log, i); }
    }
  }

  /** A dialogue that began on the store `s0` at `t0`; its last answer is `r`, at `now`, and left the store `s`. */
  ghost predicate Transcript(c: Config, user: string, cost: nat, timeout: real, exact: bool, alone: bool,
                             calls: seq<Call>, s0: S.Store, t0: real, s: S.Store, now: real, r: Response)
    requires c.quota.Valid()
  {
    && Dialogue(c, user, cost, timeout, exact, alone, calls)
    && calls[0].store == s0 && calls[0].now == t0
    && var last := calls[|calls| - 1];
      && last.now == now && last.answer == r && (s, r) == Serve(c, last.store, Limit(user, cost, now))
  }

  lemma TranscriptBegins(c: Config, user: string, cost: nat, timeout: real, exact: bool, alone: bool, s0: S.Store,
                         t0: real)
    requires c.quota.Valid()
    ensures var (s, r) := Serve(c, s0, Limit(user, cost, t0));
      Transcript(c, user, cost, timeout, exact, alone, [Call(s0, t0, r)], s0, t0, s, t0, r)
  {
    hide Serve;
  }

  /** After a denial that does not end it and the wait, one more call. */
  lemma TranscriptGrows(c: Config, user: string, cost: nat, timeout: real, exact: bool, alone: bool, calls: seq<Call>,
                        s0: S.Store, t0: real, s: S.Store, now: real, a: Response, s1: S.Store, later: real)
    requires c.quota.Valid() && Transcript(c, user, cost, timeout, exact, alone, calls, s0, t0, s, now, a)
    requires calls != [] && !Ends(calls, |calls| - 1, timeout)
    requires later - now >= Max(0.2, Min(a.state.retryAfter, timeout)) && (alone ==> s1 == s)
    requires exact ==> InSleeps(later - now, a.state.retryAfter, timeout)
    ensures var (s2, r) := Serve(c, s1, Limit(user, cost, later));
      Transcript(c, user, cost, timeout, exact, alone, calls + [Call(s1, later, r)], s0, t0, s2, later, r)
  {
    hide Serve, InSleeps;
    var r := Serve(c, s1, Limit(user, cost, later)).1;
    DialogueGrows(c, user, cost, timeout, exact, alone, calls, Call(s1, later, r));
  }

  lemma LastEnds(c: Config, user: string, cost: nat, timeout: real, exact: bool, alone: bool, calls: seq<Call>,
                 s0: S.Store, t0: real, s: S.Store, now: real, r: Response)
    requires c.quota.Valid() && Transcript(c, user, cost, timeout, exact, alone, calls, s0, t0, s, now, r)
    ensures calls != []
    ensures Ends(calls, |calls| - 1, timeout) <==>
      timeout == NON_BLOCKING || !Denies(r) || r.state.retryAfter > timeout || (|calls| > 1 && now - t0 >= timeout)
  {
    hide Serve;
  }

  lemma OneMoreSleep(n: nat, length: real)
    ensures Sleeps(n + 1, length) == Sleeps(n, length) + length && Sleeps(0, length) == 0.0
  {
  }

  /** At least one sleep, and no longer than the timeout and one sleep. */
  lemma SleepsShort(slept: real, hint: real, timeout: real)
    ensures slept >= Max(0.2, Min(hint, timeout)) ==> slept >= 0.2 && (hint <= timeout ==> slept >= hint)
    ensures InSleeps(slept, hint, timeout) ==> slept < timeout + 0.5
  {
  }

  /** With exact sleeps, a hint between a fifth and half a second is slept as it is, if the timeout is no shorter; a
      longer one in halves of a second. */
  lemma ExactSleep(slept: real, hint: real, timeout: real)
    requires InSleeps(slept, hint, timeout)
    ensures 0.2 <= hint <= 0.5 && hint <= timeout ==> slept == hint
    ensures hint > 0.5 ==> exists n :: n >= 1 && slept == Sleeps(n, 0.5)
  {
    var n :| n >= 1 && slept == Sleeps(n, WaitTime(hint));
    SeveralSleeps(n, WaitTime(hint));
    hide Sleeps;
  }

  lemma SeveralSleeps(n: nat, length: real)
    requires n >= 1 && length >= 0.0
    ensures n == 1 ==> Sleeps(n, length) == length
    ensures n >= 2 ==> Sleeps(n, length) >= length + length
  {
    if n >= 2 { MulMonotone(2.0, n as real, length); }
  }

  function Requests(log: seq<Call>, user: string, cost: nat): seq<Request> {
    seq(|log|, i requires 0 <= i < |log| => Limit(user, cost, log[i].now))
  }

  lemma RestOfDialogue(c: Config, user: string, cost: nat, timeout: real, exact: bool, alone: bool, log: seq<Call>)
    requires c.quota.Valid() && Dialogue(c, user, cost, timeout, exact, alone, log) && |log| > 1
    ensures Dialogue(c, user, cost, timeout, exact, alone, log[1..])
  {
    hide Serve, Follows;
    var rest := log[1..];
    assert GoesOn(c, user, cost, timeout, exact, alone, log, 0);
    FollowsLater(c, user, cost, timeout, exact, alone, log[0], log[1]);
    forall i | 0 <= i < |rest| - 1 ensures GoesOn(c, user, cost, timeout, exact, alone, rest, i) {
      assert GoesOn(c, user, cost, timeout, exact, alone, log, i + 1);
    }
  }

  lemma FollowsLater(c: Config, user: string, cost: nat, timeout: real, exact: bool, alone: bool, p: Call, q: Call)
    requires c.quota.Valid() && Follows(c, user, cost, timeout, exact, alone, p, q)
    ensures q.now >= p.now
  {
  }

  /** Alone on the store, a caller and the limiter make a run. */
  lemma {:induction false} LoneDialogueIsRun(c: Config, user: string, cost: nat, timeout: real, exact: bool,
                                             log: seq<Call>)
    requires c.quota.Valid() && Dialogue(c, user, cost, timeout, exact, true, log) && timeout > 0.0
    ensures var (cs, rs) := (map[user := c], Requests(log, user, cost));
      && ValidRun(cs, log[0].now, rs) && UsersKnown(cs, rs)
      && forall i :: 0 <= i < |log| ==> Run(cs, log[0].store, rs)[i] == log[i].answer
    decreases |log|
  {
    hide Serve;
    var (cs, rs) := (map[user := c], Requests(log, user, cost));
    if |log| > 1 {
      var rest := log[1..];
      assert GoesOn(c, user, cost, timeout, exact, true, log, 0);
      RestOfDialogue(c, user, cost, timeout, exact, true, log);
      LoneDialogueIsRun(c, user, cost, timeout, exact, rest);
      assert rs[1..] == Requests(rest, user, cost);
    } else {
      assert rs == [Limit(user, cost, log[0].now)] && rs[1..] == [];
    }
  }

  class Throttled {
    const backend: MemoryBackend.Backend
    const config: Config
    const env: Environment
    /** limiter calls made so far */
    ghost var log: seq<Call>

    constructor (backend: MemoryBackend.Backend, config: Config, env: Environment)
      ensures this.backend == backend && this.config == config && this.env == env && log == []
    {
      this.backend, this.config, this.env := backend, config, env;
      log := [];
    }

    ghost predicate Valid()
      reads backend
    {
      backend.Valid() && config.quota.Valid()
    }

    /** One call of the limiter. */
    method Ask(user: string, cost: nat) returns (r: Response)
      requires Valid()
      modifies backend, this
      ensures Valid() && log == old(log) + [Call(old(backend.State()), env.now, r)]
      ensures (backend.State(), r) == Serve(config, old(backend.State()), Limit(user, cost, env.now))
      ensures r.Failed? || (r.Decision? && (r.limited ==> r.state.retryAfter > 0.0))
    {
      hide Serve;
      ghost var found := backend.State();
      r := LimiterLimit(backend, config, user, cost, env.now);
      log := log + [Call(found, env.now, r)];
    }

    /** `_wait`: sleep in chunks until the hint or the timeout has passed. */
    method Wait(timeout: real, retryAfter: real)
      requires timeout > 0.0
      modifies env
      ensures env.now >= old(env.now)
      ensures retryAfter <= 0.0 ==> env.now == old(env.now)
      ensures retryAfter > 0.0 ==> env.now - old(env.now) >= Max(0.2, Min(retryAfter, timeout))
      ensures env.exact && retryAfter > 0.0 ==> InSleeps(env.now - old(env.now), retryAfter, timeout)
    {
      if retryAfter <= 0.0 { return; }
      var startTime := env.now;
      ghost var n := 0;
      while true
        invariant env.now == startTime || 0.2 <= env.now - startTime < Min(retryAfter, timeout)
        invariant env.exact ==> env.now - startTime == Sleeps(n, WaitTime(retryAfter))
        decreases 5.0 * (Min(retryAfter, timeout) - (env.now - startTime))
      {
        var waitTime := WaitTime(retryAfter);
        OneMoreSleep(n, waitTime);
        env.Sleep(waitTime);
        n := n + 1;
        var elapsed := env.now - startTime;
        if elapsed >= retryAfter || elapsed >= timeout { break; }
      }
    }

    /** Wait, while others may use the store, and call the limiter again on what is then `found`. */
    method AskAgain(user: string, cost: nat, timeout: real, retryAfter: real) returns (r: Response,
        ghost found: S.Store)
      requires Valid() && timeout > 0.0 && retryAfter > 0.0
      modifies backend, env, this
      ensures Valid() && log == old(log) + [Call(found, env.now, r)]
      ensures env.now - old(env.now) >= Max(0.2, Min(retryAfter, timeout))
      ensures env.exact ==> InSleeps(env.now - old(env.now), retryAfter, timeout)
      ensures env.alone ==> found == old(backend.State())
      ensures (backend.State(), r) == Serve(config, found, Limit(user, cost, env.now))
      ensures r.Failed? || (r.Decision? && (r.limited ==> r.state.retryAfter > 0.0))
    {
      hide Serve, InSleeps, Max, Min, S.NoDup, S.Store.Valid;
      Wait(timeout, retryAfter);
      env.Others(backend);
      found := backend.State();
      r := Ask(user, cost);
    }

    /** `_do_limit`. Whoever else uses the store, the caller gets the answer of the limiter that ended their dialogue:
        the first that is no denial, asks for more than the timeout, or comes when the timeout has passed. There are at
        most `MaxCalls(timeout)` calls; with exact sleeps it blocks for less than twice the timeout and half a second;
        and alone on the store, a request that will fit is admitted at the first retry if the first hint is within the
        timeout (`RetryWillDo`). */
    method DoLimit(user: string, cost: nat, timeout: real, ghost cs: Configs, ghost room: Room, ghost m: Ideal.Memory)
      returns (r: Response, ghost calls: seq<Call>)
      requires Valid() && ValidTimeout(timeout)
      modifies backend, env, this
      ensures Valid() && log == old(log) + calls && calls != []
      ensures Transcript(config, user, cost, timeout, env.exact, env.alone, calls,
                         old(backend.State()), old(env.now), backend.State(), env.now, r)
      ensures Ends(calls, |calls| - 1, timeout)
      ensures timeout > 0.0 ==> |calls| <= MaxCalls(timeout)
      ensures timeout > 0.0 && env.exact ==> env.now - old(env.now) < 2.0 * timeout + 0.5
      ensures timeout > 0.0 && env.alone
        && RetryWillDo(cs, room, old(backend.State()), config, m, user, cost, old(env.now), timeout)
        ==> r.Admits() && |calls| <= 2
    {
      hide Serve, RetryWillDo, Asked, MaxCalls, Transcript, Ends, InSleeps, Max, Min, S.NoDup, S.Store.Valid;
      ghost var s0, t0 := backend.State(), env.now;
      ghost var lone := timeout > 0.0 && env.alone
        && RetryWillDo(cs, room, backend.State(), config, m, user, cost, env.now, timeout);
      if lone { LoneFirst(cs, room, backend.State(), config, m, user, cost, env.now, timeout); }
      CallsFit(1, timeout);
      TranscriptBegins(config, user, cost, timeout, env.exact, env.alone, s0, t0);
      r := Ask(user, cost);
      calls := [Call(s0, t0, r)];
      LastEnds(config, user, cost, timeout, env.exact, env.alone, calls, s0, t0, backend.State(), env.now, r);
      if timeout == NON_BLOCKING || r.Failed? || !r.limited { return; }

      var startTime := env.now;
      while true
        invariant Valid() && Denies(r) && r.state.retryAfter > 0.0
        invariant calls != [] && log == old(log) + calls && startTime == t0 <= env.now
        invariant Transcript(config, user, cost, timeout, env.exact, env.alone, calls, s0, t0, backend.State(),
                             env.now, r)
        invariant 0.2 * (|calls| - 1) as real <= env.now - startTime < timeout
        invariant lone ==> |calls| == 1 && r.state.retryAfter <= timeout
        invariant lone ==> Asked(cs, room, backend.State(), config, m, user, cost, startTime, r)
        decreases 5.0 * (timeout - (env.now - startTime))
      {
        CallsFit(|calls| + 1, timeout);
        LastEnds(config, user, cost, timeout, env.exact, env.alone, calls, s0, t0, backend.State(), env.now, r);
        if r.state.retryAfter > timeout { break; }
        ghost var s, now, a := backend.State(), env.now, r;
        ghost var found;
        r, found := AskAgain(user, cost, timeout, r.state.retryAfter);
        SleepsShort(env.now - now, a.state.retryAfter, timeout);
        if lone { LoneSecond(cs, room, found, config, m, user, cost, startTime, a, env.now); }
        TranscriptGrows(config, user, cost, timeout, env.exact, env.alone, calls, s0, t0, s, now, a, found, env.now);
        calls := calls + [Call(found, env.now, r)];
        LastEnds(config, user, cost, timeout, env.exact, env.alone, calls, s0, t0, backend.State(), env.now, r);
        if r.Failed? || !r.limited { break; }
        var elapsed := env.now - startTime;
        if elapsed >= timeout { break; }
      }
    }
  }
}
