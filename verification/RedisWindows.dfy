/** The fixed window on Redis: INCRBY and EXPIRE are two commands, and other clients come in between. */
module RedisFixedWindow {
  import opened Base

  /** The counter of one key: its value, and when it expires, if an EXPIRE has reached it. */
  datatype Counter = Counter(value: int, expiry: Option<real>)

  /** Where a client is in `RedisLimitAtomicAction.do`. */
  datatype Pc = Idle | Counted(cost: nat, current: int)

  datatype State = State(
    now: real,
    counter: Option<Counter>,
    clients: map<nat, Pc>,
    admitted: int)   // cost admitted since the counter was created: INCRBY's reply fixes the answer

  datatype Action =
    | IncrBy(client: nat, cost: nat)
    | Finish(client: nat)              // EXPIRE if this client made the count, then answer
    | Crash(client: nat)               // the client is gone before it could finish
    | Wait(seconds: real)              // time passes, and Redis drops an expired key

  predicate Admits(current: int, limit: int, cost: nat) { !(current > limit && cost != 0) }

  function Next(s: State, a: Action, period: int, limit: int): State {
    match a
    case IncrBy(c, cost) =>
      if c !in s.clients || !s.clients[c].Idle? then s else
      var current := (if s.counter.Some? then s.counter.value.value else 0) + cost;
      var expiry := if s.counter.Some? then s.counter.value.expiry else None;
      var before := if s.counter.Some? then s.admitted else 0;
      s.(counter := Some(Counter(current, expiry)), clients := s.clients[c := Counted(cost, current)],
         admitted := before + if Admits(current, limit, cost) then cost else 0)
    case Finish(c) =>
      if c !in s.clients || s.clients[c].Idle? then s else
      var Counted(cost, current) := s.clients[c];
      s.(clients := s.clients[c := Idle],
         counter := if current == cost && s.counter.Some?
                    then Some(s.counter.value.(expiry := Some(s.now + period as real))) else s.counter)
    case Crash(c) => s.(clients := s.clients - {c})
    case Wait(d) =>
      var later := s.now + Max(0.0, d);
      var gone := s.counter.Some? && s.counter.value.expiry.Some? && s.counter.value.expiry.value <= later;
      s.(now := later, counter := if gone then None else s.counter)
  }

  function Play(s: State, actions: seq<Action>, period: int, limit: int): State
    decreases |actions|
  {
    if actions == [] then s else Play(Next(s, actions[0], period, limit), actions[1..], period, limit)
  }

  ghost predicate Init(s: State) {
    s.counter.None? && AllIdle(s)
  }

  ghost predicate NoCrash(actions: seq<Action>) { forall i :: 0 <= i < |actions| ==> !actions[i].Crash? }

  ghost predicate AllIdle(s: State) { forall c :: c in s.clients ==> s.clients[c] == Idle }

  /** The counter is at least what was admitted, which is within the limit. */
  ghost predicate Safe(s: State, limit: int) {
    s.counter.Some? ==> 0 <= s.admitted <= s.counter.value.value && s.admitted <= limit
  }

  /** A counter without an expiry is owed one by the client that created it. */
  ghost predicate Owed(s: State) {
    s.counter.Some? && s.counter.value.expiry.None? ==>
      exists c :: c in s.clients && s.clients[c].Counted? && s.clients[c].current == s.clients[c].cost
  }

  lemma {:induction false} PlayIsSafe(s: State, actions: seq<Action>, period: int, limit: int)
    requires Safe(s, limit) && limit >= 1
    ensures Safe(Play(s, actions, period, limit), limit)
    decreases |actions|
  {
    if actions != [] {
      NextIsSafe(s, actions[0], period, limit);
      PlayIsSafe(Next(s, actions[0], period, limit), actions[1..], period, limit);
    }
  }

  lemma NextIsSafe(s: State, a: Action, period: int, limit: int)
    requires Safe(s, limit) && limit >= 1
    ensures Safe(Next(s, a, period, limit), limit)
  {
  }

  lemma NextOwes(s: State, a: Action, period: int, limit: int)
    requires Owed(s) && !a.Crash?
    ensures Owed(Next(s, a, period, limit))
  {
    var s' := Next(s, a, period, limit);
    if s'.counter.Some? && s'.counter.value.expiry.None? {
      if s.counter.Some? {
        var c :| c in s.clients && s.clients[c].Counted? && s.clients[c].current == s.clients[c].cost;
        assert c in s'.clients && s'.clients[c] == s.clients[c];
      } else {
        assert a.IncrBy? && s'.clients[a.client].current == s'.clients[a.client].cost;
      }
    }
  }

  lemma {:induction false} PlayOwes(s: State, actions: seq<Action>, period: int, limit: int)
    requires Owed(s) && NoCrash(actions)
    ensures Owed(Play(s, actions, period, limit))
    decreases |actions|
  {
    if actions != [] {
      NextOwes(s, actions[0], period, limit);
      PlayOwes(Next(s, actions[0], period, limit), actions[1..], period, limit);
    }
  }

  // ----- how long a counter lives

  /** How far a run moves the clock. */
  function Elapsed(actions: seq<Action>): real {
    if actions == [] then 0.0 else
    Elapsed(actions[..|actions| - 1]) +
      (if actions[|actions| - 1].Wait? then Max(0.0, actions[|actions| - 1].seconds) else 0.0)
  }

  /** The client has made the count it is about to answer for, so it sends EXPIRE. */
  predicate Arms(s: State, a: Action) {
    a.Finish? && a.client in s.clients && s.clients[a.client].Counted?
    && s.clients[a.client].cost == s.clients[a.client].current && s.counter.Some?
  }

  lemma {:induction false} PlayLast(s: State, actions: seq<Action>, period: int, limit: int)
    requires actions != []
    ensures var front := actions[..|actions| - 1];
      Play(s, actions, period, limit) == Next(Play(s, front, period, limit), actions[|actions| - 1], period, limit)
    decreases |actions|
  {
    if |actions| > 1 {
      PlayLast(Next(s, actions[0], period, limit), actions[1..], period, limit);
      assert actions[1..][..|actions| - 2] == actions[..|actions| - 1][1..];
    }
  }

  lemma {:induction false} PlayTime(s: State, actions: seq<Action>, period: int, limit: int)
    ensures Play(s, actions, period, limit).now == s.now + Elapsed(actions)
    ensures Elapsed(actions) >= 0.0
    decreases |actions|
  {
    if actions != [] {
      PlayLast(s, actions, period, limit);
      PlayTime(s, actions[..|actions| - 1], period, limit);
    }
  }

  /** The expiry is one period after the EXPIRE that the run's `i`-th action sent, and still to come. */
  ghost predicate ArmedBy(s: State, actions: seq<Action>, period: int, limit: int, i: nat, expiry: real) {
    && i < |actions| && Arms(Play(s, actions[..i], period, limit), actions[i])
    && expiry == s.now + Elapsed(actions[..i]) + period as real
    && s.now + Elapsed(actions) < expiry
  }

  /** Every expiry a run shows is some EXPIRE's time and a period, and has not come yet. */
  lemma {:induction false} ExpiryIsArmed(s: State, actions: seq<Action>, period: int, limit: int)
    requires s.counter.None? && period >= 1
    ensures var e := Play(s, actions, period, limit);
      e.counter.Some? && e.counter.value.expiry.Some? ==>
        exists i: nat :: ArmedBy(s, actions, period, limit, i, e.counter.value.expiry.value)
    decreases |actions|
  {
    if actions != [] {
      var n := |actions| - 1;
      var front := actions[..n];
      var (before, e) := (Play(s, front, period, limit), Play(s, actions, period, limit));
      PlayLast(s, actions, period, limit);
      PlayTime(s, actions, period, limit);
      PlayTime(s, front, period, limit);
      ExpiryIsArmed(s, front, period, limit);
      if e.counter.Some? && e.counter.value.expiry.Some? {
        var expiry := e.counter.value.expiry.value;
        if Arms(before, actions[n]) {
          assert ArmedBy(s, actions, period, limit, n, expiry);
        } else {
          var i: nat :| ArmedBy(s, front, period, limit, i, expiry);
          assert front[..i] == actions[..i];
          assert ArmedBy(s, actions, period, limit, i, expiry);
        }
      }
    }
  }

  /** What a run admits: the costs whose INCRBY replied within the limit, or that were free. */
  function Admitted(s: State, actions: seq<Action>, period: int, limit: int): nat
    decreases |actions|
  {
    if actions == [] then 0 else
    Replied(s, actions[0], limit) + Admitted(Next(s, actions[0], period, limit), actions[1..], period, limit)
  }

  /** The cost an action is admitted, by the reply it gets. */
  function Replied(s: State, a: Action, limit: int): nat {
    if a.IncrBy? && a.client in s.clients && s.clients[a.client].Idle?
       && (a.cost == 0 || a.cost + (if s.counter.Some? then s.counter.value.value else 0) <= limit)
    then a.cost else 0
  }

  /** The counter is there before each action of a run and after the last. */
  ghost predicate Lives(s: State, actions: seq<Action>, period: int, limit: int) {
    forall i :: 0 <= i <= |actions| ==> Play(s, actions[..i], period, limit).counter.Some?
  }

  lemma {:induction false} LifeAdmits(s: State, actions: seq<Action>, period: int, limit: int)
    requires Safe(s, limit) && limit >= 1 && Lives(s, actions, period, limit)
    ensures s.admitted + Admitted(s, actions, period, limit) == Play(s, actions, period, limit).admitted <= limit
    decreases |actions|
  {
    assert Play(s, actions[..0], period, limit).counter.Some?;
    if actions != [] {
      var s' := Next(s, actions[0], period, limit);
      NextIsSafe(s, actions[0], period, limit);
      LivesOn(s, actions, period, limit);
      LifeAdmits(s', actions[1..], period, limit);
    }
  }

  lemma LivesOn(s: State, actions: seq<Action>, period: int, limit: int)
    requires Lives(s, actions, period, limit) && actions != []
    ensures Lives(Next(s, actions[0], period, limit), actions[1..], period, limit)
    ensures Next(s, actions[0], period, limit).counter.Some?
  {
    var s' := Next(s, actions[0], period, limit);
    forall i | 0 <= i <= |actions[1..]| ensures Play(s', actions[1..][..i], period, limit).counter.Some? {
      assert actions[..i + 1][1..] == actions[1..][..i];
      assert Play(s, actions[..i + 1], period, limit).counter.Some?;
    }
    assert Play(s', actions[1..][..0], period, limit) == s';
  }

  /** No EXPIRE reaches it, or the one that does lets it live until `end`. */
  lemma {:induction false} Survives(s: State, actions: seq<Action>, period: int, limit: int)
    requires s.counter.Some? && Elapsed(actions) < period as real
    requires s.counter.value.expiry.Some? ==> s.now + Elapsed(actions) < s.counter.value.expiry.value
    ensures Lives(s, actions, period, limit)
  {
    forall i | 0 <= i <= |actions| ensures Play(s, actions[..i], period, limit).counter.Some? {
      SurvivesTo(s, actions, period, limit, i);
    }
  }

  lemma {:induction false} SurvivesTo(s: State, actions: seq<Action>, period: int, limit: int, i: nat)
    requires s.counter.Some? && Elapsed(actions) < period as real && i <= |actions|
    requires s.counter.value.expiry.Some? ==> s.now + Elapsed(actions) < s.counter.value.expiry.value
    ensures var e := Play(s, actions[..i], period, limit);
      && e.counter.Some? && (e.counter.value.expiry.Some? ==> s.now + Elapsed(actions) < e.counter.value.expiry.value)
  {
    if i > 0 {
      var front := actions[..i];
      SurvivesTo(s, actions, period, limit, i - 1);
      assert front[..i - 1] == actions[..i - 1];
      PlayLast(s, front, period, limit);
      PlayTime(s, actions[..i - 1], period, limit);
      PlayTime(s, front, period, limit);
      ElapsedGrows(actions, i);
    }
  }

  lemma {:induction false} ElapsedGrows(actions: seq<Action>, i: nat)
    requires i <= |actions|
    ensures Elapsed(actions[..i]) <= Elapsed(actions)
    decreases |actions|
  {
    if i < |actions| {
      var front := actions[..|actions| - 1];
      ElapsedGrows(front, i);
      assert front[..i] == actions[..i];
    } else {
      assert actions[..i] == actions;
    }
  }

  /** No action of the run sends EXPIRE to the counter. */
  ghost predicate NoneArms(s: State, actions: seq<Action>, period: int, limit: int) {
    forall i :: 0 <= i < |actions| ==> !Arms(Play(s, actions[..i], period, limit), actions[i])
  }

  /** The clients' EXPIREs apart, time ends every armed life. */
  lemma {:induction false} LifeEnds(s: State, actions: seq<Action>, period: int, limit: int)
    requires s.counter.Some? && s.counter.value.expiry.Some? && Lives(s, actions, period, limit)
    requires NoneArms(s, actions, period, limit)
    requires s.now < s.counter.value.expiry.value
    ensures s.now + Elapsed(actions) < s.counter.value.expiry.value
    ensures var e := Play(s, actions, period, limit);
      e.counter.Some? && e.counter.value.expiry == s.counter.value.expiry
    decreases |actions|
  {
    assert Play(s, actions[..|actions|], period, limit).counter.Some? && actions[..|actions|] == actions;
    if actions != [] {
      var n := |actions| - 1;
      var front := actions[..n];
      assert forall i :: 0 <= i <= n ==> front[..i] == actions[..i];
      LifeEnds(s, front, period, limit);
      PlayLast(s, actions, period, limit);
      PlayTime(s, actions, period, limit);
      PlayTime(s, front, period, limit);
    }
  }

  /** Main result: under every interleaving of any clients, crashes included, a counter's life admits at most the limit;
      while no client crashes, a counter that no client is working on has an expiry; and every expiry is one period
      after some client's EXPIRE, and still to come. */
  lemma EveryInterleavingIsSafe(s: State, actions: seq<Action>, period: int, limit: int)
    requires Init(s) && limit >= 1
    ensures var e := Play(s, actions, period, limit);
      && (e.counter.Some? ==> e.admitted <= limit)
      && (NoCrash(actions) && AllIdle(e) && e.counter.Some? ==> e.counter.value.expiry.Some?)
      && (period >= 1 && e.counter.Some? && e.counter.value.expiry.Some? ==>
            exists i: nat :: ArmedBy(s, actions, period, limit, i, e.counter.value.expiry.value))
  {
    PlayIsSafe(s, actions, period, limit);
    if NoCrash(actions) { PlayOwes(s, actions, period, limit); }
    if period >= 1 { ExpiryIsArmed(s, actions, period, limit); }
  }

  /** Main result: once a client's EXPIRE has reached a counter, the counter outlives whatever any clients do in less
      than a period from then, and all that is admitted by then, from the request that created it on, is at most the
      limit. If no EXPIRE follows, it is gone when the period is over. */
  lemma LifeIsAPeriod(s: State, life: seq<Action>, arm: Action, later: seq<Action>, period: int, limit: int)
    requires s.counter.None? && limit >= 1 && period >= 1 && life != [] && life[0].IncrBy?
    requires Lives(Next(s, life[0], period, limit), life[1..], period, limit)
    requires Arms(Play(s, life, period, limit), arm)
    ensures var armed := Next(Play(s, life, period, limit), arm, period, limit);
      && (Elapsed(later) < period as real ==>
            && Lives(armed, later, period, limit)
            && Admitted(s, life, period, limit) + Admitted(armed, later, period, limit) <= limit)
      && (Elapsed(later) >= period as real && NoneArms(armed, later, period, limit) ==>
            !Lives(armed, later, period, limit))
  {
    var first := Next(s, life[0], period, limit);
    assert Play(first, life[1..][..0], period, limit).counter.Some?;
    NextIsSafe(s, life[0], period, limit);
    LifeAdmits(first, life[1..], period, limit);
    var end := Play(s, life, period, limit);
    var armed := Next(end, arm, period, limit);
    PlayIsSafe(s, life, period, limit);
    if Elapsed(later) < period as real {
      Survives(armed, later, period, limit);
      LifeAdmits(armed, later, period, limit);
    } else if Lives(armed, later, period, limit) && NoneArms(armed, later, period, limit) {
      LifeEnds(armed, later, period, limit);
    }
  }

  /** A client that dies between the two commands leaves a counter that never expires. */
  lemma CrashLeavesImmortalCounter(s: State, period: int, limit: int, wait: real)
    requires Init(s) && 0 in s.clients && limit >= 1
    ensures var e := Play(s, [IncrBy(0, 1), Crash(0), Wait(wait)], period, limit);
      e.counter == Some(Counter(1, None))
  {
    var as_ := [IncrBy(0, 1), Crash(0), Wait(wait)];
    assert as_[1..] == [Crash(0), Wait(wait)] && as_[1..][1..] == [Wait(wait)] && as_[1..][1..][1..] == [];
    var s1 := Next(s, IncrBy(0, 1), period, limit);
    var s2 := Next(s1, Crash(0), period, limit);
    assert Play(s2, [Wait(wait)], period, limit) == Next(s2, Wait(wait), period, limit);
  }
}

/** The sliding window's Redis script: the same decision, but a denial writes nothing. */
module RedisSlidingWindow {
  import opened Base
  import opened Store
  import opened Limiters
  import Ideal
  import F = FixedWindow
  import SW = SlidingWindow
  import W = WindowRecency
  import WB = WindowBounds
  import opened SlidingShare

  /** The script on the two counters of a user; `limited`, `used`, `retry_after` as in memory. */
  function Script(m: Ideal.Memory, user: string, q: Quota, cost: nat, now: real): (Ideal.Memory, (bool, int, real))
    requires q.Valid()
  {
    var p := q.periodSec;
    var cur, w := F.CurrentKey(user, now, p), F.WindowIndex(now, p);
    var share := SW.PreviousProportion(Millis(now), p);
    var count := WB.Count(m, user, w);
    var d := SW.Decide(SW.Previous(WB.Count(m, user, w - 1), share), count, cost, share, p, q.limit);
    (if d.0 then m else m[cur := IntVal(count + cost)], d)
  }

  /** What the script keeps true: counters are within the limit, and with the share of the previous one too. */
  ghost predicate Inv(m: Ideal.Memory, user: string, q: Quota, now: real)
    requires q.Valid()
  {
    var p, w := q.periodSec, F.WindowIndex(now, q.periodSec);
    && WB.Counters(m, user)
    && (forall i {:trigger Window(user, i)} :: Window(user, i) in m ==> i <= w)
    && (forall i :: WB.Count(m, user, i) <= q.limit)
    && SW.Previous(WB.Count(m, user, w - 1), SW.PreviousProportion(Millis(now), p)) + WB.Count(m, user, w) <= q.limit
  }

  lemma EmptyInv(user: string, q: Quota, now: real)
    requires q.Valid()
    ensures Inv(map[], user, q, now)
  {
    assert SW.PreviousProportion(Millis(now), q.periodSec) * 0.0 == 0.0;
  }

  lemma InvWaits(m: Ideal.Memory, user: string, q: Quota, now: real, later: real)
    requires q.Valid() && Inv(m, user, q, now) && now <= later
    ensures Inv(m, user, q, later)
  {
    var p := q.periodSec;
    var w, v := F.WindowIndex(now, p), F.WindowIndex(later, p);
    W.WindowsAdvance(now, later, p);
    WB.SharePositive(later, p);
    var share := SW.PreviousProportion(Millis(later), p);
    var before := WB.Count(m, user, v - 1);
    if v == w {
      WB.ShareShrinks(now, later, p);
      WB.PreviousMonotone(before, before, share, SW.PreviousProportion(Millis(now), p));
    } else {
      WB.PreviousMonotone(before, before, share, 1.0);
      assert SW.Previous(before, 1.0) == before;
    }
    hide F.WindowIndex, SW.PreviousProportion, SW.Previous;
  }

  lemma ScriptKeepsInv(m: Ideal.Memory, user: string, q: Quota, cost: nat, now: real)
    requires q.Valid() && Inv(m, user, q, now)
    ensures Inv(Script(m, user, q, cost, now).0, user, q, now)
  {
    WB.SharePositive(now, q.periodSec);
    WB.ShareNotNegative(WB.Count(m, user, F.WindowIndex(now, q.periodSec) - 1),
                        SW.PreviousProportion(Millis(now), q.periodSec));
    hide F.WindowIndex, SW.PreviousProportion, SW.Previous, SW.RetryAfter;
    var m' := Script(m, user, q, cost, now).0;
    var w := F.WindowIndex(now, q.periodSec);
    forall i ensures WB.Count(m', user, i) <= q.limit {
      if i != w { assert WB.Count(m', user, i) == WB.Count(m, user, i); }
    }
  }

  /** The counters after the script has run for a user at such times with such costs. */
  function Scripts(m: Ideal.Memory, user: string, q: Quota, calls: seq<(nat, real)>): Ideal.Memory
    requires q.Valid()
    decreases |calls|
  {
    if calls == [] then m else Scripts(Script(m, user, q, calls[0].0, calls[0].1).0, user, q, calls[1..])
  }

  ghost predicate CallsInOrder(start: real, calls: seq<(nat, real)>, end: real)
    decreases |calls|
  {
    if calls == [] then start <= end else start <= calls[0].1 && CallsInOrder(calls[0].1, calls[1..], end)
  }

  /** From empty counters, any calls in clock order leave the invariant true at any later time. */
  lemma {:induction false} ScriptsKeepInv(m: Ideal.Memory, user: string, q: Quota, start: real, calls: seq<(nat, real)>,
                                          end: real)
    requires q.Valid() && (m == map[] || Inv(m, user, q, start)) && CallsInOrder(start, calls, end)
    ensures Inv(Scripts(m, user, q, calls), user, q, end)
    decreases |calls|
  {
    if m == map[] { EmptyInv(user, q, start); }
    hide Inv, Script;
    if calls == [] {
      InvWaits(m, user, q, start, end);
    } else {
      InvWaits(m, user, q, start, calls[0].1);
      ScriptKeepsInv(m, user, q, calls[0].0, calls[0].1);
      ScriptsKeepInv(Script(m, user, q, calls[0].0, calls[0].1).0, user, q, calls[0].1, calls[1..], end);
    }
  }

  // ----- the expiry of the script's counters

  /** Counters as Redis keeps them: a value, and when it expires. */
  type Expiring = map<Key, (int, real)>

  function Live(t: Expiring, key: Key, now: real): Option<int> {
    if key in t && now < t[key].1 then Some(t[key].0) else None
  }

  function CountOf(count: Option<int>): int { if count.Some? then count.value else 0 }

  /** The script with its `EX 3 * period`: the first admission of a window sets the expiry, later ones keep it. */
  function ExpiringScript(t: Expiring, user: string, q: Quota, cost: nat, now: real): (Expiring, (bool, int, real))
    requires q.Valid()
  {
    var p := q.periodSec;
    var cur, prev := F.CurrentKey(user, now, p), SW.PreviousKey(user, now, p);
    var share := SW.PreviousProportion(Millis(now), p);
    var current := Live(t, cur, now);
    var d := SW.Decide(SW.Previous(CountOf(Live(t, prev, now)), share), CountOf(current), cost, share, p, q.limit);
    (if d.0 then t
     else t[cur := if current.Some? then (current.value + cost, t[cur].1) else (cost, now + (3 * p) as real)], d)
  }

  /** Both hold the same counters, and none expires before its window is three windows old. */
  ghost predicate SameCounter(m: Ideal.Memory, t: Expiring, user: string, p: int, now: real, i: int)
    requires p >= 1
  {
    var k := Window(user, i);
    && (k in m <==> k in t)
    && (k in m ==> m[k] == IntVal(t[k].0) && i <= F.WindowIndex(now, p) && i + 3 <= F.WindowIndex(t[k].1, p))
  }

  ghost predicate SameCounters(m: Ideal.Memory, t: Expiring, user: string, p: int, now: real)
    requires p >= 1
  {
    forall i :: SameCounter(m, t, user, p, now, i)
  }

  lemma LiveIsCount(m: Ideal.Memory, t: Expiring, user: string, p: int, now: real, i: int)
    requires p >= 1 && SameCounter(m, t, user, p, now, i) && i >= F.WindowIndex(now, p) - 1
    ensures CountOf(Live(t, Window(user, i), now)) == WB.Count(m, user, i)
    ensures Live(t, Window(user, i), now).Some? <==> Window(user, i) in m
  {
    var k := Window(user, i);
    if k in t && t[k].1 <= now { W.WindowsAdvance(t[k].1, now, p); }
  }

  lemma ExpiryStep(m: Ideal.Memory, t: Expiring, user: string, q: Quota, cost: nat, now: real, later: real)
    requires q.Valid() && SameCounters(m, t, user, q.periodSec, now) && now <= later
    ensures var ((m', d), (t', e)) := (Script(m, user, q, cost, later), ExpiringScript(t, user, q, cost, later));
      d == e && SameCounters(m', t', user, q.periodSec, later)
  {
    hide SW.Decide, SW.PreviousProportion, SW.Previous, F.WindowIndex, Live;
    var p := q.periodSec;
    var w := F.WindowIndex(later, p);
    InOrder(now, later, p);
    W.PeriodsOn(later, 3, p);
    forall i ensures SameCounter(m, t, user, p, later, i) { assert SameCounter(m, t, user, p, now, i); }
    LiveIsCount(m, t, user, p, later, w);
    LiveIsCount(m, t, user, p, later, w - 1);
    var (m', t') := (Script(m, user, q, cost, later).0, ExpiringScript(t, user, q, cost, later).0);
    forall i ensures SameCounter(m', t', user, p, later, i) {
      assert SameCounter(m, t, user, p, later, i) && SameCounter(m, t, user, p, later, w);
    }
  }

  /** What the script answers to such calls, with and without expiry. */
  function Answers(m: Ideal.Memory, user: string, q: Quota, calls: seq<(nat, real)>): (r: seq<(bool, int, real)>)
    requires q.Valid()
    ensures |r| == |calls|
    decreases |calls|
  {
    if calls == [] then [] else
    var (m', d) := Script(m, user, q, calls[0].0, calls[0].1);
    [d] + Answers(m', user, q, calls[1..])
  }

  function ExpiringAnswers(t: Expiring, user: string, q: Quota, calls: seq<(nat, real)>): (r: seq<(bool, int, real)>)
    requires q.Valid()
    ensures |r| == |calls|
    decreases |calls|
  {
    if calls == [] then [] else
    var (t', d) := ExpiringScript(t, user, q, calls[0].0, calls[0].1);
    [d] + ExpiringAnswers(t', user, q, calls[1..])
  }

  /** Main result: the expiry of three periods never shows in an answer of the script. */
  lemma {:induction false} ExpiryNeverShows(m: Ideal.Memory, t: Expiring, user: string, q: Quota,
                                            start: real, calls: seq<(nat, real)>, end: real)
    requires q.Valid() && SameCounters(m, t, user, q.periodSec, start) && CallsInOrder(start, calls, end)
    ensures ExpiringAnswers(t, user, q, calls) == Answers(m, user, q, calls)
    decreases |calls|
  {
    if calls != [] {
      ExpiryStep(m, t, user, q, calls[0].0, start, calls[0].1);
      hide Script, ExpiringScript, SameCounters;
      var (cost, now) := calls[0];
      var (m', t') := (Script(m, user, q, cost, now).0, ExpiringScript(t, user, q, cost, now).0);
      ExpiryNeverShows(m', t', user, q, calls[0].1, calls[1..], end);
    }
  }

  /** The counters after such calls. */
  function ExpiringScripts(t: Expiring, user: string, q: Quota, calls: seq<(nat, real)>): Expiring
    requires q.Valid()
    decreases |calls|
  {
    if calls == [] then t
    else ExpiringScripts(ExpiringScript(t, user, q, calls[0].0, calls[0].1).0, user, q, calls[1..])
  }

  /** When the first call was admitted in window `i`, by the answers. */
  function FirstAdmission(calls: seq<(nat, real)>, answers: seq<(bool, int, real)>, p: int, i: int): Option<real>
    requires |answers| == |calls| && p >= 1
    decreases |calls|
  {
    if calls == [] then None
    else if !answers[0].0 && F.WindowIndex(calls[0].1, p) == i then Some(calls[0].1)
    else FirstAdmission(calls[1..], answers[1..], p, i)
  }

  lemma ExpiryKept(m: Ideal.Memory, t: Expiring, user: string, q: Quota, cost: nat, now: real, later: real, i: int)
    requires q.Valid() && SameCounters(m, t, user, q.periodSec, now) && now <= later
    ensures var (t', d) := ExpiringScript(t, user, q, cost, later);
      var (k, first) := (Window(user, i), !d.0 && F.WindowIndex(later, q.periodSec) == i);
      && (k in t ==> k in t' && t'[k].1 == t[k].1)
      && (k !in t ==> (k in t' <==> first) && (first ==> t'[k].1 == later + (3 * q.periodSec) as real))
  {
    hide SW.Decide, SW.PreviousProportion, SW.Previous, F.WindowIndex, Live;
    var p := q.periodSec;
    var w := F.WindowIndex(later, p);
    InOrder(now, later, p);
    assert SameCounter(m, t, user, p, now, w);
    LiveIsCount(m, t, user, p, later, w);
  }

  /** The expiry is three periods after the window's first admission, whatever is admitted later. */
  lemma {:induction false} ExpiryFromFirst(m: Ideal.Memory, t: Expiring, user: string, q: Quota, start: real,
                                           calls: seq<(nat, real)>, end: real, i: int)
    requires q.Valid() && SameCounters(m, t, user, q.periodSec, start) && CallsInOrder(start, calls, end)
    ensures var (k, f) := (Window(user, i), ExpiringScripts(t, user, q, calls));
      var first := FirstAdmission(calls, ExpiringAnswers(t, user, q, calls), q.periodSec, i);
      if k in t then k in f && f[k].1 == t[k].1
      else (k in f <==> first.Some?) && (first.Some? ==> f[k].1 == first.value + (3 * q.periodSec) as real)
    decreases |calls|
  {
    if calls != [] {
      var (cost, now) := calls[0];
      ExpiryStep(m, t, user, q, cost, start, now);
      ExpiryKept(m, t, user, q, cost, start, now, i);
      hide Script, ExpiringScript, SameCounters, F.WindowIndex;
      var (m', t') := (Script(m, user, q, cost, now).0, ExpiringScript(t, user, q, cost, now).0);
      ExpiryFromFirst(m', t', user, q, now, calls[1..], end, i);
      assert ExpiringAnswers(t, user, q, calls)[1..] == ExpiringAnswers(t', user, q, calls[1..]);
    }
  }

  // ----- the counters are what was admitted

  /** The cost admitted in window `i`, by the answers. */
  function AdmittedIn(calls: seq<(nat, real)>, answers: seq<(bool, int, real)>, p: int, i: int): nat
    requires |answers| == |calls| && p >= 1
  {
    if calls == [] then 0 else
    AdmittedIn(calls[1..], answers[1..], p, i) +
      if !answers[0].0 && F.WindowIndex(calls[0].1, p) == i then calls[0].0 else 0
  }

  /** A window's counter gains what the script admits in the window, and nothing else. */
  lemma {:induction false} CountIsAdmitted(m: Ideal.Memory, user: string, q: Quota, calls: seq<(nat, real)>, i: int)
    requires q.Valid()
    ensures WB.Count(Scripts(m, user, q, calls), user, i) ==
      WB.Count(m, user, i) + AdmittedIn(calls, Answers(m, user, q, calls), q.periodSec, i)
    decreases |calls|
  {
    if calls != [] {
      var (cost, now) := calls[0];
      var m' := Script(m, user, q, cost, now).0;
      hide F.WindowIndex, SW.PreviousProportion, SW.Previous, SW.RetryAfter;
      CountIsAdmitted(m', user, q, calls[1..], i);
      assert Answers(m, user, q, calls)[1..] == Answers(m', user, q, calls[1..]);
    }
  }

  lemma {:induction false} AnswersThenOne(m: Ideal.Memory, user: string, q: Quota, calls: seq<(nat, real)>,
                                          call: (nat, real))
    requires q.Valid()
    ensures Answers(m, user, q, calls + [call]) ==
      Answers(m, user, q, calls) + [Script(Scripts(m, user, q, calls), user, q, call.0, call.1).1]
    decreases |calls|
  {
    hide Script;
    if calls == [] {
      assert [] + [call] == [call] && [call][1..] == [];
    } else {
      assert (calls + [call])[1..] == calls[1..] + [call];
      AnswersThenOne(Script(m, user, q, calls[0].0, calls[0].1).0, user, q, calls[1..], call);
    }
  }

  lemma {:induction false} OrderedBefore(start: real, calls: seq<(nat, real)>, call: (nat, real))
    requires CallsInOrder(start, calls + [call], call.1)
    ensures CallsInOrder(start, calls, call.1)
    decreases |calls|
  {
    if calls == [] {
      assert ([] + [call])[0] == call;
    } else {
      assert (calls + [call])[1..] == calls[1..] + [call];
      OrderedBefore(calls[0].1, calls[1..], call);
    }
  }

  /** Main result: from no counters on, expiry included, the script admits a call exactly when it fits the limit with
      what it has admitted in the window and the floored share of what it admitted in the one before, or it is free; and
      what it has admitted fits the limit, alone and with that share, at every time. */
  lemma ScriptAdmitsExactly(user: string, q: Quota, start: real, calls: seq<(nat, real)>, cost: nat, now: real, i: int)
    requires q.Valid() && CallsInOrder(start, calls + [(cost, now)], now)
    ensures var answers := ExpiringAnswers(map[], user, q, calls + [(cost, now)]);
      var (p, w, before) := (q.periodSec, F.WindowIndex(now, q.periodSec), answers[..|calls|]);
      var charged := SW.Previous(AdmittedIn(calls, before, p, w - 1), SW.PreviousProportion(Millis(now), p))
                     + AdmittedIn(calls, before, p, w);
      && charged <= q.limit && AdmittedIn(calls, before, p, i) <= q.limit
      && (!answers[|calls|].0 <==> cost == 0 || charged + cost <= q.limit)
  {
    var call: (nat, real) := (cost, now);
    var none: Ideal.Memory := map[];
    EmptySame(user, q.periodSec, start);
    ExpiryNeverShows(none, map[], user, q, start, calls + [call], now);
    AnswersThenOne(none, user, q, calls, call);
    OrderedBefore(start, calls, call);
    ScriptsKeepInv(none, user, q, start, calls, now);
    var m, w := Scripts(none, user, q, calls), F.WindowIndex(now, q.periodSec);
    CountIsAdmitted(none, user, q, calls, w);
    CountIsAdmitted(none, user, q, calls, w - 1);
    CountIsAdmitted(none, user, q, calls, i);
    assert ExpiringAnswers(map[], user, q, calls + [call])[..|calls|] == Answers(none, user, q, calls);
    hide Scripts, Answers, ExpiringAnswers, AdmittedIn, F.WindowIndex, SW.PreviousProportion, SW.Previous, CallsInOrder;
  }

  lemma EmptySame(user: string, p: int, now: real)
    requires p >= 1
    ensures SameCounters(map[], map[], user, p, now)
  {
  }

  // ----- the hint in real time

  /** Asked at any time from `start` on, the script admits. */
  ghost predicate AdmitsFrom(m: Ideal.Memory, user: string, q: Quota, cost: nat, start: real)
    requires q.Valid()
  {
    forall t :: start <= t ==> !Script(m, user, q, cost, t).1.0
  }

  lemma ScriptFits(m: Ideal.Memory, user: string, q: Quota, cost: nat, t: real)
    requires q.Valid()
    ensures var d := Script(m, user, q, cost, t).1;
      && (d.0 <==> cost > 0 && !FitsAt(m, user, q, cost, t))
      && (d.0 ==> d.2 == SW.RetryAfter(Weighted(m, user, q.periodSec, t), ShareNow(t, q.periodSec), q.periodSec, cost))
  {
    hide SW.RetryAfter, SW.PreviousProportion, SW.Previous, F.WindowIndex;
  }

  lemma AdmitsIsFits(m: Ideal.Memory, user: string, q: Quota, cost: nat, start: real)
    requires q.Valid() && cost > 0
    ensures AdmitsFrom(m, user, q, cost, start) <==> FitsFrom(m, user, q, cost, start)
  {
    hide Script, FitsAt;
    forall t ensures Script(m, user, q, cost, t).1.0 <==> !FitsAt(m, user, q, cost, t) {
      ScriptFits(m, user, q, cost, t);
    }
  }

  /** The share is positive, and a denial's hint is a part of it. */
  lemma HintIsPart(m: Ideal.Memory, user: string, p: int, cost: nat, now: real)
    requires p >= 1 && UpTo(m, user, p, now) && cost > 0
    ensures var (share, previous) := (ShareNow(now, p), Weighted(m, user, p, now));
      && share == ShareAt(Into(now, p), p) && 0.0 <= Part(share, cost, previous) <= share
      && SW.RetryAfter(previous, share, p, cost) == Part(share, cost, previous) * p as real >= 0.0
  {
    hide *;
    NowIs(m, user, p, now);
    RetryIsPart(Weighted(m, user, p, now), ShareNow(now, p), p, cost);
    MulMonotone(0.0, Part(ShareNow(now, p), cost, Weighted(m, user, p, now)), p as real);
  }

  /** Main result: on an undisturbed key, waiting at least as long as a denial's hint admits the request, if and only if
      what is due when the hint ends is within the limit, counted with the ticks the clock then shows. */
  lemma HintSufficesIffDue(m: Ideal.Memory, user: string, q: Quota, cost: nat, now: real)
    requires q.Valid() && UpTo(m, user, q.periodSec, now) && Script(m, user, q, cost, now).1.0
    ensures var wait := Script(m, user, q, cost, now).1.2;
      AdmitsFrom(m, user, q, cost, now + wait) <==> DueAtHint(m, user, q.periodSec, cost, now, wait) <= q.limit
  {
    hide *;
    var p, wait := q.periodSec, Script(m, user, q, cost, now).1.2;
    QuotaPeriod(q);
    ScriptFits(m, user, q, cost, now);
    HintIsPart(m, user, p, cost, now);
    FitsFromHint(m, user, q, cost, now, Part(ShareNow(now, p), cost, Weighted(m, user, p, now)), wait);
    AdmitsIsFits(m, user, q, cost, now + wait);
  }

  lemma QuotaPeriod(q: Quota)
    requires q.Valid()
    ensures q.periodSec >= 1
  {
  }

  lemma InvMeans(m: Ideal.Memory, user: string, q: Quota, now: real)
    requires q.Valid() && Inv(m, user, q, now)
    ensures q.periodSec >= 1 && UpTo(m, user, q.periodSec, now) && FitsAt(m, user, q, 0, now)
  {
    hide F.WindowIndex, SW.PreviousProportion, SW.Previous;
  }

  /** On counters the script keeps, a cost within the weighted previous count is admitted once the millisecond clock
      shows the whole hint gone by. */
  lemma HintSuffices(m: Ideal.Memory, user: string, q: Quota, cost: nat, now: real, t: real)
    requires q.Valid() && Inv(m, user, q, now) && now <= t && 0 < cost <= Weighted(m, user, q.periodSec, now)
    requires var (_, d) := Script(m, user, q, cost, now); d.0 && HintPassed(now, t, d.2)
    ensures !Script(m, user, q, cost, t).1.0
  {
    hide *;
    InvMeans(m, user, q, now);
    ScriptFits(m, user, q, cost, now);
    ScriptFits(m, user, q, cost, t);
    FitsOncePassed(m, user, q, cost, now, t);
  }

  /** So waiting the hint itself suffices when it is whole milliseconds, and one millisecond more always does. */
  lemma WholeOrLateHintSuffices(m: Ideal.Memory, user: string, q: Quota, cost: nat, now: real)
    requires q.Valid() && Inv(m, user, q, now) && 0 < cost <= Weighted(m, user, q.periodSec, now)
    requires Script(m, user, q, cost, now).1.0
    ensures var wait := Script(m, user, q, cost, now).1.2;
      && (Whole(wait) ==> AdmitsFrom(m, user, q, cost, now + wait))
      && AdmitsFrom(m, user, q, cost, now + wait + 0.001)
  {
    var wait := Script(m, user, q, cost, now).1.2;
    ScriptFits(m, user, q, cost, now);
    InvMeans(m, user, q, now);
    HintIsPart(m, user, q.periodSec, cost, now);
    hide Script, Inv, Weighted, SW.RetryAfter, FitsAt, UpTo;
    forall t | (now + wait <= t && Whole(wait)) || now + wait + 0.001 <= t ensures !Script(m, user, q, cost, t).1.0 {
      ClockShows(now, t, wait);
      HintSuffices(m, user, q, cost, now, t);
    }
  }

  /** The floored clock shows a wait of whole milliseconds at its end, and any wait one millisecond later. */
  lemma ClockShows(now: real, t: real, wait: real)
    requires (now + wait <= t && Whole(wait)) || now + wait + 0.001 <= t
    ensures HintPassed(now, t, wait)
  {
    if now + wait <= t && Whole(wait) {
      WholeTicks(now, wait);
      FloorMonotone((now + wait) * 1000.0, t * 1000.0);
    }
  }

  /** Otherwise the hint itself can fall short: 2000 admitted in the first of one-second windows and 200 early in the
      second; a request of 201, within the weighted 1800, is told to wait 100.5 ms, of which the clock shows 100. */
  lemma HintFallsShort(user: string)
    ensures var q := Quota(2000, 1, 2000);
      var m := Scripts(map[], user, q, [(2000, 0.0), (200, 1.1)]);
      var d := Script(m, user, q, 201, 1.1).1;
      && Inv(m, user, q, 1.1) && 201 <= Weighted(m, user, 1, 1.1)
      && d.0 && d.2 == 0.1005 && Script(m, user, q, 201, 1.1 + d.2).1.0
  {
    var q := Quota(2000, 1, 2000);
    var calls: seq<(nat, real)> := [(2000, 0.0), (200, 1.1)];
    var none: Ideal.Memory := map[];
    assert Seconds(0.0) == 0 && Millis(0.0) == 0 && Seconds(1.1) == 1 && Millis(1.1) == 1100;
    assert Seconds(1.2005) == 1 && Millis(1.2005) == 1200;
    assert SW.PreviousProportion(0, 1) == 1.0;
    assert SW.PreviousProportion(1100, 1) == 0.9 && SW.PreviousProportion(1200, 1) == 0.8;
    assert SW.Previous(0, 1.0) == 0 && SW.Previous(2000, 0.9) == 1800 && SW.Previous(2000, 0.8) == 1600;
    assert SW.RetryAfter(1800, 0.9, 1, 201) == 0.1005;
    assert calls[1..] == [(200, 1.1)] && |calls[1..][1..]| == 0;
    assert CallsInOrder(0.0, calls, 1.1) by { assert CallsInOrder(1.1, calls[1..], 1.1) && CallsInOrder(1.1, [], 1.1); }
    ScriptsKeepInv(none, user, q, 0.0, calls, 1.1);
    hide SW.PreviousProportion, SW.Previous, Millis, Seconds, SW.RetryAfter, Inv;
    var m1 := Script(none, user, q, 2000, 0.0).0;
    var m2 := Script(m1, user, q, 200, 1.1).0;
    assert m1 == map[Window(user, 0) := IntVal(2000)];
    assert m2 == map[Window(user, 0) := IntVal(2000), Window(user, 1) := IntVal(200)];
    assert Scripts(m1, user, q, calls[1..]) == Scripts(m2, user, q, []) == m2;
    assert Scripts(none, user, q, calls) == m2;
  }
}
