/** `BaseThrottled.limiter`: double-checked locking around the construction of the one limiter. */
module LazyLimiter {
  import opened Base

  /** Where a thread is inside the property. Limiters are numbered as they are constructed. */
  datatype Pc =
    | Outside
    | WaitingForLock          // the unlocked read found nothing
    | Rechecking              // lock held
    | Constructing            // lock held, the second read found nothing
    | Publishing(made: nat)   // lock held, constructed but not yet assigned
    | Leaving(out: Option<nat>) // lock held, about to return a limiter or (None) to raise

  /** A call that is over: what its thread was given, or None if it got an exception. */
  datatype Call = Call(thread: nat, out: Option<nat>)

  datatype State = State(
    limiter: Option<nat>,     // the field `_limiter`
    lock: Option<nat>,        // the thread holding `_lock`
    pcs: map<nat, Pc>,
    made: nat,                // successful constructions so far
    published: seq<nat>,      // every value ever assigned to the field
    calls: seq<Call>)         // every call that is over, oldest first

  /** Any number of threads, none of them inside. */
  ghost predicate Init(s: State) {
    && s.limiter.None? && s.lock.None? && s.made == 0 && s.published == [] && s.calls == []
    && forall t :: t in s.pcs ==> s.pcs[t] == Outside
  }

  /** One atomic step of thread `t`; `raises` says whether a constructor that finishes now fails. A blocked thread stays
      put. */
  function Step(s: State, t: nat, raises: bool): (r: State)
    requires t in s.pcs
    ensures r.pcs.Keys == s.pcs.Keys
  {
    match s.pcs[t]
    case Outside =>
      if s.limiter.Some? then s.(calls := s.calls + [Call(t, s.limiter)])
      else s.(pcs := s.pcs[t := WaitingForLock])
    case WaitingForLock =>
      if s.lock.None? then s.(lock := Some(t), pcs := s.pcs[t := Rechecking]) else s
    case Rechecking =>
      s.(pcs := s.pcs[t := if s.limiter.Some? then Leaving(s.limiter) else Constructing])
    case Constructing =>
      if raises then s.(pcs := s.pcs[t := Leaving(None)])
      else s.(made := s.made + 1, pcs := s.pcs[t := Publishing(s.made)])
    case Publishing(n) =>
      s.(limiter := Some(n), published := s.published + [n], pcs := s.pcs[t := Leaving(Some(n))])
    case Leaving(out) =>
      s.(lock := None, calls := s.calls + [Call(t, out)], pcs := s.pcs[t := Outside])
  }

  /** A schedule: which thread moves next, and whether its constructor fails. */
  predicate ThreadsKnown(s: State, schedule: seq<(nat, bool)>) {
    forall i :: 0 <= i < |schedule| ==> schedule[i].0 in s.pcs
  }

  lemma Tail(s: State, schedule: seq<(nat, bool)>)
    requires ThreadsKnown(s, schedule) && schedule != []
    ensures ThreadsKnown(Step(s, schedule[0].0, schedule[0].1), schedule[1..])
  {
  }

  function Play(s: State, schedule: seq<(nat, bool)>): (r: State)
    requires ThreadsKnown(s, schedule)
    ensures r.pcs.Keys == s.pcs.Keys
    decreases |schedule|
  {
    if schedule == [] then s else
    Tail(s, schedule);
    Play(Step(s, schedule[0].0, schedule[0].1), schedule[1..])
  }

  ghost predicate Inside(p: Pc) { !p.Outside? && !p.WaitingForLock? }

  /** Only the lock's holder is inside; what it made is unpublished exactly between construction and assignment. */
  ghost predicate Inv(s: State) {
    && (forall t :: t in s.pcs && Inside(s.pcs[t]) ==> s.lock == Some(t))
    && (s.lock.Some? ==> s.lock.value in s.pcs && Inside(s.pcs[s.lock.value]))
    && s.published == (if s.limiter.Some? then [s.limiter.value] else [])
    && (forall c :: c in s.calls ==> c.out.None? || c.out == s.limiter)
    && (s.limiter.Some? ==> s.made == 1 && s.limiter.value == 0)
    && (forall t :: t in s.pcs ==> HolderInv(s, s.pcs[t]))
    && (s.made > 0 && s.limiter.None? ==> s.lock.Some? && s.pcs[s.lock.value].Publishing?)
  }

  ghost predicate HolderInv(s: State, p: Pc) {
    match p
    case Constructing => s.limiter.None? && s.made == 0
    case Publishing(n) => s.limiter.None? && s.made == 1 && n == 0
    case Leaving(out) => out == s.limiter
    case _ => true
  }

  lemma StepKeepsInv(s: State, t: nat, raises: bool)
    requires Inv(s) && t in s.pcs
    ensures Inv(Step(s, t, raises))
  {
    var s' := Step(s, t, raises);
    forall u | u in s'.pcs ensures HolderInv(s', s'.pcs[u]) {
      assert HolderInv(s, s.pcs[u]) && HolderInv(s, s.pcs[t]);
    }
  }

  /** The invariant holds after every schedule of any threads. */
  lemma {:induction false} PlayKeepsInv(s: State, schedule: seq<(nat, bool)>)
    requires Inv(s) && ThreadsKnown(s, schedule)
    ensures Inv(Play(s, schedule))
    decreases |schedule|
  {
    if schedule != [] {
      StepKeepsInv(s, schedule[0].0, schedule[0].1);
      Tail(s, schedule);
      PlayKeepsInv(Step(s, schedule[0].0, schedule[0].1), schedule[1..]);
    }
  }

  // ----- what the callers get

  /** The calls of a thread that are over. */
  function Of(calls: seq<Call>, t: nat): seq<Call> {
    if calls == [] then [] else
    var rest, last := Of(calls[..|calls| - 1], t), calls[|calls| - 1];
    if last.thread == t then rest + [last] else rest
  }

  /** How many of them got an exception. */
  function Raised(calls: seq<Call>): nat {
    if calls == [] then 0 else Raised(calls[..|calls| - 1]) + if calls[|calls| - 1].out.None? then 1 else 0
  }

  /** How often a thread's steps have taken it out of the property, or straight through it. */
  function Completions(s: State, schedule: seq<(nat, bool)>, t: nat): nat
    requires ThreadsKnown(s, schedule)
    decreases |schedule|
  {
    if schedule == [] then 0 else
    var s' := Step(s, schedule[0].0, schedule[0].1);
    Tail(s, schedule);
    Completions(s', schedule[1..], t) + if schedule[0].0 == t && s'.pcs[t].Outside? then 1 else 0
  }

  /** How often a thread's own constructor has failed. */
  function Failures(s: State, schedule: seq<(nat, bool)>, t: nat): nat
    requires ThreadsKnown(s, schedule)
    decreases |schedule|
  {
    if schedule == [] then 0 else
    Tail(s, schedule);
    Failures(Step(s, schedule[0].0, schedule[0].1), schedule[1..], t) +
      if schedule[0] == (t, true) && s.pcs[t].Constructing? then 1 else 0
  }

  /** The exception a thread is carrying out. */
  function Pending(s: State, t: nat): nat {
    if t in s.pcs && s.pcs[t] == Leaving(None) then 1 else 0
  }

  lemma StepRecords(s: State, t: nat, raises: bool, u: nat)
    requires Inv(s) && t in s.pcs && u in s.pcs
    ensures var s' := Step(s, t, raises);
      && |Of(s'.calls, u)| == |Of(s.calls, u)| + (if t == u && s'.pcs[u].Outside? then 1 else 0)
      && Raised(Of(s'.calls, u)) + Pending(s', u) ==
         Raised(Of(s.calls, u)) + Pending(s, u) + (if t == u && raises && s.pcs[u].Constructing? then 1 else 0)
  {
    hide Of, Raised;
    assert HolderInv(s, s.pcs[t]);
    match s.pcs[t]
    case Outside => hide Inv; RecordOne(s.calls, Call(t, s.limiter), u);
    case Leaving(out) => hide Inv; RecordOne(s.calls, Call(t, out), u);
    case _ => hide Inv;
  }

  lemma RecordOne(calls: seq<Call>, c: Call, u: nat)
    ensures var mine := Of(calls, u);
      && Of(calls + [c], u) == (if c.thread == u then mine + [c] else mine)
      && Raised(mine + [c]) == Raised(mine) + (if c.out.None? then 1 else 0)
  {
    assert (calls + [c])[..|calls|] == calls && (Of(calls, u) + [c])[..|Of(calls, u)|] == Of(calls, u);
  }

  /** From any reachable state on: a thread's calls are over as often as it has left the property, and those that raised
      are its own constructor's failures. */
  lemma {:induction false} CallsAreCompletions(s: State, schedule: seq<(nat, bool)>, t: nat)
    requires Inv(s) && ThreadsKnown(s, schedule) && t in s.pcs
    ensures var e := Play(s, schedule);
      && |Of(e.calls, t)| == |Of(s.calls, t)| + Completions(s, schedule, t)
      && Raised(Of(e.calls, t)) + Pending(e, t) == Raised(Of(s.calls, t)) + Pending(s, t) + Failures(s, schedule, t)
    decreases |schedule|
  {
    if schedule != [] {
      StepRecords(s, schedule[0].0, schedule[0].1, t);
      StepKeepsInv(s, schedule[0].0, schedule[0].1);
      Tail(s, schedule);
      hide Step, Inv, Of, Raised;
      CallsAreCompletions(Step(s, schedule[0].0, schedule[0].1), schedule[1..], t);
    }
  }

  /** Once the limiter is there it stays, and every call that is over from then on was given it. */
  lemma {:induction false} PublishedReachesAll(s: State, schedule: seq<(nat, bool)>)
    requires Inv(s) && s.limiter.Some? && ThreadsKnown(s, schedule)
    ensures var e := Play(s, schedule);
      && e.limiter == s.limiter && |e.calls| >= |s.calls| && e.calls[..|s.calls|] == s.calls
      && forall i :: |s.calls| <= i < |e.calls| ==> e.calls[i].out == s.limiter
    decreases |schedule|
  {
    hide Step, Inv;
    if schedule != [] {
      var (t, raises) := schedule[0];
      Tail(s, schedule);
      StepKeepsInv(s, t, raises);
      StepAfterPublication(s, t, raises);
      PublishedReachesAll(Step(s, t, raises), schedule[1..]);
    }
  }

  lemma StepAfterPublication(s: State, t: nat, raises: bool)
    requires Inv(s) && s.limiter.Some? && t in s.pcs
    ensures var s' := Step(s, t, raises);
      s'.limiter == s.limiter && (s'.calls == s.calls || s'.calls == s.calls + [Call(t, s.limiter)])
  {
    assert HolderInv(s, s.pcs[t]);
    hide Inv;
  }

  /** Main result: under every interleaving, with constructors that may fail, at most one limiter is ever constructed or
      assigned; every call that is over was given that one, unless its thread's own constructor failed, and is given it
      for sure if it is over after the assignment; and from then on a call takes one step, lock or no lock. */
  lemma OneLimiter(s: State, schedule: seq<(nat, bool)>, later: seq<(nat, bool)>)
    requires Init(s) && ThreadsKnown(s, schedule) && ThreadsKnown(s, later)
    ensures var e := Play(s, schedule);
      && e.made <= 1 && |e.published| <= 1
      && (forall c :: c in e.calls ==> c.out.None? || c.out == e.limiter)
      && (forall t :: t in s.pcs ==>
            && |Of(e.calls, t)| == Completions(s, schedule, t)
            && Raised(Of(e.calls, t)) + Pending(e, t) == Failures(s, schedule, t))
      && (e.limiter.Some? ==>
            var f := Play(e, later);
            && f.limiter == e.limiter && |f.calls| >= |e.calls| && f.calls[..|e.calls|] == e.calls
            && (forall i :: |e.calls| <= i < |f.calls| ==> f.calls[i].out == e.limiter)
            && forall t, raises :: t in f.pcs && f.pcs[t].Outside? ==>
                 Step(f, t, raises) == f.(calls := f.calls + [Call(t, e.limiter)]))
  {
    PlayKeepsInv(s, schedule);
    var e := Play(s, schedule);
    forall t | t in s.pcs
      ensures |Of(e.calls, t)| == Completions(s, schedule, t)
      ensures Raised(Of(e.calls, t)) + Pending(e, t) == Failures(s, schedule, t)
    {
      CallsAreCompletions(s, schedule, t);
    }
    if e.limiter.Some? { PublishedReachesAll(e, later); }
  }

  // ----- nobody is stuck

  /** The steps a thread has before it, at most, once it holds the lock. */
  function StepsLeft(p: Pc): nat {
    match p
    case Rechecking => 4
    case Constructing => 3
    case Publishing(_) => 2
    case Leaving(_) => 1
    case _ => 0
  }

  /** The lock's holder leaves by a few steps of its own, whatever the constructor does. */
  lemma {:induction false} HolderLeaves(s: State, t: nat, raises: bool) returns (schedule: seq<(nat, bool)>)
    requires Inv(s) && s.lock == Some(t)
    ensures ThreadsKnown(s, schedule) && |schedule| <= StepsLeft(s.pcs[t])
    ensures var e := Play(s, schedule);
      && e.lock.None? && e.pcs == s.pcs[t := Outside]
      && forall u :: u in s.pcs ==> |Of(e.calls, u)| == |Of(s.calls, u)| + if u == t then 1 else 0
    decreases StepsLeft(s.pcs[t])
  {
    hide Of, Inv, Step, StepsLeft;
    HolderMoves(s, t, raises);
    StepKeepsInv(s, t, raises);
    var s' := Step(s, t, raises);
    forall u | u in s.pcs
      ensures |Of(s'.calls, u)| == |Of(s.calls, u)| + if u == t && s'.pcs[t].Outside? then 1 else 0
    {
      StepRecords(s, t, raises, u);
    }
    var rest := [];
    if !s.pcs[t].Leaving? { rest := HolderLeaves(s', t, raises); }
    schedule := [(t, raises)] + rest;
    assert schedule[1..] == rest;
  }

  lemma HolderMoves(s: State, t: nat, raises: bool)
    requires Inv(s) && s.lock == Some(t)
    ensures t in s.pcs && Inside(s.pcs[t])
    ensures var s' := Step(s, t, raises);
      && s'.pcs == s.pcs[t := s'.pcs[t]]
      && StepsLeft(s.pcs[t]) >= 1 && StepsLeft(s'.pcs[t]) < StepsLeft(s.pcs[t])
      && (if s.pcs[t].Leaving? then s'.lock.None? && s'.pcs[t].Outside? else s'.lock == Some(t) && Inside(s'.pcs[t]))
  {
    assert Inside(s.pcs[t]);
    hide Inv;
  }

  lemma {:induction false} PlayAppend(s: State, a: seq<(nat, bool)>, b: seq<(nat, bool)>)
    requires ThreadsKnown(s, a) && ThreadsKnown(s, b)
    ensures ThreadsKnown(s, a + b) && Play(s, a + b) == Play(Play(s, a), b)
    decreases |a|
  {
    hide Step;
    if a != [] {
      Tail(s, a);
      PlayAppend(Step(s, a[0].0, a[0].1), a[1..], b);
      assert (a + b)[1..] == a[1..] + b;
    } else {
      assert [] + b == b;
    }
  }

  /** A thread inside comes to the end of its call by at most four steps of the lock's holder and five of its own. */
  lemma CallEnds(s: State, t: nat, raises: bool) returns (schedule: seq<(nat, bool)>)
    requires Inv(s) && t in s.pcs && !s.pcs[t].Outside?
    ensures ThreadsKnown(s, schedule) && |schedule| <= 9
    ensures var e := Play(s, schedule); e.pcs[t].Outside? && |Of(e.calls, t)| == |Of(s.calls, t)| + 1
  {
    OnlyHolderInside(s, t);
    var first := [];
    if s.lock.Some? { first := HolderLeaves(s, s.lock.value, raises); }
    hide Inv, Of, Step, Play, ThreadsKnown;
    if s.lock == Some(t) { return first; }
    PlayKeepsInv(s, first);
    var own := TakesTurn(Play(s, first), t, raises);
    schedule := first + own;
    KnownStays(s, Play(s, first), own);
    PlayAppend(s, first, own);
  }

  lemma OnlyHolderInside(s: State, t: nat)
    requires Inv(s) && t in s.pcs && !s.pcs[t].Outside?
    ensures s.lock == Some(t) || s.pcs[t].WaitingForLock?
    ensures s.lock.Some? ==> s.lock.value in s.pcs && StepsLeft(s.pcs[s.lock.value]) <= 4
    ensures ThreadsKnown(s, []) && Play(s, []) == s
  {
  }

  lemma KnownStays(s: State, e: State, schedule: seq<(nat, bool)>)
    requires ThreadsKnown(e, schedule) && e.pcs.Keys == s.pcs.Keys
    ensures ThreadsKnown(s, schedule)
  {
  }

  /** A thread that waits for a free lock takes it and leaves. */
  lemma TakesTurn(s: State, t: nat, raises: bool) returns (schedule: seq<(nat, bool)>)
    requires Inv(s) && t in s.pcs && s.pcs[t].WaitingForLock? && s.lock.None?
    ensures ThreadsKnown(s, schedule) && |schedule| <= 5
    ensures var e := Play(s, schedule); e.pcs[t].Outside? && |Of(e.calls, t)| == |Of(s.calls, t)| + 1
  {
    StepKeepsInv(s, t, raises);
    var s' := Step(s, t, raises);
    var rest := HolderLeaves(s', t, raises);
    schedule := [(t, raises)] + rest;
    assert schedule[1..] == rest;
    hide Of, Inv;
  }

  /** Main result: no schedule leads to a deadlock; after any, each thread inside can still finish its call. */
  lemma EveryCallCanEnd(s: State, before: seq<(nat, bool)>, t: nat, raises: bool)
    requires Init(s) && ThreadsKnown(s, before) && t in s.pcs
    ensures var e := Play(s, before);
      !e.pcs[t].Outside? ==>
        exists schedule :: ThreadsKnown(e, schedule) && |schedule| <= 9
          && |Of(Play(e, schedule).calls, t)| == |Of(e.calls, t)| + 1
  {
    PlayKeepsInv(s, before);
    var e := Play(s, before);
    if !e.pcs[t].Outside? { var schedule := CallEnds(e, t, raises); }
    hide Inv, Of;
  }
}
