/** `throttled/hooks.py`: hooks wrapped around the rate-limit call, none of which may break it. */
module Hooks {
  import opened Base

  /** How a call ends: with a result, or with an exception. */
  datatype Outcome = Returned(result: Response) | Raised

  /** What happened so far, oldest first: the hooks' own effects, and each run of the rate-limit call. */
  datatype Event = Effect(tag: int) | Limiting
  type World = seq<Event>

  /** What a running hook does next. */
  datatype Move = Return(result: Response) | Raise | Do(tag: int) | CallNext

  /** A hook's `on_limit`: its next move may depend on the world, on what its calls of `call_next()` gave back, and on
      how many moves it has made. It makes at most `moves`; one that has used them up raises. */
  datatype Hook = Hook(moves: nat, move: (World, seq<Outcome>, nat) -> Move)

  type Chain = World -> (Outcome, World)

  /** `h.on_limit(tracked_next, context)` from its `k`-th move on: how it ends, the world then,
      and `next_result`, which is there exactly when `next_called`. */
  function OnLimit(h: Hook, next: Chain, w: World, got: seq<Outcome>, k: nat, nextResult: Option<Response>)
    : (Outcome, World, Option<Response>)
    decreases h.moves - k
  {
    if k >= h.moves then (Raised, w, nextResult) else
    match h.move(w, got, k)
    case Return(r) => (Returned(r), w, nextResult)
    case Raise => (Raised, w, nextResult)
    case Do(tag) => OnLimit(h, next, w + [Effect(tag)], got, k + 1, nextResult)
    case CallNext =>
      // tracked_next: the result is remembered only if the downstream call returns
      var (o, w') := next(w);
      OnLimit(h, next, w', got + [o], k + 1, if o.Returned? then Some(o.result) else nextResult)
  }

  /** `chain_fn`: an exception is answered with the remembered result, or else by calling downstream directly. */
  function ChainFn(h: Hook, next: Chain, w: World): (Outcome, World) {
    var (o, w', nextResult) := OnLimit(h, next, w, [], 0, None);
    if o.Returned? then (o, w')
    else if nextResult.Some? then (Returned(nextResult.value), w')
    else next(w')
  }

  /** `make_chain`. */
  function MakeChain(h: Hook, next: Chain): Chain { w => ChainFn(h, next, w) }

  /** The chain the documentation describes: the first hook outermost. */
  function Run(hooks: seq<Hook>, doLimit: Chain, w: World): (Outcome, World)
    decreases |hooks|, 1
  {
    if hooks == [] then doLimit(w) else ChainFn(hooks[0], Rest(hooks, doLimit), w)
  }

  /** What the first hook's `call_next` runs. */
  function Rest(hooks: seq<Hook>, doLimit: Chain): Chain
    requires hooks != []
    decreases |hooks|, 0
  {
    v => Run(hooks[1..], doLimit, v)
  }

  ghost predicate Same(c: Chain, d: Chain) { forall w :: c(w) == d(w) }

  /** A hook cannot tell downstream chains apart that do the same. */
  lemma {:induction false} OnLimitSame(h: Hook, c: Chain, d: Chain, w: World, got: seq<Outcome>, k: nat,
                                       nextResult: Option<Response>)
    requires Same(c, d)
    ensures OnLimit(h, c, w, got, k, nextResult) == OnLimit(h, d, w, got, k, nextResult)
    decreases h.moves - k
  {
    assert c(w) == d(w);
    if k < h.moves {
      match h.move(w, got, k)
      case Do(tag) => OnLimitSame(h, c, d, w + [Effect(tag)], got, k + 1, nextResult);
      case CallNext =>
        var (o, w') := c(w);
        OnLimitSame(h, c, d, w', got + [o], k + 1, if o.Returned? then Some(o.result) else nextResult);
      case _ =>
    }
  }

  lemma ChainFnSame(h: Hook, c: Chain, d: Chain, w: World)
    requires Same(c, d)
    ensures ChainFn(h, c, w) == ChainFn(h, d, w)
  {
    OnLimitSame(h, c, d, w, [], 0, None);
    assert forall v :: c(v) == d(v);
  }

  /** `build_hook_chain`: the loop over the reversed hooks builds the chain with the first hook outermost. */
  method BuildHookChain(hooks: seq<Hook>, doLimit: Chain) returns (chain: Chain)
    ensures forall w :: chain(w) == Run(hooks, doLimit, w)
  {
    if hooks == [] { return doLimit; }
    chain := doLimit;
    var i := |hooks|;
    while i > 0
      invariant 0 <= i <= |hooks|
      invariant forall w :: chain(w) == Run(hooks[i..], doLimit, w)
    {
      i := i - 1;
      var postChain := chain;
      chain := MakeChain(hooks[i], postChain);
      ghost var rest := Rest(hooks[i..], doLimit);
      assert hooks[i..][1..] == hooks[i + 1..];
      forall w ensures chain(w) == Run(hooks[i..], doLimit, w) {
        assert Same(postChain, rest);
        ChainFnSame(hooks[i], postChain, rest, w);
      }
    }
    assert hooks[0..] == hooks;
  }

  /** What any hooks in front see of those behind them is one chain. */
  lemma {:induction false} ChainsCompose(front: seq<Hook>, back: seq<Hook>, doLimit: Chain, behind: Chain, w: World)
    requires forall v :: behind(v) == Run(back, doLimit, v)
    ensures Run(front + back, doLimit, w) == Run(front, behind, w)
    decreases |front|
  {
    if front == [] {
      assert [] + back == back;
    } else {
      assert (front + back)[1..] == front[1..] + back;
      var c, d := Rest(front + back, doLimit), Rest(front, behind);
      forall v ensures c(v) == d(v) { ChainsCompose(front[1..], back, doLimit, behind, v); }
      ChainFnSame(front[0], c, d, w);
    }
  }

  // ----- what a hook's caller gets, told by the hook's moves alone

  /** A moment of a hook's call: the world, and what its calls of next have given it. */
  datatype Moment = Moment(world: World, got: seq<Outcome>)

  /** The hook's `k`-th move does not end its call, and leads from `p` to `q`. */
  ghost predicate Moves(h: Hook, next: Chain, k: nat, p: Moment, q: Moment) {
    && k < h.moves
    && match h.move(p.world, p.got, k)
       case Do(tag) => q == Moment(p.world + [Effect(tag)], p.got)
       case CallNext => q.world == next(p.world).1 && q.got == p.got + [next(p.world).0]
       case _ => false
  }

  /** The moments of a call that starts in `w`, from the first. */
  ghost predicate IsCourse(h: Hook, next: Chain, w: World, course: seq<Moment>) {
    && course != [] && course[0] == Moment(w, [])
    && forall k :: 0 <= k < |course| - 1 ==> Moves(h, next, k, course[k], course[k + 1])
  }

  /** The move after the last of them ends the call: it returns, or raises. */
  ghost predicate IsWhole(h: Hook, course: seq<Moment>)
    requires course != []
  {
    var k, last := |course| - 1, course[|course| - 1];
    k < h.moves ==> h.move(last.world, last.got, k).Return? || h.move(last.world, last.got, k).Raise?
  }

  ghost predicate ReturnsItself(h: Hook, course: seq<Moment>, r: Response)
    requires course != []
  {
    var k, last := |course| - 1, course[|course| - 1];
    k < h.moves && h.move(last.world, last.got, k) == Return(r)
  }

  /** The last of these calls that returned: its result. */
  function LastResult(got: seq<Outcome>): Option<Response> {
    if got == [] then None
    else if got[|got| - 1].Returned? then Some(got[|got| - 1].result)
    else LastResult(got[..|got| - 1])
  }

  /** Every call of a hook comes to an end. */
  lemma EveryCallEnds(h: Hook, next: Chain, w: World) returns (course: seq<Moment>)
    ensures IsCourse(h, next, w, course) && IsWhole(h, course)
  {
    course := [Moment(w, [])];
    while !IsWhole(h, course)
      invariant IsCourse(h, next, w, course) && |course| <= h.moves + 1
      decreases h.moves + 1 - |course|
    {
      var k, p := |course| - 1, course[|course| - 1];
      var q := match h.move(p.world, p.got, k)
        case Do(tag) => Moment(p.world + [Effect(tag)], p.got)
        case CallNext => Moment(next(p.world).1, p.got + [next(p.world).0])
        case _ => p;
      assert Moves(h, next, k, p, q);
      course := course + [q];
    }
  }

  /** Main result: at any place in the chain, a hook that ends by returning gives its caller what it returns, in the
      world it left, whatever the chain behind it gave. One that ends by raising gives the last result the chain
      behind it returned, in the world it left; if there is none, the chain behind it answers, in that world. */
  lemma HookDecides(h: Hook, back: seq<Hook>, doLimit: Chain, behind: Chain, w: World, course: seq<Moment>)
    requires forall v :: behind(v) == Run(back, doLimit, v)
    requires IsCourse(h, behind, w, course) && IsWhole(h, course)
    ensures var (answer, last) := (Run([h] + back, doLimit, w), course[|course| - 1]);
      && (forall r :: ReturnsItself(h, course, r) ==> answer == (Returned(r), last.world))
      && ((forall r :: !ReturnsItself(h, course, r)) ==>
            match LastResult(last.got)
            case Some(r) => answer == (Returned(r), last.world)
            case None => answer == behind(last.world))
  {
    assert ([h] + back)[1..] == back;
    ChainFnSame(h, Rest([h] + back, doLimit), behind, w);
    OnLimitFollows(h, behind, w, course, 0);
  }

  lemma {:induction false} OnLimitFollows(h: Hook, next: Chain, w: World, course: seq<Moment>, k: nat)
    requires IsCourse(h, next, w, course) && IsWhole(h, course) && k < |course|
    ensures var (p, last) := (course[k], course[|course| - 1]);
      var (o, w', n) := OnLimit(h, next, p.world, p.got, k, LastResult(p.got));
      && w' == last.world && n == LastResult(last.got)
      && forall r :: ReturnsItself(h, course, r) <==> o == Returned(r)
    decreases |course| - k
  {
    if k < |course| - 1 {
      var p, q := course[k], course[k + 1];
      assert Moves(h, next, k, p, q);
      OnLimitFollows(h, next, w, course, k + 1);
      if h.move(p.world, p.got, k).CallNext? { assert q.got[..|p.got|] == p.got; }
    }
  }

  /** A hook that has not called next has left nothing in the world but its own effects. */
  lemma {:induction false} WithoutCalling(h: Hook, next: Chain, w: World, course: seq<Moment>) returns (tags: seq<int>)
    requires IsCourse(h, next, w, course) && course[|course| - 1].got == []
    ensures course[|course| - 1].world == w + Effects(tags)
    decreases |course|
  {
    tags := [];
    if |course| == 1 { return; }
    var k := |course| - 2;
    var front := course[..k + 1];
    assert Moves(h, next, k, course[k], course[k + 1]);
    tags := WithoutCalling(h, next, w, front);
    var tag := h.move(course[k].world, course[k].got, k).tag;
    EffectsAppend(tags, tag);
    tags := tags + [tag];
  }

  function Effects(tags: seq<int>): World { if tags == [] then [] else [Effect(tags[0])] + Effects(tags[1..]) }

  lemma {:induction false} EffectsAppend(tags: seq<int>, tag: int)
    ensures Effects(tags + [tag]) == Effects(tags) + [Effect(tag)]
    decreases |tags|
  {
    if tags != [] {
      assert (tags + [tag])[1..] == tags[1..] + [tag];
      EffectsAppend(tags[1..], tag);
    } else {
      assert [tag][1..] == [] && [] + [tag] == [tag];
    }
  }

  /** So a hook that returns without calling next gives what it returns, and nothing behind it runs. */
  lemma AnswersWithoutCalling(h: Hook, back: seq<Hook>, doLimit: Chain, behind: Chain, w: World, course: seq<Moment>,
                              r: Response) returns (tags: seq<int>)
    requires forall v :: behind(v) == Run(back, doLimit, v)
    requires IsCourse(h, behind, w, course) && course[|course| - 1].got == [] && ReturnsItself(h, course, r)
    ensures Run([h] + back, doLimit, w) == (Returned(r), w + Effects(tags))
  {
    HookDecides(h, back, doLimit, behind, w, course);
    tags := WithoutCalling(h, behind, w, course);
  }

  // ----- no exception escapes

  ghost predicate NeverRaises(c: Chain) { forall w :: c(w).0.Returned? }

  /** If the rate-limit call returns, the chain returns, whatever the hooks do. */
  lemma {:induction false} NoHookExceptionEscapes(hooks: seq<Hook>, doLimit: Chain, w: World)
    requires NeverRaises(doLimit)
    ensures Run(hooks, doLimit, w).0.Returned?
    decreases |hooks|
  {
    if hooks != [] {
      var next := Rest(hooks, doLimit);
      forall v ensures next(v).0.Returned? { NoHookExceptionEscapes(hooks[1..], doLimit, v); }
      ChainFnReturns(hooks[0], next, w);
    }
  }

  lemma ChainFnReturns(h: Hook, next: Chain, w: World)
    requires NeverRaises(next)
    ensures ChainFn(h, next, w).0.Returned?
  {
    var (o, w', nextResult) := OnLimit(h, next, w, [], 0, None);
    assert next(w').0.Returned?;
  }

  // ----- how often the rate-limit call runs

  function Limits(w: World): nat {
    if w == [] then 0 else Limits(w[..|w| - 1]) + if w[|w| - 1].Limiting? then 1 else 0
  }

  lemma LimitsAppend(w: World, e: Event)
    ensures Limits(w + [e]) == Limits(w) + if e.Limiting? then 1 else 0
  {
    assert (w + [e])[..|w|] == w;
  }

  /** The rate-limit call leaves its mark once each time it runs. */
  ghost predicate RunsOnce(doLimit: Chain) { forall w :: doLimit(w).1 == w + [Limiting] }

  ghost predicate CallsAtMostOnce(h: Hook) {
    forall w, got, k :: got != [] ==> !h.move(w, got, k).CallNext?
  }

  /** The hook does not return without having called. */
  ghost predicate CallsBeforeReturning(h: Hook) {
    forall w, k :: !h.move(w, [], k).Return?
  }

  /** A chain that returns and runs the rate-limit call between `least` times and once. */
  ghost predicate RunsBetween(c: Chain, least: nat) {
    forall w :: c(w).0.Returned? && Limits(w) + least <= Limits(c(w).1) <= Limits(w) + 1
  }

  lemma {:induction false} OnLimitRuns(h: Hook, next: Chain, w: World, got: seq<Outcome>, k: nat,
                                       nextResult: Option<Response>, least: nat)
    requires CallsAtMostOnce(h) && RunsBetween(next, least) && least <= 1 && (got == [] <==> nextResult.None?)
    ensures var (o, w', n) := OnLimit(h, next, w, got, k, nextResult);
      && (got != [] ==> Limits(w') == Limits(w) && n == nextResult)
      && (got == [] && n.None? ==> Limits(w') == Limits(w) && (CallsBeforeReturning(h) ==> o.Raised?))
      && (got == [] && n.Some? ==> Limits(w) + least <= Limits(w') <= Limits(w) + 1)
    decreases h.moves - k
  {
    if k < h.moves {
      match h.move(w, got, k)
      case Do(tag) =>
        LimitsAppend(w, Effect(tag));
        OnLimitRuns(h, next, w + [Effect(tag)], got, k + 1, nextResult, least);
      case CallNext =>
        var (o, w') := next(w);
        OnLimitRuns(h, next, w', got + [o], k + 1, Some(o.result), least);
      case _ =>
    }
  }

  /** Main result: with hooks that call next at most once, a rate-limit call that returns is run at most once,
      and exactly once unless some hook returns without calling; late exceptions never run it again. */
  lemma {:induction false} LimitRunsOnce(hooks: seq<Hook>, doLimit: Chain, w: World)
    requires NeverRaises(doLimit) && RunsOnce(doLimit)
    requires forall i :: 0 <= i < |hooks| ==> CallsAtMostOnce(hooks[i])
    ensures var (o, w') := Run(hooks, doLimit, w);
      && o.Returned? && Limits(w') <= Limits(w) + 1
      && ((forall i :: 0 <= i < |hooks| ==> CallsBeforeReturning(hooks[i])) ==> Limits(w') == Limits(w) + 1)
    decreases |hooks|
  {
    if hooks == [] {
      LimitsAppend(w, Limiting);
    } else {
      var rest, next := hooks[1..], Rest(hooks, doLimit);
      var least := if forall i :: 0 <= i < |hooks| ==> CallsBeforeReturning(hooks[i]) then 1 else 0;
      forall v ensures next(v).0.Returned? && Limits(v) + least <= Limits(next(v).1) <= Limits(v) + 1 {
        LimitRunsOnce(rest, doLimit, v);
        RunsGrow(rest, doLimit, v);
      }
      ChainFnRuns(hooks[0], next, w, least);
    }
  }

  lemma ChainFnRuns(h: Hook, next: Chain, w: World, least: nat)
    requires CallsAtMostOnce(h) && RunsBetween(next, least) && least <= 1 && (least == 1 ==> CallsBeforeReturning(h))
    ensures var (o, w') := ChainFn(h, next, w); o.Returned? && Limits(w) + least <= Limits(w') <= Limits(w) + 1
  {
    OnLimitRuns(h, next, w, [], 0, None, least);
    var (o, w', nextResult) := OnLimit(h, next, w, [], 0, None);
    assert next(w').0.Returned?;
  }

  /** The world only grows. */
  lemma {:induction false} RunsGrow(hooks: seq<Hook>, doLimit: Chain, w: World)
    requires RunsOnce(doLimit)
    ensures Limits(Run(hooks, doLimit, w).1) >= Limits(w)
    decreases |hooks|
  {
    if hooks == [] {
      LimitsAppend(w, Limiting);
    } else {
      var next := Rest(hooks, doLimit);
      forall v ensures Limits(next(v).1) >= Limits(v) { RunsGrow(hooks[1..], doLimit, v); }
      OnLimitGrows(hooks[0], next, w, [], 0, None);
    }
  }

  lemma {:induction false} OnLimitGrows(h: Hook, next: Chain, w: World, got: seq<Outcome>, k: nat,
                                        nextResult: Option<Response>)
    requires forall v :: Limits(next(v).1) >= Limits(v)
    ensures Limits(OnLimit(h, next, w, got, k, nextResult).1) >= Limits(w)
    decreases h.moves - k
  {
    if k < h.moves {
      match h.move(w, got, k)
      case Do(tag) =>
        LimitsAppend(w, Effect(tag));
        OnLimitGrows(h, next, w + [Effect(tag)], got, k + 1, nextResult);
      case CallNext =>
        var (o, w') := next(w);
        OnLimitGrows(h, next, w', got + [o], k + 1, if o.Returned? then Some(o.result) else nextResult);
      case _ =>
    }
  }

  // ----- hooks that raise before calling next

  ghost predicate RaisesBeforeCalling(h: Hook) {
    forall w, k :: h.move(w, [], k).Raise? || h.move(w, [], k).Do?
  }

  /** What such a hook did before it raised. */
  function Traces(h: Hook, w: World, k: nat): World
    decreases h.moves - k
  {
    if k < h.moves && h.move(w, [], k).Do? then Traces(h, w + [Effect(h.move(w, [], k).tag)], k + 1) else w
  }

  lemma {:induction false} OnLimitRaises(h: Hook, next: Chain, w: World, k: nat)
    requires RaisesBeforeCalling(h)
    ensures OnLimit(h, next, w, [], k, None) == (Raised, Traces(h, w, k), None)
    decreases h.moves - k
  {
    if k < h.moves && h.move(w, [], k).Do? { OnLimitRaises(h, next, w + [Effect(h.move(w, [], k).tag)], k + 1); }
  }

  /** Such a hook is skipped: downstream runs once, in the world its traces left. */
  lemma RaisingHookIsSkipped(h: Hook, next: Chain, w: World)
    requires RaisesBeforeCalling(h)
    ensures ChainFn(h, next, w) == next(Traces(h, w, 0))
  {
    OnLimitRaises(h, next, w, 0);
  }

  /** A hook that raises at once leaves no trace: deleting it, wherever it stands, changes neither result nor
      effects. */
  lemma {:induction false} SilentRaiserDeleted(front: seq<Hook>, h: Hook, back: seq<Hook>, doLimit: Chain, w: World)
    requires forall v :: h.move(v, [], 0).Raise?
    ensures Run(front + [h] + back, doLimit, w) == Run(front + back, doLimit, w)
    decreases |front|
  {
    if front == [] {
      assert [] + [h] + back == [h] + back && ([h] + back)[1..] == back && [] + back == back;
    } else {
      assert (front + [h] + back)[1..] == front[1..] + [h] + back && (front + back)[1..] == front[1..] + back;
      var c, d := Rest(front + [h] + back, doLimit), Rest(front + back, doLimit);
      forall v ensures c(v) == d(v) { SilentRaiserDeleted(front[1..], h, back, doLimit, v); }
      ChainFnSame(front[0], c, d, w);
    }
  }

  // ----- deleting a hook that leaves traces

  /** The world as seen by those who do not look at effects with these tags. */
  function Erase(w: World, tags: set<int>): World {
    if w == [] then [] else
    var last := w[|w| - 1];
    Erase(w[..|w| - 1], tags) + if last.Effect? && last.tag in tags then [] else [last]
  }

  lemma EraseAppend(w: World, e: Event, tags: set<int>)
    ensures Erase(w + [e], tags) == Erase(w, tags) + if e.Effect? && e.tag in tags then [] else [e]
  {
    assert (w + [e])[..|w|] == w;
  }

  /** The hook does the same in worlds that differ only in such effects. */
  ghost predicate Ignores(h: Hook, tags: set<int>) {
    forall v, w, got, k :: Erase(v, tags) == Erase(w, tags) ==> h.move(v, got, k) == h.move(w, got, k)
  }

  /** Two chains end alike in such worlds, and leave such worlds. */
  ghost predicate Alike(c: Chain, d: Chain, tags: set<int>) {
    forall v, w :: Erase(v, tags) == Erase(w, tags) ==> c(v).0 == d(w).0 && Erase(c(v).1, tags) == Erase(d(w).1, tags)
  }

  lemma {:induction false} OnLimitAlike(h: Hook, c: Chain, d: Chain, tags: set<int>, v: World, w: World,
                                        got: seq<Outcome>, k: nat, nextResult: Option<Response>)
    requires Ignores(h, tags) && Alike(c, d, tags) && Erase(v, tags) == Erase(w, tags)
    ensures var (o, v', n) := OnLimit(h, c, v, got, k, nextResult);
      var (p, w', m) := OnLimit(h, d, w, got, k, nextResult);
      o == p && n == m && Erase(v', tags) == Erase(w', tags)
    decreases h.moves - k
  {
    hide Erase;
    if k < h.moves {
      assert h.move(v, got, k) == h.move(w, got, k);
      match h.move(v, got, k)
      case Do(tag) =>
        EraseAppend(v, Effect(tag), tags);
        EraseAppend(w, Effect(tag), tags);
        OnLimitAlike(h, c, d, tags, v + [Effect(tag)], w + [Effect(tag)], got, k + 1, nextResult);
      case CallNext =>
        var ((o, v'), (p, w')) := (c(v), d(w));
        assert o == p && Erase(v', tags) == Erase(w', tags);
        OnLimitAlike(h, c, d, tags, v', w', got + [o], k + 1, if o.Returned? then Some(o.result) else nextResult);
      case _ =>
    }
  }

  lemma ChainFnAlike(h: Hook, c: Chain, d: Chain, tags: set<int>, v: World, w: World)
    requires Ignores(h, tags) && Alike(c, d, tags) && Erase(v, tags) == Erase(w, tags)
    ensures var ((o, v'), (p, w')) := (ChainFn(h, c, v), ChainFn(h, d, w)); o == p && Erase(v', tags) == Erase(w', tags)
  {
    OnLimitAlike(h, c, d, tags, v, w, [], 0, None);
    var (v', w') := (OnLimit(h, c, v, [], 0, None).1, OnLimit(h, d, w, [], 0, None).1);
    assert c(v').0 == d(w').0 && Erase(c(v').1, tags) == Erase(d(w').1, tags);
  }

  lemma {:induction false} RunAlike(hooks: seq<Hook>, doLimit: Chain, tags: set<int>, v: World, w: World)
    requires (forall g :: g in hooks ==> Ignores(g, tags)) && Alike(doLimit, doLimit, tags)
    requires Erase(v, tags) == Erase(w, tags)
    ensures var ((o, v'), (p, w')) := (Run(hooks, doLimit, v), Run(hooks, doLimit, w));
      o == p && Erase(v', tags) == Erase(w', tags)
    decreases |hooks|
  {
    if hooks != [] {
      var next := Rest(hooks, doLimit);
      forall x, y | Erase(x, tags) == Erase(y, tags)
        ensures next(x).0 == next(y).0 && Erase(next(x).1, tags) == Erase(next(y).1, tags)
      {
        RunAlike(hooks[1..], doLimit, tags, x, y);
      }
      ChainFnAlike(hooks[0], next, next, tags, v, w);
    }
  }

  lemma {:induction false} TracesErased(h: Hook, tags: set<int>, w: World, k: nat)
    requires forall v, j :: h.move(v, [], j).Do? ==> h.move(v, [], j).tag in tags
    ensures Erase(Traces(h, w, k), tags) == Erase(w, tags)
    decreases h.moves - k
  {
    if k < h.moves && h.move(w, [], k).Do? {
      EraseAppend(w, Effect(h.move(w, [], k).tag), tags);
      TracesErased(h, tags, w + [Effect(h.move(w, [], k).tag)], k + 1);
    }
  }

  /** Main result: a hook that raises before calling next can be deleted wherever it stands. Result and effects are the
      same but for its own traces, if neither the other hooks nor the rate-limit call look at those. */
  lemma {:induction false} RaiserDeleted(front: seq<Hook>, h: Hook, back: seq<Hook>, doLimit: Chain, tags: set<int>,
                                         v: World, w: World)
    requires RaisesBeforeCalling(h) && forall x, j :: h.move(x, [], j).Do? ==> h.move(x, [], j).tag in tags
    requires (forall g :: g in front + back ==> Ignores(g, tags)) && Alike(doLimit, doLimit, tags)
    requires Erase(v, tags) == Erase(w, tags)
    ensures var ((o, v'), (p, w')) := (Run(front + [h] + back, doLimit, v), Run(front + back, doLimit, w));
      o == p && Erase(v', tags) == Erase(w', tags)
    decreases |front|
  {
    hide ChainFn, Erase, Traces;
    if front == [] {
      assert [] + [h] + back == [h] + back && ([h] + back)[1..] == back && [] + back == back;
      RaisingHookIsSkipped(h, Rest([h] + back, doLimit), v);
      TracesErased(h, tags, v, 0);
      RunAlike(back, doLimit, tags, Traces(h, v, 0), w);
    } else {
      assert (front + [h] + back)[1..] == front[1..] + [h] + back && (front + back)[1..] == front[1..] + back;
      var c, d := Rest(front + [h] + back, doLimit), Rest(front + back, doLimit);
      forall x, y | Erase(x, tags) == Erase(y, tags)
        ensures c(x).0 == d(y).0 && Erase(c(x).1, tags) == Erase(d(y).1, tags)
      {
        RaiserDeleted(front[1..], h, back, doLimit, tags, x, y);
      }
      assert (front + [h] + back)[0] == (front + back)[0] == front[0];
      ChainFnAlike(front[0], c, d, tags, v, w);
    }
  }

  // ----- hooks that raise after calling next

  /** The world in which the downstream call ran whose result is remembered, if one returned. */
  function RememberedIn(h: Hook, next: Chain, w: World, got: seq<Outcome>, k: nat, from: Option<World>): Option<World>
    decreases h.moves - k
  {
    if k >= h.moves then from else
    match h.move(w, got, k)
    case Return(_) => from
    case Raise => from
    case Do(tag) => RememberedIn(h, next, w + [Effect(tag)], got, k + 1, from)
    case CallNext =>
      var (o, w') := next(w);
      RememberedIn(h, next, w', got + [o], k + 1, if o.Returned? then Some(w) else from)
  }

  /** A hook that ends by raising costs the caller nothing: what it is answered is what its last call of next that
      returned gave it, or, if it made none, what downstream gives in the world it left. */
  lemma RaisingHookKeepsResult(h: Hook, next: Chain, w: World)
    requires OnLimit(h, next, w, [], 0, None).0.Raised?
    ensures var (left, from) := (OnLimit(h, next, w, [], 0, None).1, RememberedIn(h, next, w, [], 0, None));
      if from.Some? then ChainFn(h, next, w) == (next(from.value).0, left) else ChainFn(h, next, w) == next(left)
  {
    OnLimitRemembers(h, next, w, [], 0, None, None);
  }

  lemma {:induction false} OnLimitRemembers(h: Hook, next: Chain, w: World, got: seq<Outcome>, k: nat,
                                            nextResult: Option<Response>, from: Option<World>)
    requires if from.Some? then nextResult.Some? && next(from.value).0 == Returned(nextResult.value)
             else nextResult.None?
    ensures var (n, v) := (OnLimit(h, next, w, got, k, nextResult).2, RememberedIn(h, next, w, got, k, from));
      if v.Some? then n.Some? && next(v.value).0 == Returned(n.value) else n.None?
    decreases h.moves - k
  {
    if k < h.moves {
      match h.move(w, got, k)
      case Do(tag) => OnLimitRemembers(h, next, w + [Effect(tag)], got, k + 1, nextResult, from);
      case CallNext =>
        var (o, w') := next(w);
        OnLimitRemembers(h, next, w', got + [o], k + 1, if o.Returned? then Some(o.result) else nextResult,
                         if o.Returned? then Some(w) else from);
      case _ =>
    }
  }

  // ----- hooks that pass through

  /** What a hook does before it calls next, and how many moves it has then made; none if it ends without calling. */
  datatype Entry = Entry(tags: seq<int>, moves: nat)

  function Entering(h: Hook, w: World, k: nat): Option<Entry>
    decreases h.moves - k
  {
    if k >= h.moves then None else
    match h.move(w, [], k)
    case Do(tag) =>
      var rest := Entering(h, w + [Effect(tag)], k + 1);
      if rest.None? then None else Some(Entry([tag] + rest.value.tags, rest.value.moves))
    case CallNext => Some(Entry([], k + 1))
    case _ => None
  }

  /** What a hook does after its one call of next has ended in `o`, if it then ends in `o` itself. */
  function Leaving(h: Hook, w: World, o: Outcome, k: nat): Option<seq<int>>
    decreases h.moves - k
  {
    if k >= h.moves then (if o.Raised? then Some([]) else None) else
    match h.move(w, [o], k)
    case Do(tag) =>
      var rest := Leaving(h, w + [Effect(tag)], o, k + 1);
      if rest.None? then None else Some([tag] + rest.value)
    case Return(r) => if o == Returned(r) then Some([]) else None
    case Raise => if o.Raised? then Some([]) else None
    case CallNext => None
  }

  /** The hook calls next exactly once, returns what it gave, and lets its exception through, with any effects of its
      own before and after. */
  ghost predicate PassesThrough(h: Hook) {
    forall w :: Entering(h, w, 0).Some? &&
      forall v, o :: Leaving(h, v, o, Entering(h, w, 0).value.moves).Some?
  }

  lemma {:induction false} EnterRuns(h: Hook, next: Chain, w: World, k: nat)
    requires Entering(h, w, k).Some?
    ensures var e := Entering(h, w, k).value;
      var (o, w') := next(w + Effects(e.tags));
      OnLimit(h, next, w, [], k, None) ==
        OnLimit(h, next, w', [o], e.moves, if o.Returned? then Some(o.result) else None)
    decreases h.moves - k
  {
    match h.move(w, [], k)
    case Do(tag) =>
      EnterRuns(h, next, w + [Effect(tag)], k + 1);
      var rest := Entering(h, w + [Effect(tag)], k + 1).value;
      assert ([tag] + rest.tags)[1..] == rest.tags;
      assert w + Effects([tag] + rest.tags) == w + [Effect(tag)] + Effects(rest.tags);
    case CallNext =>
      assert w + Effects([]) == w;
      var (o, _) := next(w);
      assert [] + [o] == [o];
    case _ =>
  }

  lemma {:induction false} LeaveRuns(h: Hook, next: Chain, w: World, o: Outcome, k: nat, nextResult: Option<Response>)
    requires Leaving(h, w, o, k).Some?
    ensures OnLimit(h, next, w, [o], k, nextResult) == (o, w + Effects(Leaving(h, w, o, k).value), nextResult)
    decreases h.moves - k
  {
    assert w + Effects([]) == w;
    if k < h.moves && h.move(w, [o], k).Do? {
      var tag := h.move(w, [o], k).tag;
      LeaveRuns(h, next, w + [Effect(tag)], o, k + 1, nextResult);
      var rest := Leaving(h, w + [Effect(tag)], o, k + 1).value;
      assert ([tag] + rest)[1..] == rest;
      assert w + Effects([tag] + rest) == w + [Effect(tag)] + Effects(rest);
    }
  }

  /** What such a hook does before the call, and after one that ended in `o` and left `v`. */
  ghost function Before(h: Hook, w: World): World
    requires PassesThrough(h)
  {
    Effects(Entering(h, w, 0).value.tags)
  }

  ghost function After(h: Hook, w: World, v: World, o: Outcome): World
    requires PassesThrough(h)
  {
    Effects(Leaving(h, v, o, Entering(h, w, 0).value.moves).value)
  }

  /** Around one downstream call that returns, such a hook adds its effects; if the call raises, it runs again. */
  lemma PassThroughOnce(h: Hook, next: Chain, w: World)
    requires PassesThrough(h)
    ensures var (o, v) := next(w + Before(h, w));
      var left := v + After(h, w, v, o);
      ChainFn(h, next, w) == if o.Returned? then (o, left) else next(left)
  {
    var e := Entering(h, w, 0).value;
    var (o, v) := next(w + Effects(e.tags));
    EnterRuns(h, next, w, 0);
    LeaveRuns(h, next, v, o, e.moves, if o.Returned? then Some(o.result) else None);
  }

  ghost predicate AllPassThrough(hooks: seq<Hook>) { forall i :: 0 <= i < |hooks| ==> PassesThrough(hooks[i]) }

  lemma RestPassThrough(hooks: seq<Hook>)
    requires AllPassThrough(hooks) && hooks != []
    ensures PassesThrough(hooks[0]) && AllPassThrough(hooks[1..])
  {
    hide PassesThrough;
  }

  /** The world in which the rate-limit call runs: every hook has done what it does before, outermost first. */
  ghost function Inner(hooks: seq<Hook>, w: World): World
    requires AllPassThrough(hooks)
  {
    if hooks == [] then w else
    RestPassThrough(hooks);
    Inner(hooks[1..], w + Before(hooks[0], w))
  }

  /** The events of a call that returns: each hook's before and after stand around those of the hooks inside it. */
  ghost function Nested(hooks: seq<Hook>, doLimit: Chain, w: World): World
    requires AllPassThrough(hooks)
    decreases |hooks|
  {
    if hooks == [] then [Limiting] else
    RestPassThrough(hooks);
    var w1 := w + Before(hooks[0], w);
    var inner := Nested(hooks[1..], doLimit, w1);
    Before(hooks[0], w) + inner + After(hooks[0], w, w1 + inner, doLimit(Inner(hooks[1..], w1)).0)
  }

  lemma Regroup(a: World, b: World, c: World, d: World)
    ensures a + b + c + d == a + (b + c + d)
  {
  }

  /** Main result: before and after effects of pass-through hooks nest in hook order around one run of the rate-limit
      call, and the result is the one it gives there. */
  lemma {:induction false} EventsNest(hooks: seq<Hook>, doLimit: Chain, w: World)
    requires AllPassThrough(hooks) && NeverRaises(doLimit) && RunsOnce(doLimit)
    ensures Run(hooks, doLimit, w) == (doLimit(Inner(hooks, w)).0, w + Nested(hooks, doLimit, w))
    decreases |hooks|
  {
    if hooks != [] {
      hide PassesThrough, Before, After, ChainFn, AllPassThrough, RunsOnce;
      RestPassThrough(hooks);
      var h, rest, next := hooks[0], hooks[1..], Rest(hooks, doLimit);
      var w1 := w + Before(h, w);
      EventsNest(rest, doLimit, w1);
      PassThroughOnce(h, next, w);
      assert doLimit(Inner(rest, w1)).0.Returned?;
      var inner := Nested(rest, doLimit, w1);
      var after := After(h, w, w1 + inner, doLimit(Inner(rest, w1)).0);
      Regroup(w, Before(h, w), inner, after);
    }
  }

  lemma {:induction false} LimitsEffects(w: World, tags: seq<int>)
    ensures Limits(w + Effects(tags)) == Limits(w)
    decreases |tags|
  {
    hide Limits;
    if tags == [] {
      assert w + Effects(tags) == w;
    } else {
      LimitsAppend(w, Effect(tags[0]));
      LimitsEffects(w + [Effect(tags[0])], tags[1..]);
      assert w + Effects(tags) == w + [Effect(tags[0])] + Effects(tags[1..]);
    }
  }

  function Pow2(n: nat): nat { if n == 0 then 1 else 2 * Pow2(n - 1) }

  /** Main result: if the rate-limit call always raises, n pass-through hooks run it exactly 2^n times, and the
      exception comes through. */
  lemma {:induction false} FailingCallRunsTwoToTheN(hooks: seq<Hook>, doLimit: Chain, w: World)
    requires AllPassThrough(hooks) && RunsOnce(doLimit) && forall v :: doLimit(v).0.Raised?
    ensures var (o, w') := Run(hooks, doLimit, w); o.Raised? && Limits(w') == Limits(w) + Pow2(|hooks|)
    decreases |hooks|
  {
    if hooks == [] {
      LimitsAppend(w, Limiting);
    } else {
      hide PassesThrough, ChainFn, AllPassThrough, Limits, Entering, Leaving;
      RestPassThrough(hooks);
      var h, rest, next := hooks[0], hooks[1..], Rest(hooks, doLimit);
      var w1 := w + Before(h, w);
      FailingCallRunsTwoToTheN(rest, doLimit, w1);
      var (o, v) := next(w1);
      var left := v + After(h, w, v, o);
      FailingCallRunsTwoToTheN(rest, doLimit, left);
      CallsLeaveLimits(h, w, v, o);
      PassThroughOnce(h, next, w);
      assert Run(rest, doLimit, w1) == (o, v) && Run(rest, doLimit, left) == next(left);
    }
  }

  lemma CallsLeaveLimits(h: Hook, w: World, v: World, o: Outcome)
    requires PassesThrough(h)
    ensures Limits(w + Before(h, w)) == Limits(w) && Limits(v + After(h, w, v, o)) == Limits(v)
  {
    LimitsEffects(w, Entering(h, w, 0).value.tags);
    LimitsEffects(v, Leaving(h, v, o, Entering(h, w, 0).value.moves).value);
  }

  /** Such hooks: note the start, call next, note the end and return what it gave; let its exception through. */
  function Observer(before: int, after: int): Hook {
    Hook(4, (w: World, got: seq<Outcome>, k: nat) =>
      if k == 0 then Do(before)
      else if k == 1 then CallNext
      else if |got| == 1 && got[0].Returned? then (if k == 2 then Do(after) else Return(got[0].result))
      else Raise)
  }

  lemma ObserverPassesThrough(before: int, after: int, w: World, v: World, o: Outcome)
    ensures var h := Observer(before, after);
      && PassesThrough(h) && Before(h, w) == [Effect(before)]
      && After(h, w, v, o) == if o.Returned? then [Effect(after)] else []
  {
    var h := Observer(before, after);
    forall w ensures Entering(h, w, 0) == Some(Entry([before], 2)) { ObserverEnters(before, after, w); }
    forall v, o ensures Leaving(h, v, o, 2) == Some(if o.Returned? then [after] else []) {
      ObserverLeaves(before, after, v, o);
    }
    OneEffect(before);
    OneEffect(after);
    hide Entering, Leaving, Observer;
  }

  lemma OneEffect(tag: int)
    ensures Effects([tag]) == [Effect(tag)] && Effects([]) == []
  {
    assert [tag][1..] == [];
  }

  lemma ObserverEnters(before: int, after: int, w: World)
    ensures Entering(Observer(before, after), w, 0) == Some(Entry([before], 2))
  {
    var h, w1 := Observer(before, after), w + [Effect(before)];
    assert h.move(w, [], 0) == Do(before) && h.move(w1, [], 1) == CallNext;
    assert Entering(h, w1, 1) == Some(Entry([], 2));
    assert [before] + [] == [before];
  }

  lemma ObserverLeaves(before: int, after: int, v: World, o: Outcome)
    ensures Leaving(Observer(before, after), v, o, 2) == Some(if o.Returned? then [after] else [])
  {
    var h, v1 := Observer(before, after), v + [Effect(after)];
    if o.Returned? {
      assert h.move(v, [o], 2) == Do(after) && h.move(v1, [o], 3) == Return(o.result);
      assert Leaving(h, v1, o, 3) == Some([]);
      assert [after] + [] == [after];
    } else {
      assert h.move(v, [o], 2) == Raise;
    }
  }
}
