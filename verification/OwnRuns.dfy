/** Limiters that share a store do not show in each other's answers: a user's answers are those of the user's own
    requests, alone. */
module OwnRuns {
  import opened Base
  import opened Store
  import opened Limiters
  import opened Transparency
  import opened Admission
  import Ideal
  import F = FixedWindow
  import SW = SlidingWindow

  function One(c: Config, user: string): Configs { map[user := c] }

  /** The requests of one user, in order. */
  function Own(rs: seq<Request>, user: string): seq<Request> {
    if rs == [] then [] else
    var rest := Own(rs[1..], user);
    if rs[0].user == user then [rs[0]] + rest else rest
  }

  function OwnAnswers(rs: seq<Request>, answers: seq<Response>, user: string): (r: seq<Response>)
    requires |answers| == |rs|
    ensures |r| == |Own(rs, user)|
    decreases |rs|
  {
    if rs == [] then [] else
    var rest := OwnAnswers(rs[1..], answers[1..], user);
    if rs[0].user == user then [answers[0]] + rest else rest
  }

  /** Two maps hold the same for one user. */
  ghost predicate SameFor(m: Ideal.Memory, n: Ideal.Memory, user: string) {
    && Ideal.Cell(m, Plain(user)) == Ideal.Cell(n, Plain(user))
    && forall i {:trigger Window(user, i)} :: Ideal.Cell(m, Window(user, i)) == Ideal.Cell(n, Window(user, i))
  }

  /** A request reads and writes nothing but its user's keys. */
  lemma OwnRequest(c: Config, m: Ideal.Memory, n: Ideal.Memory, r: Request)
    requires c.quota.Valid() && SameFor(m, n, r.user)
    ensures var ((m', a), (n', b)) := (Ideal.Serve(c, m, r), Ideal.Serve(c, n, r));
      a == b && SameFor(m', n', r.user)
  {
    hide Ideal.CellServe, SW.Decide, F.Report, SW.PreviousProportion, F.WindowIndex, F.ResetAfter, SW.Look;
    if !c.algorithm.IsBucket() {
      var p := c.quota.periodSec;
      var cur, prev := F.CurrentKey(r.user, r.now, p), SW.PreviousKey(r.user, r.now, p);
      assert Ideal.Cell(m, cur) == Ideal.Cell(n, cur) && Ideal.Cell(m, prev) == Ideal.Cell(n, prev);
      assert cur in m <==> cur in n;
    }
  }

  lemma OtherRequest(c: Config, m: Ideal.Memory, r: Request, user: string)
    requires c.quota.Valid() && r.user != user
    ensures SameFor(Ideal.Serve(c, m, r).0, m, user)
  {
    hide Ideal.CellServe, SW.Decide, F.Report, SW.PreviousProportion, F.WindowIndex, F.ResetAfter, SW.Look;
  }

  lemma {:induction false} OwnRunOnMap(cs: Configs, m: Ideal.Memory, n: Ideal.Memory, rs: seq<Request>, user: string)
    requires ValidConfigs(cs) && UsersKnown(cs, rs) && user in cs && SameFor(m, n, user)
    ensures UsersKnown(One(cs[user], user), Own(rs, user))
    ensures OwnAnswers(rs, Ideal.Run(cs, m, rs), user) == Ideal.Run(One(cs[user], user), n, Own(rs, user))
    decreases |rs|
  {
    hide Ideal.Serve, SameFor;
    if rs != [] {
      var r, one := rs[0], One(cs[user], user);
      var (m', a) := Ideal.Serve(cs[r.user], m, r);
      assert Ideal.Run(cs, m, rs)[1..] == Ideal.Run(cs, m', rs[1..]);
      if r.user == user {
        OwnRequest(cs[user], m, n, r);
        var n' := Ideal.Serve(cs[user], n, r).0;
        OwnRunOnMap(cs, m', n', rs[1..], user);
        assert ([r] + Own(rs[1..], user))[1..] == Own(rs[1..], user);
      } else {
        OtherRequest(cs[r.user], m, r, user);
        SameForJoins(m', m, n, user);
        OwnRunOnMap(cs, m', n, rs[1..], user);
      }
    }
  }

  lemma SameForJoins(l: Ideal.Memory, m: Ideal.Memory, n: Ideal.Memory, user: string)
    requires SameFor(l, m, user) && SameFor(m, n, user)
    ensures SameFor(l, n, user)
  {
  }

  lemma {:induction false} OwnRunIsValid(cs: Configs, start: real, early: real, rs: seq<Request>, user: string)
    requires ValidRun(cs, start, rs) && user in cs && early <= start
    ensures ValidRun(One(cs[user], user), early, Own(rs, user))
    decreases |rs|
  {
    if rs != [] {
      var rest := Own(rs[1..], user);
      if rs[0].user == user {
        OwnRunIsValid(cs, rs[0].now, rs[0].now, rs[1..], user);
        assert ([rs[0]] + rest)[1..] == rest;
      } else {
        OwnRunIsValid(cs, rs[0].now, early, rs[1..], user);
      }
    }
  }

  lemma {:induction false} OwnCost(rs: seq<Request>, answers: seq<Response>, user: string, lo: real, hi: real)
    requires |answers| == |rs|
    ensures AdmittedCost(Own(rs, user), OwnAnswers(rs, answers, user), user, lo, hi) ==
      AdmittedCost(rs, answers, user, lo, hi)
    decreases |rs|
  {
    if rs != [] {
      OwnCost(rs[1..], answers[1..], user, lo, hi);
      var own, mine := Own(rs, user), OwnAnswers(rs, answers, user);
      if rs[0].user == user {
        assert own[1..] == Own(rs[1..], user) && mine[1..] == OwnAnswers(rs[1..], answers[1..], user);
      }
    }
  }

  /** Main result: on a store with room, whatever other limiters share it, a user's answers are those the user's own
      requests get alone on a map that never forgets. */
  lemma OthersDoNotShow(cs: Configs, room: Room, s: Store, m: Ideal.Memory, start: real, rs: seq<Request>, user: string)
    requires ValidConfigs(cs) && Simulates(cs, room, s, m, start) && Lasts(cs, room, s, m, rs)
    requires ValidRun(cs, start, rs) && user in cs
    ensures UsersKnown(cs, rs) && ValidRun(One(cs[user], user), start, Own(rs, user))
    ensures UsersKnown(One(cs[user], user), Own(rs, user))
    ensures OwnAnswers(rs, Run(cs, s, rs), user) == Ideal.Run(One(cs[user], user), m, Own(rs, user))
  {
    hide Simulates, Lasts, ValidRun, Run, Ideal.Run, Own, OwnAnswers;
    StoreIsTransparent(cs, room, s, m, start, rs);
    OwnRunIsValid(cs, start, start, rs, user);
    OwnRunOnMap(cs, m, m, rs, user);
  }
}
