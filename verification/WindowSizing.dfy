/** Three entries a user are needed: on two, the sliding window evicts a count it still has to read. */
module WindowSizing {
  import opened Base
  import opened Store
  import opened Limiters
  import Ideal
  import F = FixedWindow
  import SW = SlidingWindow
  import W = WindowRecency

  /** At the very start of window `i`. */
  function Start(q: Quota, i: nat): real { (i * q.periodSec) as real }

  lemma StartOfWindow(q: Quota, i: nat)
    requires q.Valid()
    ensures F.WindowIndex(Start(q, i), q.periodSec) == i
    ensures SW.PreviousProportion(Millis(Start(q, i)), q.periodSec) == 1.0
  {
    var p := q.periodSec;
    Divide(i, p);
    var ms := i * (p * 1000);
    assert Start(q, i) * 1000.0 == (i * p * 1000) as real;
    assert Millis(Start(q, i)) == i * p * 1000 == ms;
    Divide(i, p * 1000);
  }

  lemma Divide(i: nat, d: int)
    requires d >= 1
    ensures (i * d) / d == i && (i * d) % d == 0
  {
    var x := i * d;
    var k := x / d;
    assert x == k * d + x % d;
    if k < i { W.MulInt(k + 1, i, d); }
    if k > i { W.MulInt(i + 1, k, d); }
  }

  /** The store after: a free request in window 0, one for the whole limit in window 1. */
  function TwoWindows(q: Quota, user: string): Store
    requires q.Valid()
  {
    Store(2, [Window(user, 1), Window(user, 0)],
          map[Window(user, 0) := IntVal(0), Window(user, 1) := IntVal(q.limit)],
          map[Window(user, 0) := Start(q, 3), Window(user, 1) := Start(q, 4)])
  }

  lemma FirstRequest(q: Quota, user: string)
    requires q.Valid()
    ensures SW.LimitOn(EmptyStore(2), user, q, 0, Start(q, 0)).0 ==
      Store(2, [Window(user, 0)], map[Window(user, 0) := IntVal(0)], map[Window(user, 0) := Start(q, 3)])
  {
    StartOfWindow(q, 0);
    hide F.WindowIndex, SW.PreviousProportion, Millis, SW.RetryAfter;
  }

  lemma SecondRequest(q: Quota, user: string)
    requires q.Valid()
    ensures var key := Window(user, 0);
      var s := Store(2, [key], map[key := IntVal(0)], map[key := Start(q, 3)]);
      SW.LimitOn(s, user, q, q.limit, Start(q, 1)).0 == TwoWindows(q, user)
  {
    var s := Store(2, [Window(user, 0)], map[Window(user, 0) := IntVal(0)], map[Window(user, 0) := Start(q, 3)]);
    StartOfWindow(q, 1);
    hide F.WindowIndex, SW.PreviousProportion, Millis, SW.RetryAfter;
    var now := Start(q, 1);
    var cur, prev := F.CurrentKey(user, now, q.periodSec), SW.PreviousKey(user, now, q.periodSec);
    DeleteAbsent(s, cur);
    assert Get(s, cur, now) == (s, Ok(None));
    var s2 := Set(s, cur, IntVal(q.limit), 3 * q.periodSec, now);
    assert Without([Window(user, 0)], cur) == [Window(user, 0)];
    assert s2 == Store(2, [Window(user, 0), cur], map[Window(user, 0) := IntVal(0), cur := IntVal(q.limit)],
                       map[Window(user, 0) := Start(q, 3), cur := Start(q, 4)]);
    assert Without(s2.order, prev) == [cur] by {
      assert s2.order[1..] == [cur];
      assert Without([cur], prev) == [cur];
    }
    assert Get(s2, prev, now) == (MoveToEnd(s2, prev), Ok(Some(IntVal(0))));
  }

  /** In window 2 the store has dropped window 1's count and admits what the map refuses. */
  lemma ThirdRequest(q: Quota, user: string)
    requires q.Valid()
    ensures SW.LimitOn(TwoWindows(q, user), user, q, 1, Start(q, 2)).1.Admits()
  {
    StartOfWindow(q, 2);
    hide F.WindowIndex, SW.PreviousProportion, Millis, SW.RetryAfter;
    var s, now := TwoWindows(q, user), Start(q, 2);
    var cur, prev := F.CurrentKey(user, now, q.periodSec), SW.PreviousKey(user, now, q.periodSec);
    DeleteAbsent(s, cur);
    assert Get(s, cur, now) == (s, Ok(None));
    assert prev == s.order[0];
    var s2 := Set(s, cur, IntVal(1), 3 * q.periodSec, now);
    assert prev !in s2.entries && prev !in s2.expireInfo;
    assert Get(s2, prev, now).1 == Ok(None);
  }

  /** The map still has window 1's count when window 2 opens. */
  lemma IdealRefuses(q: Quota, user: string)
    requires q.Valid()
    ensures var c, none: Ideal.Memory := Config(SLIDING_WINDOW, q), map[];
      var m1 := Ideal.Serve(c, none, Limit(user, 0, Start(q, 0))).0;
      var m2 := Ideal.Serve(c, m1, Limit(user, q.limit, Start(q, 1))).0;
      !Ideal.Serve(c, m2, Limit(user, 1, Start(q, 2))).1.Admits()
  {
    StartOfWindow(q, 0);
    StartOfWindow(q, 1);
    StartOfWindow(q, 2);
    hide F.WindowIndex, SW.PreviousProportion, Millis, SW.RetryAfter, Start;
  }

  lemma StartsInOrder(q: Quota)
    requires q.Valid()
    ensures 0.0 == Start(q, 0) <= Start(q, 1) <= Start(q, 2)
  {
  }

  lemma ThreeRequests(cs: Configs, s: Store, m: Ideal.Memory, r0: Request, r1: Request, r2: Request)
    requires ValidConfigs(cs) && r0.user in cs && r1.user in cs && r2.user in cs
    ensures UsersKnown(cs, [r0, r1, r2])
    ensures var s1 := Serve(cs[r0.user], s, r0).0;
      Run(cs, s, [r0, r1, r2])[2] == Serve(cs[r2.user], Serve(cs[r1.user], s1, r1).0, r2).1
    ensures var m1 := Ideal.Serve(cs[r0.user], m, r0).0;
      Ideal.Run(cs, m, [r0, r1, r2])[2] == Ideal.Serve(cs[r2.user], Ideal.Serve(cs[r1.user], m1, r1).0, r2).1
  {
    hide Serve, Ideal.Serve;
    var two := [r0, r1];
    assert [r0, r1, r2] == two + [r2];
    RunThenOne(cs, s, two, r2);
    Ideal.RunThenOne(cs, m, two, r2);
    hide Run, Ideal.Run;
    TwoThenStore(cs, s, m, r0, r1);
  }

  lemma TwoThenStore(cs: Configs, s: Store, m: Ideal.Memory, r0: Request, r1: Request)
    requires ValidConfigs(cs) && r0.user in cs && r1.user in cs
    ensures UsersKnown(cs, [r0, r1])
    ensures Final(cs, s, [r0, r1]) == Serve(cs[r1.user], Serve(cs[r0.user], s, r0).0, r1).0
    ensures Ideal.Final(cs, m, [r0, r1]) == Ideal.Serve(cs[r1.user], Ideal.Serve(cs[r0.user], m, r0).0, r1).0
  {
    hide Serve, Ideal.Serve;
    var s1, m1 := Serve(cs[r0.user], s, r0).0, Ideal.Serve(cs[r0.user], m, r0).0;
    assert [r0, r1][1..] == [r1] && [r1][1..] == [];
    assert Final(cs, s1, [r1]) == Serve(cs[r1.user], s1, r1).0;
    assert Ideal.Final(cs, m1, [r1]) == Ideal.Serve(cs[r1.user], m1, r1).0;
  }

  lemma ThreeInOrder(cs: Configs, r0: Request, r1: Request, r2: Request)
    requires r0.user in cs && r1.user in cs && r2.user in cs && 0.0 <= r0.now <= r1.now <= r2.now
    ensures ValidRun(cs, 0.0, [r0, r1, r2])
  {
    assert [r0, r1, r2][1..] == [r1, r2] && [r1, r2][1..] == [r2] && [r2][1..] == [];
    assert ValidRun(cs, r2.now, []);
    assert ValidRun(cs, r1.now, [r2]);
    assert ValidRun(cs, r0.now, [r1, r2]);
  }

  /** One user, three requests: on a store of two entries the third is admitted, on the map it is not. */
  lemma SlidingNeedsThreeEntries(q: Quota, user: string)
    requires q.Valid()
    ensures var cs: Configs := map[user := Config(SLIDING_WINDOW, q)];
      var rs := [Limit(user, 0, Start(q, 0)), Limit(user, q.limit, Start(q, 1)), Limit(user, 1, Start(q, 2))];
      && ValidConfigs(cs) && UsersKnown(cs, rs) && ValidRun(cs, 0.0, rs)
      && Run(cs, EmptyStore(2), rs)[2].Admits() && !Ideal.Run(cs, map[], rs)[2].Admits()
  {
    var cs: Configs := map[user := Config(SLIDING_WINDOW, q)];
    var r0, r1, r2 := Limit(user, 0, Start(q, 0)), Limit(user, q.limit, Start(q, 1)), Limit(user, 1, Start(q, 2));
    StartsInOrder(q);
    StoreAdmits(q, user);
    IdealRefuses(q, user);
    hide Start, Serve, Ideal.Serve, Run, Ideal.Run, ValidRun;
    ThreeRequests(cs, EmptyStore(2), map[], r0, r1, r2);
    ThreeInOrder(cs, r0, r1, r2);
  }

  lemma StoreAdmits(q: Quota, user: string)
    requires q.Valid()
    ensures var c := Config(SLIDING_WINDOW, q);
      var s1 := Serve(c, EmptyStore(2), Limit(user, 0, Start(q, 0))).0;
      var s2 := Serve(c, s1, Limit(user, q.limit, Start(q, 1))).0;
      Serve(c, s2, Limit(user, 1, Start(q, 2))).1.Admits()
  {
    FirstRequest(q, user);
    SecondRequest(q, user);
    ThirdRequest(q, user);
    hide Start, SW.LimitOn, TwoWindows;
  }
}
