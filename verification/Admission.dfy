/** Counting what a run admits. */
module Admission {
  import opened Base
  import opened Store
  import opened Limiters
  import Ideal

  /** The cost of one request if it was admitted, for `user`, within [lo, hi]. */
  function AdmittedBy(r: Request, a: Response, user: string, lo: real, hi: real): nat {
    if r.Limit? && a.Admits() && r.user == user && lo <= r.now <= hi then r.cost else 0
  }

  /** The total cost `user` was admitted within [lo, hi]. */
  function AdmittedCost(rs: seq<Request>, answers: seq<Response>, user: string, lo: real, hi: real): nat
    requires |answers| == |rs|
    decreases |rs|
  {
    if rs == [] then 0
    else AdmittedBy(rs[0], answers[0], user, lo, hi) + AdmittedCost(rs[1..], answers[1..], user, lo, hi)
  }

  lemma AdmittedStep(cs: Configs, m: Ideal.Memory, rs: seq<Request>, user: string, lo: real, hi: real)
    requires ValidConfigs(cs) && UsersKnown(cs, rs) && rs != []
    ensures UsersKnown(cs, rs[1..])
    ensures var (m', a) := Ideal.Serve(cs[rs[0].user], m, rs[0]);
      AdmittedCost(rs, Ideal.Run(cs, m, rs), user, lo, hi) ==
        AdmittedBy(rs[0], a, user, lo, hi) + AdmittedCost(rs[1..], Ideal.Run(cs, m', rs[1..]), user, lo, hi)
  {
    var (m', a) := Ideal.Serve(cs[rs[0].user], m, rs[0]);
    assert Ideal.Run(cs, m, rs)[1..] == Ideal.Run(cs, m', rs[1..]);
  }

  /** A request touches no bucket but its own user's, whatever its limiter. */
  lemma OthersKeepTheirCell(c: Config, m: Ideal.Memory, r: Request, user: string)
    requires c.quota.Valid() && r.user != user
    ensures Ideal.Cell(Ideal.Serve(c, m, r).0, Plain(user)) == Ideal.Cell(m, Plain(user))
  {
  }
}

/** GCRA never admits more than its burst and its rate allow, in any interval of any run. */
module GcraRate {
  import opened Base
  import opened Store
  import opened Limiters
  import opened Admission
  import opened Transparency
  import Ideal
  import G = Gcra
  import B = BucketCells

  /** The admission test in its exact form: the new TAT must not run more than the burst ahead of the clock. */
  lemma AdmissionTest(lastTat: real, ei: real, capacity: int, cost: int, now: real)
    requires ei > 0.0
    ensures var v := G.Decide(lastTat, ei, capacity, cost, now);
      var tat := Max(now, lastTat) + cost as real * ei;
      && (v.limited <==> tat > now + capacity as real * ei)
      && v.newTat == if v.limited || tat <= now then None else Some(tat)
  {
    var x := now - Max(now, lastTat);
    DivBounds(x, ei, (cost - capacity) as real);
    assert (cost - capacity) as real * ei == cost as real * ei - capacity as real * ei;
  }

  /** How far the key's TAT already reaches into an interval starting at `lo`. */
  function Reach(cell: Option<Value>, lo: real): real {
    match cell case Some(FloatVal(tat)) => (if tat == 0.0 then lo else Max(tat, lo)) case _ => lo
  }

  /** What one request of the user consumes of the interval [lo, hi]. */
  lemma StepBound(c: Config, m: Ideal.Memory, r: Request, user: string, lo: real, hi: real, ei: real)
    requires c.quota.Valid() && c.algorithm.GCRA? && ei == c.quota.EmissionInterval() > 0.0 && r.user == user
    requires B.CellTyped(c, Ideal.Cell(m, Plain(user)), r.now)
    requires 0.0 <= r.now && 0.0 <= lo <= hi
    ensures var (m', a) := Ideal.Serve(c, m, r);
      var e, e' := Reach(Ideal.Cell(m, Plain(user)), lo), Reach(Ideal.Cell(m', Plain(user)), lo);
      var n := AdmittedBy(r, a, user, lo, hi);
      && e + n as real * ei <= e'
      && (n > 0 ==> e' <= hi + c.quota.burst as real * ei)
      && B.CellTyped(c, Ideal.Cell(m', Plain(user)), r.now)
  {
    hide Quota.EmissionInterval, G.Decide, G.Look;
    var cell, q := Ideal.Cell(m, Plain(user)), c.quota;
    if r.Limit? {
      AdmissionTest(G.LastTat(cell, r.now), ei, q.burst, r.cost, r.now);
      MulMonotone(0.0, r.cost as real, ei);
    }
  }

  lemma {:induction false} RunBound(cs: Configs, m: Ideal.Memory, start: real, rs: seq<Request>,
                                    user: string, lo: real, hi: real, ei: real)
    requires ValidConfigs(cs) && ValidRun(cs, start, rs) && UsersKnown(cs, rs) && user in cs
    requires cs[user].algorithm.GCRA? && ei == cs[user].quota.EmissionInterval() > 0.0
    requires B.CellTyped(cs[user], Ideal.Cell(m, Plain(user)), start)
    requires 0.0 <= start && 0.0 <= lo <= hi
    ensures var n := AdmittedCost(rs, Ideal.Run(cs, m, rs), user, lo, hi);
      n > 0 ==> Reach(Ideal.Cell(m, Plain(user)), lo) + n as real * ei <= hi + cs[user].quota.burst as real * ei
    decreases |rs|
  {
    hide Ideal.Serve, Ideal.Run, AdmittedCost, AdmittedBy;
    if rs != [] {
      var r := rs[0];
      var c := cs[r.user];
      var (m', a) := Ideal.Serve(c, m, r);
      AdmittedStep(cs, m, rs, user, lo, hi);
      var n, rest := AdmittedBy(r, a, user, lo, hi), AdmittedCost(rs[1..], Ideal.Run(cs, m', rs[1..]), user, lo, hi);
      if r.user == user {
        StepBound(c, m, r, user, lo, hi, ei);
      } else {
        OthersKeepTheirCell(c, m, r, user);
        OthersCountNothing(r, a, user, lo, hi);
      }
      RunBound(cs, m', r.now, rs[1..], user, lo, hi, ei);
      assert (n + rest) as real * ei == n as real * ei + rest as real * ei;
    } else {
      NothingAdmitted(user, lo, hi);
    }
  }

  lemma OthersCountNothing(r: Request, a: Response, user: string, lo: real, hi: real)
    requires r.user != user
    ensures AdmittedBy(r, a, user, lo, hi) == 0
  {
  }

  lemma NothingAdmitted(user: string, lo: real, hi: real)
    ensures AdmittedCost([], [], user, lo, hi) == 0
  {
  }

  lemma MapRate(cs: Configs, m: Ideal.Memory, start: real, rs: seq<Request>, user: string, lo: real, hi: real)
    requires ValidConfigs(cs) && ValidRun(cs, start, rs) && UsersKnown(cs, rs) && user in cs && cs[user].algorithm.GCRA?
    requires B.CellTyped(cs[user], Ideal.Cell(m, Plain(user)), start) && 0.0 <= start && 0.0 <= lo <= hi
    ensures cs[user].quota.EmissionInterval() > 0.0
    ensures AdmittedCost(rs, Ideal.Run(cs, m, rs), user, lo, hi) as real
         <= cs[user].quota.burst as real + (hi - lo) / cs[user].quota.EmissionInterval()
  {
    hide Ideal.Run, AdmittedCost, Reach, ValidRun, UsersKnown, Quota.EmissionInterval, B.CellTyped;
    var q, ei := cs[user].quota, cs[user].quota.EmissionInterval();
    RatesAreReciprocal(q);
    RunBound(cs, m, start, rs, user, lo, hi, ei);
    ReachIsAtLeast(Ideal.Cell(m, Plain(user)), lo);
    FromUnits(AdmittedCost(rs, Ideal.Run(cs, m, rs), user, lo, hi), q.burst, lo, hi, ei);
  }

  /** Main result: on a store with room for its keys, whatever limiters share it, GCRA admits at most
      burst + (hi - lo) / emission_interval in [lo, hi]. */
  lemma GcraRateSafety(cs: Configs, room: Room, s: Store, m: Ideal.Memory, start: real, rs: seq<Request>,
                       user: string, lo: real, hi: real)
    requires ValidConfigs(cs) && Simulates(cs, room, s, m, start) && Lasts(cs, room, s, m, rs)
    requires ValidRun(cs, start, rs) && 0.0 <= start && 0.0 <= lo <= hi
    requires user in cs && cs[user].algorithm.GCRA?
    ensures UsersKnown(cs, rs)
    ensures AdmittedCost(rs, Run(cs, s, rs), user, lo, hi) as real
         <= cs[user].quota.burst as real + (hi - lo) / cs[user].quota.EmissionInterval()
  {
    CellOfSimulation(cs, room, s, m, start, user);
    RatesAreReciprocal(cs[user].quota);
    hide *;
    StoreIsTransparent(cs, room, s, m, start, rs);
    MapRate(cs, m, start, rs, user, lo, hi);
  }

  lemma CellOfSimulation(cs: Configs, room: Room, s: Store, m: Ideal.Memory, now: real, user: string)
    requires ValidConfigs(cs) && Simulates(cs, room, s, m, now) && user in cs
    ensures B.CellTyped(cs[user], Ideal.Cell(m, Plain(user)), now)
  {
    assert Agrees(cs, room, s, m, now, Plain(user));
  }

  lemma ReachIsAtLeast(cell: Option<Value>, lo: real)
    ensures Reach(cell, lo) >= lo
  {
  }

  lemma FromUnits(n: nat, burst: int, lo: real, hi: real, ei: real)
    requires ei > 0.0 && lo <= hi && burst >= 0
    requires n > 0 ==> lo + n as real * ei <= hi + burst as real * ei
    ensures n as real <= burst as real + (hi - lo) / ei
  {
    DivBounds(hi - lo, ei, (n - burst) as real);
    DivBounds(hi - lo, ei, 0.0);
    assert (n - burst) as real * ei == n as real * ei - burst as real * ei;
  }
}
