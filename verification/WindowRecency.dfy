/** Windows in clock order and in recency order, and how many of their counters a store must hold. */
module WindowRecency {
  import opened Base
  import opened Store
  import opened Limiters
  import F = FixedWindow

  /** How many of the latest windows a decision reads. */
  function Depth(c: Config): int { if c.algorithm.FIXED_WINDOW? then 1 else 2 }

  /** Entries per user the store must hold: the windows read now and the ones read beside them. */
  function Slots(c: Config): int { 2 * Depth(c) - 1 }

  ghost predicate IsWindow(c: Config) { c.quota.Valid() && !c.algorithm.IsBucket() }

  ghost predicate AllUse(cs: Configs, c: Config) { forall u :: u in cs ==> cs[u] == c }

  /** Later entries are never older than `slack` windows before any entry in front of them. */
  ghost predicate RecencyFollowsWindows(order: seq<Key>, slack: int) {
    order == [] || (order[0].Window?
      && (forall k :: k in order[1..] ==> k.Window? && k.index >= order[0].index - slack)
      && RecencyFollowsWindows(order[1..], slack))
  }

  lemma {:induction false} RecencyAppend(order: seq<Key>, slack: int, key: Key)
    requires RecencyFollowsWindows(order, slack) && key.Window?
    requires forall k :: k in order ==> k.Window? && key.index >= k.index - slack
    ensures RecencyFollowsWindows(order + [key], slack)
  {
    if order != [] {
      RecencyAppend(order[1..], slack, key);
      assert (order + [key])[1..] == order[1..] + [key];
    } else {
      assert (order + [key])[1..] == [];
    }
  }

  lemma {:induction false} RecencyWithout(order: seq<Key>, slack: int, key: Key)
    requires RecencyFollowsWindows(order, slack)
    ensures RecencyFollowsWindows(Without(order, key), slack)
  {
    if order != [] {
      RecencyWithout(order[1..], slack, key);
      if order[0] != key {
        var r := Without(order[1..], key);
        assert Without(order, key) == [order[0]] + r;
        assert ([order[0]] + r)[1..] == r;
      }
    }
  }

  lemma WindowsAdvance(now: real, later: real, p: int)
    requires now <= later && p >= 1
    ensures F.WindowIndex(now, p) <= F.WindowIndex(later, p)
    ensures (F.WindowIndex(now, p) * p) as real <= now < ((F.WindowIndex(now, p) + 1) * p) as real
  {
    FloorMonotone(now, later);
    IndexOrder(Seconds(now), Seconds(later), p);
    IndexBounds(Seconds(now), p);
  }

  lemma IndexBounds(x: int, p: int)
    requires p >= 1
    ensures (x / p) * p <= x < (x / p + 1) * p
  {
    var i := x / p;
    assert x == i * p + x % p;
    assert (i + 1) * p == i * p + p;
  }

  lemma IndexOrder(x: int, y: int, p: int)
    requires x <= y && p >= 1
    ensures x / p <= y / p
  {
    IndexBounds(x, p);
    IndexBounds(y, p);
    var i, j := x / p, y / p;
    if j < i { MulInt(j + 1, i, p); }
  }

  lemma MulInt(a: int, b: int, p: int)
    requires a <= b && p >= 0
    ensures a * p <= b * p
  {
  }

  /** Whole periods move a time whole windows on, and to the same place in its window. */
  lemma PeriodsOn(now: real, n: int, p: int)
    requires p >= 1
    ensures F.WindowIndex(now + (n * p) as real, p) == F.WindowIndex(now, p) + n
    ensures Millis(now + (n * p) as real) == Millis(now) + n * (p * 1000)
  {
    FloorShift(now, n * p);
    FloorShift(now * 1000.0, n * (p * 1000));
    assert (now + (n * p) as real) * 1000.0 == now * 1000.0 + (n * (p * 1000)) as real;
    AddMultiple(Seconds(now), n, p);
  }

  lemma AddMultiple(x: int, n: int, d: int)
    requires d >= 1
    ensures (x + n * d) / d == x / d + n && (x + n * d) % d == x % d
  {
    var y := x + n * d;
    var k := y / d - (x / d + n);
    assert x == (x / d) * d + x % d && y == (y / d) * d + y % d;
    assert (y / d) * d == k * d + (x / d) * d + n * d;
    if k > 0 { MulInt(1, k, d); }
    if k < 0 { MulInt(k, -1, d); }
  }

  // ----- counting the entries that can still matter

  ghost function WindowKeys(users: set<string>, index: int): set<Key> {
    set u | u in users :: Window(u, index)
  }

  lemma {:induction false} WindowKeysCount(users: set<string>, index: int)
    ensures |WindowKeys(users, index)| == |users|
    decreases |users|
  {
    if users != {} {
      var u :| u in users;
      WindowKeysCount(users - {u}, index);
      assert WindowKeys(users, index) == WindowKeys(users - {u}, index) + {Window(u, index)};
    }
  }

  ghost function KeysBetween(users: set<string>, lo: int, n: nat): set<Key> {
    if n == 0 then {} else KeysBetween(users, lo, n - 1) + WindowKeys(users, lo + n - 1)
  }

  lemma {:induction false} KeysBetweenMembers(users: set<string>, lo: int, n: nat)
    ensures forall k :: k in KeysBetween(users, lo, n) <==> k.Window? && k.user in users && lo <= k.index < lo + n
  {
    if n > 0 { KeysBetweenMembers(users, lo, n - 1); }
  }

  lemma {:induction false} KeysBetweenCount(users: set<string>, lo: int, n: nat)
    ensures |KeysBetween(users, lo, n)| == |users| * n
  {
    hide WindowKeys;
    if n > 0 {
      KeysBetweenCount(users, lo, n - 1);
      LatestWindowAdds(users, lo, n);
      hide KeysBetween;
      assert |users| * n == |users| * (n - 1) + |users|;
    }
  }

  lemma LatestWindowAdds(users: set<string>, lo: int, n: nat)
    requires n > 0
    ensures |KeysBetween(users, lo, n)| == |KeysBetween(users, lo, n - 1)| + |users|
  {
    hide WindowKeys;
    WindowKeysCount(users, lo + n - 1);
    LatestWindowIsNew(users, lo, n);
    DisjointUnionCount(KeysBetween(users, lo, n - 1), WindowKeys(users, lo + n - 1));
  }

  lemma LatestWindowIsNew(users: set<string>, lo: int, n: nat)
    requires n > 0
    ensures KeysBetween(users, lo, n - 1) !! WindowKeys(users, lo + n - 1)
  {
    KeysBetweenMembers(users, lo, n - 1);
    hide KeysBetween;
  }

  lemma DisjointUnionCount(a: set<Key>, b: set<Key>)
    requires a !! b
    ensures |a + b| == |a| + |b|
  {
  }
}
