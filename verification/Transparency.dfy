/** All five limiters, in any mix: given room, the store's expiry and eviction never show. */
module Transparency {
  import opened Base
  import opened Store
  import opened Limiters
  import Ideal
  import G = Gcra
  import T = TokenBucket
  import L = LeakingBucket
  import F = FixedWindow
  import SW = SlidingWindow
  import B = BucketCells
  import Lru
  import W = WindowRecency

  /** Why a store is large enough: it has an entry for every key that will be written; or it serves one window limiter
      alone and has `Slots` entries a user, so that only windows nobody reads again are evicted; or no key is read again
      after as many other keys, the keys touched so far being these, in order. */
  datatype Room = Enough(keys: set<Key>) | WindowsAlone(config: Config) | Recent(touched: seq<Key>)

  /** The room once one more key is touched. */
  function Touched(room: Room, key: Key): Room {
    match room case Recent(touched) => Recent(touched + [key]) case _ => room
  }

  /** The other keys touched since `key` was last. */
  function Since(touched: seq<Key>, key: Key): set<Key> {
    if touched == [] then {} else
    var last := touched[|touched| - 1];
    if last == key then {} else Since(touched[..|touched| - 1], key) + {last}
  }

  lemma SinceAppend(touched: seq<Key>, key: Key, last: Key)
    ensures Since(touched + [last], key) == if last == key then {} else Since(touched, key) + {last}
  {
    assert (touched + [last])[..|touched|] == touched;
  }

  /** As many other keys were touched since as the store holds. */
  ghost predicate Lost(room: Room, maxSize: nat, key: Key) {
    room.Recent? && |Since(room.touched, key)| >= maxSize
  }

  // ----- one key

  /** The value is one its user's limiter writes under this key. */
  ghost predicate Typed(cs: Configs, k: Key, v: Value, now: real)
    requires ValidConfigs(cs)
  {
    k.user in cs &&
    match k
    case Plain(u) => cs[u].algorithm.IsBucket() && B.CellOk(cs[u], v, now)
    case Window(u, i) => W.IsWindow(cs[u]) && v.IntVal? && i <= F.WindowIndex(now, cs[u].quota.periodSec)
  }

  /** From `t` on no decision tells the value from none at all. */
  ghost predicate Dead(cs: Configs, k: Key, v: Value, t: real)
    requires ValidConfigs(cs) && Typed(cs, k, v, t)
  {
    match k
    case Plain(u) => B.Dead(cs[u], v, t)
    case Window(u, i) => i <= F.WindowIndex(t, cs[u].quota.periodSec) - W.Depth(cs[u])
  }

  ghost predicate DiesBy(cs: Configs, k: Key, v: Value, t: real)
    requires ValidConfigs(cs)
  {
    Typed(cs, k, v, t) && Dead(cs, k, v, t)
  }

  lemma TypedStays(cs: Configs, k: Key, v: Value, now: real, later: real)
    requires ValidConfigs(cs) && Typed(cs, k, v, now) && now <= later
    ensures Typed(cs, k, v, later)
    ensures Dead(cs, k, v, now) ==> Dead(cs, k, v, later)
  {
    if k.Window? { W.WindowsAdvance(now, later, cs[k.user].quota.periodSec); }
    else if Dead(cs, k, v, now) { B.DeadStays(cs[k.user], v, now, later); }
  }

  // ----- the store simulates the map

  /** What the store lacks is dead, or lost; what it has is the map's value, and dies no later than it expires. */
  ghost predicate Agrees(cs: Configs, room: Room, s: Store, m: Ideal.Memory, now: real, k: Key)
    requires ValidConfigs(cs)
  {
    && (k in s.expireInfo <==> k in s.entries)
    && (k in s.entries ==> k in m && m[k] == s.entries[k] && DiesBy(cs, k, m[k], s.expireInfo[k]))
    && (k in m ==> Typed(cs, k, m[k], now))
    && (k in m && k !in s.entries ==> Dead(cs, k, m[k], now) || Lost(room, s.maxSize, k))
  }

  ghost predicate HasRoom(cs: Configs, room: Room, s: Store) {
    match room
    case Enough(keys) => |keys| <= s.maxSize && forall k :: k in s.entries ==> k in keys
    case WindowsAlone(c) =>
      && W.IsWindow(c) && W.AllUse(cs, c) && |cs| * W.Slots(c) <= s.maxSize
      && W.RecencyFollowsWindows(s.order, W.Depth(c) - 1)
    case Recent(touched) => BehindTouched(s.order, touched)
  }

  /** What is behind a key in recency order was touched since. */
  ghost predicate BehindTouched(order: seq<Key>, touched: seq<Key>) {
    forall k, j :: k in order && j in Lru.Behind(order, k) ==> j in Since(touched, k)
  }

  ghost predicate Simulates(cs: Configs, room: Room, s: Store, m: Ideal.Memory, now: real)
    requires ValidConfigs(cs)
  {
    s.Valid() && HasRoom(cs, room, s) && forall k :: Agrees(cs, room, s, m, now, k)
  }

  lemma SimulationWaits(cs: Configs, room: Room, s: Store, m: Ideal.Memory, now: real, later: real)
    requires ValidConfigs(cs) && Simulates(cs, room, s, m, now) && now <= later
    ensures Simulates(cs, room, s, m, later)
  {
    hide Typed, Dead, HasRoom;
    forall k ensures Agrees(cs, room, s, m, later, k) {
      assert Agrees(cs, room, s, m, now, k);
      if k in m { TypedStays(cs, k, m[k], now, later); }
    }
  }

  // ----- reading

  /** A key of the window limiters that a decision may read now. */
  ghost predicate Consulted(cs: Configs, key: Key, now: real)
    requires ValidConfigs(cs)
  {
    && key.Window? && key.user in cs && W.IsWindow(cs[key.user])
    && key.index > F.WindowIndex(now, cs[key.user].quota.periodSec) - W.Depth(cs[key.user])
  }

  /** A key is read while it matters: if it is still live, it is not lost. */
  ghost predicate Timely(cs: Configs, room: Room, maxSize: nat, m: Ideal.Memory, now: real, key: Key)
    requires ValidConfigs(cs)
  {
    key in m && Typed(cs, key, m[key], now) && !Dead(cs, key, m[key], now) ==> !Lost(room, maxSize, key)
  }

  /** What a timely read finds is the map's value; what it misses is dead. */
  lemma LookupAgrees(cs: Configs, room: Room, s: Store, m: Ideal.Memory, now: real, key: Key)
    requires ValidConfigs(cs) && Simulates(cs, room, s, m, now) && Timely(cs, room, s.maxSize, m, now, key)
    ensures Lookup(s, key, now).Some? ==> Lookup(s, key, now) == Ideal.Cell(m, key)
    ensures Lookup(s, key, now).None? && key in m ==> Typed(cs, key, m[key], now) && Dead(cs, key, m[key], now)
  {
    hide Typed, Dead, HasRoom, Lost;
    assert Agrees(cs, room, s, m, now, key);
    if key in s.entries && HasExpired(s, key, now) { TypedStays(cs, key, m[key], s.expireInfo[key], now); }
  }

  /** The counters a decision reads are in the store exactly when they were ever written, and unexpired. */
  lemma ReadsTheMap(cs: Configs, room: Room, s: Store, m: Ideal.Memory, now: real, key: Key)
    requires ValidConfigs(cs) && Simulates(cs, room, s, m, now) && Timely(cs, room, s.maxSize, m, now, key)
    requires Consulted(cs, key, now)
    ensures Lookup(s, key, now) == Ideal.Cell(m, key)
    ensures Get(s, key, now) == (B.Touch(s, key, now), Ok(Ideal.Cell(m, key)))
    ensures key in m <==> key in s.entries
    ensures key in m ==> key in B.Touch(s, key, now).entries
  {
    hide Lost, HasRoom;
    LookupAgrees(cs, room, s, m, now, key);
    assert Agrees(cs, room, s, m, now, key);
  }

  lemma TouchSimulates(cs: Configs, room: Room, s: Store, m: Ideal.Memory, now: real, key: Key)
    requires ValidConfigs(cs) && Simulates(cs, room, s, m, now) && Timely(cs, room, s.maxSize, m, now, key)
    requires room.WindowsAlone? ==> Consulted(cs, key, now)
    ensures var s1 := B.Touch(s, key, now);
      s1.maxSize == s.maxSize && Simulates(cs, Touched(room, key), s1, m, now)
  {
    hide Typed, Dead, NoDup, HasRoom, Lost;
    B.TouchedCell(s, key, now);
    LookupAgrees(cs, room, s, m, now, key);
    TouchKeepsRoom(cs, room, s, m, now, key);
    var s1, room1 := B.Touch(s, key, now), Touched(room, key);
    forall k ensures Agrees(cs, room1, s1, m, now, k) {
      assert Agrees(cs, room, s, m, now, k);
      if k != key { LostStays(room, s.maxSize, k, key); }
    }
  }

  lemma LostStays(room: Room, maxSize: nat, k: Key, key: Key)
    requires k != key
    ensures Lost(room, maxSize, k) ==> Lost(Touched(room, key), maxSize, k)
  {
    if room.Recent? {
      SinceAppend(room.touched, k, key);
      SubsetCount(Since(room.touched, k), Since(room.touched + [key], k));
    }
  }

  lemma SubsetCount(a: set<Key>, b: set<Key>)
    requires a <= b
    ensures |a| <= |b|
  {
    assert b == a + (b - a);
  }

  lemma TouchKeepsRoom(cs: Configs, room: Room, s: Store, m: Ideal.Memory, now: real, key: Key)
    requires ValidConfigs(cs) && Simulates(cs, room, s, m, now)
    requires room.WindowsAlone? ==> Consulted(cs, key, now)
    ensures HasRoom(cs, Touched(room, key), B.Touch(s, key, now))
  {
    hide NoDup, Without, W.RecencyFollowsWindows, BehindTouched;
    if room.WindowsAlone? {
      W.RecencyWithout(s.order, W.Depth(room.config) - 1, key);
      assert Agrees(cs, room, s, m, now, key);
      if key in s.entries { RecencyMoves(cs, room, s, m, now, key); }
    }
    if room.Recent? {
      BehindDeleted(s.order, room.touched, key);
      BehindMoved(s.order, room.touched, key);
      BehindGrows(s.order, room.touched, key);
      assert Agrees(cs, room, s, m, now, key);
    }
  }

  // ----- recency order against the keys touched

  lemma BehindGrows(order: seq<Key>, touched: seq<Key>, key: Key)
    requires BehindTouched(order, touched)
    ensures key !in order ==> BehindTouched(order, touched + [key])
  {
    forall k, j | k in order && j in Lru.Behind(order, k) && k != key ensures j in Since(touched + [key], k) {
      SinceAppend(touched, k, key);
    }
  }

  lemma BehindDeleted(order: seq<Key>, touched: seq<Key>, key: Key)
    requires BehindTouched(order, touched)
    ensures BehindTouched(Without(order, key), touched + [key])
  {
    var r := Without(order, key);
    forall k, j | k in r && j in Lru.Behind(r, k) ensures j in Since(touched + [key], k) {
      Lru.BehindWithout(order, k, key);
      SinceAppend(touched, k, key);
    }
  }

  /** The key just touched, moved or put at the warm end. */
  lemma BehindMoved(order: seq<Key>, touched: seq<Key>, key: Key)
    requires BehindTouched(order, touched)
    ensures BehindTouched(Without(order, key) + [key], touched + [key])
  {
    var r := Without(order, key);
    BehindDeleted(order, touched, key);
    forall k, j | k in r + [key] && j in Lru.Behind(r + [key], k) ensures j in Since(touched + [key], k) {
      if k == key { BehindLast(r, key); } else {
        Lru.BehindAppend(r, k, key);
        SinceAppend(touched, k, key);
      }
    }
  }

  lemma {:induction false} BehindLast(order: seq<Key>, key: Key)
    requires key !in order
    ensures Lru.Behind(order + [key], key) == []
  {
    if order != [] {
      assert (order + [key])[1..] == order[1..] + [key];
      BehindLast(order[1..], key);
    }
  }

  /** Moving a counter that is read now to the warm end keeps recency in line with the windows, up to the one before. */
  lemma RecencyMoves(cs: Configs, room: Room, s: Store, m: Ideal.Memory, now: real, key: Key)
    requires ValidConfigs(cs) && Simulates(cs, room, s, m, now) && room.WindowsAlone? && Consulted(cs, key, now)
    requires key.index <= F.WindowIndex(now, cs[key.user].quota.periodSec)
    ensures W.RecencyFollowsWindows(Without(s.order, key) + [key], W.Depth(room.config) - 1)
  {
    var d := W.Depth(room.config) - 1;
    W.RecencyWithout(s.order, d, key);
    forall k | k in Without(s.order, key) ensures k.Window? && key.index >= k.index - d {
      assert k in s.entries && Agrees(cs, room, s, m, now, k);
    }
    W.RecencyAppend(Without(s.order, key), d, key);
  }

  // ----- writing

  /** The room of the store provides for writing this key now. */
  ghost predicate Writable(cs: Configs, room: Room, key: Key, now: real)
    requires ValidConfigs(cs)
  {
    && key.user in cs
    && match room
       case Enough(keys) => key in keys
       case WindowsAlone(c) =>
         Consulted(cs, key, now) && key.index == F.WindowIndex(now, cs[key.user].quota.periodSec)
       case Recent(touched) => touched != [] && touched[|touched| - 1] == key
  }

  /** A store with an entry for every key never evicts. */
  lemma EnoughIsEnough(cs: Configs, room: Room, s: Store, key: Key)
    requires s.Valid() && HasRoom(cs, room, s) && room.Enough? && key in room.keys && key !in s.entries
    ensures |s.order| < s.maxSize
  {
    DistinctKeysCount(s.order, room.keys - {key});
  }

  /** A full store that lacks this window's counter holds, at its cold end, a window too old to be read again. */
  lemma EvictsOnlyOldWindows(cs: Configs, room: Room, s: Store, m: Ideal.Memory, now: real, key: Key)
    requires ValidConfigs(cs) && Simulates(cs, room, s, m, now) && room.WindowsAlone? && Writable(cs, room, key, now)
    requires key !in s.entries && |s.order| >= s.maxSize
    ensures var f := s.order[0]; f in m && Typed(cs, f, m[f], now) && Dead(cs, f, m[f], now)
  {
    var c := room.config;
    var d, users := W.Depth(c) - 1, cs.Keys;
    var f := s.order[0];
    assert f in s.entries && Agrees(cs, room, s, m, now, f);
    if f.index > key.index - W.Depth(c) {
      var lo := key.index - 2 * d;
      W.KeysBetweenCount(users, lo, W.Slots(c));
      W.KeysBetweenMembers(users, lo, W.Slots(c));
      var all := W.KeysBetween(users, lo, W.Slots(c));
      assert key in all;
      forall k | k in s.order ensures k in all - {key} {
        assert Agrees(cs, room, s, m, now, k);
        assert k == s.order[0] || k in s.order[1..];
      }
      DistinctKeysCount(s.order, all - {key});
      assert false;
    }
  }

  /** A full store that lacks the key just touched loses the key that was not touched for longest. */
  lemma EvictsLost(cs: Configs, room: Room, s: Store, key: Key)
    requires s.Valid() && HasRoom(cs, room, s) && room.Recent? && key !in s.entries && |s.order| >= s.maxSize
    requires room.touched != [] && room.touched[|room.touched| - 1] == key
    ensures Lost(room, s.maxSize, s.order[0])
  {
    var f, since := s.order[0], Since(room.touched, s.order[0]);
    Lru.FrontIsOldest(s, f);
    assert key in since;
    forall k | k in s.order[1..] ensures k in since - {key} { assert k in s.order; }
    DistinctKeysCount(s.order[1..], since - {key});
  }

  lemma EvictKeepsRoom(cs: Configs, room: Room, s: Store, key: Key)
    requires s.Valid() && HasRoom(cs, room, s)
    ensures HasRoom(cs, room, CheckAndEvict(s, key))
  {
    if room.Recent? && |s.order| >= s.maxSize && key !in s.entries {
      forall k, j | k in s.order[1..] && j in Lru.Behind(s.order[1..], k) ensures j in Since(room.touched, k) {
        assert s.order[0] != k;
        Lru.BehindPop(s.order, k);
      }
    }
  }

  lemma EvictSimulates(cs: Configs, room: Room, s: Store, m: Ideal.Memory, now: real, key: Key)
    requires ValidConfigs(cs) && Simulates(cs, room, s, m, now) && Writable(cs, room, key, now)
    ensures Simulates(cs, room, CheckAndEvict(s, key), m, now)
  {
    hide Typed, Dead, NoDup, HasRoom, Lost;
    CheckAndEvictValid(s, key);
    EvictKeepsRoom(cs, room, s, key);
    if key !in s.entries && |s.order| >= s.maxSize {
      match room
      case Enough(_) => EnoughIsEnough(cs, room, s, key);
      case WindowsAlone(_) => EvictsOnlyOldWindows(cs, room, s, m, now, key);
      case Recent(_) => EvictsLost(cs, room, s, key);
    }
    forall k ensures Agrees(cs, room, CheckAndEvict(s, key), m, now, k) { assert Agrees(cs, room, s, m, now, k); }
  }

  lemma BehindSet(order: seq<Key>, touched: seq<Key>, key: Key)
    requires BehindTouched(order, touched) && touched != [] && touched[|touched| - 1] == key
    ensures BehindTouched(Without(order, key) + [key], touched)
  {
    var r := Without(order, key);
    forall k, j | k in r + [key] && j in Lru.Behind(r + [key], k) ensures j in Since(touched, k) {
      if k == key { BehindLast(r, key); } else {
        Lru.BehindAppend(r, k, key);
        Lru.BehindWithout(order, k, key);
      }
    }
  }

  /** A key put at the warm end of a store that has a place for it. */
  lemma InsertKeepsRoom(cs: Configs, room: Room, s: Store, m: Ideal.Memory, now: real, key: Key, s': Store)
    requires ValidConfigs(cs) && Simulates(cs, room, s, m, now) && Writable(cs, room, key, now)
    requires s'.maxSize == s.maxSize && s'.order == Without(s.order, key) + [key]
    requires forall k :: k in s'.entries <==> k in s.entries || k == key
    ensures HasRoom(cs, room, s')
  {
    hide W.RecencyFollowsWindows, BehindTouched, Without, NoDup;
    if room.WindowsAlone? { RecencyMoves(cs, room, s, m, now, key); }
    if room.Recent? { BehindSet(s.order, room.touched, key); }
  }

  /** Setting a value that is dead by its timeout keeps the simulation. */
  lemma SetSimulates(cs: Configs, room: Room, s: Store, m: Ideal.Memory, now: real, key: Key, v: Value, ttl: int)
    requires ValidConfigs(cs) && Simulates(cs, room, s, m, now) && Writable(cs, room, key, now)
    requires Typed(cs, key, v, now) && DiesBy(cs, key, v, now + ttl as real)
    ensures var s' := Set(s, key, v, ttl, now);
      s'.maxSize == s.maxSize && key in s'.entries && Simulates(cs, room, s', m[key := v], now)
  {
    hide Set, CheckAndEvict, Agrees, NoDup, Without, Typed, Dead, HasRoom, Simulates, Writable;
    EvictSimulates(cs, room, s, m, now, key);
    SimulatesValid(cs, room, s, m, now);
    SetIsEvictThenInsert(s, key, v, ttl, now);
    var e, s' := CheckAndEvict(s, key), Set(s, key, v, ttl, now);
    InsertKeepsRoom(cs, room, e, m, now, key, s');
    InsertSimulates(cs, room, e, m, now, key, v, now + ttl as real, s');
  }

  lemma SimulatesValid(cs: Configs, room: Room, s: Store, m: Ideal.Memory, now: real)
    requires ValidConfigs(cs) && Simulates(cs, room, s, m, now)
    ensures s.Valid() && HasRoom(cs, room, s)
  {
  }

  lemma InsertSimulates(cs: Configs, room: Room, s: Store, m: Ideal.Memory, now: real,
                        key: Key, v: Value, expiry: real, s': Store)
    requires ValidConfigs(cs) && Simulates(cs, room, s, m, now)
    requires Typed(cs, key, v, now) && DiesBy(cs, key, v, expiry)
    requires s'.Valid() && s'.maxSize == s.maxSize && HasRoom(cs, room, s')
    requires s'.entries == s.entries[key := v] && s'.expireInfo == s.expireInfo[key := expiry]
    ensures Simulates(cs, room, s', m[key := v], now)
  {
    hide Typed, Dead, NoDup, HasRoom, Lost;
    var m' := m[key := v];
    forall k ensures Agrees(cs, room, s', m', now, k) { assert Agrees(cs, room, s, m, now, k); }
  }

  /** Writing through `get_client()` to a present counter, which keeps its place and its expiry. */
  lemma PutSimulates(cs: Configs, room: Room, s: Store, m: Ideal.Memory, now: real, key: Key, n: int)
    requires ValidConfigs(cs) && Simulates(cs, room, s, m, now) && key in s.entries && key.Window?
    ensures ClientPut(s, key, IntVal(n)).maxSize == s.maxSize
    ensures Simulates(cs, room, ClientPut(s, key, IntVal(n)), m[key := IntVal(n)], now)
  {
    hide W.RecencyFollowsWindows, BehindTouched, NoDup;
    assert Agrees(cs, room, s, m, now, key);
    var s' := ClientPut(s, key, IntVal(n));
    assert s'.expireInfo == s.expireInfo[key := s.expireInfo[key]];
    InsertSimulates(cs, room, s, m, now, key, IntVal(n), s.expireInfo[key], s');
  }

  // ----- whole requests

  /** The key a decision of this limiter writes. */
  function WrittenKey(c: Config, r: Request): Key
    requires c.quota.Valid()
  {
    if c.algorithm.IsBucket() then Plain(r.user) else F.CurrentKey(r.user, r.now, c.quota.periodSec)
  }

  /** The room provides for what the request writes; peeks write nothing. */
  ghost predicate Covers(cs: Configs, room: Room, r: Request)
    requires ValidConfigs(cs)
  {
    r.user in cs && (room.Enough? && r.Limit? ==> WrittenKey(cs[r.user], r) in room.keys)
  }

  /** The counter of a new window dies no later than the timeout the limiter gives it. */
  lemma CounterOutlives(cs: Configs, user: string, n: int, now: real)
    requires ValidConfigs(cs) && user in cs && W.IsWindow(cs[user])
    ensures var (c, p) := (cs[user], cs[user].quota.periodSec);
      DiesBy(cs, F.CurrentKey(user, now, p), IntVal(n), now + (if c.algorithm.FIXED_WINDOW? then p else 3 * p) as real)
  {
    var p := cs[user].quota.periodSec;
    W.PeriodsOn(now, 1, p);
    W.PeriodsOn(now, 3, p);
    hide F.WindowIndex;
  }

  /** The keys of this window and the one before are consulted, and this window's may be written once it was read. */
  lemma WindowKeys(cs: Configs, room: Room, r: Request)
    requires ValidConfigs(cs) && Covers(cs, room, r) && W.IsWindow(cs[r.user])
    ensures var (c, p) := (cs[r.user], cs[r.user].quota.periodSec);
      var (cur, prev) := (F.CurrentKey(r.user, r.now, p), SW.PreviousKey(r.user, r.now, p));
      && cur != prev && cur.Window? && Consulted(cs, cur, r.now)
      && (c.algorithm.SLIDING_WINDOW? ==> Consulted(cs, prev, r.now))
      && (r.Limit? ==> Writable(cs, Touched(room, cur), cur, r.now)) && Typed(cs, cur, IntVal(0), r.now)
  {
  }

  /** The keys a request touches, in order. */
  function Touches(c: Config, r: Request): seq<Key>
    requires c.quota.Valid()
  {
    var cur, prev := F.CurrentKey(r.user, r.now, c.quota.periodSec), SW.PreviousKey(r.user, r.now, c.quota.periodSec);
    if c.algorithm.IsBucket() then [Plain(r.user)]
    else if c.algorithm.FIXED_WINDOW? then [cur]
    else if r.Limit? then [cur, prev] else [prev, cur]
  }

  function TouchedAll(room: Room, keys: seq<Key>): Room
    decreases |keys|
  {
    if keys == [] then room else TouchedAll(Touched(room, keys[0]), keys[1..])
  }

  /** Every key the request touches is touched while it matters. */
  ghost predicate AllTimely(cs: Configs, room: Room, maxSize: nat, m: Ideal.Memory, now: real, keys: seq<Key>)
    requires ValidConfigs(cs)
    decreases |keys|
  {
    keys != [] ==>
      && Timely(cs, room, maxSize, m, now, keys[0])
      && AllTimely(cs, Touched(room, keys[0]), maxSize, m, now, keys[1..])
  }

  lemma TwoTouches(cs: Configs, room: Room, maxSize: nat, m: Ideal.Memory, now: real, a: Key, b: Key)
    requires ValidConfigs(cs)
    ensures AllTimely(cs, room, maxSize, m, now, [a]) <==> Timely(cs, room, maxSize, m, now, a)
    ensures AllTimely(cs, room, maxSize, m, now, [a, b]) <==>
      Timely(cs, room, maxSize, m, now, a) && Timely(cs, Touched(room, a), maxSize, m, now, b)
    ensures TouchedAll(room, [a]) == Touched(room, a) && TouchedAll(room, [a, b]) == Touched(Touched(room, a), b)
  {
    hide Timely;
    assert [a][1..] == [] && [a, b][1..] == [b] && [b][1..] == [];
    assert AllTimely(cs, Touched(room, a), maxSize, m, now, [b]) <==> Timely(cs, Touched(room, a), maxSize, m, now, b);
    assert TouchedAll(Touched(room, a), [b]) == Touched(Touched(room, a), b);
  }

  lemma WindowsShareWithNone(cs: Configs, room: Room, s: Store, user: string)
    requires HasRoom(cs, room, s) && user in cs && cs[user].algorithm.IsBucket()
    ensures !room.WindowsAlone?
  {
  }

  lemma BucketStep(cs: Configs, room: Room, s: Store, m: Ideal.Memory, r: Request)
    requires ValidConfigs(cs) && Simulates(cs, room, s, m, r.now) && Covers(cs, room, r)
    requires cs[r.user].algorithm.IsBucket() && Timely(cs, room, s.maxSize, m, r.now, Plain(r.user))
    ensures var ((s', a), (m', b)) := (Serve(cs[r.user], s, r), Ideal.Serve(cs[r.user], m, r));
      a == b && s'.maxSize == s.maxSize && Simulates(cs, Touched(room, Plain(r.user)), s', m', r.now)
  {
    var c, key := cs[r.user], Plain(r.user);
    assert c.quota.Valid();
    hide *;
    BucketReads(cs, room, s, m, r);
    BucketOnMap(c, m, r);
    B.ServeIsTouchThenSet(c, s, r);
    TouchSimulates(cs, room, s, m, r.now, key);
    var e := Ideal.CellServe(c, Ideal.Cell(m, key), r);
    if e.write.Some? {
      var (v, ttl) := e.write.value;
      BucketWrites(cs, room, m, r, v, ttl);
      SetSimulates(cs, Touched(room, key), B.Touch(s, key, r.now), m, r.now, key, v, ttl);
    }
  }

  lemma BucketOnMap(c: Config, m: Ideal.Memory, r: Request)
    requires c.quota.Valid() && c.algorithm.IsBucket()
    ensures var e := Ideal.CellServe(c, Ideal.Cell(m, Plain(r.user)), r);
      Ideal.Serve(c, m, r) == (if e.write.Some? then m[Plain(r.user) := e.write.value.0] else m, e.response)
  {
    hide Ideal.CellServe;
  }

  /** A bucket limiter decides alike on what it finds and on the map's cell. */
  lemma BucketReads(cs: Configs, room: Room, s: Store, m: Ideal.Memory, r: Request)
    requires ValidConfigs(cs) && Simulates(cs, room, s, m, r.now) && r.user in cs
    requires cs[r.user].algorithm.IsBucket() && Timely(cs, room, s.maxSize, m, r.now, Plain(r.user))
    ensures s.Valid() && !room.WindowsAlone? && B.Typed(cs[r.user], s, Plain(r.user), r.now)
    ensures Ideal.Cell(m, Plain(r.user)).Some? ==> Typed(cs, Plain(r.user), m[Plain(r.user)], r.now)
    ensures Ideal.CellServe(cs[r.user], Lookup(s, Plain(r.user), r.now), r) ==
      Ideal.CellServe(cs[r.user], Ideal.Cell(m, Plain(r.user)), r)
  {
    hide Ideal.CellServe, B.CellOk, B.Dead, HasRoom, Lost, NoDup;
    WindowsShareWithNone(cs, room, s, r.user);
    var key := Plain(r.user);
    assert Agrees(cs, room, s, m, r.now, key);
    LookupAgrees(cs, room, s, m, r.now, key);
    if key in m && Lookup(s, key, r.now).None? { B.DeadIsAbsent(cs[r.user], m[key], r); }
  }

  /** What it writes is of its shape, outlived by its timeout, and provided for. */
  lemma BucketWrites(cs: Configs, room: Room, m: Ideal.Memory, r: Request, v: Value, ttl: int)
    requires ValidConfigs(cs) && Covers(cs, room, r) && cs[r.user].algorithm.IsBucket() && !room.WindowsAlone?
    requires Ideal.Cell(m, Plain(r.user)).Some? ==> Typed(cs, Plain(r.user), m[Plain(r.user)], r.now)
    requires Ideal.CellServe(cs[r.user], Ideal.Cell(m, Plain(r.user)), r).write == Some((v, ttl))
    ensures Typed(cs, Plain(r.user), v, r.now) && DiesBy(cs, Plain(r.user), v, r.now + ttl as real)
    ensures Writable(cs, Touched(room, Plain(r.user)), Plain(r.user), r.now)
  {
    hide Ideal.CellServe, B.CellOk, B.Dead;
    B.WriteOutlives(cs[r.user], Ideal.Cell(m, Plain(r.user)), r, v, ttl);
    OnlyLimitsWrite(cs[r.user], Ideal.Cell(m, Plain(r.user)), r);
  }

  lemma OnlyLimitsWrite(c: Config, cell: Option<Value>, r: Request)
    requires c.quota.Valid() && c.algorithm.IsBucket()
    ensures Ideal.CellServe(c, cell, r).write.Some? ==> r.Limit?
  {
    hide G.Decide, G.Look, T.Tokens, T.Look, L.Level, L.Look, T.ToResult, T.BucketTtl;
  }

  /** A fixed-window request is one read and one write of this window's counter. */
  lemma FixedStep(cs: Configs, room: Room, s: Store, m: Ideal.Memory, r: Request)
    requires ValidConfigs(cs) && Simulates(cs, room, s, m, r.now) && Covers(cs, room, r)
    requires cs[r.user].algorithm.FIXED_WINDOW?
    requires Timely(cs, room, s.maxSize, m, r.now, F.CurrentKey(r.user, r.now, cs[r.user].quota.periodSec))
    ensures var ((s', a), (m', b)) := (Serve(cs[r.user], s, r), Ideal.Serve(cs[r.user], m, r));
      var room' := Touched(room, F.CurrentKey(r.user, r.now, cs[r.user].quota.periodSec));
      a == b && s'.maxSize == s.maxSize && Simulates(cs, room', s', m', r.now)
  {
    hide Set, Get, ClientPut, F.Report, F.ResetAfter, F.WindowIndex;
    hide Simulates, Consulted, Writable, B.Touch, Dead, Timely;
    var key := F.CurrentKey(r.user, r.now, cs[r.user].quota.periodSec);
    WindowKeys(cs, room, r);
    ReadsTheMap(cs, room, s, m, r.now, key);
    TouchSimulates(cs, room, s, m, r.now, key);
    var s1, room1 := B.Touch(s, key, r.now), Touched(room, key);
    if r.Limit? {
      if key in m {
        PutSimulates(cs, room1, s1, m, r.now, key, F.CountOf(Ideal.Cell(m, key)) + r.cost);
      } else {
        CounterOutlives(cs, r.user, r.cost, r.now);
        SetSimulates(cs, room1, s1, m, r.now, key, IntVal(r.cost), cs[r.user].quota.periodSec);
      }
    }
  }

  lemma OtherCellTimely(cs: Configs, room: Room, maxSize: nat, m: Ideal.Memory, now: real, key: Key, other: Key,
                        v: Value)
    requires ValidConfigs(cs) && Timely(cs, room, maxSize, m, now, key) && key != other
    ensures Timely(cs, room, maxSize, m[other := v], now, key)
  {
  }

  /** A sliding-window decision stores a new window's counter, reads the previous one, then writes the new count. */
  lemma SlidingLimitStep(cs: Configs, room: Room, s: Store, m: Ideal.Memory, r: Request)
    requires ValidConfigs(cs) && Simulates(cs, room, s, m, r.now) && Covers(cs, room, r)
    requires cs[r.user].algorithm.SLIDING_WINDOW? && r.Limit?
    requires AllTimely(cs, room, s.maxSize, m, r.now, Touches(cs[r.user], r))
    ensures var ((s', a), (m', b)) := (Serve(cs[r.user], s, r), Ideal.Serve(cs[r.user], m, r));
      a == b && s'.maxSize == s.maxSize && Simulates(cs, TouchedAll(room, Touches(cs[r.user], r)), s', m', r.now)
  {
    hide Set, Get, ClientPut, SW.Decide, SW.PreviousProportion, F.WindowIndex;
    hide Simulates, Consulted, Writable, B.Touch, Dead, Timely, AllTimely, Touched, TouchedAll;
    var p, now := cs[r.user].quota.periodSec, r.now;
    var cur, prev := F.CurrentKey(r.user, now, p), SW.PreviousKey(r.user, now, p);
    TwoTouches(cs, room, s.maxSize, m, now, cur, prev);
    WindowKeys(cs, room, r);
    ReadsTheMap(cs, room, s, m, now, cur);
    TouchSimulates(cs, room, s, m, now, cur);
    var s1, room1 := B.Touch(s, cur, now), Touched(room, cur);
    StayAlone(room, cur);
    var m2, s2 := m, s1;
    if cur !in m {
      CounterOutlives(cs, r.user, r.cost, now);
      SetSimulates(cs, room1, s1, m, now, cur, IntVal(r.cost), 3 * p);
      m2, s2 := m[cur := IntVal(r.cost)], Set(s1, cur, IntVal(r.cost), 3 * p, now);
      OtherCellTimely(cs, room1, s.maxSize, m, now, prev, cur, IntVal(r.cost));
    }
    ReadsTheMap(cs, room1, s2, m2, now, prev);
    TouchSimulates(cs, room1, s2, m2, now, prev);
    PresentAfter(s2, cur, IntVal(0), 0, prev, now);
    var s3, n := B.Touch(s2, prev, now), F.CountOf(Ideal.Cell(m, cur)) + r.cost;
    PutSimulates(cs, Touched(room1, prev), s3, m2, now, cur, n);
    assert m2[cur := IntVal(n)] == m[cur := IntVal(n)];
  }

  lemma StayAlone(room: Room, key: Key)
    ensures Touched(room, key).WindowsAlone? <==> room.WindowsAlone?
  {
  }

  lemma SlidingPeekStep(cs: Configs, room: Room, s: Store, m: Ideal.Memory, r: Request)
    requires ValidConfigs(cs) && Simulates(cs, room, s, m, r.now) && Covers(cs, room, r)
    requires cs[r.user].algorithm.SLIDING_WINDOW? && r.Peek?
    requires AllTimely(cs, room, s.maxSize, m, r.now, Touches(cs[r.user], r))
    ensures var ((s', a), (m', b)) := (Serve(cs[r.user], s, r), Ideal.Serve(cs[r.user], m, r));
      a == b && s'.maxSize == s.maxSize && Simulates(cs, TouchedAll(room, Touches(cs[r.user], r)), s', m', r.now)
  {
    hide Get, Simulates, Consulted, SW.Look, B.Touch, F.WindowIndex, Timely, AllTimely, Touched, TouchedAll;
    var p, now := cs[r.user].quota.periodSec, r.now;
    var cur, prev := F.CurrentKey(r.user, now, p), SW.PreviousKey(r.user, now, p);
    TwoTouches(cs, room, s.maxSize, m, now, prev, cur);
    WindowKeys(cs, room, r);
    ReadsTheMap(cs, room, s, m, now, prev);
    TouchSimulates(cs, room, s, m, now, prev);
    StayAlone(room, prev);
    var s1 := B.Touch(s, prev, now);
    ReadsTheMap(cs, Touched(room, prev), s1, m, now, cur);
    TouchSimulates(cs, Touched(room, prev), s1, m, now, cur);
  }

  /** One request of any limiter on the store, reading nothing that was lost while it mattered, answers as on the map,
      and they stay together. */
  lemma TimelyStepSimulates(cs: Configs, room: Room, s: Store, m: Ideal.Memory, now: real, r: Request)
    requires ValidConfigs(cs) && Simulates(cs, room, s, m, now) && Covers(cs, room, r) && now <= r.now
    requires AllTimely(cs, room, s.maxSize, m, r.now, Touches(cs[r.user], r))
    ensures var ((s', a), (m', b)) := (Serve(cs[r.user], s, r), Ideal.Serve(cs[r.user], m, r));
      a == b && s'.maxSize == s.maxSize && Simulates(cs, TouchedAll(room, Touches(cs[r.user], r)), s', m', r.now)
  {
    hide Serve, Ideal.Serve, Simulates, Timely, AllTimely, TouchedAll, Touched, F.WindowIndex;
    var c := cs[r.user];
    SimulationWaits(cs, room, s, m, now, r.now);
    var cur, prev := F.CurrentKey(r.user, r.now, c.quota.periodSec), SW.PreviousKey(r.user, r.now, c.quota.periodSec);
    TwoTouches(cs, room, s.maxSize, m, r.now, if c.algorithm.IsBucket() then Plain(r.user) else cur, prev);
    if c.algorithm.IsBucket() { BucketStep(cs, room, s, m, r); }
    else if c.algorithm.FIXED_WINDOW? { FixedStep(cs, room, s, m, r); }
    else if r.Limit? { SlidingLimitStep(cs, room, s, m, r); }
    else { SlidingPeekStep(cs, room, s, m, r); }
  }

  /** Where nothing is lost every read is timely, and the room stays as it is. */
  lemma NothingLost(cs: Configs, room: Room, maxSize: nat, m: Ideal.Memory, now: real, a: Key, b: Key)
    requires ValidConfigs(cs) && !room.Recent?
    ensures AllTimely(cs, room, maxSize, m, now, [a]) && AllTimely(cs, room, maxSize, m, now, [a, b])
    ensures TouchedAll(room, [a]) == TouchedAll(room, [a, b]) == room
  {
    TwoTouches(cs, room, maxSize, m, now, a, b);
  }

  /** One request of any limiter, on a store with room for it, answers as on the map, and they stay together. */
  lemma StepSimulates(cs: Configs, room: Room, s: Store, m: Ideal.Memory, now: real, r: Request)
    requires ValidConfigs(cs) && Simulates(cs, room, s, m, now) && Covers(cs, room, r) && now <= r.now
    requires !room.Recent?
    ensures var ((s', a), (m', b)) := (Serve(cs[r.user], s, r), Ideal.Serve(cs[r.user], m, r));
      a == b && s'.maxSize == s.maxSize && Simulates(cs, room, s', m', r.now)
  {
    hide Serve, Ideal.Serve, Simulates, AllTimely, TouchedAll, F.WindowIndex;
    var c := cs[r.user];
    var cur, prev := F.CurrentKey(r.user, r.now, c.quota.periodSec), SW.PreviousKey(r.user, r.now, c.quota.periodSec);
    NothingLost(cs, room, s.maxSize, m, r.now, Plain(r.user), cur);
    NothingLost(cs, room, s.maxSize, m, r.now, cur, prev);
    NothingLost(cs, room, s.maxSize, m, r.now, prev, cur);
    TimelyStepSimulates(cs, room, s, m, now, r);
  }

  // ----- more room

  function Widened(room: Room, key: Key): Room {
    match room case Enough(keys) => Enough(keys + {key}) case _ => room
  }

  /** The store could take `n` more keys, or needs none for this user. */
  ghost predicate Spare(cs: Configs, room: Room, s: Store, user: string, n: nat)
    requires user in cs
  {
    !room.Recent? && (room.Enough? ==>
      |room.keys| + n <= s.maxSize || (cs[user].algorithm.IsBucket() && Plain(user) in room.keys))
  }

  /** A spare entry provides for one more request of the user. */
  lemma Widen(cs: Configs, room: Room, s: Store, m: Ideal.Memory, now: real, r: Request, n: nat)
    requires ValidConfigs(cs) && Simulates(cs, room, s, m, now) && r.user in cs && Spare(cs, room, s, r.user, n + 1)
    ensures var room' := Widened(room, WrittenKey(cs[r.user], r));
      && Simulates(cs, room', s, m, now) && Covers(cs, room', r) && !room'.Recent?
      && forall s': Store :: s'.maxSize == s.maxSize ==> Spare(cs, room', s', r.user, n)
  {
    hide Typed, Dead, F.WindowIndex, W.RecencyFollowsWindows, NoDup;
    var room' := Widened(room, WrittenKey(cs[r.user], r));
    forall k ensures Agrees(cs, room', s, m, now, k) { assert Agrees(cs, room, s, m, now, k); }
    if room.Enough? && cs[r.user].algorithm.IsBucket() && Plain(r.user) in room.keys {
      assert room.keys + {Plain(r.user)} == room.keys;
    }
  }

  // ----- whole runs

  /** The keys a run writes. */
  ghost function Writes(cs: Configs, rs: seq<Request>): set<Key>
    requires ValidConfigs(cs)
  {
    if rs == [] then {} else
    (if rs[0].Limit? && rs[0].user in cs then {WrittenKey(cs[rs[0].user], rs[0])} else {}) + Writes(cs, rs[1..])
  }

  ghost predicate CoversAll(cs: Configs, room: Room, rs: seq<Request>)
    requires ValidConfigs(cs)
  {
    !room.Recent? && (room.Enough? ==> Writes(cs, rs) <= room.keys)
  }

  lemma {:induction false} CoversEach(cs: Configs, room: Room, rs: seq<Request>, i: nat)
    requires ValidConfigs(cs) && CoversAll(cs, room, rs) && i < |rs| && rs[i].user in cs
    ensures Covers(cs, room, rs[i])
    decreases |rs|
  {
    if i > 0 { CoversEach(cs, room, rs[1..], i - 1); }
  }

  ghost predicate AllBuckets(cs: Configs) { forall u :: u in cs ==> cs[u].algorithm.IsBucket() }

  /** Room for a run on an empty store, whichever limiters share it: an entry for every key the run writes; or an entry
      a user if all are bucket limiters; or, for one window limiter that has the store to itself, `Slots` entries a
      user. */
  ghost predicate Fits(cs: Configs, maxSize: nat, rs: seq<Request>)
    requires ValidConfigs(cs)
  {
    || |Writes(cs, rs)| <= maxSize
    || (AllBuckets(cs) && |cs| <= maxSize)
    || (forall u :: u in cs ==> W.IsWindow(cs[u]) && W.AllUse(cs, cs[u]) && |cs| * W.Slots(cs[u]) <= maxSize)
  }

  ghost function RoomFor(cs: Configs, maxSize: nat, rs: seq<Request>): (room: Room)
    requires ValidConfigs(cs)
    ensures !room.Recent?
  {
    if |Writes(cs, rs)| <= maxSize then Enough(Writes(cs, rs))
    else if AllBuckets(cs) then Enough(B.PlainKeys(cs.Keys))
    else var u :| u in cs && !cs[u].algorithm.IsBucket(); WindowsAlone(cs[u])
  }

  lemma {:induction false} BucketsWritePlainKeys(cs: Configs, rs: seq<Request>)
    requires ValidConfigs(cs) && AllBuckets(cs)
    ensures Writes(cs, rs) <= B.PlainKeys(cs.Keys)
  {
    if rs != [] { BucketsWritePlainKeys(cs, rs[1..]); }
  }

  lemma EmptySimulates(cs: Configs, maxSize: nat, rs: seq<Request>, now: real)
    requires ValidConfigs(cs) && 0 < maxSize && Fits(cs, maxSize, rs)
    ensures Simulates(cs, RoomFor(cs, maxSize, rs), EmptyStore(maxSize), map[], now)
    ensures CoversAll(cs, RoomFor(cs, maxSize, rs), rs)
  {
    if AllBuckets(cs) {
      BucketsWritePlainKeys(cs, rs);
      B.PlainKeysCount(cs.Keys);
      assert |cs.Keys| == |cs|;
    }
    hide Writes, B.PlainKeys;
  }

  /** Throughout the run, a key that is still live when it is touched was touched before fewer other keys than the store
      holds. */
  ghost predicate KeepsWorkingSet(cs: Configs, maxSize: nat, room: Room, m: Ideal.Memory, rs: seq<Request>)
    requires ValidConfigs(cs)
    decreases |rs|
  {
    rs != [] ==>
      && rs[0].user in cs
      && var keys := Touches(cs[rs[0].user], rs[0]);
         && AllTimely(cs, room, maxSize, m, rs[0].now, keys)
         && KeepsWorkingSet(cs, maxSize, TouchedAll(room, keys), Ideal.Serve(cs[rs[0].user], m, rs[0]).0, rs[1..])
  }

  /** The room is enough for the run. */
  ghost predicate Lasts(cs: Configs, room: Room, s: Store, m: Ideal.Memory, rs: seq<Request>)
    requires ValidConfigs(cs)
  {
    if room.Recent? then KeepsWorkingSet(cs, s.maxSize, room, m, rs) else CoversAll(cs, room, rs)
  }

  lemma {:induction false} WorkingSetIsTransparent(cs: Configs, room: Room, s: Store, m: Ideal.Memory, start: real,
                                                   rs: seq<Request>)
    requires ValidConfigs(cs) && Simulates(cs, room, s, m, start) && ValidRun(cs, start, rs)
    requires room.Recent? && KeepsWorkingSet(cs, s.maxSize, room, m, rs)
    ensures UsersKnown(cs, rs)
    ensures Run(cs, s, rs) == Ideal.Run(cs, m, rs)
    decreases |rs|
  {
    hide Serve, Ideal.Serve, Simulates, AllTimely, Touches, TouchedAll;
    RunUsersKnown(cs, start, rs);
    if rs != [] {
      var r := rs[0];
      var c := cs[r.user];
      StaysRecent(room, Touches(c, r));
      TimelyStepSimulates(cs, room, s, m, start, r);
      WorkingSetIsTransparent(cs, TouchedAll(room, Touches(c, r)), Serve(c, s, r).0, Ideal.Serve(c, m, r).0, r.now,
                              rs[1..]);
    }
  }

  lemma {:induction false} StaysRecent(room: Room, keys: seq<Key>)
    requires room.Recent?
    ensures TouchedAll(room, keys).Recent?
    decreases |keys|
  {
    if keys != [] { StaysRecent(Touched(room, keys[0]), keys[1..]); }
  }

  lemma {:induction false} RoomyRunSimulates(cs: Configs, room: Room, s: Store, m: Ideal.Memory, start: real,
                                             rs: seq<Request>)
    requires ValidConfigs(cs) && Simulates(cs, room, s, m, start) && ValidRun(cs, start, rs) && CoversAll(cs, room, rs)
    ensures UsersKnown(cs, rs)
    ensures Run(cs, s, rs) == Ideal.Run(cs, m, rs)
    ensures Simulates(cs, room, Final(cs, s, rs), Ideal.Final(cs, m, rs), EndTime(start, rs))
    decreases |rs|
  {
    hide Serve, Ideal.Serve, Simulates;
    RunUsersKnown(cs, start, rs);
    if rs != [] {
      var r := rs[0];
      var c := cs[r.user];
      StepSimulates(cs, room, s, m, start, r);
      RoomyRunSimulates(cs, room, Serve(c, s, r).0, Ideal.Serve(c, m, r).0, r.now, rs[1..]);
    }
  }

  /** Main result: given room that lasts, a run of any mix of the five limiters on the expiring, evicting store answers
      as the map that never forgets. */
  lemma StoreIsTransparent(cs: Configs, room: Room, s: Store, m: Ideal.Memory, start: real, rs: seq<Request>)
    requires ValidConfigs(cs) && Simulates(cs, room, s, m, start) && Lasts(cs, room, s, m, rs)
    requires ValidRun(cs, start, rs)
    ensures UsersKnown(cs, rs)
    ensures Run(cs, s, rs) == Ideal.Run(cs, m, rs)
    ensures !room.Recent? ==> Simulates(cs, room, Final(cs, s, rs), Ideal.Final(cs, m, rs), EndTime(start, rs))
  {
    if room.Recent? { WorkingSetIsTransparent(cs, room, s, m, start, rs); }
    else { RoomyRunSimulates(cs, room, s, m, start, rs); }
    hide *;
  }

  /** An empty store has touched nothing yet. */
  lemma EmptyIsRecent(cs: Configs, maxSize: nat, now: real)
    requires ValidConfigs(cs) && 0 < maxSize
    ensures Simulates(cs, Recent([]), EmptyStore(maxSize), map[], now)
  {
  }

  /** The same from an empty store. */
  lemma EmptyStoreIsTransparent(cs: Configs, maxSize: nat, start: real, rs: seq<Request>)
    requires ValidConfigs(cs) && 0 < maxSize && Fits(cs, maxSize, rs) && ValidRun(cs, start, rs)
    ensures UsersKnown(cs, rs) && Run(cs, EmptyStore(maxSize), rs) == Ideal.Run(cs, map[], rs)
  {
    hide Simulates, Fits, RoomFor, Run, Ideal.Run;
    EmptySimulates(cs, maxSize, rs, start);
    StoreIsTransparent(cs, RoomFor(cs, maxSize, rs), EmptyStore(maxSize), map[], start, rs);
  }

  lemma {:induction false} ValidRunSplits(cs: Configs, start: real, rs: seq<Request>, next: seq<Request>)
    requires ValidRun(cs, start, rs + next)
    ensures ValidRun(cs, start, rs) && start <= EndTime(start, rs) && ValidRun(cs, EndTime(start, rs), next)
    decreases |rs|
  {
    if rs != [] {
      assert (rs + next)[1..] == rs[1..] + next;
      ValidRunSplits(cs, rs[0].now, rs[1..], next);
    } else {
      assert rs + next == next;
    }
  }

  lemma {:induction false} WritesAppend(cs: Configs, rs: seq<Request>, next: seq<Request>)
    requires ValidConfigs(cs)
    ensures Writes(cs, rs + next) == Writes(cs, rs) + Writes(cs, next)
  {
    if rs != [] {
      assert (rs + next)[1..] == rs[1..] + next;
      WritesAppend(cs, rs[1..], next);
    } else {
      assert rs + next == next;
    }
  }

  /** A store that began empty, after the first part of a run it has room for. */
  lemma AfterRun(cs: Configs, maxSize: nat, start: real, rs: seq<Request>, next: seq<Request>)
    requires ValidConfigs(cs) && 0 < maxSize && Fits(cs, maxSize, rs + next) && ValidRun(cs, start, rs + next)
    ensures UsersKnown(cs, rs) && ValidRun(cs, start, rs) && ValidRun(cs, EndTime(start, rs), next)
    ensures Run(cs, EmptyStore(maxSize), rs) == Ideal.Run(cs, map[], rs)
    ensures var room := RoomFor(cs, maxSize, rs + next);
      var (s, m) := (Final(cs, EmptyStore(maxSize), rs), Ideal.Final(cs, map[], rs));
      Simulates(cs, room, s, m, EndTime(start, rs)) && CoversAll(cs, room, next)
  {
    hide Simulates, Fits, RoomFor, Run, Ideal.Run, Final, Ideal.Final, Writes;
    ValidRunSplits(cs, start, rs, next);
    WritesAppend(cs, rs, next);
    EmptySimulates(cs, maxSize, rs + next, start);
    StoreIsTransparent(cs, RoomFor(cs, maxSize, rs + next), EmptyStore(maxSize), map[], start, rs);
  }

  /** The next request after such a run. */
  lemma RequestAfterRun(cs: Configs, maxSize: nat, start: real, rs: seq<Request>, r: Request)
    requires ValidConfigs(cs) && 0 < maxSize && Fits(cs, maxSize, rs + [r]) && ValidRun(cs, start, rs + [r])
    ensures UsersKnown(cs, rs) && ValidRun(cs, start, rs) && r.user in cs && EndTime(start, rs) <= r.now
    ensures Run(cs, EmptyStore(maxSize), rs) == Ideal.Run(cs, map[], rs)
    ensures var (s, m) := (Final(cs, EmptyStore(maxSize), rs), Ideal.Final(cs, map[], rs));
      Serve(cs[r.user], s, r).1 == Ideal.Serve(cs[r.user], m, r).1
  {
    hide Simulates, Fits, RoomFor, Serve, Ideal.Serve, Run, Ideal.Run, Final, Ideal.Final;
    AfterRun(cs, maxSize, start, rs, [r]);
    assert [r][0] == r;
    StepSimulates(cs, RoomFor(cs, maxSize, rs + [r]), Final(cs, EmptyStore(maxSize), rs), Ideal.Final(cs, map[], rs),
                  EndTime(start, rs), r);
  }

  // ----- peeks

  function WithoutPeeks(rs: seq<Request>): seq<Request> {
    if rs == [] then [] else if rs[0].Peek? then WithoutPeeks(rs[1..]) else [rs[0]] + WithoutPeeks(rs[1..])
  }

  /** The answers to the requests that are not peeks. */
  function Decisions(rs: seq<Request>, answers: seq<Response>): seq<Response>
    requires |answers| == |rs|
    decreases |rs|
  {
    if rs == [] then [] else
    if rs[0].Peek? then Decisions(rs[1..], answers[1..]) else [answers[0]] + Decisions(rs[1..], answers[1..])
  }

  lemma PeekKeepsMap(c: Config, m: Ideal.Memory, r: Request)
    requires c.quota.Valid() && r.Peek?
    ensures Ideal.Serve(c, m, r).0 == m
  {
  }

  lemma {:induction false} IdealPeeksChangeNothing(cs: Configs, m: Ideal.Memory, start: real, early: real,
                                                   rs: seq<Request>)
    requires ValidConfigs(cs) && ValidRun(cs, start, rs) && UsersKnown(cs, rs) && early <= start
    ensures ValidRun(cs, early, WithoutPeeks(rs)) && UsersKnown(cs, WithoutPeeks(rs))
    ensures Ideal.Run(cs, m, WithoutPeeks(rs)) == Decisions(rs, Ideal.Run(cs, m, rs))
    decreases |rs|
  {
    if rs != [] {
      var r, rest := rs[0], WithoutPeeks(rs[1..]);
      var (m', a) := Ideal.Serve(cs[r.user], m, r);
      assert Ideal.Run(cs, m, rs)[1..] == Ideal.Run(cs, m', rs[1..]);
      if r.Peek? {
        PeekKeepsMap(cs[r.user], m, r);
        IdealPeeksChangeNothing(cs, m', r.now, early, rs[1..]);
      } else {
        IdealPeeksChangeNothing(cs, m', r.now, r.now, rs[1..]);
        assert ([r] + rest)[1..] == rest;
      }
    }
  }

  lemma {:induction false} PeeksWriteNothing(cs: Configs, rs: seq<Request>)
    requires ValidConfigs(cs)
    ensures Writes(cs, WithoutPeeks(rs)) == Writes(cs, rs)
  {
    if rs != [] {
      PeeksWriteNothing(cs, rs[1..]);
      if !rs[0].Peek? { assert WithoutPeeks(rs)[1..] == WithoutPeeks(rs[1..]); }
    }
  }

  /** Dropping the peeks from a run changes no decision, though each peek reorders the store and drops what expired. */
  lemma PeeksChangeNothing(cs: Configs, room: Room, s: Store, m: Ideal.Memory, start: real, rs: seq<Request>)
    requires ValidConfigs(cs) && Simulates(cs, room, s, m, start) && ValidRun(cs, start, rs) && CoversAll(cs, room, rs)
    ensures UsersKnown(cs, rs) && UsersKnown(cs, WithoutPeeks(rs))
    ensures Run(cs, s, WithoutPeeks(rs)) == Decisions(rs, Run(cs, s, rs))
  {
    hide Simulates, Run, Ideal.Run, Decisions;
    PeeksWriteNothing(cs, rs);
    StoreIsTransparent(cs, room, s, m, start, rs);
    IdealPeeksChangeNothing(cs, m, start, start, rs);
    StoreIsTransparent(cs, room, s, m, start, WithoutPeeks(rs));
  }
}
