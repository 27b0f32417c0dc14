/** The memory backend as an LRU cache with expiry, over any sequence of its commands. */
module Lru {
  import opened Base
  import opened Store

  /** One timed command on the backend. */
  datatype Op =
    | SetOp(key: Key, value: Value, timeout: int, now: real)
    | GetOp(key: Key, now: real)
    | HSetOp(key: Key, mapping: map<string, int>)
    | HGetAllOp(key: Key, now: real)
    | ExpireOp(key: Key, timeout: int, now: real)
    | DeleteOp(key: Key)

  function Apply(s: Store, op: Op): Store {
    match op
    case SetOp(key, value, timeout, now) => Set(s, key, value, timeout, now)
    case GetOp(key, now) => Get(s, key, now).0
    case HSetOp(key, mapping) => HSet(s, key, mapping).0
    case HGetAllOp(key, now) => HGetAll(s, key, now).0
    case ExpireOp(key, timeout, now) => Expire(s, key, timeout, now)
    case DeleteOp(key) => Delete(s, key)
  }

  function ApplyAll(s: Store, ops: seq<Op>): Store
    decreases |ops|
  {
    if ops == [] then s else ApplyAll(Apply(s, ops[0]), ops[1..])
  }

  lemma ApplyValid(s: Store, op: Op)
    requires s.Valid()
    ensures Apply(s, op).Valid() && Apply(s, op).maxSize == s.maxSize
  {
    match op
    case SetOp(key, value, timeout, now) => SetValid(s, key, value, timeout, now);
    case GetOp(key, now) => GetValid(s, key, now);
    case HSetOp(key, mapping) => HSetValid(s, key, mapping);
    case HGetAllOp(key, now) => HGetAllValid(s, key, now);
    case ExpireOp(_, _, _) =>
    case DeleteOp(key) => DeleteValid(s, key);
  }

  /** After any commands at any times the keys are listed once each and are at most MAX_SIZE. */
  lemma {:induction false} ApplyAllValid(s: Store, ops: seq<Op>)
    requires s.Valid()
    ensures ApplyAll(s, ops).Valid() && ApplyAll(s, ops).maxSize == s.maxSize
    decreases |ops|
  {
    if ops != [] {
      ApplyValid(s, ops[0]);
      hide Apply;
      ApplyAllValid(Apply(s, ops[0]), ops[1..]);
    }
  }

  // ----- working set

  /** The keys commands name. */
  ghost function Touched(ops: seq<Op>): set<Key> { set i | 0 <= i < |ops| :: ops[i].key }

  /** The part of the recency order behind `key`: everything touched after it. */
  function Behind(order: seq<Key>, key: Key): seq<Key>
  {
    if order == [] then [] else if order[0] == key then order[1..] else Behind(order[1..], key)
  }

  /** Since `key` was last touched: it is still there as it was, and only keys in `others` are behind it. */
  ghost predicate Kept(s: Store, key: Key, value: Value, expiry: Option<real>, others: set<Key>) {
    && s.Valid() && key in s.entries && s.entries[key] == value
    && (if key in s.expireInfo then expiry == Some(s.expireInfo[key]) else expiry == None)
    && (forall k :: k in Behind(s.order, key) ==> k in others)
  }

  lemma {:induction false} BehindWithout(order: seq<Key>, key: Key, other: Key)
    requires key in order && other != key
    ensures Behind(Without(order, other), key) == Without(Behind(order, key), other)
  {
    if order[0] == key {
      assert Without(order, other) == [order[0]] + Without(order[1..], other);
    } else {
      BehindWithout(order[1..], key, other);
      if order[0] != other {
        var r := Without(order[1..], other);
        assert Without(order, other) == [order[0]] + r && ([order[0]] + r)[1..] == r;
      }
    }
  }

  lemma {:induction false} BehindAppend(order: seq<Key>, key: Key, last: Key)
    requires key in order
    ensures Behind(order + [last], key) == Behind(order, key) + [last]
  {
    assert (order + [last])[1..] == order[1..] + [last];
    if order[0] != key { BehindAppend(order[1..], key, last); }
  }

  /** A full store whose cold end is `key` holds nothing else but what is behind it. */
  lemma FrontIsOldest(s: Store, key: Key)
    requires s.Valid() && key in s.entries && s.order[0] == key
    ensures Behind(s.order, key) == s.order[1..]
  {
  }

  lemma BehindPop(order: seq<Key>, key: Key)
    requires key in order && order[0] != key
    ensures key in order[1..] && Behind(order[1..], key) == Behind(order, key)
  {
  }

  /** Making room for `other` evicts `key` only if MAX_SIZE other keys were touched since. */
  lemma EvictKeeps(s: Store, key: Key, value: Value, expiry: Option<real>, others: set<Key>, other: Key)
    requires Kept(s, key, value, expiry, others)
    requires other != key && other in others && key !in others && |others| < s.maxSize
    ensures Kept(CheckAndEvict(s, other), key, value, expiry, others)
  {
    CheckAndEvictValid(s, other);
    if |s.order| >= s.maxSize && other !in s.entries {
      if s.order[0] == key {
        FrontIsOldest(s, key);
        var rest := s.order[1..];
        forall k | k in rest ensures k in others - {other} { assert k in s.order; }
        DistinctKeysCount(rest, others - {other});
        assert false;
      }
      BehindPop(s.order, key);
    }
  }

  lemma MoveKeeps(s: Store, key: Key, value: Value, expiry: Option<real>, others: set<Key>, other: Key)
    requires Kept(s, key, value, expiry, others) && other != key && other in others && other in s.entries
    ensures Kept(MoveToEnd(s, other), key, value, expiry, others)
  {
    MoveToEndValid(s, other);
    BehindWithout(s.order, key, other);
    BehindAppend(Without(s.order, other), key, other);
  }

  lemma DeleteKeeps(s: Store, key: Key, value: Value, expiry: Option<real>, others: set<Key>, other: Key)
    requires Kept(s, key, value, expiry, others) && other != key
    ensures Kept(Delete(s, other), key, value, expiry, others)
  {
    DeleteValid(s, other);
    BehindWithout(s.order, key, other);
  }

  lemma InsertKeeps(s: Store, key: Key, value: Value, expiry: Option<real>, others: set<Key>, other: Key, v: Value)
    requires Kept(s, key, value, expiry, others) && other != key && other in others
    requires other in s.entries || |s.order| < s.maxSize
    ensures Kept(MoveToEnd(s.(entries := s.entries[other := v]), other), key, value, expiry, others)
  {
    InsertValid(s, other, v);
    BehindWithout(s.order, key, other);
    BehindAppend(Without(s.order, other), key, other);
  }

  lemma ExpireKeeps(s: Store, key: Key, value: Value, expiry: Option<real>, others: set<Key>, other: Key, timeout: int,
                    now: real)
    requires other != key && Kept(s, key, value, expiry, others)
    ensures Kept(Expire(s, other, timeout, now), key, value, expiry, others)
  {
  }

  lemma SetKeeps(s: Store, key: Key, value: Value, expiry: Option<real>, others: set<Key>, other: Key, v: Value,
                 timeout: int, now: real)
    requires Kept(s, key, value, expiry, others)
    requires other != key && other in others && key !in others && |others| < s.maxSize
    ensures Kept(Set(s, other, v, timeout, now), key, value, expiry, others)
  {
    CheckAndEvictValid(s, other);
    EvictKeeps(s, key, value, expiry, others, other);
    hide Kept, MoveToEnd, CheckAndEvict;
    var e := CheckAndEvict(s, other);
    InsertKeeps(e, key, value, expiry, others, other, v);
    ExpireKeeps(MoveToEnd(e.(entries := e.entries[other := v]), other), key, value, expiry, others, other, timeout,
                now);
  }

  lemma HSetKeeps(s: Store, key: Key, value: Value, expiry: Option<real>, others: set<Key>, other: Key,
                  mapping: map<string, int>)
    requires Kept(s, key, value, expiry, others)
    requires other != key && other in others && key !in others && |others| < s.maxSize
    ensures Kept(HSet(s, other, mapping).0, key, value, expiry, others)
  {
    CheckAndEvictValid(s, other);
    EvictKeeps(s, key, value, expiry, others, other);
    hide Kept, MoveToEnd, CheckAndEvict;
    if HSet(s, other, mapping).1.Ok? {
      if other in s.entries {
        InsertKeeps(s, key, value, expiry, others, other, DictVal(s.entries[other].kv + mapping));
      }
      else { InsertKeeps(CheckAndEvict(s, other), key, value, expiry, others, other, DictVal(mapping)); }
    }
  }

  /** One command on another key keeps `key`, while the others are fewer than MAX_SIZE. */
  lemma ApplyKeeps(s: Store, key: Key, value: Value, expiry: Option<real>, others: set<Key>, op: Op)
    requires Kept(s, key, value, expiry, others)
    requires op.key != key && op.key in others && key !in others && |others| < s.maxSize
    ensures Kept(Apply(s, op), key, value, expiry, others)
  {
    hide Kept, MoveToEnd, Delete, HasExpired, Set, HSet, Expire;
    DeleteKeeps(s, key, value, expiry, others, op.key);
    if op.key in s.entries { MoveKeeps(s, key, value, expiry, others, op.key); }
    match op
    case SetOp(_, v, timeout, now) => SetKeeps(s, key, value, expiry, others, op.key, v, timeout, now);
    case HSetOp(_, mapping) => HSetKeeps(s, key, value, expiry, others, op.key, mapping);
    case ExpireOp(_, timeout, now) => ExpireKeeps(s, key, value, expiry, others, op.key, timeout, now);
    case _ =>
  }

  /** Main result: a key just touched is still there, value and expiry unchanged, unless MAX_SIZE other keys were
      touched since. */
  lemma {:induction false} WorkingSet(s: Store, key: Key, value: Value, expiry: Option<real>, others: set<Key>,
                                      ops: seq<Op>)
    requires Kept(s, key, value, expiry, others) && key !in others && |others| < s.maxSize
    requires forall i :: 0 <= i < |ops| ==> ops[i].key in others
    ensures Kept(ApplyAll(s, ops), key, value, expiry, others)
    decreases |ops|
  {
    if ops != [] {
      hide Kept, Apply;
      ApplyKeeps(s, key, value, expiry, others, ops[0]);
      KeptValid(s, key, value, expiry, others);
      ApplyValid(s, ops[0]);
      WorkingSet(Apply(s, ops[0]), key, value, expiry, others, ops[1..]);
    }
  }

  lemma KeptValid(s: Store, key: Key, value: Value, expiry: Option<real>, others: set<Key>)
    requires Kept(s, key, value, expiry, others)
    ensures s.Valid()
  {
  }

  /** A key at the warm end has nothing behind it. */
  lemma {:induction false} WarmEnd(order: seq<Key>, key: Key)
    requires NoDup(order) && order != [] && order[|order| - 1] == key
    ensures Behind(order, key) == []
    decreases |order|
  {
    if |order| > 1 {
      assert order[0] != key;
      WarmEnd(order[1..], key);
    }
  }

  /** So a set survives any later commands on fewer than MAX_SIZE other keys, and is readable until its timeout. */
  lemma SetSurvives(s: Store, key: Key, value: Value, timeout: int, now: real, ops: seq<Op>, later: real)
    requires s.Valid() && |Touched(ops)| < s.maxSize && key !in Touched(ops)
    ensures Lookup(ApplyAll(Set(s, key, value, timeout, now), ops), key, later) ==
      if later < now + timeout as real then Some(value) else None
  {
    var s1, s2 := Set(s, key, value, timeout, now), ApplyAll(Set(s, key, value, timeout, now), ops);
    SetValid(s, key, value, timeout, now);
    WarmEnd(s1.order, key);
    WorkingSet(s1, key, value, Some(now + timeout as real), Touched(ops), ops);
  }

  /** And its time to live counts down to that: the timeout less the whole seconds gone by, until nothing is left. */
  lemma TtlCountsDown(s: Store, key: Key, value: Value, timeout: int, now: real, ops: seq<Op>, later: real)
    requires s.Valid() && |Touched(ops)| < s.maxSize && key !in Touched(ops)
    ensures Ttl(ApplyAll(Set(s, key, value, timeout, now), ops), key, later) ==
      if later < now + timeout as real then timeout - (later - now).Floor else -2
  {
    var s1 := Set(s, key, value, timeout, now);
    SetValid(s, key, value, timeout, now);
    WarmEnd(s1.order, key);
    WorkingSet(s1, key, value, Some(now + timeout as real), Touched(ops), ops);
    hide ApplyAll, Set;
    CeilOfRest(timeout, later - now, now + timeout as real - later);
  }

  lemma CeilOfRest(timeout: int, gone: real, rest: real)
    requires rest == timeout as real - gone
    ensures Ceil(rest) == timeout - gone.Floor
  {
    FloorShift(gone, -timeout);
  }

  // ----- the converse, for sets alone

  ghost predicate OnlySets(ops: seq<Op>) { forall i :: 0 <= i < |ops| ==> ops[i].SetOp? }

  /** While `key` is present, every key set after it is still behind it. */
  ghost predicate AllBehind(s: Store, key: Key, others: set<Key>) {
    s.Valid() && (key in s.entries ==> forall k :: k in others ==> k in Behind(s.order, key))
  }

  lemma SetAllBehind(s: Store, key: Key, others: set<Key>, other: Key, v: Value, timeout: int, now: real)
    requires AllBehind(s, key, others) && other != key
    ensures AllBehind(Set(s, other, v, timeout, now), key, others + {other})
  {
    SetValid(s, other, v, timeout, now);
    CheckAndEvictValid(s, other);
    var e := CheckAndEvict(s, other);
    if key in e.entries {
      if e != s { BehindPop(s.order, key); }
      BehindWithout(e.order, key, other);
      BehindAppend(Without(e.order, other), key, other);
    }
  }

  lemma {:induction false} SetsAllBehind(s: Store, key: Key, others: set<Key>, ops: seq<Op>)
    requires AllBehind(s, key, others) && OnlySets(ops) && key !in Touched(ops)
    ensures AllBehind(ApplyAll(s, ops), key, others + Touched(ops))
    decreases |ops|
  {
    if ops != [] {
      hide Set, AllBehind, Touched;
      var op := ops[0];
      TouchedCons(ops);
      SetAllBehind(s, key, others, op.key, op.value, op.timeout, op.now);
      SetsAllBehind(Apply(s, op), key, others + {op.key}, ops[1..]);
      assert others + {op.key} + Touched(ops[1..]) == others + Touched(ops);
    } else {
      assert others + Touched(ops) == others;
    }
  }

  lemma TouchedCons(ops: seq<Op>)
    requires ops != []
    ensures Touched(ops) == {ops[0].key} + Touched(ops[1..])
  {
    forall k | k in Touched(ops[1..]) ensures k in Touched(ops) {
      var i :| 0 <= i < |ops[1..]| && ops[1..][i].key == k;
      assert ops[i + 1].key == k;
    }
    forall k | k in Touched(ops) ensures k == ops[0].key || k in Touched(ops[1..]) {
      var i :| 0 <= i < |ops| && ops[i].key == k;
      if i > 0 { assert ops[1..][i - 1].key == k; }
    }
    assert ops[0].key in Touched(ops);
  }

  lemma {:induction false} BehindMembers(order: seq<Key>, key: Key)
    requires NoDup(order) && key in order
    ensures NoDup(Behind(order, key)) && |Behind(order, key)| < |order| && key !in Behind(order, key)
    decreases |order|
  {
    if order[0] != key { BehindMembers(order[1..], key); }
  }

  /** A set of keys all found in a sequence is no larger than the sequence. */
  lemma {:induction false} SetWithinSeq(keys: set<Key>, s: seq<Key>)
    requires forall k :: k in keys ==> k in s
    ensures |keys| <= |s|
    decreases |s|
  {
    if s != [] {
      forall k | k in keys - {s[0]} ensures k in s[1..] {}
      SetWithinSeq(keys - {s[0]}, s[1..]);
    } else {
      assert keys == {};
    }
  }

  /** Main result: after sets of other keys, a key just set is present exactly when those keys are fewer than
      MAX_SIZE. */
  lemma EvictedExactlyWhenFull(s: Store, key: Key, value: Value, timeout: int, now: real, ops: seq<Op>)
    requires s.Valid() && OnlySets(ops) && key !in Touched(ops)
    ensures key in ApplyAll(Set(s, key, value, timeout, now), ops).entries <==> |Touched(ops)| < s.maxSize
  {
    var s1 := Set(s, key, value, timeout, now);
    SetValid(s, key, value, timeout, now);
    WarmEnd(s1.order, key);
    if |Touched(ops)| < s.maxSize {
      WorkingSet(s1, key, value, Some(now + timeout as real), Touched(ops), ops);
    }
    SetsAllBehind(s1, key, {}, ops);
    ApplyAllValid(s1, ops);
    var s2 := ApplyAll(s1, ops);
    if key in s2.entries {
      assert {} + Touched(ops) == Touched(ops);
      SetWithinSeq(Touched(ops), Behind(s2.order, key));
      BehindMembers(s2.order, key);
    }
  }
}
