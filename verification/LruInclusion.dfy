/** A larger cache holds everything a smaller one does, fed the same commands. */
module LruInclusion {
  import opened Base
  import opened Store
  import opened Lru

  /** The sequence's elements that are in the set, in order. */
  function Keep(s: seq<Key>, ks: set<Key>): (r: seq<Key>)
    ensures forall k :: k in r <==> k in s && k in ks
  {
    if s == [] then [] else if s[0] in ks then [s[0]] + Keep(s[1..], ks) else Keep(s[1..], ks)
  }

  lemma {:induction false} KeepAppend(s: seq<Key>, key: Key, ks: set<Key>)
    ensures Keep(s + [key], ks) == Keep(s, ks) + (if key in ks then [key] else [])
  {
    if s == [] {
      assert [key][1..] == [];
    } else {
      assert (s + [key])[1..] == s[1..] + [key];
      KeepAppend(s[1..], key, ks);
    }
  }

  lemma {:induction false} KeepWithout(s: seq<Key>, key: Key, ks: set<Key>)
    ensures Keep(Without(s, key), ks) == Without(Keep(s, ks), key)
  {
    if s != [] {
      KeepWithout(s[1..], key, ks);
      if s[0] != key {
        var r := Without(s[1..], key);
        assert Without(s, key) == [s[0]] + r && ([s[0]] + r)[1..] == r;
      }
      var q := Keep(s[1..], ks);
      assert ([s[0]] + q)[1..] == q;
    }
  }

  lemma {:induction false} KeepFewer(s: seq<Key>, key: Key, ks: set<Key>)
    ensures Keep(s, ks - {key}) == Without(Keep(s, ks), key)
  {
    if s != [] {
      KeepFewer(s[1..], key, ks);
      var q := Keep(s[1..], ks);
      assert ([s[0]] + q)[1..] == q;
    }
  }

  lemma {:induction false} KeepSame(s: seq<Key>, ks: set<Key>, ks': set<Key>)
    requires forall k :: k in s ==> (k in ks <==> k in ks')
    ensures Keep(s, ks) == Keep(s, ks')
  {
    if s != [] { KeepSame(s[1..], ks, ks'); }
  }

  /** `s` is a sub-map of `t`: same values, same expiries, same relative order. */
  ghost predicate SubStore(s: Store, t: Store) {
    && s.Valid() && t.Valid()
    && s.expireInfo.Keys == s.entries.Keys && t.expireInfo.Keys == t.entries.Keys
    && (forall k :: k in s.entries ==>
          k in t.entries && t.entries[k] == s.entries[k] && t.expireInfo[k] == s.expireInfo[k])
    && s.order == Keep(t.order, s.entries.Keys)
  }

  /** And the larger store's lead in keys is at most its lead in room. */
  ghost predicate Included(s: Store, t: Store) {
    && SubStore(s, t) && s.maxSize <= t.maxSize
    && |t.order| - |s.order| <= t.maxSize - s.maxSize
  }

  lemma DropSmaller(s: Store, t: Store, key: Key)
    requires SubStore(s, t)
    ensures SubStore(Delete(s, key), t)
  {
    DeleteValid(s, key);
    KeepFewer(t.order, key, s.entries.Keys);
    assert Delete(s, key).entries.Keys == s.entries.Keys - {key};
  }

  lemma DropLarger(s: Store, t: Store, key: Key)
    requires SubStore(s, t) && key !in s.entries
    ensures SubStore(s, Delete(t, key))
  {
    DeleteValid(t, key);
    KeepWithout(t.order, key, s.entries.Keys);
  }

  lemma DropBoth(s: Store, t: Store, key: Key)
    requires SubStore(s, t)
    ensures SubStore(Delete(s, key), Delete(t, key))
  {
    DropSmaller(s, t, key);
    hide SubStore, Delete;
    DeletedIsGone(s, key);
    DropLarger(Delete(s, key), t, key);
  }

  lemma DeletedIsGone(s: Store, key: Key)
    ensures key !in Delete(s, key).entries
  {
  }

  lemma MoveLarger(s: Store, t: Store, key: Key)
    requires SubStore(s, t) && key in t.entries && key !in s.entries
    ensures SubStore(s, MoveToEnd(t, key))
  {
    MoveToEndValid(t, key);
    KeepWithout(t.order, key, s.entries.Keys);
    KeepAppend(Without(t.order, key), key, s.entries.Keys);
  }

  lemma MoveBoth(s: Store, t: Store, key: Key)
    requires SubStore(s, t) && key in s.entries
    ensures SubStore(MoveToEnd(s, key), MoveToEnd(t, key))
  {
    MoveToEndValid(s, key);
    MoveToEndValid(t, key);
    KeepWithout(t.order, key, s.entries.Keys);
    KeepAppend(Without(t.order, key), key, s.entries.Keys);
  }

  /** The same insertion into both, where both have room. */
  lemma InsertBoth(s: Store, t: Store, key: Key, v: Value, timeout: int, now: real)
    requires SubStore(s, t)
    requires (key in s.entries || |s.order| < s.maxSize) && (key in t.entries || |t.order| < t.maxSize)
    ensures SubStore(Set(s, key, v, timeout, now), Set(t, key, v, timeout, now))
  {
    hide Set, SubStore, NoDup, Keep, Without, Store.Valid;
    SubStoreValid(s, t);
    SetValid(s, key, v, timeout, now);
    SetValid(t, key, v, timeout, now);
    InsertedBoth(s, t, Set(s, key, v, timeout, now), Set(t, key, v, timeout, now), key, v, timeout, now);
  }

  lemma InsertedBoth(s: Store, t: Store, s': Store, t': Store, key: Key, v: Value, timeout: int, now: real)
    requires SubStore(s, t) && s'.Valid() && t'.Valid()
    requires (key in s.entries || |s.order| < s.maxSize) && (key in t.entries || |t.order| < t.maxSize)
    requires s' == Set(s, key, v, timeout, now) && t' == Set(t, key, v, timeout, now)
    ensures SubStore(s', t')
  {
    hide Set, SubStore, NoDup, Keep, Without, Store.Valid;
    SubStoreValid(s, t);
    SetInPlace(s, key, v, timeout, now);
    SetInPlace(t, key, v, timeout, now);
    InsertedOrder(s.order, t.order, s.entries.Keys, key);
    Inserted(s, t, s', t', key, v, now + timeout as real);
  }

  lemma SubStoreValid(s: Store, t: Store)
    requires SubStore(s, t)
    ensures s.Valid() && t.Valid() && s.order == Keep(t.order, s.entries.Keys)
  {
  }

  lemma InsertedOrder(small: seq<Key>, large: seq<Key>, ks: set<Key>, key: Key)
    requires small == Keep(large, ks)
    ensures Without(small, key) + [key] == Keep(Without(large, key) + [key], ks + {key})
  {
    KeepAppend(Without(large, key), key, ks + {key});
    KeepSame(Without(large, key), ks + {key}, ks);
    KeepWithout(large, key, ks);
  }

  lemma Inserted(s: Store, t: Store, s': Store, t': Store, key: Key, v: Value, expiry: real)
    requires SubStore(s, t) && s'.Valid() && t'.Valid()
    requires s'.entries == s.entries[key := v] && s'.expireInfo == s.expireInfo[key := expiry]
    requires t'.entries == t.entries[key := v] && t'.expireInfo == t.expireInfo[key := expiry]
    requires s'.order == Keep(t'.order, s.entries.Keys + {key})
    ensures SubStore(s', t')
  {
    hide NoDup, Keep;
    assert s'.entries.Keys == s.entries.Keys + {key};
  }

  /** Eviction is deletion of the cold end. */
  lemma EvictIsDelete(s: Store, key: Key)
    requires s.Valid()
    ensures CheckAndEvict(s, key) == if |s.order| >= s.maxSize && key !in s.entries then Delete(s, s.order[0]) else s
  {
    if |s.order| >= s.maxSize && key !in s.entries {
      assert s.order[0] !in s.order[1..];
    }
  }

  /** A set is an eviction and then the set, which evicts no more. */
  lemma SetAfterEvict(s: Store, key: Key, v: Value, timeout: int, now: real)
    requires s.Valid()
    ensures Set(s, key, v, timeout, now) == Set(CheckAndEvict(s, key), key, v, timeout, now)
    ensures var e := CheckAndEvict(s, key); key in e.entries || |e.order| < e.maxSize
    ensures |Set(s, key, v, timeout, now).order| ==
      if key in s.entries then |s.order| else if |s.order| >= s.maxSize then |s.order| else |s.order| + 1
  {
    CheckAndEvictValid(s, key);
    WithoutNoDup(CheckAndEvict(s, key).order, key);
  }

  /** The cold end of the larger store, if the smaller one has it, is its cold end too. */
  lemma ColdEnds(s: Store, t: Store)
    requires SubStore(s, t) && t.order != [] && t.order[0] in s.entries
    ensures s.order != [] && s.order[0] == t.order[0]
  {
  }

  lemma SetIncluded(s: Store, t: Store, key: Key, v: Value, timeout: int, now: real)
    requires Included(s, t)
    ensures Included(Set(s, key, v, timeout, now), Set(t, key, v, timeout, now))
  {
    hide Set, Delete, CheckAndEvict, Keep, Without;
    SetAfterEvict(s, key, v, timeout, now);
    SetAfterEvict(t, key, v, timeout, now);
    EvictIsDelete(s, key);
    EvictIsDelete(t, key);
    var e, f := CheckAndEvict(s, key), CheckAndEvict(t, key);
    if key !in s.entries && |s.order| >= s.maxSize {
      if key !in t.entries && |t.order| >= t.maxSize {
        if t.order[0] in s.entries {
          ColdEnds(s, t);
          DropBoth(s, t, t.order[0]);
        } else {
          DropSmaller(s, t, s.order[0]);
          OtherStays(s, s.order[0], t.order[0]);
          DropLarger(e, t, t.order[0]);
        }
      } else {
        DropSmaller(s, t, s.order[0]);
      }
    }
    InsertBoth(e, f, key, v, timeout, now);
    SetSize(s, key, v, timeout, now);
    SetSize(t, key, v, timeout, now);
  }

  lemma OtherStays(s: Store, key: Key, other: Key)
    requires other !in s.entries
    ensures other !in Delete(s, key).entries
  {
  }

  lemma SetSize(s: Store, key: Key, v: Value, timeout: int, now: real)
    ensures Set(s, key, v, timeout, now).maxSize == s.maxSize
  {
  }

  /** A read: a hit in the smaller store is the same hit in the larger. */
  lemma GetIncluded(s: Store, t: Store, key: Key, now: real)
    requires Included(s, t)
    ensures Included(Get(s, key, now).0, Get(t, key, now).0)
    ensures Get(s, key, now).1 != Ok(None) ==> Get(t, key, now).1 == Get(s, key, now).1
  {
    hide Delete, MoveToEnd, SubStore;
    SubStoreKeys(s, t, key, now);
    SizeAfter(s, key);
    SizeAfter(t, key);
    if key in s.entries {
      DropBoth(s, t, key);
      MoveBoth(s, t, key);
    } else if key in t.entries {
      DropLarger(s, t, key);
      MoveLarger(s, t, key);
    }
  }

  lemma SubStoreKeys(s: Store, t: Store, key: Key, now: real)
    requires SubStore(s, t)
    ensures s.Valid() && t.Valid()
    ensures key in s.entries ==> key in t.entries && t.entries[key] == s.entries[key]
    ensures key in s.entries ==> HasExpired(s, key, now) == HasExpired(t, key, now)
    ensures key !in s.entries ==> HasExpired(s, key, now) && Delete(s, key) == s
    ensures key !in t.entries ==> HasExpired(t, key, now) && Delete(t, key) == t
  {
    assert (key in s.order <==> key in s.entries) && (key in t.order <==> key in t.entries);
    if key !in s.entries { DeleteAbsent(s, key); }
    if key !in t.entries { DeleteAbsent(t, key); }
    hide NoDup, Keep, Delete;
  }

  /** Deleting or moving a key changes the size by the key, or not at all. */
  lemma SizeAfter(s: Store, key: Key)
    requires s.Valid()
    ensures |Delete(s, key).order| == |s.order| - (if key in s.entries then 1 else 0)
    ensures key in s.entries ==> |MoveToEnd(s, key).order| == |s.order|
    ensures Delete(s, key).maxSize == MoveToEnd(s, key).maxSize == s.maxSize
  {
    WithoutNoDup(s.order, key);
  }

  /** What each get of a sequence answers. */
  function Reads(s: Store, ops: seq<Op>): seq<Result<Option<Value>>>
    decreases |ops|
  {
    if ops == [] then [] else
    (if ops[0].GetOp? then [Get(s, ops[0].key, ops[0].now).1] else []) + Reads(Apply(s, ops[0]), ops[1..])
  }

  /** Main result: fed the same sets and gets at the same times, the smaller store stays a sub-map of the larger, and
      each of its hits is the larger's. */
  lemma {:induction false} LruInclusionHolds(s: Store, t: Store, ops: seq<Op>)
    requires Included(s, t) && forall i :: 0 <= i < |ops| ==> ops[i].SetOp? || ops[i].GetOp?
    ensures Included(ApplyAll(s, ops), ApplyAll(t, ops))
    ensures |Reads(s, ops)| == |Reads(t, ops)|
    ensures forall i :: 0 <= i < |Reads(s, ops)| && Reads(s, ops)[i] != Ok(None) ==>
      Reads(t, ops)[i] == Reads(s, ops)[i]
    decreases |ops|
  {
    hide Included, Set, Get;
    if ops != [] {
      var op := ops[0];
      if op.SetOp? { SetIncluded(s, t, op.key, op.value, op.timeout, op.now); }
      else { GetIncluded(s, t, op.key, op.now); }
      LruInclusionHolds(Apply(s, op), Apply(t, op), ops[1..]);
    }
  }
}
