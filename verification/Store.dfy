/** `throttled/store/memory.py` on values: what each backend command answers and leaves behind. */
module Store {
  import opened Base

  /** A storage key: the caller's key, or one of its numbered windows (see module Keys). */
  datatype Key = Plain(user: string) | Window(user: string, index: int)

  /** What the store holds under a key: an int, a float, or a hash of ints. */
  datatype Value = IntVal(i: int) | FloatVal(f: real) | DictVal(kv: map<string, int>)

  const TTL_NOT_TTL := -1
  const TTL_NOT_EXIST := -2

  /** `entries` with `order` is the OrderedDict (least recently touched first); `expireInfo` is kept beside it. */
  datatype Store = Store(maxSize: nat, order: seq<Key>, entries: map<Key, Value>, expireInfo: map<Key, real>) {
    /** The OrderedDict lists each of its keys once, and the backend never outgrows MAX_SIZE. */
    predicate Valid() {
      && 0 < maxSize
      && NoDup(order)
      && (forall k | k in order :: k in entries)
      && (forall k | k in entries :: k in order)
      && |order| <= maxSize
    }
  }

  predicate NoDup(s: seq<Key>) {
    forall i, j :: 0 <= i < j < |s| ==> s[i] != s[j]
  }

  /** The sequence without `key`. */
  function Without(s: seq<Key>, key: Key): (r: seq<Key>)
    ensures forall k :: k in r <==> k in s && k != key
    ensures |r| <= |s| && (key !in s ==> r == s)
  {
    if s == [] then [] else
    if s[0] == key then Without(s[1..], key) else [s[0]] + Without(s[1..], key)
  }

  function EmptyStore(maxSize: nat): Store { Store(maxSize, [], map[], map[]) }

  // ----- the commands

  function Ttl(s: Store, key: Key, now: real): int {
    if key !in s.expireInfo then
      if key !in s.entries then TTL_NOT_EXIST else TTL_NOT_TTL
    else
      var ttl := s.expireInfo[key] - now;
      if ttl <= 0.0 then TTL_NOT_EXIST else Ceil(ttl)
  }

  predicate HasExpired(s: Store, key: Key, now: real) { Ttl(s, key, now) == TTL_NOT_EXIST }

  function Delete(s: Store, key: Key): Store {
    Store(s.maxSize, Without(s.order, key), s.entries - {key}, s.expireInfo - {key})
  }

  /** `check_and_evict`: a full store drops its least recently touched key to let a new one in. */
  function CheckAndEvict(s: Store, key: Key): Store {
    if |s.order| >= s.maxSize && key !in s.entries && |s.order| > 0 then
      Store(s.maxSize, s.order[1..], s.entries - {s.order[0]}, s.expireInfo - {s.order[0]})
    else s
  }

  function Expire(s: Store, key: Key, timeout: int, now: real): Store {
    s.(expireInfo := s.expireInfo[key := now + timeout as real])
  }

  function MoveToEnd(s: Store, key: Key): Store {
    s.(order := Without(s.order, key) + [key])
  }

  function Get(s: Store, key: Key, now: real): (Store, Result<Option<Value>>) {
    if HasExpired(s, key, now) then (Delete(s, key), Ok(None))
    else if key !in s.entries then (s, Ok(None))
    else if s.entries[key].DictVal? then (s, DataError)
    else (MoveToEnd(s, key), Ok(Some(s.entries[key])))
  }

  function Set(s: Store, key: Key, value: Value, timeout: int, now: real): Store {
    var e := CheckAndEvict(s, key);
    Expire(MoveToEnd(e.(entries := e.entries[key := value]), key), key, timeout, now)
  }

  function HSet(s: Store, name: Key, mapping: map<string, int>): (Store, Result<()>) {
    if mapping == map[] then (s, DataError)
    else if name in s.entries && !s.entries[name].DictVal? then (s, DataError)
    else
      var e := if name in s.entries then s else CheckAndEvict(s, name);
      var kv := if name in s.entries then s.entries[name].kv + mapping else mapping;
      (MoveToEnd(e.(entries := e.entries[name := DictVal(kv)]), name), Ok(()))
  }

  function HGetAll(s: Store, name: Key, now: real): (Store, Result<map<string, int>>) {
    if HasExpired(s, name, now) then (Delete(s, name), Ok(map[]))
    else if name !in s.entries then (s, Ok(map[]))
    else if !s.entries[name].DictVal? then (s, DataError)
    else (MoveToEnd(s, name), Ok(s.entries[name].kv))
  }

  /** `get_client()[key] = value`: a present key keeps its place, a missing one is appended with no size check. */
  function ClientPut(s: Store, key: Key, value: Value): Store {
    s.(entries := s.entries[key := value], order := if key in s.entries then s.order else s.order + [key])
  }

  // ----- what the commands keep

  /** Distinct keys drawn from a set are at most as many. */
  lemma {:induction false} DistinctKeysCount(keys: seq<Key>, within: set<Key>)
    requires NoDup(keys) && forall k :: k in keys ==> k in within
    ensures |keys| <= |within|
  {
    if keys != [] {
      forall k | k in keys[1..] ensures k in within - {keys[0]} {
        var i :| 0 <= i < |keys[1..]| && keys[1..][i] == k;
        assert keys[i + 1] == k;
      }
      DistinctKeysCount(keys[1..], within - {keys[0]});
    }
  }

  lemma {:induction false} WithoutNoDup(s: seq<Key>, key: Key)
    requires NoDup(s)
    ensures NoDup(Without(s, key))
    ensures key in s ==> |Without(s, key)| == |s| - 1
  {
    if s != [] {
      WithoutNoDup(s[1..], key);
      if s[0] == key {
        assert key !in s[1..];
        assert Without(s[1..], key) == s[1..];
      } else {
        assert s[0] !in s[1..];
        assert s[0] !in Without(s[1..], key);
      }
    }
  }

  lemma MoveToEndValid(s: Store, key: Key)
    requires s.Valid() && key in s.entries
    ensures MoveToEnd(s, key).Valid()
  {
    WithoutNoDup(s.order, key);
  }

  lemma DeleteValid(s: Store, key: Key)
    requires s.Valid()
    ensures Delete(s, key).Valid()
  {
    WithoutNoDup(s.order, key);
  }

  lemma DeleteAbsent(s: Store, key: Key)
    requires key !in s.order && key !in s.entries && key !in s.expireInfo
    ensures Delete(s, key) == s
  {
    assert s.entries - {key} == s.entries && s.expireInfo - {key} == s.expireInfo;
  }

  lemma CheckAndEvictValid(s: Store, key: Key)
    requires s.Valid()
    ensures CheckAndEvict(s, key).Valid()
    ensures key in s.entries || |CheckAndEvict(s, key).order| < s.maxSize
    ensures key in CheckAndEvict(s, key).entries <==> key in s.entries
  {
    if |s.order| >= s.maxSize && key !in s.entries {
      var f, r := s.order[0], s.order[1..];
      assert s.order == [f] + r;
      assert forall k :: k in s.order <==> k == f || k in r;
      assert f !in r;
    }
  }

  lemma InsertValid(s: Store, key: Key, value: Value)
    requires s.Valid() && (key in s.entries || |s.order| < s.maxSize)
    ensures MoveToEnd(s.(entries := s.entries[key := value]), key).Valid()
  {
    WithoutNoDup(s.order, key);
  }

  lemma SetValid(s: Store, key: Key, value: Value, timeout: int, now: real)
    requires s.Valid()
    ensures Set(s, key, value, timeout, now).Valid()
  {
    CheckAndEvictValid(s, key);
    InsertValid(CheckAndEvict(s, key), key, value);
  }

  /** With room left, a set only adds or replaces its own key. */
  lemma SetInPlace(s: Store, key: Key, v: Value, ttl: int, now: real)
    requires s.Valid() && (key in s.entries || |s.order| < s.maxSize)
    ensures var s' := Set(s, key, v, ttl, now);
      && s'.maxSize == s.maxSize
      && s'.order == Without(s.order, key) + [key]
      && s'.entries == s.entries[key := v]
      && s'.expireInfo == s.expireInfo[key := now + ttl as real]
  {
  }

  /** A set is an eviction, if need be, and then an insertion at the warm end. */
  lemma SetIsEvictThenInsert(s: Store, key: Key, v: Value, ttl: int, now: real)
    requires s.Valid()
    ensures var e, s' := CheckAndEvict(s, key), Set(s, key, v, ttl, now);
      && e.Valid() && e.maxSize == s.maxSize && s'.Valid() && s'.maxSize == s.maxSize
      && s'.order == Without(e.order, key) + [key]
      && s'.entries == e.entries[key := v] && key in s'.entries
      && s'.expireInfo == e.expireInfo[key := now + ttl as real]
  {
    CheckAndEvictValid(s, key);
    SetValid(s, key, v, ttl, now);
  }

  /** So is an `hset` that raises nothing. */
  lemma HSetIsEvictThenInsert(s: Store, name: Key, mapping: map<string, int>)
    requires s.Valid() && mapping != map[] && (name in s.entries ==> s.entries[name].DictVal?)
    ensures var (e, (s', r)) := (CheckAndEvict(s, name), HSet(s, name, mapping));
      && e.Valid() && e.maxSize == s.maxSize && s'.Valid() && s'.maxSize == s.maxSize && r == Ok(())
      && s'.order == Without(e.order, name) + [name] && s'.expireInfo == e.expireInfo
      && s'.entries == e.entries[name := DictVal(if name in s.entries then s.entries[name].kv + mapping else mapping)]
  {
    CheckAndEvictValid(s, name);
    HSetValid(s, name, mapping);
  }

  lemma GetValid(s: Store, key: Key, now: real)
    requires s.Valid()
    ensures Get(s, key, now).0.Valid()
  {
    DeleteValid(s, key);
    if key in s.entries { MoveToEndValid(s, key); }
  }

  lemma HSetValid(s: Store, name: Key, mapping: map<string, int>)
    requires s.Valid()
    ensures HSet(s, name, mapping).0.Valid()
  {
    CheckAndEvictValid(s, name);
    if HSet(s, name, mapping).1.Ok? {
      var e := if name in s.entries then s else CheckAndEvict(s, name);
      var kv := if name in s.entries then s.entries[name].kv + mapping else mapping;
      InsertValid(e, name, DictVal(kv));
    }
  }

  lemma HGetAllValid(s: Store, name: Key, now: real)
    requires s.Valid()
    ensures HGetAll(s, name, now).0.Valid()
  {
    DeleteValid(s, name);
    if name in s.entries { MoveToEndValid(s, name); }
  }

  /** A key just read or set is present, and reading another key does not remove it. */
  lemma PresentAfter(s: Store, key: Key, value: Value, timeout: int, other: Key, now: real)
    ensures Get(s, key, now).1.Ok? && Get(s, key, now).1.value.Some? ==> key in Get(s, key, now).0.entries
    ensures key in Set(s, key, value, timeout, now).entries
    ensures other != key && key in s.entries ==> key in Get(s, other, now).0.entries
  {
  }

  // ----- the store seen as a timed map

  /** What a reader at an instant may find under a key. */
  function Lookup(s: Store, key: Key, now: real): Option<Value> {
    if key in s.entries && !HasExpired(s, key, now) then Some(s.entries[key]) else None
  }

  /** The key an insertion pushes out, if any. */
  function Evicted(s: Store, key: Key): set<Key> {
    if |s.order| >= s.maxSize && key !in s.entries && |s.order| > 0 then {s.order[0]} else {}
  }

  /** A number is read exactly when it is live, and reading changes nothing readable, now or later. */
  lemma GetIsLookup(s: Store, key: Key, now: real, other: Key, later: real)
    requires s.Valid() && now <= later
    ensures var (s', r) := Get(s, key, now);
      && Lookup(s', other, later) == Lookup(s, other, later)
      && (r == match Lookup(s, key, now)
               case None => Ok(None)
               case Some(v) => if v.DictVal? then DataError else Ok(Some(v)))
  {
  }

  /** Likewise a hash. */
  lemma HGetAllIsLookup(s: Store, name: Key, now: real, other: Key, later: real)
    requires s.Valid() && now <= later
    ensures var (s', r) := HGetAll(s, name, now);
      && Lookup(s', other, later) == Lookup(s, other, later)
      && (r == match Lookup(s, name, now)
               case None => Ok(map[])
               case Some(v) => if v.DictVal? then Ok(v.kv) else DataError)
  {
  }

  /** An `hset` raises exactly for no fields or over a number, and then changes nothing; otherwise it merges the fields
      into what is there, expired or not, leaves its expiry, and costs no other key but the evicted one. */
  lemma HSetIsMerge(s: Store, name: Key, mapping: map<string, int>, other: Key, later: real)
    requires s.Valid()
    ensures var (s', r) := HSet(s, name, mapping);
      if mapping == map[] || (name in s.entries && !s.entries[name].DictVal?) then r == DataError && s' == s
      else
        && r == Ok(()) && name in s'.entries && s'.entries[name].DictVal?
        && Merged(if name in s.entries then s.entries[name].kv else map[], mapping, s'.entries[name].kv)
        && Expiry(s', name) == Expiry(s, name)
        && (other != name ==>
              Lookup(s', other, later) == if other in Evicted(s, name) then None else Lookup(s, other, later))
  {
    hide NoDup, Without, CheckAndEvict, Evicted, Store.Valid, MoveToEnd;
    if mapping != map[] && (name in s.entries ==> s.entries[name].DictVal?) {
      HSetIsEvictThenInsert(s, name, mapping);
      EvictIsEvicted(s, name, other, later);
      hide HSet;
    }
  }

  /** The fields of both, those of `fields` first. */
  ghost predicate Merged(before: map<string, int>, fields: map<string, int>, kv: map<string, int>) {
    && (forall f :: f in fields ==> f in kv && kv[f] == fields[f])
    && (forall f :: f !in fields ==> (f in kv <==> f in before))
    && (forall f :: f !in fields && f in kv ==> kv[f] == before[f])
  }

  function Expiry(s: Store, key: Key): Option<real> {
    if key in s.expireInfo then Some(s.expireInfo[key]) else None
  }

  lemma EvictIsEvicted(s: Store, key: Key, other: Key, later: real)
    requires s.Valid()
    ensures var e := CheckAndEvict(s, key);
      && e.maxSize == s.maxSize && Expiry(e, key) == Expiry(s, key)
      && Lookup(e, other, later) == if other in Evicted(s, key) then None else Lookup(s, other, later)
  {
    hide NoDup;
    if |s.order| > 0 { assert s.order[0] in s.order; }
  }

  /** A direct write costs no other key, leaves every expiry, and puts a new key at the warm end. */
  lemma ClientPutIsUpdate(s: Store, key: Key, value: Value, other: Key, later: real)
    requires s.Valid()
    ensures var s' := ClientPut(s, key, value);
      && Lookup(s', other, later) == (if other != key then Lookup(s, other, later)
                                      else if key in s.expireInfo && s.expireInfo[key] <= later then None
                                      else Some(value))
      && s.order <= s'.order && key in s'.order && (key in s.entries ==> s'.order == s.order)
  {
  }

  /** A set is readable until its timeout, and costs no other key but the evicted one. */
  lemma SetIsTimedUpdate(s: Store, key: Key, value: Value, timeout: int, now: real, other: Key, later: real)
    requires s.Valid() && now <= later
    ensures var s' := Set(s, key, value, timeout, now);
      Lookup(s', other, later) ==
        if other == key then (if later < now + timeout as real then Some(value) else None)
        else if other in Evicted(s, key) then None
        else Lookup(s, other, later)
  {
  }
}
