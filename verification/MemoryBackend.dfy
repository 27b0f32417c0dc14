/** `BaseMemoryStoreBackend`: the store as the mutable object the limiters share. */
module MemoryBackend {
  import opened Base
  import S = Store

  type Key = S.Key
  type Value = S.Value

  class Backend {
    const maxSize: nat
    var expireInfo: map<Key, real>
    // the OrderedDict `_client`: its contents, and its keys from least to most recently touched
    var entries: map<Key, Value>
    var order: seq<Key>

    /** The state the command functions of module Store speak about. */
    ghost function State(): S.Store
      reads this
    {
      S.Store(maxSize, order, entries, expireInfo)
    }

    ghost predicate Valid()
      reads this
    {
      State().Valid()
    }

    constructor (size: nat)
      requires size > 0
      ensures Valid() && State() == S.EmptyStore(size)
    {
      maxSize, expireInfo, entries, order := size, map[], map[], [];
    }

    /** The constructor of the source raises SetUpError for a MAX_SIZE that is not positive. */
    static method SetUp(size: int) returns (b: Backend?)
      ensures b == null <==> size <= 0
      ensures b != null ==> fresh(b) && b.Valid() && b.State() == S.EmptyStore(size)
    {
      if size <= 0 { return null; }
      b := new Backend(size);
    }

    method Exists(key: Key) returns (r: bool)
      ensures r <==> key in State().entries
    {
      r := key in entries;
    }

    method TimeToLive(key: Key, now: real) returns (r: int)
      ensures r == S.Ttl(State(), key, now)
      ensures key in expireInfo && expireInfo[key] > now ==> (r - 1) as real < expireInfo[key] - now <= r as real
      ensures r == -1 <==> key in entries && key !in expireInfo
      ensures r == -2 <==> if key in expireInfo then expireInfo[key] <= now else key !in entries
    {
      if key !in expireInfo {
        var present := Exists(key);
        return if !present then S.TTL_NOT_EXIST else S.TTL_NOT_TTL;
      }
      var ttl := expireInfo[key] - now;
      if ttl <= 0.0 { return S.TTL_NOT_EXIST; }
      return Ceil(ttl);
    }

    method HasExpired(key: Key, now: real) returns (r: bool)
      ensures r == S.HasExpired(State(), key, now)
    {
      var ttl := TimeToLive(key, now);
      r := ttl == S.TTL_NOT_EXIST;
    }

    method MoveToEnd(key: Key)
      requires Valid() && key in entries
      modifies this`order
      ensures Valid() && State() == S.MoveToEnd(old(State()), key)
    {
      S.MoveToEndValid(State(), key);
      order := S.Without(order, key) + [key];
    }

    method CheckAndEvict(key: Key)
      requires Valid()
      modifies this
      ensures Valid() && State() == S.CheckAndEvict(old(State()), key)
      ensures key in entries || |order| < maxSize
    {
      S.CheckAndEvictValid(State(), key);
      var isFull := |order| >= maxSize;
      var present := Exists(key);
      if isFull && !present {
        var popKey := order[0];
        order, entries := order[1..], entries - {popKey};
        expireInfo := expireInfo - {popKey};
      }
    }

    method Expire(key: Key, timeout: int, now: real)
      requires Valid()
      modifies this`expireInfo
      ensures Valid() && State() == S.Expire(old(State()), key, timeout, now)
    {
      expireInfo := expireInfo[key := now + timeout as real];
    }

    method Delete(key: Key) returns (deleted: bool)
      requires Valid()
      modifies this
      ensures Valid() && State() == S.Delete(old(State()), key)
      ensures deleted <==> key in old(entries)
    {
      hide S.NoDup, S.Without;
      S.DeleteValid(State(), key);
      assert key !in entries ==> entries - {key} == entries;
      expireInfo := expireInfo - {key};
      deleted := key in entries;
      if deleted {
        entries, order := entries - {key}, S.Without(order, key);
      }
    }

    method Get(key: Key, now: real) returns (r: Result<Option<Value>>)
      requires Valid()
      modifies this
      ensures Valid() && (State(), r) == S.Get(old(State()), key, now)
    {
      var expired := HasExpired(key, now);
      if expired {
        var _ := Delete(key);
        return Ok(None);
      }
      if key in entries && entries[key].DictVal? { return DataError; }
      if key in entries {
        MoveToEnd(key);
        return Ok(Some(entries[key]));
      }
      return Ok(None);
    }

    method Set(key: Key, value: Value, timeout: int, now: real)
      requires Valid()
      modifies this
      ensures Valid() && State() == S.Set(old(State()), key, value, timeout, now)
    {
      CheckAndEvict(key);
      S.InsertValid(State(), key, value);
      entries, order := entries[key := value], S.Without(order, key) + [key];
      Expire(key, timeout, now);
    }

    method HSet(name: Key, mapping: map<string, int>) returns (r: Result<()>)
      requires Valid()
      modifies this
      ensures Valid() && (State(), r) == S.HSet(old(State()), name, mapping)
    {
      if mapping == map[] { return DataError; }
      if name in entries {
        if !entries[name].DictVal? { return DataError; }
        S.InsertValid(State(), name, S.DictVal(entries[name].kv + mapping));
        entries := entries[name := S.DictVal(entries[name].kv + mapping)];
      } else {
        CheckAndEvict(name);
        S.InsertValid(State(), name, S.DictVal(mapping));
        entries := entries[name := S.DictVal(mapping)];
      }
      order := S.Without(order, name) + [name];
      return Ok(());
    }

    method HGetAll(name: Key, now: real) returns (r: Result<map<string, int>>)
      requires Valid()
      modifies this
      ensures Valid() && (State(), r) == S.HGetAll(old(State()), name, now)
    {
      var expired := HasExpired(name, now);
      if expired {
        var _ := Delete(name);
        return Ok(map[]);
      }
      if name in entries && !entries[name].DictVal? { return DataError; }
      if name in entries {
        MoveToEnd(name);
        return Ok(entries[name].kv);
      }
      return Ok(map[]);
    }

    /** `get_client()[key] = value`: only a present key is sure to keep the size bound. */
    method ClientPut(key: Key, value: Value)
      requires Valid()
      modifies this
      ensures State() == S.ClientPut(old(State()), key, value)
      ensures key in old(entries) ==> Valid()
    {
      if key !in entries { order := order + [key]; }
      entries := entries[key := value];
    }
  }
}
