/** The in-memory key-value cache with expiry (src/immich_bridge/cache.py, `InMemoryCache`). */
module CacheStore {
  import opened Wrappers
  import opened Text

  /** The JSON values kept: upstream metadata with the history of its load, a counter, or an
    * authenticated identity. */
  datatype Json =
    | Loaded(content: nat, load: nat, at: int, ttl: int)
    | Count(count: int)
    | Identity(userId: string)

  datatype Entry = Entry(value: Json, expiresAt: int)

  type Items = map<string, Entry>

  // ---------- the operations on the table ----------

  predicate Alive(items: Items, key: string, now: int) { key in items && now <= items[key].expiresAt }

  function Got(items: Items, key: string, now: int): Option<Json> {
    if Alive(items, key, now) then Some(items[key].value) else None
  }

  /** An expired entry is deleted when it is asked for. */
  function AfterGet(items: Items, key: string, now: int): Items {
    if key in items && now > items[key].expiresAt then items - {key} else items
  }

  function AfterSet(items: Items, key: string, value: Json, ttl: int, now: int): Items {
    items[key := Entry(value, now + ttl)]
  }

  function WithoutPrefix(items: Items, prefix: string): Items {
    map key | key in items && !StartsWith(key, prefix) :: items[key]
  }

  /** A living counter keeps its expiry; a new one opens a window of `ttl`. */
  function CountAfter(items: Items, key: string, now: int): int {
    if Alive(items, key, now) && items[key].value.Count? then items[key].value.count + 1 else 1
  }

  function AfterIncrement(items: Items, key: string, ttl: int, now: int): Items {
    var expiresAt := if Alive(items, key, now) then items[key].expiresAt else now + ttl;
    items[key := Entry(Count(CountAfter(items, key, now)), expiresAt)]
  }

  class InMemoryCache {
    var items: Items

    constructor ()
      ensures items == map[]
    {
      items := map[];
    }

    method GetJson(key: string, now: int) returns (value: Option<Json>)
      modifies this
      ensures value == Got(old(items), key, now) && items == AfterGet(old(items), key, now)
    {
      if key !in items {
        return None;
      }
      var entry := items[key];
      if now > entry.expiresAt {
        items := items - {key};
        return None;
      }
      return Some(entry.value);
    }

    method SetJson(key: string, value: Json, ttl: int, now: int)
      modifies this
      ensures items == AfterSet(old(items), key, value, ttl, now)
    {
      items := items[key := Entry(value, now + ttl)];
    }

    /** Collect the matching keys, then delete them one by one. */
    method DeletePrefix(prefix: string)
      modifies this
      ensures items == WithoutPrefix(old(items), prefix)
    {
      var keys := set key | key in items && StartsWith(key, prefix);
      ghost var all := keys;
      while keys != {}
        invariant keys <= all
        invariant items == map key | key in old(items) && (key !in all || key in keys) :: old(items)[key]
        decreases |keys|
      {
        var key :| key in keys;
        keys := keys - {key};
        items := items - {key};
      }
      assert items.Keys == WithoutPrefix(old(items), prefix).Keys;
      assert items == WithoutPrefix(old(items), prefix);
    }

    method GetInt(key: string, now: int) returns (count: Option<int>)
      modifies this
      ensures items == AfterGet(old(items), key, now)
      ensures count == match Got(old(items), key, now)
                       case Some(Count(n)) => Some(n)
                       case _ => None
    {
      var value := GetJson(key, now);
      match value
      case Some(Count(n)) => return Some(n);
      case _ => return None;
    }

    method IncrementWithTtl(key: string, ttl: int, now: int) returns (count: int)
      modifies this
      ensures count == CountAfter(old(items), key, now) && items == AfterIncrement(old(items), key, ttl, now)
    {
      var expiresAt;
      if key !in items || now > items[key].expiresAt {
        count := 1;
        expiresAt := now + ttl;
      } else {
        count := if items[key].value.Count? then items[key].value.count + 1 else 1;
        expiresAt := items[key].expiresAt;
      }
      items := items[key := Entry(Count(count), expiresAt)];
    }
  }
}
