/** The in-memory key-value store: time-to-live entries with least-recently-used eviction. */
module KvStore {
  import opened OrderedMaps
  import opened Sequences
  import opened Wrappers

  datatype CacheEntry = CacheEntry(value: string, expiresAt: Option<int>)

  predicate Expired(entry: CacheEntry, now: int) {
    entry.expiresAt.Some? && entry.expiresAt.value <= now
  }

  function NormalizeTtl(ttl: Option<JsNumber>): Option<int> {
    if ttl.None? || ttl.value.NotFinite? || ttl.value.r <= 0.0 then None else Some(ttl.value.r.Floor)
  }

  /** A time to live that rounds down to zero counts as none: the entry never expires. */
  function ExpiresAt(ttl: Option<JsNumber>, now: int): (r: Option<int>)
    ensures r.Some? ==> r.value > now
  {
    match NormalizeTtl(ttl)
    case None => None
    case Some(ms) => if ms == 0 then None else Some(now + ms)
  }

  // ----- The store's operations as functions of its contents -----

  type Contents = OrderedMap<CacheEntry>

  function Live(m: Contents, now: int): set<string> {
    set k | k in m.values && !Expired(m.values[k], now)
  }

  /** Deletes from the front while there are more than `max` entries. An empty key at the front
      stops the loop. */
  function Enforce(m: Contents, max: nat): Contents
    requires m.Valid()
    decreases |m.keys|
  {
    if |m.keys| > max && m.keys[0] != "" then
      RemoveFront(m);
      Enforce(m.Remove(m.keys[0]), max)
    else m
  }

  lemma RemoveFront(m: Contents)
    requires m.Valid() && m.keys != []
    ensures m.Remove(m.keys[0]).Valid() && |m.Remove(m.keys[0]).keys| == |m.keys| - 1
    ensures m.Remove(m.keys[0]).values.Keys == m.values.Keys - {m.keys[0]}
  {
    var m' := m.Remove(m.keys[0]);
    assert m.keys[0] in Elements(m.keys);
    m.RestrictValid(m.values.Keys - {m.keys[0]});
    m.Size();
    m'.Size();
    assert m'.values.Keys == m.values.Keys - {m.keys[0]};
  }

  function StoreGet(m: Contents, key: string, now: int): (Contents, Option<string>) {
    if key !in m.values then (m, None)
    else if Expired(m.values[key], now) then (m.Remove(key), None)
    else (m.Remove(key).Put(key, m.values[key]), Some(m.values[key].value))
  }

  function StoreSet(m: Contents, max: nat, key: string, value: string, ttl: Option<JsNumber>, now: int): Contents
    requires m.Valid()
  {
    var put := m.Put(key, CacheEntry(value, ExpiresAt(ttl, now)));
    m.PutValid(key, CacheEntry(value, ExpiresAt(ttl, now)));
    put.RestrictValid(Live(put, now));
    Enforce(put.Restrict(Live(put, now)), max)
  }

  function Unprefixed(m: Contents, prefix: string): set<string> {
    set k | k in m.values && !(prefix <= k)
  }

  function StoreClear(m: Contents, prefix: string): Contents {
    if prefix == "" then m else m.Restrict(Unprefixed(m, prefix))
  }

  // ----- The store object -----

  class MemoryKvStore {
    const maxEntries: nat
    var data: Contents

    ghost predicate Valid()
      reads this
    {
      data.Valid() && maxEntries >= 1
    }

    constructor (maxEntries: int)
      ensures Valid() && data == OrderedMap([], map[])
      ensures this.maxEntries == if maxEntries >= 1 then maxEntries else 1
    {
      this.maxEntries := if maxEntries >= 1 then maxEntries else 1;
      data := OrderedMap([], map[]);
    }

    method Get(key: string, now: int) returns (value: Option<string>)
      requires Valid()
      modifies this
      ensures Valid() && (data, value) == StoreGet(old(data), key, now)
    {
      if key !in data.values {
        return None;
      }
      var entry := data.values[key];
      data.RestrictValid(data.values.Keys - {key});
      if Expired(entry, now) {
        data := data.Remove(key);
        return None;
      }
      data := data.Remove(key);
      data.PutValid(key, entry);
      data := data.Put(key, entry);
      return Some(entry.value);
    }

    method Set(key: string, value: string, ttl: Option<JsNumber>, now: int)
      requires Valid()
      modifies this
      ensures Valid() && data == StoreSet(old(data), maxEntries, key, value, ttl, now)
    {
      var entry := CacheEntry(value, ExpiresAt(ttl, now));
      data.PutValid(key, entry);
      data := data.Put(key, entry);
      EvictExpiredKeys(now);
      EnforceEntryLimit();
    }

    method Del(key: string)
      requires Valid()
      modifies this
      ensures Valid() && data == old(data).Remove(key)
    {
      data.RestrictValid(data.values.Keys - {key});
      data := data.Remove(key);
    }

    method EvictExpiredKeys(now: int)
      requires Valid()
      modifies this
      ensures Valid() && data == old(data).Restrict(Live(old(data), now))
    {
      data.RestrictValid(Live(data, now));
      var live, _ := ScanDelete(data, Live(data, now));
      data := live;
    }

    method EnforceEntryLimit()
      requires Valid()
      modifies this
      ensures Valid() && data == Enforce(old(data), maxEntries)
    {
      while |data.keys| > maxEntries
        invariant Valid() && Enforce(data, maxEntries) == Enforce(old(data), maxEntries)
        decreases |data.keys|
      {
        var oldestKey := data.keys[0];
        if oldestKey == "" {
          break;
        }
        RemoveFront(data);
        data := data.Remove(oldestKey);
      }
    }

    method ClearByPrefix(prefix: string) returns (removed: nat)
      requires Valid()
      modifies this
      ensures Valid() && data == StoreClear(old(data), prefix)
      ensures removed == if prefix == "" then 0 else |set k | k in old(data).values && prefix <= k|
    {
      if prefix == "" {
        return 0;
      }
      data.RestrictValid(Unprefixed(data, prefix));
      data, removed := ScanDelete(data, Unprefixed(data, prefix));
      assert old(data).values.Keys - Unprefixed(old(data), prefix) == set k | k in old(data).values && prefix <= k;
    }
  }
}
