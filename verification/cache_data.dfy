/**
  The in-memory cache: namespaces ("cache names") mapping keys to entries, with
  per-entry time-to-live. Every operation is one atomic state transition; the
  clock reading is the parameter `now` (whole seconds).
*/
module CacheData {
  import opened Wrappers

  /** A stored record: last write time, time-to-live in seconds, payload. */
  datatype Entry<V> = Entry(time: int, ttl: int, value: V)

  /** The entries of one namespace. */
  type Table<V> = map<string, Entry<V>>

  /** The whole cache: namespace name to its table. */
  type Cache<V> = map<string, Table<V>>

  /** The entry stored under `(ns, key)`, if any. */
  function Lookup<V>(c: Cache<V>, ns: string, key: string): Option<Entry<V>> {
    if ns in c && key in c[ns] then Some(c[ns][key]) else None
  }

  /** `cache_data[ns][key] = e`, creating `ns` first when it is new (the way loading does). */
  function Store<V>(c: Cache<V>, ns: string, key: string, e: Entry<V>): (r: Cache<V>)
    ensures r.Keys == c.Keys + {ns}
    ensures Lookup(r, ns, key) == Some(e)
    ensures forall n, k :: (n != ns || k != key) ==> Lookup(r, n, k) == Lookup(c, n, k)
  {
    c[ns := (if ns in c then c[ns] else map[])[key := e]]
  }

  /**
    `add_cache`, with the intended result: `true` when a new, empty namespace
    was made, `false` (and nothing changed) when the name was already taken.
    Adding a namespace never changes what any lookup finds.
  */
  function AddCache<V>(c: Cache<V>, name: string): (r: (Cache<V>, bool))
    ensures r.1 <==> name !in c
    ensures r.0.Keys == c.Keys + {name}
    ensures !r.1 ==> r.0 == c
    ensures r.1 ==> r.0[name] == map[]
    ensures forall n, k :: Lookup(r.0, n, k) == Lookup(c, n, k)
  {
    if name in c then (c, false) else (c[name := map[]], true)
  }

  /**
    `get`: the payload stored under `(ns, key)` unless the entry has outlived
    its time-to-live. The source's guard is `-1 < ttl < now - time`.
  */
  function Get<V>(c: Cache<V>, ns: string, key: string, now: int): (r: Option<V>)
    ensures Lookup(c, ns, key) == None ==> r == None
    ensures r.Some? ==> Lookup(c, ns, key).Some? && r.value == Lookup(c, ns, key).value.value
    ensures Lookup(c, ns, key).Some? ==>
      var e := Lookup(c, ns, key).value;
      (r == None <==> e.ttl >= 0 && now - e.time > e.ttl)
  {
    if ns !in c then None
    else if key in c[ns] then
      var e := c[ns][key];
      if -1 < e.ttl < now - e.time then None else Some(e.value)
    else None
  }

  /**
    `set_cache_data`: stamp `(now, ttl, value)` under `key` of an existing
    namespace and hand back `value`. An unknown namespace is a failure
    (`None`) that changes nothing.
  */
  function SetCacheData<V>(c: Cache<V>, ns: string, key: string, value: V, ttl: int, now: int): (r: (Cache<V>, Option<V>))
    ensures r.1.Some? <==> ns in c
    ensures r.1.Some? ==> r.1.value == value
    ensures ns !in c ==> r.0 == c
    ensures r.0.Keys == c.Keys
    ensures ns in c ==> Lookup(r.0, ns, key) == Some(Entry(now, ttl, value))
    ensures forall n, k :: (n != ns || k != key) ==> Lookup(r.0, n, k) == Lookup(c, n, k)
  {
    if ns !in c then (c, None)
    else (Store(c, ns, key, Entry(now, ttl, value)), Some(value))
  }

  /** `add_cache_data`: behaves exactly like `set_cache_data`. */
  function AddCacheData<V>(c: Cache<V>, ns: string, key: string, value: V, ttl: int, now: int): (r: (Cache<V>, Option<V>))
    ensures r == SetCacheData(c, ns, key, value, ttl, now)
  {
    if ns in c then (Store(c, ns, key, Entry(now, ttl, value)), Some(value))
    else (c, None)
  }

  /** Get on a namespace that does not exist misses. */
  lemma GetUnknownNamespace<V>(c: Cache<V>, ns: string, key: string, now: int)
    requires ns !in c
    ensures Get(c, ns, key, now) == None
  {
  }

  /** Get of a key the namespace does not hold misses. */
  lemma GetUnknownKey<V>(c: Cache<V>, ns: string, key: string, now: int)
    requires ns in c && key !in c[ns]
    ensures Get(c, ns, key, now) == None
  {
  }

  /** With a non-negative ttl an entry misses exactly when strictly more than ttl seconds passed. */
  lemma ExpiresStrictlyAfterTtl<V>(c: Cache<V>, ns: string, key: string, now: int)
    requires ns in c && key in c[ns] && c[ns][key].ttl >= 0
    ensures Get(c, ns, key, now) == None <==> now - c[ns][key].time > c[ns][key].ttl
    ensures Get(c, ns, key, now) != None ==> Get(c, ns, key, now) == Some(c[ns][key].value)
  {
  }

  /** At exactly ttl seconds after the write the entry is still a hit. */
  lemma HitAtTtlBoundary<V>(c: Cache<V>, ns: string, key: string, now: int)
    requires ns in c && key in c[ns]
    requires now - c[ns][key].time == c[ns][key].ttl
    ensures Get(c, ns, key, now) == Some(c[ns][key].value)
  {
  }

  /** Any ttl of -1 or below (the default is -1) never expires. */
  lemma NegativeTtlNeverExpires<V>(c: Cache<V>, ns: string, key: string, now: int)
    requires ns in c && key in c[ns] && c[ns][key].ttl <= -1
    ensures Get(c, ns, key, now) == Some(c[ns][key].value)
  {
  }

  /** Once an entry has expired it stays expired as the clock moves on. */
  lemma ExpiryIsPermanent<V>(c: Cache<V>, ns: string, key: string, now: int, later: int)
    requires ns in c && key in c[ns] && now <= later
    requires Get(c, ns, key, now) == None
    ensures Get(c, ns, key, later) == None
  {
  }

  /** A value just written is read back at the same instant, whatever its ttl. */
  lemma SetThenGet<V>(c: Cache<V>, ns: string, key: string, value: V, ttl: int, now: int)
    requires ns in c
    ensures Get(SetCacheData(c, ns, key, value, ttl, now).0, ns, key, now) == Some(value)
  {
  }

  /** Writing a key twice leaves only the second write: the first is forgotten entirely. */
  lemma SetOverwrites<V>(c: Cache<V>, ns: string, key: string,
                         v1: V, ttl1: int, t1: int, v2: V, ttl2: int, t2: int)
    ensures SetCacheData(SetCacheData(c, ns, key, v1, ttl1, t1).0, ns, key, v2, ttl2, t2).0
         == SetCacheData(c, ns, key, v2, ttl2, t2).0
  {
    if ns in c {
      var e1, e2 := Entry(t1, ttl1, v1), Entry(t2, ttl2, v2);
      assert c[ns][key := e1][key := e2] == c[ns][key := e2];
    }
  }

  /** Writes under one namespace never show through a read of the same key in another. */
  lemma NamespaceIsolation<V>(c: Cache<V>, ns1: string, ns2: string, key: string,
                              v1: V, v2: V, now: int)
    requires ns1 in c && ns2 in c && ns1 != ns2
    ensures
      var c1 := SetCacheData(c, ns1, key, v1, -1, now).0;
      var c2 := SetCacheData(c1, ns2, key, v2, -1, now).0;
      Get(c2, ns1, key, now) == Some(v1) && Get(c2, ns2, key, now) == Some(v2)
  {
  }
}
