/**
  Two places where the constructor and `add_cache` do not do what they
  evidently mean to, modelled as written beside the corrected definitions
  that the rest of the model uses (`Persistence.SeedCaches`,
  `CacheData.AddCache`).
*/
module AsWritten {
  import opened Wrappers
  import opened CacheData
  import opened Persistence

  /**
    What a name of `cache_data` can hold in the source: the intended table,
    or the list that the seeding loop stores by mistake.
  */
  datatype Bucket<V> = Dict(entries: Table<V>) | List(items: seq<string>)

  type RawCache<V> = map<string, Bucket<V>>

  /** A cache whose every namespace holds a proper table. */
  function Lift<V>(c: Cache<V>): RawCache<V> {
    map n | n in c :: Dict(c[n])
  }

  /**
    The seeding loop as written: it deep-copies the one-element list
    `['value']` instead of the seed's table, for every seeded name.
  */
  function SeedAsWritten<V>(seeds: seq<Seed<V>>): (r: RawCache<V>)
    ensures r.Keys == SeedCaches(seeds).Keys
    decreases |seeds|
  {
    if |seeds| == 0 then map[]
    else SeedAsWritten(seeds[..|seeds| - 1])[seeds[|seeds| - 1].name := List(["value"])]
  }

  /**
    `get` over either kind of bucket. On the list, `key in ['value']` is a
    membership test; when it holds, indexing the list with a string raises,
    the handler returns `None`; when it fails, `None` as well.
  */
  function GetAsWritten<V>(rc: RawCache<V>, ns: string, key: string, now: int): Option<V> {
    if ns !in rc then None
    else
      match rc[ns]
      case Dict(t) => Get(map[ns := t], ns, key, now)
      case List(items) => if key in items then None else None
  }

  /**
    `set_cache_data` (and `add_cache_data`) over either kind of bucket. On the
    list, assigning at a string index raises; the handler releases the lock
    and returns `None`, nothing stored.
  */
  function SetAsWritten<V>(rc: RawCache<V>, ns: string, key: string, value: V, ttl: int, now: int)
    : (RawCache<V>, Option<V>)
  {
    if ns !in rc then (rc, None)
    else
      match rc[ns]
      case Dict(t) => (rc[ns := Dict(t[key := Entry(now, ttl, value)])], Some(value))
      case List(_) => (rc, None)
  }

  /** On proper tables the as-written operations are exactly the modelled ones. */
  lemma AsWrittenAgreesOnTables<V>(c: Cache<V>, ns: string, key: string, value: V, ttl: int, now: int)
    ensures GetAsWritten(Lift(c), ns, key, now) == Get(c, ns, key, now)
    ensures SetAsWritten(Lift(c), ns, key, value, ttl, now)
         == (Lift(SetCacheData(c, ns, key, value, ttl, now).0), SetCacheData(c, ns, key, value, ttl, now).1)
  {
    if ns in c {
      assert Lift(c)[ns] == Dict(c[ns]);
      assert Lift(c)[ns := Dict(c[ns][key := Entry(now, ttl, value)])]
          == Lift(SetCacheData(c, ns, key, value, ttl, now).0);
    }
  }

  /** Every seeded name holds the stray list, whatever table was supplied. */
  lemma {:induction false} SeedAsWrittenStoresList<V>(seeds: seq<Seed<V>>, n: string)
    requires n in SeedAsWritten(seeds)
    ensures SeedAsWritten(seeds)[n] == List(["value"])
    decreases |seeds|
  {
    if |seeds| > 0 && n != seeds[|seeds| - 1].name {
      SeedAsWrittenStoresList(seeds[..|seeds| - 1], n);
    }
  }

  /**
    The seeding bug, exhibited: for a live entry of a seed table, the corrected
    cache answers with its payload, while the as-written cache misses, and
    every write to that namespace fails without changing anything.
  */
  lemma SeededTablesUnreachable<V>(seeds: seq<Seed<V>>, i: nat, key: string, now: int, value: V, ttl: int)
    requires i < |seeds| && LastOfName(seeds, i)
    requires key in seeds[i].table
    requires seeds[i].table[key].ttl < 0 || now - seeds[i].table[key].time <= seeds[i].table[key].ttl
    ensures Get(SeedCaches(seeds), seeds[i].name, key, now) == Some(seeds[i].table[key].value)
    ensures GetAsWritten(SeedAsWritten(seeds), seeds[i].name, key, now) == None
    ensures SetAsWritten(SeedAsWritten(seeds), seeds[i].name, key, value, ttl, now) == (SeedAsWritten(seeds), None)
  {
    SeedCachesTables(seeds, i);
    SeedAsWrittenStoresList(seeds, seeds[i].name);
  }

  /**
    `add_cache` as written: `False` for a name already taken; on success the
    branch falls off the end of the function, so the caller gets `None`.
  */
  function AddCacheAsWritten<V>(c: Cache<V>, name: string): (Cache<V>, Option<bool>) {
    if name in c then (c, Some(false))
    else (c[name := map[]], None)
  }

  /** Python truthiness of `add_cache`'s result: only `True` is truthy. */
  predicate Truthy(r: Option<bool>) {
    r == Some(true)
  }

  /**
    The `add_cache` bug, exhibited: its result is never truthy, so a caller
    testing it cannot tell a new namespace from a refused one. It changes the
    state exactly as the corrected `AddCache`, whose result is `true` on success.
  */
  lemma AddCacheNeverTruthy<V>(c: Cache<V>, name: string)
    ensures !Truthy(AddCacheAsWritten(c, name).1)
    ensures AddCacheAsWritten(c, name).0 == AddCache(c, name).0
    ensures AddCache(c, name).1 <==> AddCacheAsWritten(c, name).1 == None
  {
  }
}
