# Namespaced TTL cache — verified model

A Dafny model of `CacheData`, a process-local cache. It maps namespace names
("cache names") to tables, and each table maps keys to entries. An entry is a
record of write time, time-to-live in seconds, and payload. The cache is
seeded by its constructor, filled from a flat file, read and written by
`get`, `set_cache_data` and `add_cache_data`, extended by `add_cache`, and
written back by `persist_cache`.

Modules:

- `RecordCodec` (`record_codec.dfy`): the file format. A record is one line:
  namespace, key and encoded entry joined by `&&`, then a newline. Reading a
  line strips it with Python 2's `str.strip()` and splits it with
  `str.split("&&")`. `Split` and `Join` are proved to be inverse bijections
  between strings and "clean" field lists. `Lines` models iterating over a
  file: each line keeps its newline.
- `CacheData` (`cache_data.dfy`): the state is
  `map<string, map<string, Entry<V>>>`. The payload type `V` is left open.
  Every operation is a pure function from the old state to the new state and
  the result. The clock reading is an integer parameter `now`.
- `Persistence` (`persistence.dfy`): seeding, loading lines one by one,
  construction, the snapshot that `persist_cache` takes, the text it writes,
  and the round trip between persisting and loading.
- `AsWritten` (`as_written.dfy`): the two defects listed under Findings. Each
  is modelled as the code does it, next to the corrected definition that the
  rest of the model uses.
- `Demo` (`demo.dfy`): the sample client at the end of the module, replayed
  with whole-second times, plus the add-twice scenario.

The record format round-trips only when the fields fit in a line:

- no field holds a newline or the splitter `&&`;
- the namespace and the key do not end with `&`;
- the namespace does not start with whitespace;
- the encoded entry does not end with whitespace.

"No field holds `&&`" is not enough on its own. `split` cuts at the leftmost
splitter, so a namespace `a&` followed by `&&` is read back as namespace `a`,
and the key gains a leading `&` (`AmpersandBeforeSplitterMisread`). The
source has no escaping, so such records are silently misfiled.

`Get` follows the code's guard `-1 < ttl < now - time`. The model proves that
this means: with `ttl >= 0`, a miss exactly when strictly more than `ttl`
seconds have passed; with any `ttl <= -1`, never a miss.

## Model

| member | source | states |
|---|---|---|
| `RecordCodec.TrimLeft` | cacheData.py:48 | the result is a suffix of the line, what was dropped is all whitespace, and the result does not start with whitespace |
| `RecordCodec.TrimRight` | cacheData.py:48 | the result is a prefix of the line, what was dropped is all whitespace, and the result does not end with whitespace |
| `RecordCodec.Split` | cacheData.py:48 | `split` always yields at least one field, and the first field is a prefix of the string |
| `RecordCodec.SplitThenJoin` | cacheData.py:48 | joining the fields of any split with `&&` gives back the split string |
| `RecordCodec.SplitIsClean` | cacheData.py:48 | every field of a split is free of `&&`, and no field but the last ends with `&` |
| `RecordCodec.SplitSingleField` | cacheData.py:48 | a string without `&&` splits into just itself |
| `RecordCodec.SplitAfterField` | cacheData.py:48 | a clean field followed by `&&` is cut off exactly there |
| `RecordCodec.JoinThenSplit` | cacheData.py:163 | splitting the `&&`-join of clean fields gives back exactly those fields |
| `RecordCodec.LineLength` | cacheData.py:46-47 | a line runs up to and including its first newline, or to the end of the text |
| `RecordCodec.LinesCover` | cacheData.py:46-47 | concatenating the lines read from a text gives back the text |
| `RecordCodec.LinesOfCompleteLine` | cacheData.py:46-47 | a text that starts with one newline-terminated line yields that line first |
| `RecordCodec.DecodeLine` | cacheData.py:48 | a line is accepted exactly when its stripped, split form has three fields |
| `RecordCodec.EncodeLineIsOneLine` | cacheData.py:163 | an encodable record's line holds one newline, at its end |
| `RecordCodec.StripEncodedLine` | cacheData.py:48 | stripping an encodable record's line removes only the newline |
| `RecordCodec.DecodeEncode` | cacheData.py:48 | decoding the line written for encodable fields gives back exactly those fields |
| `RecordCodec.EncodeDecode` | cacheData.py:48 | a line that decodes is its fields' encoding up to surrounding whitespace; with no inner newline, those fields are encodable |
| `RecordCodec.AmpersandBeforeSplitterMisread` | cacheData.py:48 | a namespace ending in `&` has no `&&`, yet its line decodes to a shorter namespace and a key with an added `&` |
| `RecordCodec.LeadingSpaceLost` | cacheData.py:48 | a namespace with a leading space is read back without it |
| `CacheData.Store` | cacheData.py:49-52 | storing an entry creates its namespace when missing and changes no other `(namespace, key)` |
| `CacheData.AddCache` | cacheData.py:58-66 | true exactly when the name was new; a taken name leaves the state unchanged; a new name gets an empty table; no lookup changes |
| `CacheData.Get` | cacheData.py:70-95 | a miss for an unknown namespace or key; otherwise a miss exactly when `ttl >= 0` and more than `ttl` seconds have passed; a hit returns the stored payload |
| `CacheData.GetUnknownNamespace` | cacheData.py:73-74 | `get` on a missing namespace returns None |
| `CacheData.GetUnknownKey` | cacheData.py:89-90 | `get` of a key the namespace lacks returns None |
| `CacheData.ExpiresStrictlyAfterTtl` | cacheData.py:83-88 | with `ttl >= 0`, a miss exactly when `now - time > ttl`, otherwise the payload |
| `CacheData.HitAtTtlBoundary` | cacheData.py:86-88 | at `now - time == ttl` the payload is still returned |
| `CacheData.NegativeTtlNeverExpires` | cacheData.py:86-88 | any `ttl <= -1`, including the default -1, returns the payload at every `now` |
| `CacheData.ExpiryIsPermanent` | cacheData.py:83-88 | a present entry that has expired stays expired at every later time |
| `CacheData.SetCacheData` | cacheData.py:97-117 | an unknown namespace gives None and no change; otherwise the supplied value is returned, `(now, ttl, value)` is stored under the key, and nothing else and no namespace set changes |
| `CacheData.AddCacheData` | cacheData.py:119-139 | same state and result as `set_cache_data` for the same arguments |
| `CacheData.SetThenGet` | cacheData.py:100-111 | a value just set is returned by `get` at the same time, whatever its ttl |
| `CacheData.SetOverwrites` | cacheData.py:106-108 | a second set on the same key leaves the same state as only the second set |
| `CacheData.NamespaceIsolation` | cacheData.py:106-108 | the same key set in two namespaces reads back each namespace's own value |
| `Persistence.ReadLine` | cacheData.py:48-52 | a line gives a record exactly when its stripped, split form has three fields and the third decodes; the record holds the first two fields and the decoded entry; a line without three fields is malformed, one whose entry does not decode is undecodable |
| `Persistence.ParseAll` | cacheData.py:47-52 | on success, one record per line, each what its line reads as; on failure, the error is the one some line reports |
| `Persistence.ParseAllOfParsed` | cacheData.py:47-52 | lines that each read as the matching record read, as a whole, as exactly those records |
| `Persistence.LoadIsParseThenApply` | cacheData.py:44-56 | loading fails with the first bad line's error, or else equals storing all parsed records in file order |
| `Persistence.ApplyNamespaces` | cacheData.py:49-51 | after loading, the namespaces are the earlier ones plus every one a line names |
| `Persistence.ApplyUntouched` | cacheData.py:52 | a `(namespace, key)` that no line names keeps its earlier entry, or stays empty |
| `Persistence.ApplyLastWins` | cacheData.py:52 | the last line naming a `(namespace, key)` decides its entry |
| `Persistence.LoadStopsAtFirstBadLine` | cacheData.py:47-56 | loading ends at the first line that fails, with that line's error |
| `Persistence.LoadSucceedsIff` | cacheData.py:44-56 | loading succeeds exactly when every line reads as a record |
| `Persistence.LoadOutcome` | cacheData.py:44-56 | a successful load creates each new namespace on the fly, lets the last line for a place win, and leaves places no line names unchanged |
| `Persistence.SeedCaches` | cacheData.py:34-39 | (corrected) the namespaces are exactly the seeded names |
| `Persistence.SeedCachesTables` | cacheData.py:34-39 | (corrected) each seeded name holds the table of the last seed with that name |
| `Persistence.Construct` | cacheData.py:13-56 | an unopenable file fails construction; a readable one succeeds exactly when every line reads as a record, a failure reports the first line that fails, and success keeps every seeded namespace |
| `Persistence.ConstructOutcome` | cacheData.py:34-56 | when every line reads, construction yields the seeded namespaces plus every one a line names, the last line for a `(namespace, key)` decides its entry, and every other place keeps what seeding gave it |
| `Persistence.LoadByLineReader` | cacheData.py:44-56 | loading with the file-line reader succeeds exactly when every line reads, fails with the first bad line's error, and keeps every earlier namespace |
| `Persistence.LoadErrorIsFirstBadLine` | cacheData.py:47-56 | a failed load reports the error of a line that fails, every line before it having read |
| `Persistence.LoadKeepsNamespaces` | cacheData.py:49-51 | a successful load removes no namespace |
| `Persistence.SnapshotTable` | cacheData.py:148 | the copy of one namespace lists each of its entries exactly once |
| `Persistence.Snapshot` | cacheData.py:145-151 | the copy taken for persisting lists every entry of the cache exactly once, with its namespace and key |
| `Persistence.RecordLines` | cacheData.py:162-164 | one written line per record, in order |
| `Persistence.PersistCache` | cacheData.py:141-164 | the rewritten file holds one record line for each entry of the cache, each entry once |
| `Persistence.LinesOfDump` | cacheData.py:162-164 | reading the written text back yields exactly the lines written, when no field holds a newline |
| `Persistence.RecordLineParses` | cacheData.py:48-52 | a record's written line parses back to that record when its fields fit and decoding undoes encoding |
| `Persistence.ApplyEnumeration` | cacheData.py:49-52 | storing a listing of a cache into an empty one rebuilds its non-empty namespaces exactly |
| `Persistence.PersistThenLoad` | cacheData.py:44-56 | persisting, then constructing without seeds from that file, reproduces every non-empty namespace with exactly its entries, when fields fit and decoding undoes encoding |
| `AsWritten.SeedAsWritten` | cacheData.py:34-39 | (as written) seeding creates the same names as the corrected seeding |
| `AsWritten.SeedAsWrittenStoresList` | cacheData.py:37-38 | (as written) every seeded name holds the list `['value']`, whatever table was supplied |
| `AsWritten.AsWrittenAgreesOnTables` | cacheData.py:70-117 | on proper tables, the as-written `get` and `set_cache_data` behave exactly like the model's |
| `AsWritten.SeededTablesUnreachable` | cacheData.py:37 | a live seeded entry is a hit in the corrected cache but a miss as written, and writes to a seeded namespace fail with no change |
| `AsWritten.AddCacheNeverTruthy` | cacheData.py:58-66 | (as written) `add_cache` never returns a truthy value; its state change equals the corrected one, and None comes back exactly on success |
| `Demo.AddNamespaceTwice` | cacheData.py:58-66 | adding `icp` succeeds once, then is refused with no change |
| `Demo.SampleClientFirstReads` | cacheData.py:171-185 | over any cache loaded from the file, ten seconds after the first writes, the 5-second entry misses and the 100-second entry hits |
| `Demo.SampleClientSecondReads` | cacheData.py:188-197 | ten seconds after the second writes, the overwrites are visible and the 5-second entry has expired |
| `Demo.WriteToUnknownNamespace` | cacheData.py:97-117 | a write to a namespace never added fails and changes nothing |

## Findings

| source | as written | input that shows it | evidently intended | confidence | as-written member | corrected member |
|---|---|---|---|---|---|---|
| cacheData.py:37 | the seeding loop deep-copies the literal one-element list `['value']`, not the seed's table | seed `{'name': 'icp', 'value': {'k': e}}` with `e` live: `get('icp', 'k')` returns None, and `set_cache_data('icp', ...)` fails (`SeededTablesUnreachable`) | store a copy of the seed's `'value'` table under its name | high; not executed | `AsWritten.SeedAsWritten` | `Persistence.SeedCachesTables` |
| cacheData.py:58-66 | on success `add_cache` falls off the end and returns None, which is as falsy as the `False` it returns for a taken name | `add_cache('icp')` on a cache without `icp` returns None (`AddCacheNeverTruthy`) | return True after creating the namespace | medium; not executed | `AsWritten.AddCacheAsWritten` | `CacheData.AddCache` |

## Left out

- Locking (`threading.Lock`, the `locked` flag, releasing the lock in the handlers): each operation is modelled as one atomic step.
- File I/O: opening, reading, truncating and writing the file are not modelled. The model works on the file's text; a file that cannot be opened is the `None` text given to `Construct`.
- The entry codec: Python's `str` of an entry dict and `eval` of the text are the parameters `enc` and `dec`. That `dec` undoes `enc` is a hypothesis of `PersistThenLoad`, not a proved fact. The unsafe evaluation itself is not modelled.
- Entries whose decoded form lacks `time`, `ttl` or `value`: `dec` always yields a full entry, so the `KeyError` paths inside `get` are not modelled.
- The clock: `time.time()` is the integer parameter `now`, in whole seconds. Fractional times are not modelled.
- The clock is also undefined when the module is imported as a library: `time` is imported only in the `__main__` block (cacheData.py:170). As a library, `get` on a present key and every write would raise and return None. The model assumes `time` is bound, as it is when the module runs as a script.
- `copy.deepcopy`: values are immutable in the model, so the copies on read and write have no observable effect.
- Logging and `sys.exit(1)`: logging is a sink and is left out. A load failure is the `Failure` result of `Load` or `Construct`, not a process exit.
- Order of the persisted lines: Python 2 walks its dicts in an order fixed by their hashing, not by insertion. `Snapshot` chooses any order, and the round trip holds for every order.
- The `persist_cache` failure paths: a partly written file, and the `.items()` error on a seeded list bucket, are not modelled. `PersistCache` models the successful rewrite of the corrected cache.
- The as-written seeding followed by loading: a file line naming a seeded namespace makes `load_cache_from_file` raise and exit. Only `get` and `set_cache_data` are modelled over the as-written seeded buckets.
- A stored value that is itself Python `None` makes a successful `set_cache_data` return None. The payload type `V` has no `None`, so this case is not modelled.
- Non-integer `ttl` values: `ttl` is an `int`.
- The `__main__` block's `print` lines and `sleep` calls: the sleeps become ten-second steps of `now` in `Demo`. The closing `persist_cache()` call is not replayed.
- The file the sample client loads first (cacheData.py:171) is the one its own closing `persist_cache()` (cacheData.py:201) wrote on an earlier run. `Demo.FirstWrites` takes that loaded cache as a parameter, and `SampleClientFirstReads` holds for every such cache.
- The sample client stores `str({'icp': '东beu', 'time': time.time()})` under `163.com` (cacheData.py:174). `Demo` stores the fixed text `{'icp': '东beu'}`, because the clock is not modelled. No read in the replay depends on that value.
