/**
  Building the cache (seed namespaces, then the backing file) and writing it
  back. The file is modelled as its text; opening, reading and writing it are
  left to the host. Payload entries go through a codec pair `enc`/`dec` that
  stands for Python's `str` and `eval`.
*/
module Persistence {
  import opened Wrappers
  import opened RecordCodec
  import opened CacheData

  /** Why construction gave up (the source logs it and exits the process). */
  datatype LoadError = CannotOpen | Malformed(line: string) | Undecodable(encoded: string)

  /** One persisted entry together with its place in the cache. */
  datatype Record<V> = Record(ns: string, key: string, entry: Entry<V>)

  /** A seed namespace given to the constructor: its name and its initial table. */
  datatype Seed<V> = Seed(name: string, table: Table<V>)

  /**
    One file line read as a record: stripped and split into exactly three
    fields, then the entry decoded. A line that does not split into three
    fields, or whose entry does not decode, ends loading with its error.
  */
  function ReadLine<V>(line: string, dec: string -> Option<Entry<V>>): (r: Result<Record<V>, LoadError>)
    ensures r.Success? <==> |Split(Strip(line))| == 3 && dec(Split(Strip(line))[2]).Some?
    ensures r.Success? ==>
      && r.value.ns == Split(Strip(line))[0] && r.value.key == Split(Strip(line))[1]
      && dec(Split(Strip(line))[2]) == Some(r.value.entry)
    ensures r.Failure? && |Split(Strip(line))| != 3 ==> r.error == Malformed(line)
    ensures r.Failure? && |Split(Strip(line))| == 3 ==> r.error == Undecodable(Split(Strip(line))[2])
  {
    match DecodeLine(line)
    case None => Failure(Malformed(line))
    case Some(f) =>
      match dec(f.value)
      case None => Failure(Undecodable(f.value))
      case Some(e) => Success(Record(f.ns, f.key, e))
  }

  /** `ReadLine` for a fixed entry decoder, as a function of the line alone. */
  function LineReader<V>(dec: string -> Option<Entry<V>>): string -> Result<Record<V>, LoadError> {
    line => ReadLine(line, dec)
  }

  /**
    `load_cache_from_file` over the lines of the file, each read by `read`:
    a record read is stored at once, creating its namespace on the fly, and
    the first line that fails ends loading with its error.
  */
  function Load<V>(c: Cache<V>, lines: seq<string>, read: string -> Result<Record<V>, LoadError>)
    : Result<Cache<V>, LoadError>
    decreases |lines|
  {
    if |lines| == 0 then Success(c)
    else
      match read(lines[0])
      case Failure(e) => Failure(e)
      case Success(r) => Load(Store(c, r.ns, r.key, r.entry), lines[1..], read)
  }

  /** Every line read, or the error of the first line that fails. */
  function ParseAll<V>(lines: seq<string>, read: string -> Result<Record<V>, LoadError>)
    : (r: Result<seq<Record<V>>, LoadError>)
    ensures r.Success? ==> |r.value| == |lines|
    ensures r.Success? ==> forall i :: 0 <= i < |lines| ==> read(lines[i]) == Success(r.value[i])
    ensures r.Failure? ==> exists i :: 0 <= i < |lines| && read(lines[i]) == Failure(r.error)
    decreases |lines|
  {
    if |lines| == 0 then Success([])
    else
      match read(lines[0])
      case Failure(e) => Failure(e)
      case Success(rec) =>
        var rest := ParseAll(lines[1..], read);
        assert forall i :: 1 <= i < |lines| ==> lines[i] == lines[1..][i - 1];
        match rest
        case Failure(e) => Failure(e)
        case Success(rs) => Success([rec] + rs)
  }

  /** Lines that each read as the matching record read, as a whole, as those records. */
  lemma {:induction false} ParseAllOfParsed<V>(lines: seq<string>, read: string -> Result<Record<V>, LoadError>,
                                               rs: seq<Record<V>>)
    requires |lines| == |rs|
    requires forall i :: 0 <= i < |lines| ==> read(lines[i]) == Success(rs[i])
    ensures ParseAll(lines, read) == Success(rs)
    decreases |lines|
  {
    if |lines| > 0 {
      assert forall i :: 0 <= i < |lines| - 1 ==> lines[1..][i] == lines[i + 1] && rs[1..][i] == rs[i + 1];
      ParseAllOfParsed(lines[1..], read, rs[1..]);
      assert [rs[0]] + rs[1..] == rs;
    }
  }

  /** Storing records one after another, in order. */
  function Apply<V>(c: Cache<V>, rs: seq<Record<V>>): Cache<V>
    decreases |rs|
  {
    if |rs| == 0 then c else Apply(Store(c, rs[0].ns, rs[0].key, rs[0].entry), rs[1..])
  }

  /** Loading is reading every line and then storing the records in file order. */
  lemma {:induction false} LoadIsParseThenApply<V>(c: Cache<V>, lines: seq<string>,
                                                   read: string -> Result<Record<V>, LoadError>)
    ensures ParseAll(lines, read).Failure? ==> Load(c, lines, read) == Failure(ParseAll(lines, read).error)
    ensures ParseAll(lines, read).Success? ==> Load(c, lines, read) == Success(Apply(c, ParseAll(lines, read).value))
    decreases |lines|
  {
    if |lines| > 0 {
      match read(lines[0])
      case Failure(_) =>
      case Success(rec) =>
        LoadIsParseThenApply(Store(c, rec.ns, rec.key, rec.entry), lines[1..], read);
        if ParseAll(lines, read).Success? {
          assert ParseAll(lines, read).value[1..] == ParseAll(lines[1..], read).value;
        }
    }
  }

  /** Loading stops at the first line that fails and reports that line's error. */
  lemma {:induction false} LoadStopsAtFirstBadLine<V>(c: Cache<V>, lines: seq<string>,
                                                      read: string -> Result<Record<V>, LoadError>, i: nat)
    requires i < |lines| && read(lines[i]).Failure?
    requires forall j :: 0 <= j < i ==> read(lines[j]).Success?
    ensures Load(c, lines, read) == Failure(read(lines[i]).error)
    decreases i
  {
    if i > 0 {
      var rec := read(lines[0]).value;
      assert forall j :: 0 <= j < |lines| - 1 ==> lines[1..][j] == lines[j + 1];
      LoadStopsAtFirstBadLine(Store(c, rec.ns, rec.key, rec.entry), lines[1..], read, i - 1);
    }
  }

  /** The namespaces after storing: those there before plus every one a record names. */
  lemma {:induction false} ApplyNamespaces<V>(c: Cache<V>, rs: seq<Record<V>>)
    ensures Apply(c, rs).Keys == c.Keys + set i | 0 <= i < |rs| :: rs[i].ns
    decreases |rs|
  {
    if |rs| > 0 {
      var rest := rs[1..];
      ApplyNamespaces(Store(c, rs[0].ns, rs[0].key, rs[0].entry), rest);
      NamesOfTail(rs);
    }
  }

  /** The names in a list of records: the first record's, and those of the rest. */
  lemma NamesOfTail<V>(rs: seq<Record<V>>)
    requires |rs| > 0
    ensures (set i | 0 <= i < |rs| :: rs[i].ns) == {rs[0].ns} + set i | 0 <= i < |rs[1..]| :: rs[1..][i].ns
  {
    var rest := rs[1..];
    var all := set i | 0 <= i < |rs| :: rs[i].ns;
    var later := set i | 0 <= i < |rest| :: rest[i].ns;
    forall n | n in all ensures n in {rs[0].ns} + later {
      var i :| 0 <= i < |rs| && rs[i].ns == n;
      if i > 0 { assert rest[i - 1] == rs[i]; }
    }
    forall n | n in later ensures n in all {
      var i :| 0 <= i < |rest| && rest[i].ns == n;
      assert rest[i] == rs[i + 1];
    }
  }

  /** An entry no record names keeps what it had before (nothing, in a new namespace). */
  lemma {:induction false} ApplyUntouched<V>(c: Cache<V>, rs: seq<Record<V>>, ns: string, key: string)
    requires Unnamed(rs, ns, key)
    ensures Lookup(Apply(c, rs), ns, key) == Lookup(c, ns, key)
    decreases |rs|
  {
    if |rs| > 0 {
      assert forall j :: 0 <= j < |rs| - 1 ==> rs[1..][j] == rs[j + 1];
      ApplyUntouched(Store(c, rs[0].ns, rs[0].key, rs[0].entry), rs[1..], ns, key);
    }
  }

  /** No record after the `i`-th names the same `(namespace, key)`. */
  predicate LastForPlace<V>(rs: seq<Record<V>>, i: int)
    requires 0 <= i < |rs|
  {
    forall j :: i < j < |rs| ==> rs[j].ns != rs[i].ns || rs[j].key != rs[i].key
  }

  /** No record names `(ns, key)`. */
  predicate Unnamed<V>(rs: seq<Record<V>>, ns: string, key: string) {
    forall j :: 0 <= j < |rs| ==> rs[j].ns != ns || rs[j].key != key
  }

  /** The last record naming a place decides its entry. */
  lemma {:induction false} ApplyLastWins<V>(c: Cache<V>, rs: seq<Record<V>>, i: nat)
    requires i < |rs| && LastForPlace(rs, i)
    ensures Lookup(Apply(c, rs), rs[i].ns, rs[i].key) == Some(rs[i].entry)
    decreases |rs|
  {
    var c' := Store(c, rs[0].ns, rs[0].key, rs[0].entry);
    assert forall j :: 0 <= j < |rs| - 1 ==> rs[1..][j] == rs[j + 1];
    if i == 0 {
      ApplyUntouched(c', rs[1..], rs[0].ns, rs[0].key);
    } else {
      ApplyLastWins(c', rs[1..], i - 1);
    }
  }

  /** Loading succeeds exactly when every line reads as a record. */
  lemma LoadSucceedsIff<V>(c: Cache<V>, lines: seq<string>, read: string -> Result<Record<V>, LoadError>)
    ensures Load(c, lines, read).Success? <==> forall i :: 0 <= i < |lines| ==> read(lines[i]).Success?
  {
    LoadIsParseThenApply(c, lines, read);
  }

  /**
    What a successful load leaves, with `rs` the records the lines read as:
    every namespace seen before or named by a line exists (new ones are made
    on the fly), the last line naming a `(namespace, key)` decides its entry,
    and a place no line names keeps its earlier entry, or stays empty.
  */
  lemma LoadOutcome<V>(c: Cache<V>, lines: seq<string>, read: string -> Result<Record<V>, LoadError>,
                       rs: seq<Record<V>>)
    requires ParseAll(lines, read) == Success(rs)
    ensures Load(c, lines, read).Success?
    ensures Load(c, lines, read).value.Keys == c.Keys + set i | 0 <= i < |rs| :: rs[i].ns
    ensures forall i :: 0 <= i < |rs| && LastForPlace(rs, i) ==>
      Lookup(Load(c, lines, read).value, rs[i].ns, rs[i].key) == Some(rs[i].entry)
    ensures forall ns, key :: Unnamed(rs, ns, key) ==>
      Lookup(Load(c, lines, read).value, ns, key) == Lookup(c, ns, key)
  {
    LoadIsParseThenApply(c, lines, read);
    ApplyNamespaces(c, rs);
    forall i | 0 <= i < |rs| && LastForPlace(rs, i)
      ensures Lookup(Apply(c, rs), rs[i].ns, rs[i].key) == Some(rs[i].entry)
    {
      ApplyLastWins(c, rs, i);
    }
    forall ns, key | Unnamed(rs, ns, key)
      ensures Lookup(Apply(c, rs), ns, key) == Lookup(c, ns, key)
    {
      ApplyUntouched(c, rs, ns, key);
    }
  }

  /** True when no later seed reuses the name of seed `i`. */
  predicate LastOfName<V>(seeds: seq<Seed<V>>, i: int)
    requires 0 <= i < |seeds|
  {
    forall j :: i < j < |seeds| ==> seeds[j].name != seeds[i].name
  }

  /**
    The seed namespaces, as the constructor evidently intends them: each name
    holds its given table, and a name given twice keeps the later table.
  */
  function SeedCaches<V>(seeds: seq<Seed<V>>): (r: Cache<V>)
    ensures r.Keys == set i | 0 <= i < |seeds| :: seeds[i].name
    decreases |seeds|
  {
    if |seeds| == 0 then map[]
    else
      var init := seeds[..|seeds| - 1];
      var last := seeds[|seeds| - 1];
      assert seeds == init + [last];
      SeedCaches(init)[last.name := last.table]
  }

  /** Each seeded name holds the table of the last seed that gives it. */
  lemma {:induction false} SeedCachesTables<V>(seeds: seq<Seed<V>>, i: nat)
    requires i < |seeds| && LastOfName(seeds, i)
    ensures SeedCaches(seeds)[seeds[i].name] == seeds[i].table
    decreases |seeds|
  {
    if i < |seeds| - 1 {
      var init := seeds[..|seeds| - 1];
      assert init[i] == seeds[i];
      assert LastOfName(init, i) by {
        forall j | i < j < |init| ensures init[j].name != init[i].name {
          assert init[j] == seeds[j];
        }
      }
      SeedCachesTables(init, i);
    }
  }

  /**
    `CacheData(*seeds, cache_file_name=...)`: seed the namespaces, then load
    the backing file over them. `file` is the file's text, or `None` when it
    cannot be opened. Construction succeeds exactly when every line of the
    file reads as a record; otherwise it reports the first line that fails.
    A successful construction keeps every seeded namespace.
  */
  function Construct<V>(seeds: seq<Seed<V>>, file: Option<string>, dec: string -> Option<Entry<V>>)
    : (r: Result<Cache<V>, LoadError>)
    ensures file.None? ==> r == Failure(CannotOpen)
    ensures file.Some? ==>
      (r.Success? <==> forall i :: 0 <= i < |Lines(file.value)| ==> ReadLine(Lines(file.value)[i], dec).Success?)
    ensures file.Some? && r.Failure? ==>
      exists i :: 0 <= i < |Lines(file.value)| && ReadLine(Lines(file.value)[i], dec) == Failure(r.error)
        && forall j :: 0 <= j < i ==> ReadLine(Lines(file.value)[j], dec).Success?
    ensures r.Success? ==> SeedCaches(seeds).Keys <= r.value.Keys
  {
    if file.None? then Failure(CannotOpen)
    else
      LoadByLineReader(SeedCaches(seeds), Lines(file.value), dec);
      Load(SeedCaches(seeds), Lines(file.value), LineReader(dec))
  }

  /** What loading with `ReadLine` yields, stated line by line. */
  lemma LoadByLineReader<V>(c: Cache<V>, lines: seq<string>, dec: string -> Option<Entry<V>>)
    ensures Load(c, lines, LineReader(dec)).Success? <==>
      forall i :: 0 <= i < |lines| ==> ReadLine(lines[i], dec).Success?
    ensures Load(c, lines, LineReader(dec)).Failure? ==>
      exists i :: 0 <= i < |lines| && ReadLine(lines[i], dec) == Failure(Load(c, lines, LineReader(dec)).error)
        && forall j :: 0 <= j < i ==> ReadLine(lines[j], dec).Success?
    ensures Load(c, lines, LineReader(dec)).Success? ==> c.Keys <= Load(c, lines, LineReader(dec)).value.Keys
  {
    var read := LineReader(dec);
    assert forall line :: read(line) == ReadLine(line, dec);
    LoadSucceedsIff(c, lines, read);
    LoadErrorIsFirstBadLine(c, lines, read);
    LoadKeepsNamespaces(c, lines, read);
  }

  /** A failed load reports the error of the first line that fails. */
  lemma {:induction false} LoadErrorIsFirstBadLine<V>(c: Cache<V>, lines: seq<string>,
                                                      read: string -> Result<Record<V>, LoadError>)
    ensures Load(c, lines, read).Failure? ==>
      exists i :: 0 <= i < |lines| && read(lines[i]) == Failure(Load(c, lines, read).error)
        && forall j :: 0 <= j < i ==> read(lines[j]).Success?
    decreases |lines|
  {
    if |lines| > 0 && read(lines[0]).Success? {
      var rec := read(lines[0]).value;
      var c' := Store(c, rec.ns, rec.key, rec.entry);
      var rest := lines[1..];
      LoadErrorIsFirstBadLine(c', rest, read);
      if Load(c, lines, read).Failure? {
        var i :| 0 <= i < |rest| && read(rest[i]) == Failure(Load(c', rest, read).error)
          && forall j :: 0 <= j < i ==> read(rest[j]).Success?;
        assert forall j :: 0 <= j < |rest| ==> rest[j] == lines[j + 1];
        assert read(lines[i + 1]) == Failure(Load(c, lines, read).error);
        assert forall j :: 1 <= j < i + 1 ==> read(lines[j]).Success? by {
          forall j | 1 <= j < i + 1 ensures read(lines[j]).Success? {
            assert read(rest[j - 1]).Success?;
          }
        }
      }
    }
  }

  /**
    What construction from a readable file leaves, with `rs` the records its
    lines read as: the seeded namespaces plus every namespace a line names,
    the last line naming a `(namespace, key)` decides its entry, and a place
    no line names keeps what seeding gave it.
  */
  lemma ConstructOutcome<V>(seeds: seq<Seed<V>>, text: string, dec: string -> Option<Entry<V>>, rs: seq<Record<V>>)
    requires ParseAll(Lines(text), LineReader(dec)) == Success(rs)
    ensures Construct(seeds, Some(text), dec).Success?
    ensures Construct(seeds, Some(text), dec).value.Keys == SeedCaches(seeds).Keys + set i | 0 <= i < |rs| :: rs[i].ns
    ensures forall i :: 0 <= i < |rs| && LastForPlace(rs, i) ==>
      Lookup(Construct(seeds, Some(text), dec).value, rs[i].ns, rs[i].key) == Some(rs[i].entry)
    ensures forall ns, key :: Unnamed(rs, ns, key) ==>
      Lookup(Construct(seeds, Some(text), dec).value, ns, key) == Lookup(SeedCaches(seeds), ns, key)
  {
    assert Construct(seeds, Some(text), dec) == Load(SeedCaches(seeds), Lines(text), LineReader(dec));
    LoadOutcome(SeedCaches(seeds), Lines(text), LineReader(dec), rs);
  }

  /** A successful load removes no namespace. */
  lemma LoadKeepsNamespaces<V>(c: Cache<V>, lines: seq<string>, read: string -> Result<Record<V>, LoadError>)
    ensures Load(c, lines, read).Success? ==> c.Keys <= Load(c, lines, read).value.Keys
  {
    LoadIsParseThenApply(c, lines, read);
    if ParseAll(lines, read).Success? {
      ApplyNamespaces(c, ParseAll(lines, read).value);
    }
  }

  /** `recs` lists every entry of `c` exactly once, each with its place. */
  ghost predicate Enumerates<V>(recs: seq<Record<V>>, c: Cache<V>) {
    && (forall i :: 0 <= i < |recs| ==> Lookup(c, recs[i].ns, recs[i].key) == Some(recs[i].entry))
    && (forall i, j :: 0 <= i < j < |recs| ==> recs[i].ns != recs[j].ns || recs[i].key != recs[j].key)
    && (forall ns, k :: Lookup(c, ns, k).Some? ==>
          exists i :: 0 <= i < |recs| && recs[i].ns == ns && recs[i].key == k)
  }

  /** The entries of one namespace, in whatever order the table yields them. */
  method SnapshotTable<V>(ns: string, t: Table<V>) returns (recs: seq<Record<V>>)
    ensures Enumerates(recs, map[ns := t])
  {
    recs := [];
    var todo := t.Keys;
    while todo != {}
      invariant todo <= t.Keys
      invariant Enumerates(recs, map[ns := t - todo])
      decreases todo
    {
      var k :| k in todo;
      EnumeratesAddKey(recs, ns, t, todo, k);
      recs, todo := recs + [Record(ns, k, t[k])], todo - {k};
    }
    assert t - {} == t;
  }

  /** Listing one more key of a table extends the listing of the part already done. */
  lemma EnumeratesAddKey<V>(recs: seq<Record<V>>, ns: string, t: Table<V>, todo: set<string>, k: string)
    requires todo <= t.Keys && k in todo
    requires Enumerates(recs, map[ns := t - todo])
    ensures Enumerates(recs + [Record(ns, k, t[k])], map[ns := t - (todo - {k})])
  {
    var done := map[ns := t - todo];
    var done' := map[ns := t - (todo - {k})];
    assert forall n, k' :: Lookup(done', n, k') == if n == ns && k' == k then Some(t[k]) else Lookup(done, n, k');
    AddKeyListed(recs, ns, k, t[k], done, done');
    AddKeyCovers(recs, ns, k, t[k], done, done');
  }

  /** The extended listing names only entries of the extended part, each place once. */
  lemma AddKeyListed<V>(recs: seq<Record<V>>, ns: string, k: string, e: Entry<V>, done: Cache<V>, done': Cache<V>)
    requires forall n, k' :: Lookup(done', n, k') == if n == ns && k' == k then Some(e) else Lookup(done, n, k')
    requires Lookup(done, ns, k).None?
    requires forall i :: 0 <= i < |recs| ==> Lookup(done, recs[i].ns, recs[i].key) == Some(recs[i].entry)
    requires forall i, j :: 0 <= i < j < |recs| ==> recs[i].ns != recs[j].ns || recs[i].key != recs[j].key
    ensures forall i :: 0 <= i < |recs + [Record(ns, k, e)]| ==>
      Lookup(done', (recs + [Record(ns, k, e)])[i].ns, (recs + [Record(ns, k, e)])[i].key)
        == Some((recs + [Record(ns, k, e)])[i].entry)
    ensures forall i, j :: 0 <= i < j < |recs + [Record(ns, k, e)]| ==>
      (recs + [Record(ns, k, e)])[i].ns != (recs + [Record(ns, k, e)])[j].ns
        || (recs + [Record(ns, k, e)])[i].key != (recs + [Record(ns, k, e)])[j].key
  {
    var recs' := recs + [Record(ns, k, e)];
    assert forall i :: 0 <= i < |recs| ==> recs'[i] == recs[i];
    assert forall i :: 0 <= i < |recs| ==> recs[i].ns != ns || recs[i].key != k;
  }

  /** The extended listing still names every entry once the new key is done. */
  lemma AddKeyCovers<V>(recs: seq<Record<V>>, ns: string, k: string, e: Entry<V>, done: Cache<V>, done': Cache<V>)
    requires forall n, k' :: Lookup(done', n, k') == if n == ns && k' == k then Some(e) else Lookup(done, n, k')
    requires forall n, k' :: Lookup(done, n, k').Some? ==>
      exists i :: 0 <= i < |recs| && recs[i].ns == n && recs[i].key == k'
    ensures forall n, k' :: Lookup(done', n, k').Some? ==>
      exists i :: 0 <= i < |recs + [Record(ns, k, e)]| && (recs + [Record(ns, k, e)])[i].ns == n
        && (recs + [Record(ns, k, e)])[i].key == k'
  {
    var recs' := recs + [Record(ns, k, e)];
    forall n, k' | Lookup(done', n, k').Some?
      ensures exists i :: 0 <= i < |recs'| && recs'[i].ns == n && recs'[i].key == k'
    {
      if n == ns && k' == k {
        assert recs'[|recs|].ns == n && recs'[|recs|].key == k';
      } else {
        var i :| 0 <= i < |recs| && recs[i].ns == n && recs[i].key == k';
        assert recs'[i] == recs[i];
      }
    }
  }

  /** Gluing the listings of disjoint parts lists their union. */
  lemma EnumeratesAppend<V>(a: seq<Record<V>>, c: Cache<V>, b: seq<Record<V>>, ns: string, t: Table<V>)
    requires Enumerates(a, c) && Enumerates(b, map[ns := t]) && ns !in c
    ensures Enumerates(a + b, c[ns := t])
  {
    var ab := a + b;
    var c' := c[ns := t];
    forall i | 0 <= i < |ab| ensures Lookup(c', ab[i].ns, ab[i].key) == Some(ab[i].entry) {
      if i >= |a| { assert ab[i] == b[i - |a|]; }
    }
    forall i, j | 0 <= i < j < |ab| ensures ab[i].ns != ab[j].ns || ab[i].key != ab[j].key {
      if j >= |a| {
        assert ab[j] == b[j - |a|];
        if i >= |a| { assert ab[i] == b[i - |a|]; }
        else { assert Lookup(c, ab[i].ns, ab[i].key).Some?; }
      }
    }
    forall n, k | Lookup(c', n, k).Some?
      ensures exists i :: 0 <= i < |ab| && ab[i].ns == n && ab[i].key == k
    {
      if n == ns {
        assert Lookup(map[ns := t], n, k).Some?;
        var i :| 0 <= i < |b| && b[i].ns == n && b[i].key == k;
        assert ab[|a| + i] == b[i];
      } else {
        assert Lookup(c, n, k).Some?;
        var i :| 0 <= i < |a| && a[i].ns == n && a[i].key == k;
        assert ab[i] == a[i];
      }
    }
  }

  /**
    The snapshot `persist_cache` takes: every namespace's table copied out in
    turn. Python 2 walks its dicts in an order fixed by their hashing, not by
    insertion; this picks any order.
  */
  method Snapshot<V>(c: Cache<V>) returns (recs: seq<Record<V>>)
    ensures Enumerates(recs, c)
  {
    recs := [];
    var todo := c.Keys;
    while todo != {}
      invariant todo <= c.Keys
      invariant Enumerates(recs, c - todo)
      decreases todo
    {
      var ns :| ns in todo;
      var part := SnapshotTable(ns, c[ns]);
      EnumeratesAppend(recs, c - todo, part, ns, c[ns]);
      assert (c - todo)[ns := c[ns]] == c - (todo - {ns});
      recs, todo := recs + part, todo - {ns};
    }
    assert c - {} == c;
  }

  /** The line `persist_to_file` writes for one record. */
  function RecordLine<V>(r: Record<V>, enc: Entry<V> -> string): string {
    EncodeLine(Fields(r.ns, r.key, enc(r.entry)))
  }

  function RecordLines<V>(recs: seq<Record<V>>, enc: Entry<V> -> string): (r: seq<string>)
    ensures |r| == |recs|
    ensures forall i :: 0 <= i < |recs| ==> r[i] == RecordLine(recs[i], enc)
  {
    if |recs| == 0 then [] else [RecordLine(recs[0], enc)] + RecordLines(recs[1..], enc)
  }

  /** The file text written for a list of records. */
  function Dump<V>(recs: seq<Record<V>>, enc: Entry<V> -> string): string {
    Concat(RecordLines(recs, enc))
  }

  /** `persist_cache`: the text of the rewritten file, one line per entry. */
  method PersistCache<V>(c: Cache<V>, enc: Entry<V> -> string) returns (text: string, recs: seq<Record<V>>)
    ensures Enumerates(recs, c)
    ensures text == Dump(recs, enc)
  {
    recs := Snapshot(c);
    text := Dump(recs, enc);
  }

  /** Reading the text back yields exactly the lines that were written. */
  lemma {:induction false} LinesOfDump<V>(recs: seq<Record<V>>, enc: Entry<V> -> string)
    requires forall i :: 0 <= i < |recs| ==> Encodable(Fields(recs[i].ns, recs[i].key, enc(recs[i].entry)))
    ensures Lines(Dump(recs, enc)) == RecordLines(recs, enc)
    decreases |recs|
  {
    if |recs| > 0 {
      var ls := RecordLines(recs, enc);
      assert ls[1..] == RecordLines(recs[1..], enc);
      assert forall i :: 0 <= i < |recs| - 1 ==> recs[1..][i] == recs[i + 1];
      LinesOfDump(recs[1..], enc);
      EncodeLineIsOneLine(Fields(recs[0].ns, recs[0].key, enc(recs[0].entry)));
      LinesOfCompleteLine(ls[0], Dump(recs[1..], enc));
    }
  }

  /** The entries of `c` that live in non-empty namespaces. */
  function NonEmpty<V>(c: Cache<V>): (r: Cache<V>)
    ensures forall ns, k :: Lookup(r, ns, k) == Lookup(c, ns, k)
    ensures forall ns :: ns in r ==> r[ns] != map[]
  {
    map ns | ns in c && c[ns] != map[] :: c[ns]
  }

  /** Two caches are equal when they have the same namespaces and every lookup agrees. */
  lemma LookupExtensionality<V>(a: Cache<V>, b: Cache<V>)
    requires a.Keys == b.Keys
    requires forall ns, k :: Lookup(a, ns, k) == Lookup(b, ns, k)
    ensures a == b
  {
    forall ns | ns in a ensures a[ns] == b[ns] {
      forall k ensures k in a[ns] <==> k in b[ns] {
        assert Lookup(a, ns, k) == Lookup(b, ns, k);
      }
      forall k | k in a[ns] ensures a[ns][k] == b[ns][k] {
        assert Lookup(a, ns, k) == Lookup(b, ns, k);
      }
    }
  }

  /** One written line parses back to its record when its fields fit and `dec` undoes `enc`. */
  lemma RecordLineParses<V>(r: Record<V>, enc: Entry<V> -> string, dec: string -> Option<Entry<V>>)
    requires Encodable(Fields(r.ns, r.key, enc(r.entry)))
    requires dec(enc(r.entry)) == Some(r.entry)
    ensures ReadLine(RecordLine(r, enc), dec) == Success(r)
  {
    DecodeEncode(Fields(r.ns, r.key, enc(r.entry)));
  }

  /** Storing a listing of `c` into an empty cache rebuilds its non-empty namespaces. */
  lemma ApplyEnumeration<V>(c: Cache<V>, recs: seq<Record<V>>)
    requires Enumerates(recs, c)
    ensures Apply(map[], recs) == NonEmpty(c)
  {
    var empty: Cache<V> := map[];
    var r := Apply(empty, recs);
    forall ns, k ensures Lookup(r, ns, k) == Lookup(c, ns, k) {
      if Lookup(c, ns, k).Some? {
        var i :| 0 <= i < |recs| && recs[i].ns == ns && recs[i].key == k;
        ApplyLastWins(empty, recs, i);
      } else {
        assert Unnamed(recs, ns, k);
        ApplyUntouched(empty, recs, ns, k);
      }
    }
    ApplyEnumerationKeys(c, recs);
    LookupExtensionality(r, NonEmpty(c));
  }

  /** Storing a listing of `c` into an empty cache creates exactly its non-empty namespaces. */
  lemma ApplyEnumerationKeys<V>(c: Cache<V>, recs: seq<Record<V>>)
    requires Enumerates(recs, c)
    requires forall ns, k :: Lookup(Apply(map[], recs), ns, k) == Lookup(c, ns, k)
    ensures Apply(map[], recs).Keys == NonEmpty(c).Keys
  {
    var empty: Cache<V> := map[];
    var r := Apply(empty, recs);
    var ne := NonEmpty(c);
    ApplyNamespaces(empty, recs);
    forall ns | ns in r ensures ns in ne {
      var i :| 0 <= i < |recs| && recs[i].ns == ns;
      assert Lookup(c, ns, recs[i].key).Some?;
      assert Lookup(ne, ns, recs[i].key).Some?;
    }
    forall ns | ns in ne ensures ns in r {
      var k :| k in ne[ns];
      assert Lookup(c, ns, k).Some?;
      assert Lookup(r, ns, k).Some?;
    }
  }

  /**
    Persisting a cache and constructing a fresh one (no seeds) from that file
    gives back every namespace that held an entry, with exactly its entries,
    provided each line can carry its fields and `dec` undoes `enc`.
    Namespaces with no entries write no line and so are not restored.
  */
  lemma PersistThenLoad<V>(c: Cache<V>, recs: seq<Record<V>>,
                           enc: Entry<V> -> string, dec: string -> Option<Entry<V>>)
    requires Enumerates(recs, c)
    requires forall ns, k :: Lookup(c, ns, k).Some? ==>
      var e := Lookup(c, ns, k).value;
      Encodable(Fields(ns, k, enc(e))) && dec(enc(e)) == Some(e)
    ensures Construct([], Some(Dump(recs, enc)), dec) == Success(NonEmpty(c))
  {
    var empty: Cache<V> := map[];
    assert SeedCaches<V>([]) == empty;
    var lines := RecordLines(recs, enc);
    assert forall i :: 0 <= i < |recs| ==> Lookup(c, recs[i].ns, recs[i].key) == Some(recs[i].entry);
    LinesOfDump(recs, enc);
    forall i | 0 <= i < |recs| ensures LineReader(dec)(lines[i]) == Success(recs[i]) {
      RecordLineParses(recs[i], enc, dec);
    }
    ParseAllOfParsed(lines, LineReader(dec), recs);
    LoadIsParseThenApply(empty, lines, LineReader(dec));
    ApplyEnumeration(c, recs);
  }
}
