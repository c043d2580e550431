/**
  The sample client at the bottom of the cache module, replayed with whole
  seconds: writes at time 0 over whatever the file held, reads after
  sleeping ten seconds, more writes, reads ten seconds later.
*/
module Demo {
  import opened Wrappers
  import opened CacheData

  /** Creating a namespace twice: the second attempt is refused and changes nothing. */
  lemma AddNamespaceTwice()
    ensures
      var c0: Cache<string> := map[];
      var (c1, ok1) := AddCache(c0, "icp");
      var (c2, ok2) := AddCache(c1, "icp");
      ok1 && !ok2 && c2 == c1 && c1 == map["icp" := map[]]
  {
  }

  /**
    The sample client's first batch of writes, at time 0, over `c0`, the
    cache as loaded from the file an earlier run persisted.
  */
  function FirstWrites(c0: Cache<string>): Cache<string> {
    LocationWrites(IcpWrites(c0))
  }

  /** The first batch's writes to `icp`. */
  function IcpWrites(c0: Cache<string>): Cache<string> {
    var c1 := AddCache(c0, "icp").0;
    var c2 := AddCacheData(c1, "icp", "baidu.com", "山东", 5, 0).0;
    var c3 := AddCacheData(c2, "icp", "163.com", "{'icp': '东beu'}", -1, 0).0;
    AddCacheData(c3, "icp", "google.com", "beijing", -1, 0).0
  }

  /** The first batch's writes to `ip_location`. */
  function LocationWrites(c4: Cache<string>): Cache<string> {
    var c5 := AddCache(c4, "ip_location").0;
    var c6 := AddCacheData(c5, "ip_location", "baidu.com", "山东", 100, 0).0;
    var c7 := AddCacheData(c6, "ip_location", "163.com", "东beu", -1, 0).0;
    AddCacheData(c7, "ip_location", "google.com", "beijing", -1, 0).0
  }

  /** The second batch, at time 10, over whatever the cache holds then. */
  function SecondWrites(c: Cache<string>): Cache<string> {
    var c1 := SetCacheData(c, "icp", "baidu.com", "广东", -1, 10).0;
    var c2 := SetCacheData(c1, "icp", "163.com", "xxxxzzzz", 100, 10).0;
    SetCacheData(c2, "ip_location", "google.com", "ggggggggg", 5, 10).0
  }

  /**
    Ten seconds after the first batch: the 5-second entry is gone, the
    100-second one is not, whatever the file held before.
  */
  lemma SampleClientFirstReads(c0: Cache<string>)
    ensures Get(FirstWrites(c0), "icp", "baidu.com", 10) == None
    ensures Get(FirstWrites(c0), "ip_location", "baidu.com", 10) == Some("山东")
    ensures "icp" in FirstWrites(c0) && "ip_location" in FirstWrites(c0)
  {
    IcpWritesStore(c0);
    LocationWritesStore(IcpWrites(c0));
  }

  /** After the `icp` writes, the 5-second `baidu.com` entry is stored as written at time 0. */
  lemma IcpWritesStore(c0: Cache<string>)
    ensures "icp" in IcpWrites(c0)
    ensures Lookup(IcpWrites(c0), "icp", "baidu.com") == Some(Entry(0, 5, "山东"))
  {
    var c1 := AddCache(c0, "icp").0;
    var c2 := AddCacheData(c1, "icp", "baidu.com", "山东", 5, 0).0;
    assert Lookup(c2, "icp", "baidu.com") == Some(Entry(0, 5, "山东"));
    var c3 := AddCacheData(c2, "icp", "163.com", "{'icp': '东beu'}", -1, 0).0;
    assert Lookup(c3, "icp", "baidu.com") == Some(Entry(0, 5, "山东"));
  }

  /** The `ip_location` writes store the 100-second `baidu.com` entry and leave `icp` alone. */
  lemma LocationWritesStore(c4: Cache<string>)
    requires "icp" in c4
    ensures "icp" in LocationWrites(c4) && "ip_location" in LocationWrites(c4)
    ensures Lookup(LocationWrites(c4), "icp", "baidu.com") == Lookup(c4, "icp", "baidu.com")
    ensures Lookup(LocationWrites(c4), "ip_location", "baidu.com") == Some(Entry(0, 100, "山东"))
  {
    var c5 := AddCache(c4, "ip_location").0;
    var c6 := AddCacheData(c5, "ip_location", "baidu.com", "山东", 100, 0).0;
    assert Lookup(c6, "ip_location", "baidu.com") == Some(Entry(0, 100, "山东"));
    var c7 := AddCacheData(c6, "ip_location", "163.com", "东beu", -1, 0).0;
    assert Lookup(c7, "ip_location", "baidu.com") == Some(Entry(0, 100, "山东"));
  }

  /** Ten seconds after the second batch: the two overwrites are visible, the 5-second one has expired. */
  lemma SampleClientSecondReads(c: Cache<string>)
    requires "icp" in c && "ip_location" in c
    ensures Get(SecondWrites(c), "icp", "baidu.com", 20) == Some("广东")
    ensures Get(SecondWrites(c), "icp", "163.com", 20) == Some("xxxxzzzz")
    ensures Get(SecondWrites(c), "ip_location", "google.com", 20) == None
  {
    var c1 := SetCacheData(c, "icp", "baidu.com", "广东", -1, 10).0;
    var c2 := SetCacheData(c1, "icp", "163.com", "xxxxzzzz", 100, 10).0;
    var c3 := SetCacheData(c2, "ip_location", "google.com", "ggggggggg", 5, 10).0;
    assert Lookup(c3, "icp", "baidu.com") == Some(Entry(10, -1, "广东"));
    assert Lookup(c3, "icp", "163.com") == Some(Entry(10, 100, "xxxxzzzz"));
    assert Lookup(c3, "ip_location", "google.com") == Some(Entry(10, 5, "ggggggggg"));
  }

  /** A write to a namespace that was never added fails and changes nothing. */
  lemma WriteToUnknownNamespace()
    ensures
      var c: Cache<string> := map["icp" := map[]];
      SetCacheData(c, "ip_location", "baidu.com", "山东", -1, 0) == (c, None)
  {
  }
}
