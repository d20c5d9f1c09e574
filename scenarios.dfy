/** Properties that span several calls on one backend: a value stored under a
    tagged key is gone after removal by one of its prefixes and survives
    removal by any other prefix; the "default.key" walk-through on
    both backends; clearing; and two locks taken one after the other. */
module Scenarios {
  import opened Values
  import opened CacheKeys
  import opened MemoryCache
  import opened DistributedCache

  /** Memory backend: storing under a key tagged with a prefix, then removing
      by that prefix (without parameters), makes the key unreadable. */
  method MemoryRemoveByOwnPrefix(m: MemoryCacheManager, key: CacheKey, data: Value, j: nat)
    requires m.Valid() && key.cacheTime > 0 && data != Null && j < key.prefixes.Length
    modifies m
    ensures m.Valid() && Text(key.key) !in m.Contents()
  {
    m.Set(key, data);
    m.RemoveByPrefix(key.prefixes[j], []);
  }

  /** Memory backend: removal by a prefix the key is not tagged with leaves
      the stored value readable. */
  method MemoryRemoveByOtherPrefix(m: MemoryCacheManager, key: CacheKey, data: Value, other: Template)
    requires m.Valid() && key.cacheTime > 0 && data != Null
    requires forall j :: 0 <= j < key.prefixes.Length ==> Text(key.prefixes[j]) != Text(other)
    modifies m
    ensures m.Valid() && Text(key.key) in m.Contents() && m.Contents()[Text(key.key)] == data
  {
    m.Set(key, data);
    m.RemoveByPrefix(other, []);
  }

  /** Memory backend: a second write, under another key, keeps the first
      key's tags, so removal by a prefix of the first key still hides it. */
  method MemoryTwoWritesKeepTags(m: MemoryCacheManager, key: CacheKey, data: Value, other: CacheKey, data': Value, j: nat)
    requires m.Valid() && key.cacheTime > 0 && data != Null && j < key.prefixes.Length
    requires Text(other.key) != Text(key.key)
    modifies m
    ensures m.Valid() && Text(key.key) !in m.Contents()
  {
    m.Set(key, data);
    m.Set(other, data');
    m.RemoveByPrefix(key.prefixes[j], []);
  }

  /** Memory backend: a computation that yields null for a second key, which
      may share the first key's prefixes, registers those prefixes without
      replacing their tokens, so removal by a prefix of the first key still
      hides it. */
  method MemoryNullResultKeepsTags(m: MemoryCacheManager, key: CacheKey, data: Value, other: CacheKey, j: nat)
    requires m.Valid() && key.cacheTime > 0 && data != Null && j < key.prefixes.Length
    modifies m
    ensures m.Valid() && Text(key.key) !in m.Contents()
  {
    m.Set(key, data);
    var _, _ := m.GetOrCreate(other, Null);
    m.RemoveByPrefix(key.prefixes[j], []);
  }

  /** Memory backend: after `Clear`, no key reads back. */
  method MemoryClearForgetsAll(m: MemoryCacheManager, key: CacheKey) returns (r: Value)
    requires m.Valid() && key.cacheTime > 0
    modifies m
    ensures m.Valid() && r == Null
  {
    m.Clear();
    r := m.GetOrDefault(key);
  }

  /** The walk-through on the memory backend: key "default.key" tagged
      "default", lifetime 120. The first read computes and stores the value,
      the second reads it back. Removal by "defa" finds no registered prefix
      of that exact text and leaves it readable; removal by "default" hides it. */
  method MemoryWalkThrough(hash: string -> string)
    returns (first: Value, acquired: bool, second: Value, afterDefa: Value, afterDefault: Value)
    ensures first == Data("Kadir,12") && acquired
    ensures second == Data("Kadir,12") && afterDefa == Data("Kadir,12")
    ensures afterDefault == Null
  {
    var m := new MemoryCacheManager(hash);
    var key := new CacheKey([Lit("default.key")], [Some([Lit("default")])]);
    assert key.prefixes[..] == [[Lit("default")]];
    assert Text([Lit("default")]) == "default";
    assert Names(key.prefixes[..]) == ["default"];
    assert Text(key.key) == "default.key";
    first, acquired := m.Get(key, Data("Kadir,12"));
    ghost var t := m.prefixTokens[Text(key.prefixes[0])];
    ghost var e := m.entries["default.key"];
    assert t in e.options.tokens;
    assert "defa" !in m.prefixTokens;
    assert m.Contents()["default.key"] == Data("Kadir,12");
    second := m.GetOrDefault(key);
    assert Text([Lit("defa")]) == "defa";
    m.RemoveByPrefix([Lit("defa")], []);
    afterDefa := m.GetOrDefault(key);
    assert m.entries["default.key"] == e;
    m.RemoveByPrefix(key.prefixes[0], []);
    assert "default.key" !in m.Contents();
    afterDefault := m.GetOrDefault(key);
  }

  /** The walk-through on the distributed backend: removal by "defa" selects
      "default.key" from the registry, since the key's text starts with it. */
  method DistributedWalkThrough(hash: string -> string)
    returns (first: Outcome<Value>, acquired: bool, second: Outcome<Value>, afterDefa: Outcome<Value>)
    ensures first == Ok(Data("Kadir,12")) && acquired
    ensures second == Ok(Data("Kadir,12"))
    ensures afterDefa == Ok(Null)
  {
    var d := new DistributedCacheManager(hash, true);
    var key := new CacheKey([Lit("default.key")], [Some([Lit("default")])]);
    first, acquired := d.Get(key, Data("Kadir,12"));
    second := d.GetOrDefault(key);
    assert Text([Lit("defa")]) == "defa";
    assert Tagged("default.key", "defa");
    MatchedMembers(d.keys, "defa");
    d.RemoveByPrefix([Lit("defa")], []);
    afterDefa := d.GetOrDefault(key);
  }

  /** The distributed backend selects keys by their own text, not by their
      prefixes: a key tagged "catalog" whose text does not start with it
      survives removal by "catalog". */
  method DistributedIgnoresTags(hash: string -> string) returns (after: Outcome<Value>)
    ensures after == Ok(Data("5"))
  {
    var d := new DistributedCacheManager(hash, false);
    var key := new CacheKey([Lit("item.5")], [Some([Lit("catalog")])]);
    d.Set(key, Data("5"));
    assert Text([Lit("catalog")]) == "catalog";
    assert !Tagged("item.5", "catalog");
    MatchedMembers(d.keys, "catalog");
    d.RemoveByPrefix([Lit("catalog")], []);
    after := d.GetOrDefault(key);
  }

  /** Two locks on the same resource taken one after the other both succeed,
      on either backend, since each removes its entry when done. */
  method SequentialLocks(hash: string -> string) returns (m1: Outcome<bool>, m2: Outcome<bool>, d1: Outcome<bool>, d2: Outcome<bool>)
    ensures m1 == Ok(true) && m2 == Ok(true)
    ensures d1 == Ok(true) && d2 == Ok(true)
  {
    var m := new MemoryCacheManager(hash);
    var ran;
    ghost var seen, stored;
    m1, ran, seen := m.PerformActionWithLock("job", 5, false);
    m2, ran, seen := m.PerformActionWithLock("job", 5, false);
    var d := new DistributedCacheManager(hash, true);
    d1, ran, stored := d.PerformActionWithLock("job", 5, false);
    d2, ran, stored := d.PerformActionWithLock("job", 5, false);
  }
}
