/** Managers/DistributedCacheManager.cs: the backend over a shared string
    store (Redis). Values are stored as serialized text with an absolute
    lifetime; a missing key and an empty text both read as a miss. Every key
    read or written is appended to a registry list (`_keys`, duplicates
    allowed), which removal by prefix and clearing walk. Reads and writes also
    go through the per-request memo. */
module DistributedCache {
  import opened Values
  import opened CacheKeys
  import KeyService
  import Strings
  import opened RequestCache

  /** What the store holds under a key: the text and its absolute lifetime. */
  datatype Stored = Stored(text: string, lifetime: int)

  /** `GetString(key)`, with `null` for a missing key read as the empty text
      (`string.IsNullOrEmpty` treats both alike). */
  function Json(store: map<string, Stored>, k: string): string
  {
    if k in store then store[k].text else ""
  }

  /** `List<string>.Remove(x)`: drops the first occurrence of `x`, if any. */
  function RemoveFirst(ks: seq<string>, x: string): (r: seq<string>)
    ensures x !in ks ==> r == ks
  {
    if ks == [] then []
    else if ks[0] == x then ks[1..]
    else [ks[0]] + RemoveFirst(ks[1..], x)
  }

  /** Removal drops exactly one occurrence of a listed key and keeps every
      other key with its multiplicity. */
  lemma {:induction false} RemoveFirstCounts(ks: seq<string>, x: string)
    ensures x in ks ==> multiset(RemoveFirst(ks, x)) == multiset(ks) - multiset{x}
    ensures forall y :: y != x ==> (y in RemoveFirst(ks, x) <==> y in ks)
  {
    if ks != [] {
      var h, t := ks[0], ks[1..];
      assert ks == [h] + t;
      RemoveFirstCons(h, t, x);
      RemoveFirstCounts(t, x);
      assert multiset(ks) == multiset{h} + multiset(t);
    }
  }

  /** A registry key selected by removal with `prefix`. */
  predicate Tagged(k: string, prefix: string)
  {
    Strings.StartsWithIgnoreCase(k, prefix)
  }

  /** The registry keys a removal with `prefix` leaves, in order. */
  function Kept(ks: seq<string>, prefix: string): (r: seq<string>)
    ensures |r| <= |ks|
  {
    if ks == [] then []
    else if Tagged(ks[0], prefix) then Kept(ks[1..], prefix)
    else [ks[0]] + Kept(ks[1..], prefix)
  }

  /** `_keys.Where(key => key.StartsWith(prefix, ...)).ToList()`. */
  function Matched(ks: seq<string>, prefix: string): (r: seq<string>)
    ensures |r| <= |ks|
  {
    if ks == [] then []
    else if Tagged(ks[0], prefix) then [ks[0]] + Matched(ks[1..], prefix)
    else Matched(ks[1..], prefix)
  }

  /** One step of each filter. */
  lemma FiltersCons(h: string, t: seq<string>, prefix: string)
    ensures Kept([h] + t, prefix) == if Tagged(h, prefix) then Kept(t, prefix) else [h] + Kept(t, prefix)
    ensures Matched([h] + t, prefix) == if Tagged(h, prefix) then [h] + Matched(t, prefix) else Matched(t, prefix)
  {
    assert ([h] + t)[0] == h && ([h] + t)[1..] == t;
  }

  /** The filter keeps exactly the keys that do not start with the prefix. */
  lemma {:induction false} KeptMembers(ks: seq<string>, prefix: string)
    ensures forall k :: k in Kept(ks, prefix) <==> k in ks && !Tagged(k, prefix)
  {
    if ks != [] {
      var h, t := ks[0], ks[1..];
      assert ks == [h] + t;
      FiltersCons(h, t, prefix);
      KeptMembers(t, prefix);
    }
  }

  /** The selection holds exactly the keys that start with the prefix. */
  lemma {:induction false} MatchedMembers(ks: seq<string>, prefix: string)
    ensures forall k :: k in Matched(ks, prefix) <==> k in ks && Tagged(k, prefix)
  {
    if ks != [] {
      var h, t := ks[0], ks[1..];
      assert ks == [h] + t;
      FiltersCons(h, t, prefix);
      MatchedMembers(t, prefix);
    }
  }

  /** Filtering a concatenation filters each part. */
  lemma {:induction false} KeptAppend(a: seq<string>, b: seq<string>, prefix: string)
    ensures Kept(a + b, prefix) == Kept(a, prefix) + Kept(b, prefix)
  {
    if a == [] {
      assert a + b == b;
    } else {
      var h, t := a[0], a[1..];
      assert a + b == [h] + (t + b) && a == [h] + t by {
        assert a == [h] + t;
      }
      FiltersCons(h, t + b, prefix);
      FiltersCons(h, t, prefix);
      KeptAppend(t, b, prefix);
      if !Tagged(h, prefix) {
        ConsAppend(h, Kept(t, prefix), Kept(b, prefix));
      }
    }
  }

  lemma ConsAppend<T>(h: T, x: seq<T>, y: seq<T>)
    ensures [h] + (x + y) == ([h] + x) + y
  {
  }

  /** With nothing selected, the filter keeps the whole list. */
  lemma {:induction false} KeptAll(ks: seq<string>, prefix: string)
    requires Matched(ks, prefix) == []
    ensures Kept(ks, prefix) == ks
  {
    if ks != [] {
      var h, t := ks[0], ks[1..];
      assert ks == [h] + t;
      FiltersCons(h, t, prefix);
      KeptAll(t, prefix);
    }
  }

  /** The first selected key of a list: everything before it is kept, and
      the remaining selected keys all lie after it. */
  lemma {:induction false} FirstMatch(ks: seq<string>, prefix: string) returns (m: nat)
    requires Matched(ks, prefix) != []
    ensures m < |ks| && ks[m] == Matched(ks, prefix)[0] && Tagged(ks[m], prefix)
    ensures Matched(ks, prefix)[1..] == Matched(ks[m + 1..], prefix)
    ensures Kept(ks[..m + 1], prefix) == ks[..m]
  {
    var h, t := ks[0], ks[1..];
    assert ks == [h] + t;
    FiltersCons(h, t, prefix);
    if Tagged(h, prefix) {
      m := 0;
      assert ks[..1] == [h] + [];
      FiltersCons(h, [], prefix);
    } else {
      var m' := FirstMatch(t, prefix);
      m := m' + 1;
      assert t[m' + 1..] == ks[m + 1..];
      assert ks[..m + 1] == [h] + t[..m' + 1];
      assert ks[..m] == [h] + t[..m'];
      FiltersCons(h, t[..m' + 1], prefix);
    }
  }

  /** Removing the first occurrence of a key that does not occur before a
      given position removes the occurrence at that position. */
  lemma {:induction false} RemoveFirstAt(a: seq<string>, x: string, b: seq<string>)
    requires x !in a
    ensures RemoveFirst(a + [x] + b, x) == a + b
  {
    if a == [] {
      assert a + [x] + b == [x] + b;
      RemoveFirstCons(x, b, x);
    } else {
      var h, t := a[0], a[1..];
      assert a + [x] + b == [h] + (t + [x] + b) && a + b == [h] + (t + b) by {
        assert a == [h] + t;
      }
      assert h != x;
      RemoveFirstCons(h, t + [x] + b, x);
      RemoveFirstAt(t, x, b);
    }
  }

  /** One step of `RemoveFirst`. */
  lemma RemoveFirstCons(h: string, t: seq<string>, x: string)
    ensures RemoveFirst([h] + t, x) == if h == x then t else [h] + RemoveFirst(t, x)
  {
    assert ([h] + t)[0] == h && ([h] + t)[1..] == t;
  }

  /** The first selected key occurs neither among the kept keys before it
      nor among the unselected keys ahead of it. */
  lemma NotBefore(done: seq<string>, rest: seq<string>, m: nat, prefix: string)
    requires m < |rest| && Tagged(rest[m], prefix) && Kept(rest[..m + 1], prefix) == rest[..m]
    ensures rest[m] !in Kept(done, prefix) + rest[..m]
  {
    KeptMembers(done, prefix);
    KeptMembers(rest[..m + 1], prefix);
  }

  /** One step of removal by prefix: with the keys before `rest` already
      filtered, removing the next selected key filters one more stretch. */
  lemma RemoveNextMatch(done: seq<string>, rest: seq<string>, prefix: string) returns (m: nat)
    requires Matched(rest, prefix) != []
    ensures m < |rest| && rest[m] == Matched(rest, prefix)[0]
    ensures RemoveFirst(Kept(done, prefix) + rest, rest[m]) == Kept(done + rest[..m + 1], prefix) + rest[m + 1..]
    ensures Matched(rest[m + 1..], prefix) == Matched(rest, prefix)[1..]
  {
    m := FirstMatch(rest, prefix);
    var x, kept, before, after := rest[m], Kept(done, prefix), rest[..m], rest[m + 1..];
    NotBefore(done, rest, m, prefix);
    assert rest == before + [x] + after;
    assert kept + rest == (kept + before) + [x] + after;
    RemoveFirstAt(kept + before, x, after);
    KeptAppend(done, rest[..m + 1], prefix);
  }

  /** The bookkeeping of one turn of the registry walk: the next selected key
      sits at `m` in the unvisited part, and removing it moves the visited
      boundary just past it. */
  lemma DropStep(all: seq<string>, done: seq<string>, rest: seq<string>, matches: seq<string>, i: nat, prefix: string)
    returns (m: nat)
    requires all == done + rest && i < |matches| && matches[i..] == Matched(rest, prefix)
    ensures m < |rest| && rest[m] == matches[i]
    ensures all == (done + rest[..m + 1]) + rest[m + 1..]
    ensures RemoveFirst(Kept(done, prefix) + rest, matches[i]) == Kept(done + rest[..m + 1], prefix) + rest[m + 1..]
    ensures matches[i + 1..] == Matched(rest[m + 1..], prefix)
    ensures matches[..i + 1] == matches[..i] + [matches[i]]
  {
    assert matches[i] == matches[i..][0] && matches[i + 1..] == matches[i..][1..];
    m := RemoveNextMatch(done, rest, prefix);
    assert rest == rest[..m + 1] + rest[m + 1..];
  }

  /** The map without the keys listed in `ks`. */
  function Without<V>(m: map<string, V>, ks: seq<string>): (r: map<string, V>)
  {
    map k | k in m && k !in ks :: m[k]
  }

  /** Dropping the keys of a list one at a time drops them all. */
  lemma WithoutStep<V>(m: map<string, V>, ks: seq<string>, x: string)
    ensures Without(m, ks) - {x} == Without(m, ks + [x])
  {
    var l, r := Without(m, ks) - {x}, Without(m, ks + [x]);
    assert forall k :: k in l <==> k in r;
    assert forall k :: k in l ==> l[k] == r[k];
  }

  class DistributedCacheManager {
    /** The SHA-1 text hash used to normalize id lists in keys. */
    const hash: string -> string
    /** `_perRequestCache`. */
    const memo: PerRequestCache
    /** The distributed store. */
    var store: map<string, Stored>
    /** `_keys`. */
    var keys: seq<string>

    /** Every stored key is registered, and the memo agrees with the store: a
        key the memo holds is stored, and its text reads back as the held
        value. */
    ghost predicate Valid()
      reads this, memo
    {
      && (forall k :: k in store ==> k in keys)
      && (forall k :: Holds(memo.items, k) ==>
            k in store && Deserialize(store[k].text) == Some(ItemAt(memo.items.value, k)))
    }

    /** A manager over an empty store, serving a request (`requestInFlight`)
        whose item dictionary holds no cache key yet, or serving no request. */
    constructor (hash: string -> string, requestInFlight: bool)
      ensures Valid() && this.hash == hash && fresh(memo)
      ensures store == map[] && keys == []
      ensures memo.items == if requestInFlight then Some(map[]) else None
    {
      this.hash := hash;
      memo := new PerRequestCache(if requestInFlight then Some(map[]) else None);
      store := map[];
      keys := [];
    }

    /** `TryGetItem` / `TryGetItemAsync`: an empty or missing text is a miss
        (`Ok(None)`); text the serializer rejects throws; otherwise the value
        is handed to the memo, the key is registered, and the value returned. */
    method TryGetItem(key: CacheKey) returns (r: Outcome<Option<Value>>)
      requires Valid()
      modifies this, memo
      ensures Valid()
      ensures store == old(store)
      ensures Json(store, Text(key.key)) == "" ==> r == Ok(None) && unchanged(this) && memo.items == old(memo.items)
      ensures Json(store, Text(key.key)) != "" && Deserialize(Json(store, Text(key.key))).None? ==>
        r == Threw(SerializationError) && unchanged(this) && memo.items == old(memo.items)
      ensures Json(store, Text(key.key)) != "" && Deserialize(Json(store, Text(key.key))).Some? ==>
        && r == Ok(Some(Deserialize(Json(store, Text(key.key))).value))
        && memo.items == AfterSet(old(memo.items), Text(key.key), r.value.value)
        && keys == old(keys) + [Text(key.key)]
    {
      var k := Text(key.key);
      var json := Json(store, k);
      if json == "" {
        return Ok(None);
      }
      var item := Deserialize(json);
      if item.None? {
        return Threw(SerializationError);
      }
      memo.Set(k, item.value);
      keys := keys + [k];
      r := Ok(Some(item.value));
    }

    /** `Set` / `SetAsync`: a null key, a lifetime of zero or less, or null
        data store nothing; otherwise the serialized data is stored with the
        key's lifetime, handed to the memo, and the key is registered. */
    method Set(key: CacheKey?, data: Value)
      requires Valid()
      modifies this, memo
      ensures Valid()
      ensures CacheTimeOf(key) <= 0 || data == Null ==> unchanged(this) && memo.items == old(memo.items)
      ensures CacheTimeOf(key) > 0 && data != Null ==>
        && store == old(store)[Text(key.key) := Stored(Serialize(data), key.cacheTime)]
        && memo.items == AfterSet(old(memo.items), Text(key.key), data)
        && keys == old(keys) + [Text(key.key)]
    {
      if CacheTimeOf(key) <= 0 || data == Null {
        return;
      }
      var k := Text(key.key);
      store := store[k := Stored(Serialize(data), key.cacheTime)];
      memo.Set(k, data);
      keys := keys + [k];
    }

    /** `Get(key, acquire)` and both `GetAsync` overloads. `produced` is what
        `acquire` would return and `acquired` whether it was called. A value
        the memo holds wins and agrees with the store; then a key without
        lifetime calls `acquire` and stores nothing; then a stored value is
        returned (or its unreadable text throws); otherwise the produced value
        is returned and stored unless it is null. */
    method Get(key: CacheKey, produced: Value) returns (r: Outcome<Value>, acquired: bool)
      requires Valid()
      modifies this, memo
      ensures Valid()
      ensures Holds(old(memo.items), Text(key.key)) ==>
        && r == Ok(ItemAt(old(memo.items).value, Text(key.key))) && !acquired
        && Deserialize(Json(old(store), Text(key.key))) == Some(r.value)
        && unchanged(this) && memo.items == old(memo.items)
      ensures !Holds(old(memo.items), Text(key.key)) && key.cacheTime <= 0 ==>
        r == Ok(produced) && acquired && unchanged(this) && memo.items == old(memo.items)
      ensures !Holds(old(memo.items), Text(key.key)) && key.cacheTime > 0 && Json(old(store), Text(key.key)) != "" ==>
        && !acquired && store == old(store)
        && match Deserialize(Json(old(store), Text(key.key)))
           case None => r == Threw(SerializationError) && unchanged(this) && memo.items == old(memo.items)
           case Some(v) =>
             r == Ok(v) && keys == old(keys) + [Text(key.key)]
             && memo.items == AfterSet(old(memo.items), Text(key.key), v)
      ensures !Holds(old(memo.items), Text(key.key)) && key.cacheTime > 0 && Json(old(store), Text(key.key)) == "" ==>
        && r == Ok(produced) && acquired
        && (produced == Null ==> unchanged(this) && memo.items == old(memo.items))
        && (produced != Null ==>
              && store == old(store)[Text(key.key) := Stored(Serialize(produced), key.cacheTime)]
              && memo.items == AfterSet(old(memo.items), Text(key.key), produced)
              && keys == old(keys) + [Text(key.key)])
    {
      var k := Text(key.key);
      var held := memo.IsSet(k);
      if held {
        var v, _ := memo.Get(k, Null);
        return Ok(v), false;
      }
      if key.cacheTime <= 0 {
        return Ok(produced), true;
      }
      var got := TryGetItem(key);
      match got {
        case Threw(e) =>
          return Threw(e), false;
        case Ok(Some(item)) =>
          return Ok(item), false;
        case Ok(None) =>
      }
      r, acquired := Ok(produced), true;
      if produced != Null {
        Set(key, produced);
      }
    }

    /** `Get(key)`: reads the store directly, without the memo check and
        whatever the key's lifetime; a miss gives the default (null). */
    method GetOrDefault(key: CacheKey) returns (r: Outcome<Value>)
      requires Valid()
      modifies this, memo
      ensures Valid()
      ensures store == old(store)
      ensures Json(store, Text(key.key)) == "" ==> r == Ok(Null) && unchanged(this) && memo.items == old(memo.items)
      ensures Json(store, Text(key.key)) != "" ==>
        match Deserialize(Json(store, Text(key.key)))
        case None => r == Threw(SerializationError) && unchanged(this) && memo.items == old(memo.items)
        case Some(v) =>
          r == Ok(v) && keys == old(keys) + [Text(key.key)]
          && memo.items == AfterSet(old(memo.items), Text(key.key), v)
    {
      var got := TryGetItem(key);
      match got {
        case Threw(e) =>
          r := Threw(e);
        case Ok(None) =>
          r := Ok(Null);
        case Ok(Some(item)) =>
          r := Ok(item);
      }
    }

    /** `RemoveAsync(cacheKey, params)`: deletes the prepared key from the
        store and the memo, and one occurrence of it from the registry. */
    method Remove(cacheKey: CacheKey, params: seq<KeyObject>)
      requires Valid() && KeyService.CanPrepare(cacheKey, params)
      modifies this, memo
      ensures Valid()
      ensures store == old(store) - {Text(CreatedKey(cacheKey.key, KeyService.Normalizer(hash), params))}
      ensures memo.items == AfterRemove(old(memo.items), Text(CreatedKey(cacheKey.key, KeyService.Normalizer(hash), params)))
      ensures keys == RemoveFirst(old(keys), Text(CreatedKey(cacheKey.key, KeyService.Normalizer(hash), params)))
    {
      var prepared := KeyService.PrepareKey(hash, cacheKey, params);
      var k := Text(prepared.key);
      store := store - {k};
      memo.Remove(k);
      RemoveFirstCounts(keys, k);
      keys := RemoveFirst(keys, k);
    }

    /** The registry walk of `RemoveByPrefixAsync`: each selected key, in
        registry order, is deleted from the store and its first occurrence
        dropped from the registry. */
    method DropTagged(p: string)
      modifies this
      ensures keys == Kept(old(keys), p)
      ensures store == Without(old(store), Matched(old(keys), p))
    {
      var matches := Matched(keys, p);
      ghost var done: seq<string> := [];
      ghost var rest := keys;
      for i := 0 to |matches|
        invariant old(keys) == done + rest
        invariant keys == Kept(done, p) + rest
        invariant matches[i..] == Matched(rest, p)
        invariant store == Without(old(store), matches[..i])
      {
        var x := matches[i];
        ghost var m := DropStep(old(keys), done, rest, matches, i, p);
        WithoutStep(old(store), matches[..i], x);
        store := store - {x};
        keys := RemoveFirst(keys, x);
        done, rest := done + rest[..m + 1], rest[m + 1..];
      }
      KeptAll(rest, p);
      KeptAppend(done, rest, p);
      assert matches[..|matches|] == matches;
    }

    /** `RemoveByPrefixAsync(prefix, params)`: the memo drops every key the
        prepared prefix matches as a pattern; then every registered key that
        starts with the prefix, ignoring case, is deleted from the store and
        dropped from the registry (all its occurrences). */
    method RemoveByPrefix(prefix: Template, params: seq<KeyObject>)
      requires Valid() && (params == [] || Fits(prefix, |params|))
      modifies this, memo
      ensures Valid()
      ensures memo.items == AfterRemoveByPrefix(old(memo.items), Text(KeyService.PrepareKeyPrefix(hash, prefix, params)))
      ensures keys == Kept(old(keys), Text(KeyService.PrepareKeyPrefix(hash, prefix, params)))
      ensures store == Without(old(store), Matched(old(keys), Text(KeyService.PrepareKeyPrefix(hash, prefix, params))))
    {
      var p := Text(KeyService.PrepareKeyPrefix(hash, prefix, params));
      memo.RemoveByPrefix(p);
      DropTagged(p);
      KeptMembers(old(keys), p);
      MatchedMembers(old(keys), p);
      forall k | Holds(memo.items, k)
        ensures k in store
      {
        if Tagged(k, p) {
          Strings.StartsWithIsMatch(k, p);
        }
      }
    }

    /** `ClearAsync`: drops every registered key from the memo and from the
        store, then empties the registry. Since every stored key is
        registered, nothing stays stored and the memo holds nothing. */
    method Clear()
      requires Valid()
      modifies this, memo
      ensures Valid()
      ensures store == map[] && keys == []
      ensures memo.items.None? == old(memo.items).None?
      ensures forall k :: !Holds(memo.items, k)
    {
      for i := 0 to |keys|
        modifies memo
        invariant memo.items.None? == old(memo.items).None?
        invariant memo.items.Some? ==> memo.items.value == Without(old(memo.items).value, keys[..i])
      {
        if memo.items.Some? {
          WithoutStep(old(memo.items).value, keys[..i], keys[i]);
        }
        memo.Remove(keys[i]);
        assert keys[..i + 1] == keys[..i] + [keys[i]];
      }
      assert keys[..|keys|] == keys;
      for i := 0 to |keys|
        modifies this
        invariant keys == old(keys)
        invariant store == Without(old(store), keys[..i])
      {
        WithoutStep(old(store), keys[..i], keys[i]);
        store := store - {keys[i]};
        assert keys[..i + 1] == keys[..i] + [keys[i]];
      }
      assert keys[..|keys|] == keys;
      keys := [];
    }

    /** `PerformActionWithLock` / `PerformActionWithLockAsync`: refuses when
        the resource has a non-empty stored text; otherwise stores the
        resource name under itself with the given lease, runs the action, and
        deletes the resource whether or not the action threw. A lease that is
        not positive makes the entry options throw before anything is stored
        or run; the `finally` block of the synchronous form still deletes the
        resource. `actionThrows` says whether the action throws, `ran` whether
        it was called, and `during` is the store while it ran. */
    method PerformActionWithLock(resource: string, lease: int, actionThrows: bool)
      returns (r: Outcome<bool>, ran: bool, ghost during: map<string, Stored>)
      requires Valid()
      modifies this
      ensures Valid()
      ensures Json(old(store), resource) != "" ==> r == Ok(false) && !ran && unchanged(this)
      ensures Json(old(store), resource) == "" ==> store == old(store) - {resource} && keys == old(keys)
      ensures Json(old(store), resource) == "" && lease <= 0 ==> r == Threw(LeaseOutOfRange) && !ran
      ensures Json(old(store), resource) == "" && lease > 0 ==>
        && ran
        && during == old(store)[resource := Stored(resource, lease)]
        && r == (if actionThrows then Threw(ActionFailed) else Ok(true))
    {
      if Json(store, resource) != "" {
        return Ok(false), false, map[];
      }
      if lease <= 0 {
        r, ran, during := Threw(LeaseOutOfRange), false, map[];
      } else {
        store := store[resource := Stored(resource, lease)];
        during := store;
        ran := true;
        // the action runs here
        r := if actionThrows then Threw(ActionFailed) else Ok(true);
      }
      // the finally block deletes the lock entry
      store := store - {resource};
    }
  }
}
