/** Managers/MemoryCacheManager.cs: the in-process backend.

    An entry is stored with an absolute lifetime and a set of expiration
    tokens: the current clear token and one token per prefix of its key, taken
    from a registry that maps each prefix to its token (creating it on first
    use). Cancelling a token expires every entry that carries it; the memory
    cache drops such entries lazily, so an expired entry may still sit in
    `entries` but is never returned. Tokens are numbered; `cancelled` holds
    the numbers of cancelled tokens and `nextToken` the next unused number. */
module MemoryCache {
  import opened Values
  import opened CacheKeys
  import KeyService

  /** `MemoryCacheEntryOptions`: absolute lifetime and expiration tokens. */
  datatype Options = Options(lifetime: int, tokens: set<nat>)

  datatype Entry = Entry(value: Value, options: Options)

  /** An entry stays readable while none of its tokens has been cancelled. */
  predicate Live(e: Entry, cancelled: set<nat>)
  {
    e.options.tokens !! cancelled
  }

  /** What `TryGetValue` can return: the values of the live entries. */
  function Visible(entries: map<string, Entry>, cancelled: set<nat>): (r: map<string, Value>)
    ensures forall k :: k in r <==> k in entries && Live(entries[k], cancelled)
    ensures forall k :: k in r ==> r[k] == entries[k].value
  {
    map k | k in entries && Live(entries[k], cancelled) :: entries[k].value
  }

  /** Storing a live entry makes its value readable under its key and nothing else changes. */
  lemma VisibleAfterStore(entries: map<string, Entry>, cancelled: set<nat>, k: string, e: Entry)
    requires Live(e, cancelled)
    ensures Visible(entries[k := e], cancelled) == Visible(entries, cancelled)[k := e.value]
  {
  }

  /** Dropping an entry hides its key and nothing else. */
  lemma VisibleAfterDrop(entries: map<string, Entry>, cancelled: set<nat>, k: string)
    ensures Visible(entries - {k}, cancelled) == Visible(entries, cancelled) - {k}
  {
  }

  /** Cancelling a token that every live entry carries leaves nothing readable. */
  lemma AllExpire(entries: map<string, Entry>, cancelled: set<nat>, t: nat)
    requires forall k :: k in entries ==> t in entries[k].options.tokens || !Live(entries[k], cancelled)
    ensures Visible(entries, cancelled + {t}) == map[]
  {
    forall k | k in entries
      ensures !Live(entries[k], cancelled + {t})
    {
      if t in entries[k].options.tokens {
        assert t in entries[k].options.tokens * (cancelled + {t});
      }
    }
  }

  /** The strings a list of prefix templates stands for. */
  function Names(ps: seq<Template>): (r: seq<string>)
    ensures |r| == |ps| && forall j :: 0 <= j < |ps| ==> r[j] == Text(ps[j])
  {
    seq(|ps|, j requires 0 <= j < |ps| => Text(ps[j]))
  }

  /** One turn of the token loop: after `names[i]` got the token `t` (its
      registered one, or a new one), the collected tokens are still exactly
      the clear token and the tokens of the names visited so far. */
  lemma TokensStep(base: map<string, nat>, before: map<string, nat>, names: seq<string>, i: nat, tokens: set<nat>, t: nat, clear: nat)
    requires i < |names| && (names[i] in before ==> t == before[names[i]])
    requires forall p :: p in base ==> p in before && before[p] == base[p]
    requires forall p :: p in before ==> p in base || p in names[..i]
    requires forall j :: 0 <= j < i ==> names[j] in before && before[names[j]] in tokens
    requires forall u :: u in tokens ==>
      u == clear || exists j :: 0 <= j < i && names[j] in before && before[names[j]] == u
    ensures forall p :: p in base ==> p in before[names[i] := t] && before[names[i] := t][p] == base[p]
    ensures forall p :: p in before[names[i] := t] ==> p in base || p in names[..i + 1]
    ensures forall j :: 0 <= j < i + 1 ==>
      names[j] in before[names[i] := t] && before[names[i] := t][names[j]] in tokens + {t}
    ensures forall u :: u in tokens + {t} ==>
      u == clear || exists j :: 0 <= j < i + 1 && names[j] in before[names[i] := t] && before[names[i] := t][names[j]] == u
  {
    var after := before[names[i] := t];
    assert names[..i + 1] == names[..i] + [names[i]];
    forall u | u in tokens + {t}
      ensures u == clear || exists j :: 0 <= j < i + 1 && names[j] in after && after[names[j]] == u
    {
      if u == t {
        assert names[i] in after && after[names[i]] == u;
      } else if u != clear {
        var j :| 0 <= j < i && names[j] in before && before[names[j]] == u;
        assert names[j] in after && after[names[j]] == u;
      }
    }
  }

  class MemoryCacheManager {
    /** The SHA-1 text hash used to normalize id lists in keys. */
    const hash: string -> string
    var entries: map<string, Entry>
    /** `_prefixes`: the token of each prefix in use. */
    var prefixTokens: map<string, nat>
    /** `_clearToken`. */
    var clearToken: nat
    var cancelled: set<nat>
    var nextToken: nat
    /** The prefix each token was issued for. */
    ghost var owner: map<nat, string>

    /** Tokens in use were issued and are not cancelled, each prefix has its
        own token, no entry holds null, and every entry carries the current
        clear token unless it has already expired. */
    ghost predicate Valid()
      reads this
    {
      && clearToken < nextToken && clearToken !in cancelled
      && (forall t :: t in cancelled ==> t < nextToken)
      && (forall p :: p in prefixTokens ==>
            && prefixTokens[p] < nextToken && prefixTokens[p] !in cancelled && prefixTokens[p] != clearToken
            && prefixTokens[p] in owner && owner[prefixTokens[p]] == p)

      && (forall k :: k in entries ==>
            && entries[k].value != Null
            && (forall t :: t in entries[k].options.tokens ==> t < nextToken)
            && (clearToken in entries[k].options.tokens || !Live(entries[k], cancelled)))
    }

    /** What `TryGetValue` returns now. */
    function Contents(): map<string, Value>
      reads this
    {
      Visible(entries, cancelled)
    }

    constructor (hash: string -> string)
      ensures Valid() && this.hash == hash
      ensures entries == map[] && prefixTokens == map[] && Contents() == map[]
    {
      this.hash := hash;
      entries := map[];
      prefixTokens := map[];
      clearToken := 0;
      cancelled := {};
      nextToken := 1;
      owner := map[];
    }

    /** `_prefixes.GetOrAdd(prefix, new CancellationTokenSource())`: the
        registered token of the prefix, or a newly issued one, registered. */
    method TokenOf(prefix: string) returns (t: nat)
      requires Valid()
      modifies this
      ensures Valid()
      ensures entries == old(entries) && cancelled == old(cancelled) && clearToken == old(clearToken)
      ensures prefixTokens == old(prefixTokens)[prefix := t]
      ensures prefix in old(prefixTokens) ==> t == old(prefixTokens)[prefix]
      ensures t !in cancelled && t != clearToken && old(nextToken) <= nextToken && t < nextToken
    {
      if prefix !in prefixTokens {
        prefixTokens := prefixTokens[prefix := nextToken];
        owner := owner[nextToken := prefix];
        nextToken := nextToken + 1;
      }
      t := prefixTokens[prefix];
    }

    /** The loop of `PrepareEntryOptions`: the clear token and the token of
        each of `names`, registered on first use. */
    method CollectTokens(names: seq<string>) returns (tokens: set<nat>)
      requires Valid()
      modifies this
      ensures Valid()
      ensures entries == old(entries) && cancelled == old(cancelled) && clearToken == old(clearToken)
      ensures forall p :: p in old(prefixTokens) ==> p in prefixTokens && prefixTokens[p] == old(prefixTokens)[p]
      ensures forall p :: p in prefixTokens ==> p in old(prefixTokens) || p in names
      ensures forall j :: 0 <= j < |names| ==> names[j] in prefixTokens && prefixTokens[names[j]] in tokens
      ensures forall t :: t in tokens ==>
        t == clearToken || exists j :: 0 <= j < |names| && names[j] in prefixTokens && prefixTokens[names[j]] == t
      ensures clearToken in tokens && tokens !! cancelled
      ensures forall t :: t in tokens ==> t < nextToken
    {
      tokens := {clearToken};
      for i := 0 to |names|
        invariant Valid()
        invariant entries == old(entries) && cancelled == old(cancelled) && clearToken == old(clearToken)
        invariant forall p :: p in old(prefixTokens) ==> p in prefixTokens && prefixTokens[p] == old(prefixTokens)[p]
        invariant forall p :: p in prefixTokens ==> p in old(prefixTokens) || p in names[..i]
        invariant forall j :: 0 <= j < i ==> names[j] in prefixTokens && prefixTokens[names[j]] in tokens
        invariant forall t :: t in tokens ==>
          t == clearToken || exists j :: 0 <= j < i && names[j] in prefixTokens && prefixTokens[names[j]] == t
        invariant clearToken in tokens && tokens !! cancelled
        invariant forall t :: t in tokens ==> t < nextToken
      {
        ghost var before := prefixTokens;
        var t := TokenOf(names[i]);
        TokensStep(old(prefixTokens), before, names, i, tokens, t, clearToken);
        tokens := tokens + {t};
      }
      assert names[..|names|] == names;
    }

    /** `PrepareEntryOptions(key)`: the key's lifetime, the clear token, and the
        token of every prefix of the key, registering a new token for a prefix
        seen for the first time; registered prefixes keep their tokens. */
    method PrepareEntryOptions(key: CacheKey) returns (opts: Options)
      requires Valid()
      modifies this
      ensures Valid()
      ensures entries == old(entries) && cancelled == old(cancelled) && clearToken == old(clearToken)
      ensures opts.lifetime == key.cacheTime
      ensures forall p :: p in old(prefixTokens) ==> p in prefixTokens && prefixTokens[p] == old(prefixTokens)[p]
      ensures forall p :: p in prefixTokens ==> p in old(prefixTokens) || p in Names(key.prefixes[..])
      ensures forall j :: 0 <= j < key.prefixes.Length ==>
        Text(key.prefixes[j]) in prefixTokens && prefixTokens[Text(key.prefixes[j])] in opts.tokens
      ensures forall t :: t in opts.tokens ==>
        t == clearToken
        || exists j :: 0 <= j < key.prefixes.Length && Text(key.prefixes[j]) in prefixTokens && prefixTokens[Text(key.prefixes[j])] == t
      ensures clearToken in opts.tokens && opts.tokens !! cancelled
      ensures forall t :: t in opts.tokens ==> t < nextToken
    {
      var names := Names(key.prefixes[..]);
      var tokens := CollectTokens(names);
      opts := Options(key.cacheTime, tokens);
    }

    /** The state after `data` was stored under `key`: readable under the
        key's text, with the key's lifetime, the clear token and the tokens
        of all its prefixes and no other token; those prefixes are now
        registered; registered prefixes keep their tokens and no other prefix
        is registered; no other entry and no token changes. */
    twostate predicate StoredWith(key: CacheKey, data: Value)
      reads this, key, key.prefixes
    {
      && Contents() == old(Contents())[Text(key.key) := data]
      && Text(key.key) in entries
      && entries == old(entries)[Text(key.key) := entries[Text(key.key)]]
      && cancelled == old(cancelled) && clearToken == old(clearToken)
      && entries[Text(key.key)].options.lifetime == key.cacheTime
      && (forall j :: 0 <= j < key.prefixes.Length ==>
            Text(key.prefixes[j]) in prefixTokens
            && prefixTokens[Text(key.prefixes[j])] in entries[Text(key.key)].options.tokens)
      && (forall t :: t in entries[Text(key.key)].options.tokens ==>
            t == clearToken
            || exists j :: 0 <= j < key.prefixes.Length && Text(key.prefixes[j]) in prefixTokens
                           && prefixTokens[Text(key.prefixes[j])] == t)
      && (forall p :: p in old(prefixTokens) ==> p in prefixTokens && prefixTokens[p] == old(prefixTokens)[p])
      && (forall p :: p in prefixTokens ==> p in old(prefixTokens) || p in Names(key.prefixes[..]))
    }

    /** `_memoryCache.Set(key.Key, data, PrepareEntryOptions(key))`. */
    method Store(key: CacheKey, data: Value)
      requires Valid() && data != Null
      modifies this
      ensures Valid() && StoredWith(key, data)
    {
      var opts := PrepareEntryOptions(key);
      VisibleAfterStore(entries, cancelled, Text(key.key), Entry(data, opts));
      entries := entries[Text(key.key) := Entry(data, opts)];
    }

    /** `Set` / `SetAsync`: stores non-null data under the key's text, with the
        key's lifetime and tokens; a null key, a lifetime of zero or less, or
        null data store nothing. */
    method Set(key: CacheKey?, data: Value)
      requires Valid()
      modifies this
      ensures Valid()
      ensures CacheTimeOf(key) <= 0 || data == Null ==> unchanged(this)
      ensures CacheTimeOf(key) > 0 && data != Null ==> StoredWith(key, data)
    {
      if CacheTimeOf(key) <= 0 || data == Null {
        return;
      }
      Store(key, data);
    }

    /** `Remove` / `RemoveAsync`: deletes the entry under the prepared key. */
    method Remove(cacheKey: CacheKey, params: seq<KeyObject>)
      requires Valid() && KeyService.CanPrepare(cacheKey, params)
      modifies this
      ensures Valid()
      ensures entries == old(entries) - {Text(CreatedKey(cacheKey.key, KeyService.Normalizer(hash), params))}
      ensures Contents() == old(Contents()) - {Text(CreatedKey(cacheKey.key, KeyService.Normalizer(hash), params))}
      ensures prefixTokens == old(prefixTokens) && cancelled == old(cancelled) && clearToken == old(clearToken)
    {
      var prepared := KeyService.PrepareKey(hash, cacheKey, params);
      VisibleAfterDrop(entries, cancelled, Text(prepared.key));
      entries := entries - {Text(prepared.key)};
    }

    /** `Get(key, acquire)` and the `GetAsync` overload with an asynchronous
        `acquire`. `produced` is what `acquire` would return and `acquired`
        whether it was called. A key without lifetime always calls `acquire`
        and stores nothing; a live entry is returned as it is; otherwise the
        produced value is returned and stored unless it is null. */
    method Get(key: CacheKey?, produced: Value) returns (r: Value, acquired: bool)
      requires Valid()
      modifies this
      ensures Valid()
      ensures CacheTimeOf(key) <= 0 ==> r == produced && acquired && unchanged(this)
      ensures CacheTimeOf(key) > 0 && Text(key.key) in old(Contents()) ==>
        r == old(Contents())[Text(key.key)] && r != Null && !acquired && unchanged(this)
      ensures CacheTimeOf(key) > 0 && Text(key.key) !in old(Contents()) ==>
        && r == produced && acquired
        && (produced == Null ==> unchanged(this))
        && (produced != Null ==> StoredWith(key, produced))
    {
      if CacheTimeOf(key) <= 0 {
        return produced, true;
      }
      var k := Text(key.key);
      if k in Visible(entries, cancelled) {
        return Visible(entries, cancelled)[k], false;
      }
      r, acquired := produced, true;
      if r != Null {
        Set(key, r);
      }
    }

    /** The `GetAsync` overload with a synchronous `acquire`, built on
        `GetOrCreate`: on a miss the produced value is stored, null included,
        with the key's options (so the key's prefixes get registered), and a
        null is then removed again. */
    method GetOrCreate(key: CacheKey?, produced: Value) returns (r: Value, acquired: bool)
      requires Valid()
      modifies this
      ensures Valid()
      ensures CacheTimeOf(key) <= 0 ==> r == produced && acquired && unchanged(this)
      ensures CacheTimeOf(key) > 0 && Text(key.key) in old(Contents()) ==>
        r == old(Contents())[Text(key.key)] && r != Null && !acquired && unchanged(this)
      ensures CacheTimeOf(key) > 0 && Text(key.key) !in old(Contents()) ==>
        && r == produced && acquired
        && (produced == Null ==>
              && entries == old(entries) - {Text(key.key)}
              && Contents() == old(Contents())
              && cancelled == old(cancelled) && clearToken == old(clearToken)
              && (forall p :: p in old(prefixTokens) ==> p in prefixTokens && prefixTokens[p] == old(prefixTokens)[p])
              && (forall p :: p in prefixTokens ==> p in old(prefixTokens) || p in Names(key.prefixes[..]))
              && forall j :: 0 <= j < key.prefixes.Length ==> Text(key.prefixes[j]) in prefixTokens)
        && (produced != Null ==> StoredWith(key, produced))
    {
      if CacheTimeOf(key) <= 0 {
        return produced, true;
      }
      var k := Text(key.key);
      if k in Visible(entries, cancelled) {
        return Visible(entries, cancelled)[k], false;
      }
      r, acquired := produced, true;
      if r == Null {
        CreateThenRemove(key);
      } else {
        Store(key, r);
      }
    }

    /** A null result of `GetOrCreate`: the entry is created with the key's
        options, which registers its prefixes (a registered prefix keeps its
        token), and `RemoveAsync(key)` then deletes it again. */
    method CreateThenRemove(key: CacheKey)
      requires Valid()
      modifies this
      ensures Valid()
      ensures entries == old(entries) - {Text(key.key)}
      ensures Contents() == old(Contents()) - {Text(key.key)}
      ensures cancelled == old(cancelled) && clearToken == old(clearToken)
      ensures forall p :: p in old(prefixTokens) ==> p in prefixTokens && prefixTokens[p] == old(prefixTokens)[p]
      ensures forall p :: p in prefixTokens ==> p in old(prefixTokens) || p in Names(key.prefixes[..])
      ensures forall j :: 0 <= j < key.prefixes.Length ==> Text(key.prefixes[j]) in prefixTokens
    {
      var _ := PrepareEntryOptions(key);
      var prepared := KeyService.PrepareKey(hash, key, []);
      VisibleAfterDrop(entries, cancelled, Text(prepared.key));
      entries := entries - {Text(prepared.key)};
    }

    /** `Get(key)`: the live value, or the default (null) when the key has no
        lifetime or no live entry. Nothing changes. */
    method GetOrDefault(key: CacheKey?) returns (r: Value)
      ensures CacheTimeOf(key) <= 0 ==> r == Null
      ensures CacheTimeOf(key) > 0 ==>
        r == if Text(key.key) in Contents() then Contents()[Text(key.key)] else Null
    {
      if CacheTimeOf(key) <= 0 {
        return Null;
      }
      var k := Text(key.key);
      if k in Visible(entries, cancelled) {
        return Visible(entries, cancelled)[k];
      }
      return Null;
    }

    /** `PerformActionWithLock(key, expirationTime, action)`: refuses when the
        key is live; otherwise stores the key under itself, without tokens,
        runs the action, and removes the key whether or not the action threw.
        A lease that is not positive makes the store throw before the action
        runs; the `finally` block still removes the key. `actionThrows` says
        whether the action throws; `ran` whether it was called, and `during`
        is what the cache held while it ran. */
    method PerformActionWithLock(resource: string, lease: int, actionThrows: bool)
      returns (r: Outcome<bool>, ran: bool, ghost during: map<string, Value>)
      requires Valid()
      modifies this
      ensures Valid()
      ensures resource in old(Contents()) ==> r == Ok(false) && !ran && unchanged(this)
      ensures resource !in old(Contents()) ==>
        && entries == old(entries) - {resource}
        && Contents() == old(Contents())
        && prefixTokens == old(prefixTokens) && cancelled == old(cancelled) && clearToken == old(clearToken)
      ensures resource !in old(Contents()) && lease <= 0 ==> r == Threw(LeaseOutOfRange) && !ran
      ensures resource !in old(Contents()) && lease > 0 ==>
        && ran
        && during == old(Contents())[resource := Data(resource)]
        && r == (if actionThrows then Threw(ActionFailed) else Ok(true))
    {
      if resource in Visible(entries, cancelled) {
        return Ok(false), false, map[];
      }
      ghost var before := entries;
      if lease <= 0 {
        r, ran, during := Threw(LeaseOutOfRange), false, map[];
      } else {
        VisibleAfterStore(entries, cancelled, resource, Entry(Data(resource), Options(lease, {})));
        entries := entries[resource := Entry(Data(resource), Options(lease, {}))];
        during := Visible(entries, cancelled);
        ran := true;
        // the action runs here
        r := if actionThrows then Threw(ActionFailed) else Ok(true);
      }
      // the finally block removes the lock entry
      assert entries - {resource} == before - {resource};
      VisibleAfterDrop(before, cancelled, resource);
      entries := entries - {resource};
      assert Contents() == old(Contents()) - {resource} == old(Contents());
    }

    /** `RemoveByPrefixAsync(prefix, params)`: looks the prepared prefix up in
        the registry by exact, case-sensitive text; when it is registered,
        unregisters it and cancels its token, which expires every entry
        stored with that prefix. An unregistered prefix changes nothing. */
    method RemoveByPrefix(prefix: Template, params: seq<KeyObject>)
      requires Valid() && (params == [] || Fits(prefix, |params|))
      modifies this
      ensures Valid()
      ensures Text(KeyService.PrepareKeyPrefix(hash, prefix, params)) !in old(prefixTokens) ==> unchanged(this)
      ensures Text(KeyService.PrepareKeyPrefix(hash, prefix, params)) in old(prefixTokens) ==>
        && prefixTokens == old(prefixTokens) - {Text(KeyService.PrepareKeyPrefix(hash, prefix, params))}
        && cancelled == old(cancelled) + {old(prefixTokens)[Text(KeyService.PrepareKeyPrefix(hash, prefix, params))]}
        && clearToken == old(clearToken)
        && entries == old(entries)
        && (forall k :: k in Contents() <==>
              k in old(Contents())
              && old(prefixTokens)[Text(KeyService.PrepareKeyPrefix(hash, prefix, params))] !in entries[k].options.tokens)
        && forall k :: k in Contents() ==> Contents()[k] == old(Contents())[k]
    {
      var p := Text(KeyService.PrepareKeyPrefix(hash, prefix, params));
      if p in prefixTokens {
        var t := prefixTokens[p];
        prefixTokens := prefixTokens - {p};
        cancelled := cancelled + {t};
      }
    }

    /** `ClearAsync`: cancels the clear token, which every stored entry
        carries, issues a new one, and empties the prefix registry without
        cancelling the prefix tokens. Nothing stays readable. */
    method Clear()
      requires Valid()
      modifies this
      ensures Valid()
      ensures Contents() == map[]
      ensures prefixTokens == map[] && entries == old(entries)
    {
      AllExpire(entries, cancelled, clearToken);
      cancelled := cancelled + {clearToken};
      clearToken := nextToken;
      nextToken := nextToken + 1;
      ForgetPrefixes();
    }

    /** The loop of `ClearAsync`: every prefix is taken out of the registry;
        its token is disposed of, not cancelled. */
    method ForgetPrefixes()
      modifies this
      ensures prefixTokens == map[]
      ensures entries == old(entries) && cancelled == old(cancelled) && owner == old(owner)
      ensures clearToken == old(clearToken) && nextToken == old(nextToken)
    {
      var todo := prefixTokens.Keys;
      while todo != {}
        invariant prefixTokens.Keys == todo
        invariant entries == old(entries) && cancelled == old(cancelled) && owner == old(owner)
        invariant clearToken == old(clearToken) && nextToken == old(nextToken)
        decreases todo
      {
        var p :| p in todo;
        prefixTokens := prefixTokens - {p};
        todo := todo - {p};
      }
    }
  }
}
