# Caching: a Dafny model of the cache key service and the two cache managers

This project models the sequential core of the `Base.Caching` library. The
library is a compute-once cache with two interchangeable backends. It has
these parts:

- **Composite cache key** (`CacheKey`, module `CacheKeys`, file
  `cache_key.dfy`). A key template has an ordered list of prefix templates
  (the tags the key belongs to) and a lifetime in minutes. The constructors
  drop null and empty prefixes. `Create` rebuilds a key with its own prefix
  list and substitutes the normalized key objects into the key and into
  every prefix. A template is modelled as literal chunks and positional
  placeholders, so `string.Format` becomes substitution.
- **Key parameterisation** (`CacheKeyService`, module `KeyService`, file
  `cache_key_service.dfy`). It maps each key object to key text:
  - `null` becomes `"null"`;
  - an int collection becomes the hash of its ids, sorted ascending and
    joined with `", "`;
  - a decimal becomes invariant-culture text;
  - anything else passes through.

  It also provides the `PrepareKey` family, which resolves a key and sets its
  lifetime.
- **Per-request memo** (`PerRequestCache`, module `RequestCache`, file
  `per_request_cache.dfy`). A dictionary that exists only while a request is
  in flight. When it is absent, every operation degrades to a miss or a
  no-op.
- **In-memory backend** (`MemoryCacheManager`, module `MemoryCache`, file
  `memory_cache_manager.dfy`). Entries live in a key-to-entry map. Each entry
  carries expiration tokens: the global clear token, plus one token per
  prefix, taken from a registry that creates a prefix's token on first use.
  Tokens are numbers, and cancelling a token adds it to a `cancelled` set.
  An entry carrying a cancelled token is never returned again; this is the
  lazy invalidation. `Contents()` is what the cache can return.
- **Distributed backend** (`DistributedCacheManager`, module
  `DistributedCache`, file `distributed_cache_manager.dfy`). It has three
  layers:
  - a string store, holding serialized values and their lifetimes;
  - the per-request memo;
  - a registry list of keys. Every hit and every write appends to it, so
    duplicates occur. Removal by prefix and clearing walk this list.
- **Check-then-set lock** (`PerformActionWithLock` in both managers). If the
  resource is present, the lock refuses. Otherwise it writes the resource
  under its own name, runs the action, and removes the resource in a
  `finally` block.

Collaborators the model does not see are replaced as follows:

- **Hash.** The SHA-1 hash is a parameter `hash: string -> string`. One lemma
  assumes it is injective.
- **JSON serializer.** It is replaced by a small reversible encoding
  (`Values.Serialize` / `Values.Deserialize`). This encoding keeps the traits
  the managers rely on: output is never empty, and text that is not an
  encoding fails to decode.
- **Acquire functions.** An `acquire` function is replaced by the value it
  would produce (`produced`), together with an out-parameter telling whether
  it was called.
- **Lock actions.** A lock's action is replaced by a flag `actionThrows`.

Properties spanning several calls are in `scenarios.dfy` (module
`Scenarios`). These include:

- removal by a key's own prefix, and by an unrelated prefix;
- clearing;
- the `"default.key"` walk-through on both backends;
- two locks taken one after the other.

### Behaviours of the code worth noting

- **In-memory removal by prefix is an exact lookup.** `RemoveByPrefixAsync`
  looks the resolved prefix up in the token registry by exact,
  case-sensitive text. Removing by `"defa"` therefore does not touch a key
  tagged `"default"` (`Scenarios.MemoryWalkThrough`). The distributed backend
  does remove it (`Scenarios.DistributedWalkThrough`).
- **The distributed backend selects keys by their own text.** It picks
  registry keys whose text starts with the prefix, ignoring case, and does
  not look at the prefixes a key was tagged with. A key tagged `"catalog"`
  whose text is `"item.5"` survives removal by `"catalog"`
  (`Scenarios.DistributedIgnoresTags`).
- **The in-memory backend never uses the per-request memo.**
- **The distributed registry is a list, not a set.**
  - `RemoveAsync` drops only the first occurrence of the key.
  - Removal by prefix drops every occurrence.
- **The memo's removal by prefix uses an unanchored pattern match.** It can
  remove keys that merely contain the pattern.
- **In-memory removal by prefix does not replace the token.** It
  unregisters and cancels the prefix's token without installing a
  replacement. The next write under that prefix registers a fresh token.
- **Clearing the in-memory cache disposes of the prefix tokens without
  cancelling them.** The cancelled clear token alone hides the old entries.
- **`Create` always yields the default lifetime.** It rebuilds the key
  through the constructor without a lifetime, so the result has the default
  lifetime whatever the receiver's lifetime is.

## Model

| member | source | states |
|---|---|---|
| Values.Serialize | src/Base.Caching/Managers/DistributedCacheManager.cs:76 | the stored text is never empty and decodes back to exactly the value that was serialized, `null` included |
| Values.Deserialize | src/Base.Caching/Managers/DistributedCacheManager.cs:46 | empty text never decodes to a value |
| CacheKeys.NonEmpty | src/Base.Caching/Key/CacheKey.cs:12 | every prefix kept is non-empty and was among the given prefixes, and no prefix is added |
| CacheKeys.NonEmptyKeepsNonEmpty | src/Base.Caching/Key/CacheKey.cs:12 | every non-null, non-empty prefix given is kept |
| CacheKeys.NonEmptyKeepsOrder | src/Base.Caching/Key/CacheKey.cs:12 | the filter keeps the given order: filtering a concatenation concatenates the filtered parts |
| CacheKeys.NonEmptyOfNonEmpty | src/Base.Caching/Key/CacheKey.cs:30 | re-filtering a prefix list that has no empty prefix gives back the same list |
| CacheKeys.TextEmpty | src/Base.Caching/Key/CacheKey.cs:12 | a template renders as the empty string exactly when all of its chunks are empty literals |
| CacheKeys.Format | src/Base.Caching/Key/CacheKey.cs:35 | formatting keeps the template's length and leaves no placeholder |
| CacheKeys.FormatResolved | src/Base.Caching/Key/CacheKey.cs:35 | formatting an already literal key is the identity, whatever the arguments |
| CacheKeys.FormatUsesNamedArguments | src/Base.Caching/Key/CacheKey.cs:35 | only the arguments a placeholder names affect the result; surplus arguments are ignored |
| CacheKeys.FormatAll | src/Base.Caching/Key/CacheKey.cs:37-38 | definition: the reference list of formatted prefixes, one per prefix with the same argument list; `FormatEach` is proved to compute it |
| CacheKeys.Args | src/Base.Caching/Key/CacheKey.cs:35 | definition: the normalized argument list, one per key object in order, that the substitution and id-order lemmas build on |
| CacheKeys.CreateWithoutObjectsCopies | src/Base.Caching/Key/CacheKey.cs:30-33 | without key objects the new key has the receiver's key and exactly the receiver's prefixes |
| CacheKeys.CreateSubstitutesEverywhere | src/Base.Caching/Key/CacheKey.cs:35-38 | with key objects, the same argument list is substituted into the key and into every prefix, the prefix count is unchanged, and no placeholder remains |
| CacheKeys.CacheKey.constructor | src/Base.Caching/Key/CacheKey.cs:9-13 | the key is kept, the prefixes are the non-empty ones in their order in a fresh list, and the lifetime is 120 minutes |
| CacheKeys.CacheKey.WithExpiry | src/Base.Caching/Key/CacheKey.cs:15-20 | as the constructor, with the lifetime exactly `expireMinute` |
| CacheKeys.CacheKey.Make | src/Base.Caching/Key/CacheKey.cs:22-23 | a fresh key with the filtered prefixes and the default lifetime |
| CacheKeys.CacheKey.MakeWithExpiry | src/Base.Caching/Key/CacheKey.cs:25-26 | a fresh key with the filtered prefixes and lifetime `expireMinute` |
| CacheKeys.CacheKey.Create | src/Base.Caching/Key/CacheKey.cs:28-41 | a new key with its own fresh prefix array and the default lifetime whatever the receiver's; its key and prefixes are the substituted ones (copies when there are no key objects); the receiver is outside the frame, so it is not modified |
| CacheKeys.CacheKey.FormatEach | src/Base.Caching/Key/CacheKey.cs:37-38 | the in-place loop leaves every prefix formatted with the arguments |
| KeyService.Insert | src/Base.Caching/Key/CacheKeyService.cs:24 | inserting into a sorted list keeps it sorted, adds exactly one element and keeps all others |
| KeyService.SortAscending | src/Base.Caching/Key/CacheKeyService.cs:24 | `OrderBy(id => id)`: ascending, same length, a permutation of the ids with duplicates kept |
| KeyService.SortedUnique | src/Base.Caching/Key/CacheKeyService.cs:24 | two sorted lists holding the same ids with the same multiplicities are equal |
| KeyService.CreateIdsHash | src/Base.Caching/Key/CacheKeyService.cs:17-26 | an empty collection hashes to the empty string |
| KeyService.IdsHashIgnoresOrder | src/Base.Caching/Key/CacheKeyService.cs:24-25 | any permutation of the same ids gives the same hash |
| KeyService.IdsHashSeparates | src/Base.Caching/Key/CacheKeyService.cs:24-25 | with a collision-free hash, two non-empty collections hash alike if and only if they hold the same ids with the same multiplicities (duplicates are not removed) |
| KeyService.SameTextSameIds | src/Base.Caching/Key/CacheKeyService.cs:24 | the joined id text determines the ids it came from, up to order |
| KeyService.InvariantTextReadsBack | src/Base.Caching/Key/CacheKeyService.cs:34 | the invariant-culture text of a decimal reads back as exactly that decimal, scale included |
| KeyService.CreateCacheKeyParameters | src/Base.Caching/Key/CacheKeyService.cs:28-37 | null gives `"null"`; an id collection gives a text that is empty for no ids and the same for every reordering; a decimal gives text that reads back as that decimal; any other object passes through unchanged |
| KeyService.ResolvedKeyIgnoresIdOrder | src/Base.Caching/Key/CacheKeyService.cs:28-41 | reordering the ids inside any id-collection parameter leaves the resolved key unchanged |
| KeyService.ResolvedPrefixesIgnoreIdOrder | src/Base.Caching/Key/CacheKeyService.cs:11-16 | reordering the ids inside any id-collection parameter leaves the key's resolved prefixes and a prefix resolved for removal unchanged |
| KeyService.ArgsIgnoreIdOrder | src/Base.Caching/Key/CacheKeyService.cs:14 | the normalized parameter list is the same when the ids inside id-collection parameters are reordered |
| KeyService.PrefixResolvesLikeKeyPrefix | src/Base.Caching/Key/CacheKeyService.cs:11-16 | a prefix resolved on its own with some parameters equals the prefix a key receives when it is prepared with the same parameters (unchanged when there are none) |
| KeyService.PrepareKey | src/Base.Caching/Key/CacheKeyService.cs:39-42 | the resolved key and prefixes in a fresh key, with the default lifetime even when the input key had another one |
| KeyService.PrepareKeyWithExpiry | src/Base.Caching/Key/CacheKeyService.cs:44-51 | the same key and prefixes as `PrepareKey`, with lifetime `expireMinute` |
| KeyService.PrepareKeyForDefaultCache | src/Base.Caching/Key/CacheKeyService.cs:53-60 | the same key and prefixes as `PrepareKey`, with lifetime 120 |
| KeyService.PrepareKeyForShortTermCache | src/Base.Caching/Key/CacheKeyService.cs:62-69 | the same key and prefixes as `PrepareKey`, with lifetime 1 |
| RequestCache.AfterSet | src/Base.Caching/PerRequestCache.cs:46-59 | with no request nothing exists and nothing is created; null data changes nothing; otherwise exactly the key's entry is overwritten; `IsSet` holds afterwards if it held before or the data was stored |
| RequestCache.AfterRemove | src/Base.Caching/PerRequestCache.cs:70-77 | the key is gone and no other key changes; with no request nothing exists |
| RequestCache.Unmatched | src/Base.Caching/PerRequestCache.cs:95-106 | definition: the reference map of the entries whose key the pattern does not match anywhere; the removal loop is proved to compute it |
| RequestCache.PerRequestCache.constructor | src/Base.Caching/PerRequestCache.cs:12-22 | the memo is bound to the request's item dictionary, or to none |
| RequestCache.PerRequestCache.Get | src/Base.Caching/PerRequestCache.cs:24-44 | with no request, `acquire` is called and nothing is stored; a held value is returned without calling `acquire`; otherwise `acquire` is called once and its result is stored, null included |
| RequestCache.PerRequestCache.Set | src/Base.Caching/PerRequestCache.cs:46-59 | the items become the items after `Set` |
| RequestCache.PerRequestCache.IsSet | src/Base.Caching/PerRequestCache.cs:61-68 | true if and only if there is a request and it holds a non-null value under the key |
| RequestCache.PerRequestCache.Remove | src/Base.Caching/PerRequestCache.cs:70-77 | the items become the items after removing that one key |
| RequestCache.PerRequestCache.IsRemove | src/Base.Caching/PerRequestCache.cs:79-86 | exactly the negation of `IsSet` |
| RequestCache.PerRequestCache.RemoveByPrefix | src/Base.Caching/PerRequestCache.cs:88-108 | the removal loop leaves exactly the entries whose key the pattern does not match (case-insensitive, unanchored); no request means no change |
| Strings.IsMatchAtSomePosition | src/Base.Caching/PerRequestCache.cs:98 | a pattern matches a key if and only if it matches at some position of the key |
| Strings.StartsWithIsMatch | src/Base.Caching/Managers/DistributedCacheManager.cs:196 | a key that starts with the prefix, ignoring case, is also matched by the memo's pattern |
| Strings.UnanchoredMatchIsWider | src/Base.Caching/PerRequestCache.cs:98 | the match is wider than a prefix test: the pattern `"key"` matches `"default.key"`, which does not start with it |
| Strings.JoinCommaInjective | src/Base.Caching/Key/CacheKeyService.cs:24 | joining comma-free texts with `", "` is injective |
| Strings.IntTextInjective | src/Base.Caching/Key/CacheKeyService.cs:24 | distinct ids print as distinct texts |
| MemoryCache.Visible | src/Base.Caching/Managers/MemoryCacheManager.cs:27-31 | definition: the reference map of readable entries, those none of whose tokens is cancelled, each read as its stored value |
| MemoryCache.AllExpire | src/Base.Caching/Managers/MemoryCacheManager.cs:158-159 | cancelling a token that every live entry carries leaves nothing readable |
| MemoryCache.MemoryCacheManager.constructor | src/Base.Caching/Managers/MemoryCacheManager.cs:12-18 | an empty cache with no registered prefix |
| MemoryCache.MemoryCacheManager.TokenOf | src/Base.Caching/Managers/MemoryCacheManager.cs:30 | `GetOrAdd`: a registered prefix keeps its token, and an unregistered one gets a new live token |
| MemoryCache.MemoryCacheManager.CollectTokens | src/Base.Caching/Managers/MemoryCacheManager.cs:27-32 | the tokens are exactly the clear token plus the token of each prefix; registered prefixes keep their tokens, and only these prefixes are newly registered |
| MemoryCache.MemoryCacheManager.PrepareEntryOptions | src/Base.Caching/Managers/MemoryCacheManager.cs:20-35 | the key's lifetime, with the clear token and the current token of each of the key's prefixes and no other token |
| MemoryCache.MemoryCacheManager.Store | src/Base.Caching/Managers/MemoryCacheManager.cs:48 | the value becomes readable under the key's text with the key's lifetime, tagged with the clear token and the tokens of the key's prefixes and no other token; registered prefixes keep their tokens and only the key's own prefixes are added; no other entry changes, and the cancelled tokens and the clear token stay as they were |
| MemoryCache.MemoryCacheManager.Set | src/Base.Caching/Managers/MemoryCacheManager.cs:43-49 | nothing changes for a null key, a lifetime of zero or less, or null data; otherwise the data is stored and tagged |
| MemoryCache.MemoryCacheManager.Remove | src/Base.Caching/Managers/MemoryCacheManager.cs:37-41 | exactly the prepared key's entry is deleted, and the tokens are untouched |
| MemoryCache.MemoryCacheManager.Get | src/Base.Caching/Managers/MemoryCacheManager.cs:92-106 | without a lifetime, `acquire` is called and nothing changes; a readable entry is returned without calling `acquire`; otherwise `acquire` is called and its result is stored only when it is not null |
| MemoryCache.MemoryCacheManager.GetOrCreate | src/Base.Caching/Managers/MemoryCacheManager.cs:74-90 | as `Get`, except on a null result: the key's prefixes get registered, with registered prefixes keeping their tokens and no other prefix added; the key's entry is then removed, so no null stays cached; the readable contents, the cancelled tokens and the clear token are unchanged |
| MemoryCache.MemoryCacheManager.CreateThenRemove | src/Base.Caching/Managers/MemoryCacheManager.cs:79-88 | exactly the key's entry is removed; the cancelled tokens and the clear token are unchanged; the key's prefixes are registered, registered prefixes keep their tokens, and no other prefix is added |
| MemoryCache.MemoryCacheManager.GetOrDefault | src/Base.Caching/Managers/MemoryCacheManager.cs:108-117 | the readable value, or null when the key has no lifetime or nothing is readable; nothing changes |
| MemoryCache.MemoryCacheManager.PerformActionWithLock | src/Base.Caching/Managers/MemoryCacheManager.cs:126-143 | a readable resource makes the call return false without running the action or changing anything; otherwise a lease that is not positive throws before the action runs; with a positive lease the action runs with the resource stored; in every case the `finally` block leaves the resource gone and the readable contents as before |
| MemoryCache.MemoryCacheManager.RemoveByPrefix | src/Base.Caching/Managers/MemoryCacheManager.cs:145-154 | an unregistered prefix changes nothing; a registered one is unregistered and exactly its token is added to the cancelled ones (entries and clear token unchanged), so exactly the entries tagged with it stop being readable |
| MemoryCache.MemoryCacheManager.Clear | src/Base.Caching/Managers/MemoryCacheManager.cs:156-170 | nothing stays readable, a fresh clear token is installed, and the prefix registry is empty |
| MemoryCache.MemoryCacheManager.ForgetPrefixes | src/Base.Caching/Managers/MemoryCacheManager.cs:163-167 | the loop empties the prefix registry and changes nothing else |
| DistributedCache.RemoveFirst | src/Base.Caching/Managers/DistributedCacheManager.cs:185 | removing an unlisted key leaves the list as it is |
| DistributedCache.RemoveFirstCounts | src/Base.Caching/Managers/DistributedCacheManager.cs:185 | `List.Remove` drops exactly one occurrence of a listed key, and every other key stays listed |
| DistributedCache.KeptMembers | src/Base.Caching/Managers/DistributedCacheManager.cs:196-200 | after removal by prefix, the registry holds exactly the keys that do not start with the prefix |
| DistributedCache.MatchedMembers | src/Base.Caching/Managers/DistributedCacheManager.cs:196 | the selection holds exactly the registry keys that start with the prefix, ignoring case |
| DistributedCache.KeptAppend | src/Base.Caching/Managers/DistributedCacheManager.cs:196-200 | the registry filter works part by part and keeps the order |
| DistributedCache.RemoveNextMatch | src/Base.Caching/Managers/DistributedCacheManager.cs:197-200 | removing the next selected key from the registry removes the occurrence at the walk's position |
| DistributedCache.DistributedCacheManager.constructor | src/Base.Caching/Managers/DistributedCacheManager.cs:23-27 | an empty store and registry, and a memo that serves the current request, or none |
| DistributedCache.DistributedCacheManager.TryGetItem | src/Base.Caching/Managers/DistributedCacheManager.cs:55-69 | absent or empty text is a miss that changes nothing; unreadable text throws; otherwise the value is handed to the memo, the key is registered once more, and the value is returned |
| DistributedCache.DistributedCacheManager.Set | src/Base.Caching/Managers/DistributedCacheManager.cs:71-81 | nothing changes for a null key, a lifetime of zero or less, or null data; otherwise the serialized data is stored with the key's lifetime, handed to the memo, and registered once |
| DistributedCache.DistributedCacheManager.Get | src/Base.Caching/Managers/DistributedCacheManager.cs:157-176 | a memo hit is returned first, before the lifetime check and without calling `acquire`, and agrees with the store; then a key without lifetime calls `acquire` and changes nothing; then a stored value is returned and registered; otherwise `acquire`'s result is returned and stored only when it is not null |
| DistributedCache.DistributedCacheManager.GetOrDefault | src/Base.Caching/Managers/DistributedCacheManager.cs:108-122 | a store read without the memo check: a miss is null and changes nothing; a hit is memoised, registered and returned |
| DistributedCache.DistributedCacheManager.Remove | src/Base.Caching/Managers/DistributedCacheManager.cs:178-187 | the prepared key leaves the store and the memo, and one occurrence of it leaves the registry |
| DistributedCache.DistributedCacheManager.DropTagged | src/Base.Caching/Managers/DistributedCacheManager.cs:196-200 | the delete loop leaves exactly the unselected registry keys in order, and deletes exactly the selected keys from the store |
| DistributedCache.DistributedCacheManager.RemoveByPrefix | src/Base.Caching/Managers/DistributedCacheManager.cs:189-201 | the memo drops the keys the resolved prefix matches; the registry keeps exactly the keys that do not start with the prefix; the store loses exactly the selected keys and nothing else |
| DistributedCache.DistributedCacheManager.Clear | src/Base.Caching/Managers/DistributedCacheManager.cs:203-214 | every registered key leaves the memo and the store, and the registry is empty; since every stored key is registered, the store is empty and the memo holds nothing |
| DistributedCache.DistributedCacheManager.PerformActionWithLock | src/Base.Caching/Managers/DistributedCacheManager.cs:216-240 | a resource with non-empty stored text makes the call return false without running the action or changing anything; otherwise a lease that is not positive throws before anything is stored or run; with a positive lease the action runs with the resource stored under its own name, and the result is true or the action's exception; in every case the resource is deleted afterwards and the rest of the store and the registry are as before |
| Scenarios.MemoryRemoveByOwnPrefix | src/Base.Caching/Managers/MemoryCacheManager.cs:145-154 | a value stored under a key is unreadable after removal by one of the key's prefixes |
| Scenarios.MemoryTwoWritesKeepTags | src/Base.Caching/Managers/MemoryCacheManager.cs:43-49 | a second write under another key keeps the first key's tags, so removal by one of the first key's prefixes still hides it |
| Scenarios.MemoryNullResultKeepsTags | src/Base.Caching/Managers/MemoryCacheManager.cs:74-90 | after a value is stored, a null result computed for any key leaves the first key's prefix tokens in place, so removal by one of its prefixes still hides it |
| Scenarios.MemoryRemoveByOtherPrefix | src/Base.Caching/Managers/MemoryCacheManager.cs:145-154 | removal by a prefix the key is not tagged with leaves its value readable |
| Scenarios.MemoryClearForgetsAll | src/Base.Caching/Managers/MemoryCacheManager.cs:156-170 | after `ClearAsync`, every key reads as null |
| Scenarios.MemoryWalkThrough | src/Base.Caching/Managers/MemoryCacheManager.cs:92-117 | `"default.key"` is computed once, then read back; removal by `"defa"` leaves it; removal by `"default"` hides it |
| Scenarios.DistributedWalkThrough | src/Base.Caching/Managers/DistributedCacheManager.cs:157-201 | `"default.key"` is computed once, then read back; removal by `"defa"` deletes it |
| Scenarios.DistributedIgnoresTags | src/Base.Caching/Managers/DistributedCacheManager.cs:189-201 | a key tagged with a prefix its text does not start with survives removal by that prefix |
| Scenarios.SequentialLocks | src/Base.Caching/Managers/DistributedCacheManager.cs:216-240 | two locks on one resource taken one after the other both succeed, on either backend |

## Left out

- **Concurrency.** `AsyncLock`, `ReaderWriterLockSlim`, `Task`/`async` and the thread safety of `ConcurrentDictionary` are not modelled. Each operation is one atomic sequential step, and each async method shares a member with its synchronous twin. The check-then-set race in both locks cannot arise sequentially.
- **Wall-clock expiry.** Lifetimes are stored with each entry, but nothing expires by time. Physical eviction of cancelled memory entries is not modelled either; such an entry stays in `entries` but is never readable.
- **Serialization.** `System.Text.Json` is replaced by a reversible stand-in encoding. The `TryGetValue<T>` type check of the memory cache and the generic `T` are not modelled; values are untyped.
- **SHA-1.** `HashHelper` is not part of this model. The hash is an uninterpreted parameter.
- **`string.Format` parsing.** Templates are chunks plus positional placeholders. A format exception, from a placeholder beyond the argument count, is ruled out by the callers' precondition (`Fits`, `KeyService.CanPrepare`) and is not modelled as an outcome. Format specifiers inside placeholders are not modelled.
- **Brace escaping.** Literal chunks stand for text without braces. The `{{` and `}}` escapes, the `FormatException` on a lone brace, and the re-parsing of braces that an argument's text brought in when a prepared key is prepared again are not modelled. `CacheKeys.FormatResolved` and `CacheKeys.Text` hold as stated only for such brace-free literals.
- **Culture and regex.** Case folding is ASCII lower-casing. The memo's regex is literal characters plus `.` (any character). Other regex metacharacters and regex errors are not modelled.
- **Null arguments and store failures.** A null `CacheKey` is modelled where the source tolerates it (`Set`, `Get` with acquire, `Get(key)` of the memory backend). It is left out where the source would throw (`Remove`, the distributed gets). A null element of the prefix array is modelled as `None`. A null prefix array or key-object array is not modelled: the constructors, `Create` and every `PrepareKey` variant throw `ArgumentNullException` on one (`Where` and `Any` on null). Only `PrepareKeyPrefix` treats a null parameter array as empty, which the empty sequence covers. I/O failures of the distributed store are not modelled.
- **Lock action effects.** The action's own effects on the cache are not modelled. A flag says whether it throws. The lease on the sentinel is stored but never expires.
- DistributedCache.DistributedCacheManager.PerformActionWithLock: models the synchronous form. With a lease that is not positive, `PerformActionWithLockAsync` throws before its `try`, so it does not delete the resource. The two forms differ only when the store holds empty text under the resource.
- **Process-wide registries.** The static `_prefixes`, `_clearToken` and `_keys` are fields of one manager instance. Sharing them between instances and processes is not modelled.
- **Unregistered store keys.** Keys written to the distributed store by other processes are not modelled. The sentinel of the distributed lock exists only while its action runs, so within the model every stored key is registered, and `Clear` empties the store.
- **Memo lifetime.** The memo of a distributed manager is bound to one request's item dictionary, or to none, for the manager's whole life. The manager is assumed to be the only writer of those items; the agreement of memo and store in `DistributedCacheManager.Valid` rests on that. Other writers, such as the route helper and a second scoped manager in the same request, are not modelled.
- **Distributed `PrepareEntryOptions`.** It is folded into the `lifetime` field of `Stored`.
- **Configuration, service wiring, disposal.** `Dispose`, dependency-injection wiring, configuration, and the `NotImplementedException` async lock stubs of the memory backend are not modelled.
- DistributedCache.RemoveFirst: its own contract states only the unlisted-key case; the exact effect on a listed key is stated by `RemoveFirstCounts`.
- KeyService.CreateIdsHash: its own contract states only the empty case; order independence and separation are stated by `IdsHashIgnoresOrder` and `IdsHashSeparates`.
