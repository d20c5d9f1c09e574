/** PerRequestCache.cs: a memo kept in the current request's item dictionary
    (`HttpContext.Items`). `items` is `None` when there is no request in
    flight, and every operation then degrades to a miss or a no-op. The
    dictionary's indexer yields null for a missing key, so a missing key and a
    key mapped to null read alike. */
module RequestCache {
  import opened Values
  import Strings

  type Items = Option<map<string, Value>>

  /** `items[key]`. */
  function ItemAt(m: map<string, Value>, key: string): Value
  {
    if key in m then m[key] else Null
  }

  /** `items?[key] != null`: the memo holds a value for `key`. */
  predicate Holds(items: Items, key: string)
  {
    items.Some? && ItemAt(items.value, key) != Null
  }

  /** The items after `Set(key, data)`. */
  function AfterSet(items: Items, key: string, data: Value): (r: Items)
    ensures r.None? <==> items.None?
    ensures r.Some? ==> forall k :: ItemAt(r.value, k) == if k == key && data != Null then data else ItemAt(items.value, k)
    ensures Holds(r, key) <==> Holds(items, key) || (items.Some? && data != Null)
  {
    if data == Null || items.None? then items else Some(items.value[key := data])
  }

  /** The items after `Remove(key)`. */
  function AfterRemove(items: Items, key: string): (r: Items)
    ensures r.None? <==> items.None?
    ensures !Holds(r, key)
    ensures r.Some? ==> key !in r.value && forall k :: k != key ==> ItemAt(r.value, k) == ItemAt(items.value, k)
  {
    if items.None? then items else Some(items.value - {key})
  }

  /** The entries whose key the pattern does not match anywhere. */
  function Unmatched(m: map<string, Value>, pattern: string): (r: map<string, Value>)
    ensures forall k :: k in r <==> k in m && !Strings.IsMatch(pattern, k)
    ensures forall k :: k in r ==> r[k] == m[k]
  {
    map k | k in m && !Strings.IsMatch(pattern, k) :: m[k]
  }

  /** The items after `RemoveByPrefix(pattern)`. */
  function AfterRemoveByPrefix(items: Items, pattern: string): Items
  {
    if items.None? then items else Some(Unmatched(items.value, pattern))
  }

  class PerRequestCache {
    var items: Items

    constructor (items: Items)
      ensures this.items == items
    {
      this.items := items;
    }

    /** `Get(key, acquire)`: a held value is returned without calling
        `acquire`; otherwise `acquire` runs once and its result is stored, null
        included, when there is a request. */
    method Get(key: string, produced: Value) returns (r: Value, acquired: bool)
      modifies this
      ensures old(items).None? ==> r == produced && acquired && items == old(items)
      ensures Holds(old(items), key) ==> r == ItemAt(old(items).value, key) && r != Null && !acquired && items == old(items)
      ensures old(items).Some? && !Holds(old(items), key) ==>
        r == produced && acquired && items == Some(old(items).value[key := produced])
    {
      if items.None? {
        return produced, true;
      }
      var m := items.value;
      if ItemAt(m, key) != Null {
        return ItemAt(m, key), false;
      }
      r, acquired := produced, true;
      items := Some(m[key := r]);
    }

    /** `Set(key, data)`: null data and a missing request change nothing. */
    method Set(key: string, data: Value)
      modifies this
      ensures items == AfterSet(old(items), key, data)
    {
      if data == Null {
        return;
      }
      if items.None? {
        return;
      }
      items := Some(items.value[key := data]);
    }

    method IsSet(key: string) returns (b: bool)
      ensures b == Holds(items, key)
    {
      b := items.Some? && ItemAt(items.value, key) != Null;
    }

    /** `Remove(key)`: deletes that one key. */
    method Remove(key: string)
      modifies this
      ensures items == AfterRemove(old(items), key)
    {
      if items.Some? {
        items := Some(items.value - {key});
      }
    }

    /** `IsRemove(key)`: the negation of `IsSet`, true when there is no request. */
    method IsRemove(key: string) returns (b: bool)
      ensures b == !Holds(items, key)
    {
      b := if items.None? || ItemAt(items.value, key) == Null then true else false;
    }

    /** `RemoveByPrefix(pattern)`: collects the keys the pattern matches
        anywhere, ignoring case, and removes them one by one. */
    method RemoveByPrefix(pattern: string)
      modifies this
      ensures items == AfterRemoveByPrefix(old(items), pattern)
    {
      if items.None? {
        return;
      }
      var m := items.value;
      var matches := set k | k in m && Strings.IsMatch(pattern, k);
      var todo := matches;
      while todo != {}
        invariant todo <= matches && items.Some?
        invariant forall k :: k in items.value <==> k in m && (k in matches ==> k in todo)
        invariant forall k :: k in items.value ==> items.value[k] == m[k]
        decreases todo
      {
        var k :| k in todo;
        items := Some(items.value - {k});
        todo := todo - {k};
      }
      assert items.value == Unmatched(m, pattern);
    }
  }
}
