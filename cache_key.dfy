/** The composite cache key (Key/CacheKey.cs): a key template, an ordered list
    of prefix templates (the tags the key belongs to) and a lifetime in minutes.

    A template is a list of literal chunks and positional placeholders `{n}`.
    Literal chunks stand for text without braces, so `Text` renders a template
    as the format string `string.Format` would parse. Substituting the
    normalized key objects replaces every placeholder by literal text. */
module CacheKeys {
  import opened Values
  import Strings

  /** `CachingDefaults.CacheTime` and `CachingDefaults.ShortCacheTime`, in minutes. */
  const DefaultCacheTime: int := 120
  const ShortCacheTime: int := 1

  datatype Piece = Lit(text: string) | Hole(index: nat)

  type Template = seq<Piece>

  function PieceText(p: Piece): string
  {
    match p
    case Lit(s) => s
    case Hole(i) => "{" + Strings.NatText(i) + "}"
  }

  /** The string a template stands for before any substitution. */
  function Text(t: Template): string
  {
    if t == [] then "" else PieceText(t[0]) + Text(t[1..])
  }

  /** A text is empty only when every chunk is an empty literal. */
  lemma {:induction false} TextEmpty(t: Template)
    ensures Text(t) == "" <==> forall i :: 0 <= i < |t| ==> t[i] == Lit("")
  {
    if t != [] {
      TextEmpty(t[1..]);
      assert forall i :: 1 <= i < |t| ==> t[i] == t[1..][i - 1];
    }
  }

  /** `string.IsNullOrEmpty` on a prefix argument; `None` is a null string. */
  predicate IsNullOrEmpty(p: Option<Template>)
  {
    p.None? || Text(p.value) == ""
  }

  /** `prefixes.Where(prefix => !string.IsNullOrEmpty(prefix))`. */
  function NonEmpty(ps: seq<Option<Template>>): (r: seq<Template>)
    ensures |r| <= |ps|
    ensures forall i :: 0 <= i < |r| ==> Text(r[i]) != "" && Some(r[i]) in ps
  {
    if ps == [] then []
    else if IsNullOrEmpty(ps[0]) then NonEmpty(ps[1..])
    else [ps[0].value] + NonEmpty(ps[1..])
  }

  /** The filter keeps every non-empty prefix ... */
  lemma {:induction false} NonEmptyKeepsNonEmpty(ps: seq<Option<Template>>, t: Template)
    requires Some(t) in ps && Text(t) != ""
    ensures t in NonEmpty(ps)
  {
    if ps[0] != Some(t) {
      NonEmptyKeepsNonEmpty(ps[1..], t);
    }
  }

  /** ... in the order given: filtering a concatenation concatenates the filtered parts. */
  lemma {:induction false} NonEmptyKeepsOrder(a: seq<Option<Template>>, b: seq<Option<Template>>)
    ensures NonEmpty(a + b) == NonEmpty(a) + NonEmpty(b)
  {
    if a != [] {
      var h, t := a[0], a[1..];
      assert a + b == [h] + (t + b) && a == [h] + t by {
        assert a == [h] + t;
      }
      NonEmptyCons(h, t + b);
      NonEmptyCons(h, t);
      NonEmptyKeepsOrder(t, b);
    } else {
      assert a + b == b;
    }
  }

  /** One step of the filter. */
  lemma NonEmptyCons(h: Option<Template>, t: seq<Option<Template>>)
    ensures NonEmpty([h] + t) == if IsNullOrEmpty(h) then NonEmpty(t) else [h.value] + NonEmpty(t)
  {
    assert ([h] + t)[0] == h && ([h] + t)[1..] == t;
  }

  /** The prefix list passed on as an argument array (`Prefixes.ToArray()`). */
  function Wrap(ts: seq<Template>): (r: seq<Option<Template>>)
    ensures |r| == |ts| && forall i :: 0 <= i < |ts| ==> r[i] == Some(ts[i])
  {
    seq(|ts|, i requires 0 <= i < |ts| => Some(ts[i]))
  }

  /** Filtering a list that has no empty prefix leaves it as it is. */
  lemma {:induction false} NonEmptyOfNonEmpty(ts: seq<Template>)
    requires forall i :: 0 <= i < |ts| ==> Text(ts[i]) != ""
    ensures NonEmpty(Wrap(ts)) == ts
  {
    if ts != [] {
      assert Wrap(ts)[1..] == Wrap(ts[1..]);
      NonEmptyOfNonEmpty(ts[1..]);
      assert ts == [ts[0]] + ts[1..];
    }
  }

  /** Every placeholder of `t` names one of `n` arguments (else `string.Format` throws). */
  predicate Fits(t: Template, n: nat)
  {
    forall i :: 0 <= i < |t| && t[i].Hole? ==> t[i].index < n
  }

  predicate FitsAll(ts: seq<Template>, n: nat)
  {
    forall i :: 0 <= i < |ts| ==> Fits(ts[i], n)
  }

  /** No placeholder left: the template is a literal string. */
  predicate Resolved(t: Template)
  {
    forall i :: 0 <= i < |t| ==> t[i].Lit?
  }

  function Substitute(p: Piece, args: seq<string>): Piece
    requires p.Hole? ==> p.index < |args|
  {
    match p
    case Lit(_) => p
    case Hole(i) => Lit(args[i])
  }

  /** `string.Format(t, args)`. */
  function Format(t: Template, args: seq<string>): (r: Template)
    requires Fits(t, |args|)
    ensures |r| == |t| && Resolved(r)
  {
    seq(|t|, i requires 0 <= i < |t| => Substitute(t[i], args))
  }

  /** Formatting a literal string returns it unchanged, whatever the arguments. */
  lemma FormatResolved(t: Template, args: seq<string>)
    requires Resolved(t)
    ensures Format(t, args) == t
  {
  }

  /** Only the arguments a placeholder names matter; surplus arguments are ignored. */
  lemma FormatUsesNamedArguments(t: Template, args: seq<string>, args': seq<string>)
    requires Fits(t, |args|) && Fits(t, |args'|)
    requires forall i :: 0 <= i < |t| && t[i].Hole? ==> args[t[i].index] == args'[t[i].index]
    ensures Format(t, args) == Format(t, args')
  {
  }

  function FormatAll(ts: seq<Template>, args: seq<string>): (r: seq<Template>)
    requires FitsAll(ts, |args|)
    ensures |r| == |ts| && forall i :: 0 <= i < |ts| ==> r[i] == Format(ts[i], args)
  {
    seq(|ts|, i requires 0 <= i < |ts| => Format(ts[i], args))
  }

  /** Decimal numbers as .NET keeps them: a value `unscaled / 10^scale`. */
  datatype Decimal = Decimal(unscaled: int, scale: nat)

  /** The `object` key parameters the normalization tells apart. */
  datatype KeyObject =
    | NullObject                   // null
    | IntIds(ids: seq<int>)        // any IEnumerable<int>
    | DecimalNumber(d: Decimal)    // decimal
    | Plain(text: string)          // anything else, by its ToString()

  /** `keyObjects.Select(createCacheKeyParameters).ToArray()`. */
  function Args(normalize: KeyObject -> string, objs: seq<KeyObject>): (r: seq<string>)
    ensures |r| == |objs| && forall i :: 0 <= i < |objs| ==> r[i] == normalize(objs[i])
  {
    seq(|objs|, i requires 0 <= i < |objs| => normalize(objs[i]))
  }

  /** The key that `Create(normalize, objs)` gives its new CacheKey. */
  function CreatedKey(key: Template, normalize: KeyObject -> string, objs: seq<KeyObject>): Template
    requires objs == [] || Fits(key, |objs|)
  {
    if objs == [] then key else Format(key, Args(normalize, objs))
  }

  /** Every prefix kept by the filter comes from the receiver's list, so it fits too. */
  lemma NonEmptyFits(ts: seq<Template>, n: nat)
    requires FitsAll(ts, n)
    ensures FitsAll(NonEmpty(Wrap(ts)), n)
  {
    var kept := NonEmpty(Wrap(ts));
    forall i | 0 <= i < |kept| ensures Fits(kept[i], n) {
      assert Some(kept[i]) in Wrap(ts);
    }
  }

  /** The prefixes that `Create(normalize, objs)` gives its new CacheKey. */
  function CreatedPrefixes(ps: seq<Template>, normalize: KeyObject -> string, objs: seq<KeyObject>): seq<Template>
    requires objs == [] || FitsAll(ps, |objs|)
  {
    var kept := NonEmpty(Wrap(ps));
    if objs == [] then kept
    else
      NonEmptyFits(ps, |objs|);
      FormatAll(kept, Args(normalize, objs))
  }

  /** Without key objects, `Create` is a copy: same key, same prefixes (the
      receiver never holds an empty prefix when it comes from a constructor). */
  lemma CreateWithoutObjectsCopies(key: Template, ps: seq<Template>, normalize: KeyObject -> string)
    requires forall i :: 0 <= i < |ps| ==> Text(ps[i]) != ""
    ensures CreatedKey(key, normalize, []) == key
    ensures CreatedPrefixes(ps, normalize, []) == ps
  {
    NonEmptyOfNonEmpty(ps);
  }

  /** With key objects, `Create` substitutes one argument list into the key and
      into every prefix, keeps the number of prefixes, and leaves no placeholder. */
  lemma CreateSubstitutesEverywhere(key: Template, ps: seq<Template>, normalize: KeyObject -> string, objs: seq<KeyObject>)
    requires objs != [] && Fits(key, |objs|) && FitsAll(ps, |objs|)
    requires forall i :: 0 <= i < |ps| ==> Text(ps[i]) != ""
    ensures CreatedKey(key, normalize, objs) == Format(key, Args(normalize, objs))
    ensures Resolved(CreatedKey(key, normalize, objs))
    ensures |CreatedPrefixes(ps, normalize, objs)| == |ps|
    ensures forall i :: 0 <= i < |ps| ==>
      CreatedPrefixes(ps, normalize, objs)[i] == Format(ps[i], Args(normalize, objs))
      && Resolved(CreatedPrefixes(ps, normalize, objs)[i])
  {
    NonEmptyOfNonEmpty(ps);
  }

  /** `key?.CacheTime ?? 0`: a null key has no lifetime. */
  function CacheTimeOf(key: CacheKey?): int
    reads key
  {
    if key == null then 0 else key.cacheTime
  }

  /** Key/CacheKey.cs: a mutable class in the source; `Prefixes` is a list
      filled once by the constructor and overwritten element by element by
      `Create`, so it is an array here whose identity tells copies apart. */
  class CacheKey {
    var key: Template
    const prefixes: array<Template>
    var cacheTime: int

    /** No stored prefix renders as the empty string. */
    predicate PrefixesNonEmpty()
      reads this, prefixes
    {
      forall i :: 0 <= i < prefixes.Length ==> Text(prefixes[i]) != ""
    }

    /** `new CacheKey(key, prefixes)`: default lifetime, null and empty prefixes dropped. */
    constructor (key: Template, prefixes: seq<Option<Template>>)
      ensures this.key == key && this.prefixes[..] == NonEmpty(prefixes)
      ensures cacheTime == DefaultCacheTime
      ensures fresh(this.prefixes) && PrefixesNonEmpty()
    {
      this.key := key;
      var kept := NonEmpty(prefixes);
      this.prefixes := new Template[|kept|](i requires 0 <= i < |kept| => kept[i]);
      cacheTime := DefaultCacheTime;
    }

    /** `new CacheKey(key, expireMinute, prefixes)`: lifetime exactly `expireMinute`. */
    constructor WithExpiry(key: Template, expireMinute: int, prefixes: seq<Option<Template>>)
      ensures this.key == key && this.prefixes[..] == NonEmpty(prefixes)
      ensures cacheTime == expireMinute
      ensures fresh(this.prefixes) && PrefixesNonEmpty()
    {
      this.key := key;
      cacheTime := expireMinute;
      var kept := NonEmpty(prefixes);
      this.prefixes := new Template[|kept|](i requires 0 <= i < |kept| => kept[i]);
    }

    /** Static `CacheKey.Create(key, prefixes)`. */
    static method Make(key: Template, prefixes: seq<Option<Template>>) returns (r: CacheKey)
      ensures fresh(r) && fresh(r.prefixes)
      ensures r.key == key && r.prefixes[..] == NonEmpty(prefixes) && r.cacheTime == DefaultCacheTime
    {
      r := new CacheKey(key, prefixes);
    }

    /** Static `CacheKey.Create(key, expireMinute, prefixes)`. */
    static method MakeWithExpiry(key: Template, expireMinute: int, prefixes: seq<Option<Template>>) returns (r: CacheKey)
      ensures fresh(r) && fresh(r.prefixes)
      ensures r.key == key && r.prefixes[..] == NonEmpty(prefixes) && r.cacheTime == expireMinute
    {
      r := new CacheKey.WithExpiry(key, expireMinute, prefixes);
    }

    /** Instance `Create(createCacheKeyParameters, keyObjects)`: a new key with
        its own prefix list and the default lifetime, whatever this key's
        lifetime is; with key objects, the normalized objects are substituted
        into the key and into every prefix. The receiver is not modified. */
    method Create(normalize: KeyObject -> string, objs: seq<KeyObject>) returns (r: CacheKey)
      requires objs == [] || (Fits(key, |objs|) && FitsAll(prefixes[..], |objs|))
      ensures fresh(r) && fresh(r.prefixes)
      ensures r.key == CreatedKey(key, normalize, objs)
      ensures r.prefixes[..] == CreatedPrefixes(prefixes[..], normalize, objs)
      ensures r.cacheTime == DefaultCacheTime
    {
      r := new CacheKey(key, Wrap(prefixes[..]));
      if objs == [] {
        return;
      }
      var args := Args(normalize, objs);
      r.key := Format(r.key, args);
      NonEmptyFits(prefixes[..], |objs|);
      FormatEach(r.prefixes, args);
    }

    /** The `for` loop of `Create`: each prefix is formatted in place. */
    static method FormatEach(a: array<Template>, args: seq<string>)
      requires FitsAll(a[..], |args|)
      modifies a
      ensures a[..] == FormatAll(old(a[..]), args)
    {
      ghost var kept := a[..];
      for i := 0 to a.Length
        invariant forall j :: 0 <= j < i ==> a[j] == Format(kept[j], args)
        invariant forall j :: i <= j < a.Length ==> a[j] == kept[j]
      {
        a[i] := Format(a[i], args);
      }
    }
  }
}
