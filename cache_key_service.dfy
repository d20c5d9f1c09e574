/** Key/CacheKeyService.cs: how call-site parameters become key text, and the
    `PrepareKey` family that resolves a CacheKey. The SHA-1 hash behind
    `CreateIdsHash` is the parameter `hash`: nothing here depends on which
    function it is, except where a lemma asks for it to be injective. */
module KeyService {
  import opened Values
  import opened CacheKeys
  import Strings

  predicate Sorted(s: seq<int>)
  {
    forall i, j :: 0 <= i < j < |s| ==> s[i] <= s[j]
  }

  function Insert(x: int, s: seq<int>): (r: seq<int>)
    requires Sorted(s)
    ensures |r| == |s| + 1
    ensures Sorted(r) && multiset(r) == multiset(s) + multiset{x}
  {
    if s == [] || x <= s[0] then
      ConsSorted(x, s);
      [x] + s
    else
      var rest := Insert(x, s[1..]);
      assert s == [s[0]] + s[1..];
      HeadStaysLeast(s[0], x, s[1..], rest);
      [s[0]] + rest
  }

  lemma ConsSorted(h: int, t: seq<int>)
    requires Sorted(t) && (t == [] || h <= t[0])
    ensures Sorted([h] + t)
  {
    forall i, j | 0 <= i < j < |[h] + t| ensures ([h] + t)[i] <= ([h] + t)[j] {
      assert ([h] + t)[j] == t[j - 1];
      if i > 0 {
        assert ([h] + t)[i] == t[i - 1];
      } else {
        assert t[0] <= t[j - 1];
      }
    }
  }

  /** Putting `x` into the tail of a sorted list keeps its head in front when
      the head is below `x`. */
  lemma HeadStaysLeast(h: int, x: int, tail: seq<int>, rest: seq<int>)
    requires Sorted([h] + tail) && h < x && Sorted(rest)
    requires multiset(rest) == multiset(tail) + multiset{x}
    ensures Sorted([h] + rest)
  {
    forall k | 0 <= k < |rest| ensures h <= rest[k] {
      assert rest[k] in multiset(rest);
      if rest[k] != x {
        assert rest[k] in tail;
        var i :| 0 <= i < |tail| && tail[i] == rest[k];
        assert ([h] + tail)[0] == h && ([h] + tail)[i + 1] == tail[i];
        assert ([h] + tail)[0] <= ([h] + tail)[i + 1];
      }
    }
    forall i, j | 0 <= i < j < |[h] + rest| ensures ([h] + rest)[i] <= ([h] + rest)[j] {
      if i > 0 {
        assert ([h] + rest)[i] == rest[i - 1] && ([h] + rest)[j] == rest[j - 1];
      }
    }
  }

  /** `ids.OrderBy(id => id)`: ascending, duplicates kept. */
  function SortAscending(ids: seq<int>): (r: seq<int>)
    ensures |r| == |ids|
    ensures Sorted(r) && multiset(r) == multiset(ids)
  {
    if ids == [] then []
    else
      assert ids == [ids[0]] + ids[1..];
      Insert(ids[0], SortAscending(ids[1..]))
  }

  lemma SortedHeadIsLeast(s: seq<int>, x: int)
    requires Sorted(s) && x in multiset(s)
    ensures s[0] <= x
  {
    assert x in s;
  }

  /** A sorted list is determined by its elements: two sorted lists holding the
      same ids, duplicates counted, are the same list. */
  lemma {:induction false} SortedUnique(a: seq<int>, b: seq<int>)
    requires Sorted(a) && Sorted(b) && multiset(a) == multiset(b)
    ensures a == b
  {
    assert |a| == |multiset(a)| == |multiset(b)| == |b|;
    if a != [] {
      SameHead(a, b);
      SortedTail(a);
      SortedTail(b);
      SortedUnique(a[1..], b[1..]);
      assert a == [a[0]] + a[1..] && b == [b[0]] + b[1..];
    }
  }

  /** Two non-empty sorted lists with the same elements start alike and go on
      with the same remaining elements. */
  lemma SameHead(a: seq<int>, b: seq<int>)
    requires Sorted(a) && Sorted(b) && multiset(a) == multiset(b) && a != [] && b != []
    ensures a[0] == b[0] && multiset(a[1..]) == multiset(b[1..])
  {
    assert a[0] in multiset(a) && b[0] in multiset(b);
    SortedHeadIsLeast(a, b[0]);
    SortedHeadIsLeast(b, a[0]);
    assert a == [a[0]] + a[1..] && b == [b[0]] + b[1..];
    assert multiset(a[1..]) == multiset(a) - multiset{a[0]};
  }

  lemma SortedTail(s: seq<int>)
    requires Sorted(s) && s != []
    ensures Sorted(s[1..])
  {
    forall i, j | 0 <= i < j < |s[1..]| ensures s[1..][i] <= s[1..][j] {
      assert s[1..][i] == s[i + 1] && s[1..][j] == s[j + 1];
    }
  }

  function IdTexts(ids: seq<int>): (r: seq<string>)
    ensures |r| == |ids| && forall i :: 0 <= i < |ids| ==> r[i] == Strings.IntText(ids[i])
  {
    seq(|ids|, i requires 0 <= i < |ids| => Strings.IntText(ids[i]))
  }

  /** The text that is hashed: the ids in ascending order, joined by ", ". */
  function IdsText(ids: seq<int>): string
  {
    Strings.JoinComma(IdTexts(SortAscending(ids)))
  }

  /** `CreateIdsHash`: empty for no ids, otherwise the hash of the sorted, joined ids. */
  function CreateIdsHash(hash: string -> string, ids: seq<int>): (r: string)
    ensures ids == [] ==> r == ""
  {
    if ids == [] then "" else hash(IdsText(ids))
  }

  /** The order of the ids never affects the hash. */
  lemma IdsHashIgnoresOrder(hash: string -> string, a: seq<int>, b: seq<int>)
    requires multiset(a) == multiset(b)
    ensures CreateIdsHash(hash, a) == CreateIdsHash(hash, b)
  {
    SortedUnique(SortAscending(a), SortAscending(b));
    if a != [] {
      assert a[0] in multiset(b);
    }
  }

  ghost predicate Injective(hash: string -> string)
  {
    forall x, y :: hash(x) == hash(y) ==> x == y
  }

  /** With a collision-free hash, two non-empty id collections hash alike exactly
      when they hold the same ids with the same multiplicities: order is
      ignored, duplicates are not. */
  lemma IdsHashSeparates(hash: string -> string, a: seq<int>, b: seq<int>)
    requires Injective(hash) && a != [] && b != []
    ensures CreateIdsHash(hash, a) == CreateIdsHash(hash, b) <==> multiset(a) == multiset(b)
  {
    if multiset(a) == multiset(b) {
      IdsHashIgnoresOrder(hash, a, b);
    }
    if CreateIdsHash(hash, a) == CreateIdsHash(hash, b) {
      assert IdsText(a) == IdsText(b);
      SameTextSameIds(a, b);
    }
  }

  /** The hashed text determines the sorted ids it was built from. */
  lemma SameTextSameIds(a: seq<int>, b: seq<int>)
    requires a != [] && b != [] && IdsText(a) == IdsText(b)
    ensures multiset(a) == multiset(b)
  {
    var sa, sb := SortAscending(a), SortAscending(b);
    JoinedIdTextsSplit(sa, sb);
    IdTextsInjective(sa, sb);
  }

  /** Joined id texts split back into the same id texts. */
  lemma JoinedIdTextsSplit(sa: seq<int>, sb: seq<int>)
    requires sa != [] && sb != [] && Strings.JoinComma(IdTexts(sa)) == Strings.JoinComma(IdTexts(sb))
    ensures IdTexts(sa) == IdTexts(sb)
  {
    var ta, tb := IdTexts(sa), IdTexts(sb);
    assert forall i :: 0 <= i < |ta| ==> Strings.NoComma(ta[i]);
    assert forall i :: 0 <= i < |tb| ==> Strings.NoComma(tb[i]);
    Strings.JoinCommaInjective(ta, tb);
  }

  /** Different id lists never print alike. */
  lemma IdTextsInjective(sa: seq<int>, sb: seq<int>)
    requires IdTexts(sa) == IdTexts(sb)
    ensures sa == sb
  {
    var ta, tb := IdTexts(sa), IdTexts(sb);
    forall i | 0 <= i < |sa| ensures sa[i] == sb[i] {
      assert ta[i] == tb[i];
      Strings.IntTextInjective(sa[i], sb[i]);
    }
  }

  /** A digit string with a '.' put before its last `scale` digits (none
      when `scale` is zero). */
  function WithPoint(digits: string, scale: nat): string
    requires |digits| > scale
  {
    var point := |digits| - scale;
    digits[..point] + (if scale > 0 then "." + digits[point..] else "")
  }

  /** The digits of a magnitude with `scale` of them after a '.' and at least
      one before it. */
  function UnsignedText(m: nat, scale: nat): string
  {
    WithPoint(Strings.PaddedDigits(m, scale + 1), scale)
  }

  /** The magnitude of a decimal's unscaled value. */
  function Magnitude(d: Decimal): nat
  {
    if d.unscaled < 0 then -d.unscaled else d.unscaled
  }

  function SignText(d: Decimal): string
  {
    if d.unscaled < 0 then "-" else ""
  }

  /** `decimal.ToString(CultureInfo.InvariantCulture)`: an optional '-', then
      the magnitude with exactly `scale` digits after the '.' separator. */
  function InvariantText(d: Decimal): string
  {
    SignText(d) + UnsignedText(Magnitude(d), d.scale)
  }

  /** Reads digits with an optional '.' back as a magnitude and a scale. */
  function ParseUnsigned(body: string): Option<(nat, nat)>
  {
    var point := Strings.IndexOf(body, '.');
    var whole := body[..point];
    var frac := if point < |body| then body[point + 1..] else "";
    if whole == [] || !Strings.AllDigits(whole) || !Strings.AllDigits(frac) || (point < |body| && frac == []) then None
    else
      Strings.AllDigitsAppend(whole, frac);
      Some((Strings.DigitsValue(whole + frac), |frac|))
  }

  /** Reads invariant-culture decimal text back: '-' for a sign, '.' as the
      only separator. */
  function ParseInvariant(s: string): Option<Decimal>
  {
    var negative := |s| > 0 && s[0] == '-';
    var r := ParseUnsigned(if negative then s[1..] else s);
    if r.None? then None
    else Some(Decimal(if negative then -(r.value.0 as int) else r.value.0, r.value.1))
  }

  /** Digits on both sides of a '.' read back as their joint value and the
      number of digits after the point. */
  lemma PointedReadsBack(whole: string, frac: string)
    requires whole != [] && frac != [] && Strings.AllDigits(whole) && Strings.AllDigits(frac)
    ensures ParseUnsigned(whole + ['.'] + frac) == Some((Strings.DigitsValue(whole + frac), |frac|))
  {
    var body := whole + ['.'] + frac;
    assert forall k :: 0 <= k < |whole| ==> whole[k] != '.';
    Strings.IndexOfAfter(whole, '.', frac);
    assert body[..|whole|] == whole;
    assert body[|whole| + 1..] == frac;
  }

  /** Digits without a '.' read back as their value with no fraction. */
  lemma WholeReadsBack(whole: string)
    requires whole != [] && Strings.AllDigits(whole)
    ensures ParseUnsigned(whole) == Some((Strings.DigitsValue(whole), 0))
  {
    IndexOfWithout(whole, '.');
    assert whole[..|whole|] == whole;
    assert whole + "" == whole;
  }

  /** Digits with a point placed in them read back as their value and the
      number of digits after the point. */
  lemma WithPointReadsBack(digits: string, scale: nat)
    requires |digits| > scale && Strings.AllDigits(digits)
    ensures |WithPoint(digits, scale)| > 0 && WithPoint(digits, scale)[0] == digits[0]
    ensures ParseUnsigned(WithPoint(digits, scale)) == Some((Strings.DigitsValue(digits), scale))
  {
    var point := |digits| - scale;
    var whole, frac := digits[..point], digits[point..];
    assert whole + frac == digits;
    if scale > 0 {
      assert WithPoint(digits, scale) == whole + ['.'] + frac;
      PointedReadsBack(whole, frac);
    } else {
      assert WithPoint(digits, scale) == whole == digits;
      WholeReadsBack(whole);
    }
  }

  lemma UnsignedTextReadsBack(m: nat, scale: nat)
    ensures |UnsignedText(m, scale)| > 0 && Strings.IsDigit(UnsignedText(m, scale)[0])
    ensures ParseUnsigned(UnsignedText(m, scale)) == Some((m, scale))
  {
    WithPointReadsBack(Strings.PaddedDigits(m, scale + 1), scale);
  }

  lemma {:induction false} IndexOfWithout(s: string, c: char)
    requires forall k :: 0 <= k < |s| ==> s[k] != c
    ensures Strings.IndexOf(s, c) == |s|
  {
    if s != [] {
      IndexOfWithout(s[1..], c);
    }
  }

  /** A sign put before unsigned text that reads back as the decimal's
      magnitude and scale reads back as the decimal. */
  lemma SignReadsBack(d: Decimal, u: string)
    requires |u| > 0 && u[0] != '-' && ParseUnsigned(u) == Some((Magnitude(d), d.scale))
    ensures ParseInvariant(SignText(d) + u) == Some(d)
  {
    var s := SignText(d) + u;
    if d.unscaled < 0 {
      assert s[0] == '-' && s[1..] == u;
    } else {
      assert s == u;
    }
  }

  /** The normalized text of a decimal denotes exactly that decimal, with the
      same scale, whatever the current culture: it reads back to the number it
      came from. */
  lemma InvariantTextReadsBack(d: Decimal)
    ensures ParseInvariant(InvariantText(d)) == Some(d)
  {
    UnsignedTextReadsBack(Magnitude(d), d.scale);
    SignReadsBack(d, UnsignedText(Magnitude(d), d.scale));
  }

  /** `CreateCacheKeyParameters`: null, id collections and decimals get a
      culture- and order-independent text; anything else is passed through. */
  function CreateCacheKeyParameters(hash: string -> string, p: KeyObject): (r: string)
    ensures p.NullObject? ==> r == "null"
    ensures p.IntIds? && p.ids == [] ==> r == ""
    ensures p.IntIds? ==> forall ids :: multiset(ids) == multiset(p.ids) ==> r == CreateIdsHash(hash, ids)
    ensures p.DecimalNumber? ==> ParseInvariant(r) == Some(p.d)
    ensures p.Plain? ==> r == p.text
  {
    match p
    case NullObject => "null"
    case IntIds(ids) =>
      forall ids' | multiset(ids') == multiset(ids) ensures CreateIdsHash(hash, ids) == CreateIdsHash(hash, ids') {
        IdsHashIgnoresOrder(hash, ids, ids');
      }
      CreateIdsHash(hash, ids)
    case DecimalNumber(d) =>
      InvariantTextReadsBack(d);
      InvariantText(d)
    case Plain(text) => text
  }

  /** The normalizer the service hands to `CacheKey.Create`. */
  function Normalizer(hash: string -> string): KeyObject -> string
  {
    p => CreateCacheKeyParameters(hash, p)
  }

  /** Two key objects that must give the same key text: equal, or id
      collections holding the same ids in another order. */
  predicate SameIds(p: KeyObject, q: KeyObject)
  {
    p == q || (p.IntIds? && q.IntIds? && multiset(p.ids) == multiset(q.ids))
  }

  /** Reordering the ids of any id-collection parameter leaves the resolved key
      unchanged, while the order of the parameters themselves is kept. */
  lemma ResolvedKeyIgnoresIdOrder(hash: string -> string, key: Template, objs: seq<KeyObject>, objs': seq<KeyObject>)
    requires |objs| == |objs'| && Fits(key, |objs|)
    requires forall i :: 0 <= i < |objs| ==> SameIds(objs[i], objs'[i])
    ensures CreatedKey(key, Normalizer(hash), objs) == CreatedKey(key, Normalizer(hash), objs')
  {
    ArgsIgnoreIdOrder(hash, objs, objs');
  }

  /** Reordering the ids of any id-collection parameter leaves the resolved
      prefixes of a key, and a prefix resolved for removal, unchanged. */
  lemma ResolvedPrefixesIgnoreIdOrder(hash: string -> string, ps: seq<Template>, prefix: Template, objs: seq<KeyObject>, objs': seq<KeyObject>)
    requires |objs| == |objs'| && FitsAll(ps, |objs|) && Fits(prefix, |objs|)
    requires forall i :: 0 <= i < |objs| ==> SameIds(objs[i], objs'[i])
    ensures CreatedPrefixes(ps, Normalizer(hash), objs) == CreatedPrefixes(ps, Normalizer(hash), objs')
    ensures PrepareKeyPrefix(hash, prefix, objs) == PrepareKeyPrefix(hash, prefix, objs')
  {
    ArgsIgnoreIdOrder(hash, objs, objs');
  }

  /** The normalized parameters are the same for both orders of the ids. */
  lemma ArgsIgnoreIdOrder(hash: string -> string, objs: seq<KeyObject>, objs': seq<KeyObject>)
    requires |objs| == |objs'|
    requires forall i :: 0 <= i < |objs| ==> SameIds(objs[i], objs'[i])
    ensures Args(Normalizer(hash), objs) == Args(Normalizer(hash), objs')
  {
    var args, args' := Args(Normalizer(hash), objs), Args(Normalizer(hash), objs');
    forall i | 0 <= i < |objs| ensures args[i] == args'[i] {
      if objs[i] != objs'[i] {
        IdsHashIgnoresOrder(hash, objs[i].ids, objs'[i].ids);
      }
    }
    assert args == args';
  }

  /** `PrepareKeyPrefix`: a prefix template resolved with the normalized
      parameters; no parameters leave it unchanged. */
  function PrepareKeyPrefix(hash: string -> string, prefix: Template, params: seq<KeyObject>): Template
    requires params == [] || Fits(prefix, |params|)
  {
    if params == [] then prefix else Format(prefix, Args(Normalizer(hash), params))
  }

  /** A prefix template resolved with some parameters is exactly the prefix a
      key carrying that template receives when it is prepared with the same
      parameters, so removal by prefix finds the keys tagged with it. */
  lemma PrefixResolvesLikeKeyPrefix(hash: string -> string, ps: seq<Template>, params: seq<KeyObject>, i: nat)
    requires i < |ps| && forall k :: 0 <= k < |ps| ==> Text(ps[k]) != ""
    requires params == [] || FitsAll(ps, |params|)
    ensures |CreatedPrefixes(ps, Normalizer(hash), params)| == |ps|
    ensures PrepareKeyPrefix(hash, ps[i], params) == CreatedPrefixes(ps, Normalizer(hash), params)[i]
  {
    NonEmptyOfNonEmpty(ps);
  }

  /** Parameters for which `PrepareKey` does not throw a FormatException. */
  predicate CanPrepare(cacheKey: CacheKey, params: seq<KeyObject>)
    reads cacheKey, cacheKey.prefixes
  {
    params == [] || (Fits(cacheKey.key, |params|) && FitsAll(cacheKey.prefixes[..], |params|))
  }

  /** `PrepareKey(cacheKey, params)`: resolved key and prefixes, default lifetime
      (a lifetime set on `cacheKey` is not carried over). */
  method PrepareKey(hash: string -> string, cacheKey: CacheKey, params: seq<KeyObject>) returns (r: CacheKey)
    requires CanPrepare(cacheKey, params)
    ensures fresh(r) && fresh(r.prefixes)
    ensures r.key == CreatedKey(cacheKey.key, Normalizer(hash), params)
    ensures r.prefixes[..] == CreatedPrefixes(cacheKey.prefixes[..], Normalizer(hash), params)
    ensures r.cacheTime == DefaultCacheTime
  {
    r := cacheKey.Create(Normalizer(hash), params);
  }

  /** `PrepareKey(cacheKey, expireMinute, params)`: as `PrepareKey`, lifetime `expireMinute`. */
  method PrepareKeyWithExpiry(hash: string -> string, cacheKey: CacheKey, expireMinute: int, params: seq<KeyObject>)
    returns (r: CacheKey)
    requires CanPrepare(cacheKey, params)
    ensures fresh(r) && fresh(r.prefixes)
    ensures r.key == CreatedKey(cacheKey.key, Normalizer(hash), params)
    ensures r.prefixes[..] == CreatedPrefixes(cacheKey.prefixes[..], Normalizer(hash), params)
    ensures r.cacheTime == expireMinute
  {
    r := cacheKey.Create(Normalizer(hash), params);
    r.cacheTime := expireMinute;
  }

  /** `PrepareKeyForDefaultCache`: as `PrepareKey`, lifetime 120 minutes. */
  method PrepareKeyForDefaultCache(hash: string -> string, cacheKey: CacheKey, params: seq<KeyObject>) returns (r: CacheKey)
    requires CanPrepare(cacheKey, params)
    ensures fresh(r) && fresh(r.prefixes)
    ensures r.key == CreatedKey(cacheKey.key, Normalizer(hash), params)
    ensures r.prefixes[..] == CreatedPrefixes(cacheKey.prefixes[..], Normalizer(hash), params)
    ensures r.cacheTime == 120
  {
    r := cacheKey.Create(Normalizer(hash), params);
    r.cacheTime := DefaultCacheTime;
  }

  /** `PrepareKeyForShortTermCache`: as `PrepareKey`, lifetime 1 minute. */
  method PrepareKeyForShortTermCache(hash: string -> string, cacheKey: CacheKey, params: seq<KeyObject>) returns (r: CacheKey)
    requires CanPrepare(cacheKey, params)
    ensures fresh(r) && fresh(r.prefixes)
    ensures r.key == CreatedKey(cacheKey.key, Normalizer(hash), params)
    ensures r.prefixes[..] == CreatedPrefixes(cacheKey.prefixes[..], Normalizer(hash), params)
    ensures r.cacheTime == 1
  {
    r := cacheKey.Create(Normalizer(hash), params);
    r.cacheTime := ShortCacheTime;
  }
}
