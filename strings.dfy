/** Text helpers shared by the key model and the two backends: decimal digits
    as `int.ToString()` writes them, `string.Join`, ASCII case folding, the
    case-insensitive `StartsWith` used by the distributed key registry, and the
    unanchored, case-insensitive pattern match used by the per-request memo. */
module Strings {

  predicate IsDigit(c: char) { '0' <= c <= '9' }

  predicate AllDigits(s: string) { forall i :: 0 <= i < |s| ==> IsDigit(s[i]) }

  function DigitChar(d: nat): (c: char)
    requires d < 10
    ensures IsDigit(c) && c as int - '0' as int == d
  {
    (d + '0' as int) as char
  }

  /** The decimal digits of `n`, most significant first, without leading zeros. */
  function NatText(n: nat): (r: string)
    ensures |r| >= 1 && AllDigits(r)
    ensures (|r| > 1) == (n >= 10)
    decreases n
  {
    if n < 10 then [DigitChar(n)] else NatText(n / 10) + [DigitChar(n % 10)]
  }

  /** The number a string of decimal digits denotes. */
  function DigitsValue(s: string): nat
    requires AllDigits(s)
  {
    if s == [] then 0 else DigitsValue(s[..|s| - 1]) * 10 + (s[|s| - 1] as int - '0' as int)
  }

  /** Reading back the digits of `n` gives `n`: the digit text is faithful. */
  lemma {:induction false} NatTextValue(n: nat)
    ensures DigitsValue(NatText(n)) == n
    decreases n
  {
    if n >= 10 {
      var t := NatText(n);
      assert t[..|t| - 1] == NatText(n / 10);
      NatTextValue(n / 10);
    }
  }

  lemma NatTextInjective(a: nat, b: nat)
    requires NatText(a) == NatText(b)
    ensures a == b
  {
    NatTextValue(a);
    NatTextValue(b);
  }

  function Pow10(k: nat): (r: nat)
    ensures r >= 1
  {
    if k == 0 then 1 else 10 * Pow10(k - 1)
  }

  lemma AllDigitsAppend(a: string, b: string)
    requires AllDigits(a) && AllDigits(b)
    ensures AllDigits(a + b)
  {
    forall i | 0 <= i < |a + b| ensures IsDigit((a + b)[i]) {
      if i >= |a| {
        assert (a + b)[i] == b[i - |a|];
      }
    }
  }

  lemma ShiftStep(x: int, p: int, y: int, d: int)
    ensures (x * p + y) * 10 + d == x * (p * 10) + (y * 10 + d)
  {
  }

  /** The value of a digit string is that of its head shifted past its tail. */
  lemma {:induction false} DigitsValueAppend(a: string, b: string)
    requires AllDigits(a) && AllDigits(b)
    ensures AllDigits(a + b)
    ensures DigitsValue(a + b) == DigitsValue(a) * Pow10(|b|) + DigitsValue(b)
    decreases |b|
  {
    AllDigitsAppend(a, b);
    if b == [] {
      assert a + b == a;
    } else {
      var b' := b[..|b| - 1];
      assert (a + b)[..|a + b| - 1] == a + b';
      assert (a + b)[|a + b| - 1] == b[|b| - 1];
      DigitsValueAppend(a, b');
      ShiftStep(DigitsValue(a), Pow10(|b'|), DigitsValue(b'), b[|b| - 1] as int - '0' as int);
    }
  }

  /** `k` zero digits. */
  function Zeros(k: nat): (r: string)
    ensures |r| == k && AllDigits(r)
  {
    seq(k, _ => '0')
  }

  lemma {:induction false} ZerosValue(k: nat)
    ensures DigitsValue(Zeros(k)) == 0
  {
    if k > 0 {
      assert Zeros(k)[..k - 1] == Zeros(k - 1);
      ZerosValue(k - 1);
    }
  }

  /** The digits of `n`, with leading zeros up to `width` characters. */
  function PaddedDigits(n: nat, width: nat): (r: string)
    ensures AllDigits(r) && |r| >= width && |r| >= 1
    ensures DigitsValue(r) == n
  {
    var d := NatText(n);
    NatTextValue(n);
    if |d| >= width then d
    else
      DigitsValueAppend(Zeros(width - |d|), d);
      ZerosValue(width - |d|);
      Zeros(width - |d|) + d
  }

  /** `int.ToString()`: a leading '-' for negative numbers, then the digits. */
  function IntText(i: int): (r: string)
    ensures |r| >= 1 && (r[0] == '-' <==> i < 0)
    ensures forall k :: 0 <= k < |r| ==> r[k] != ',' && r[k] != ' '
  {
    if i < 0 then "-" + NatText(-i) else NatText(i)
  }

  /** Different integers never print alike. */
  lemma IntTextInjective(a: int, b: int)
    requires IntText(a) == IntText(b)
    ensures a == b
  {
    if a < 0 {
      assert NatText(-a) == IntText(a)[1..] == NatText(-b);
      NatTextInjective(-a, -b);
    } else {
      NatTextInjective(a, b);
    }
  }

  /** `string.Join(", ", parts)`. */
  function JoinComma(parts: seq<string>): string
  {
    if parts == [] then ""
    else if |parts| == 1 then parts[0]
    else parts[0] + ", " + JoinComma(parts[1..])
  }

  predicate NoComma(s: string) { forall k :: 0 <= k < |s| ==> s[k] != ',' }

  /** `s.IndexOf(c)`, or the length of `s` when `c` does not occur. */
  function IndexOf(s: string, c: char): (r: nat)
    ensures r <= |s|
  {
    if s == [] || s[0] == c then 0 else 1 + IndexOf(s[1..], c)
  }

  /** The first `c` after a `c`-free text is found right after that text. */
  lemma {:induction false} IndexOfAfter(x: string, c: char, rest: string)
    requires forall k :: 0 <= k < |x| ==> x[k] != c
    ensures IndexOf(x + [c] + rest, c) == |x|
  {
    if x != [] {
      assert (x + [c] + rest)[1..] == x[1..] + [c] + rest;
      IndexOfAfter(x[1..], c, rest);
    }
  }

  lemma JoinCommaHasComma(parts: seq<string>)
    requires |parts| >= 2
    ensures !NoComma(JoinComma(parts))
  {
    assert JoinComma(parts)[|parts[0]|] == ',';
  }

  /** Joining with ", " loses nothing when no part contains a comma: two
      non-empty lists of comma-free parts join alike only if they are equal. */
  lemma {:induction false} JoinCommaInjective(xs: seq<string>, ys: seq<string>)
    requires |xs| >= 1 && |ys| >= 1
    requires forall i :: 0 <= i < |xs| ==> NoComma(xs[i])
    requires forall i :: 0 <= i < |ys| ==> NoComma(ys[i])
    requires JoinComma(xs) == JoinComma(ys)
    ensures xs == ys
    decreases |xs|
  {
    if |xs| == 1 && |ys| == 1 {
    } else if |xs| == 1 {
      JoinCommaHasComma(ys);
    } else if |ys| == 1 {
      JoinCommaHasComma(xs);
    } else {
      var x, y := xs[0], ys[0];
      var s := JoinComma(xs);
      assert s == x + ", " + JoinComma(xs[1..]);
      assert s == y + ", " + JoinComma(ys[1..]);
      assert s == x + [','] + (" " + JoinComma(xs[1..]));
      assert s == y + [','] + (" " + JoinComma(ys[1..]));
      IndexOfAfter(x, ',', " " + JoinComma(xs[1..]));
      IndexOfAfter(y, ',', " " + JoinComma(ys[1..]));
      assert x == s[..|x|] == y;
      assert JoinComma(xs[1..]) == s[|x| + 2..] == JoinComma(ys[1..]);
      JoinCommaInjective(xs[1..], ys[1..]);
      assert xs == [x] + xs[1..];
      assert ys == [y] + ys[1..];
    }
  }

  /** Case folding, restricted to ASCII letters. */
  function Lower(c: char): char
  {
    if 'A' <= c <= 'Z' then (c as int + 32) as char else c
  }

  /** `s.StartsWith(prefix, StringComparison.InvariantCultureIgnoreCase)`. */
  predicate StartsWithIgnoreCase(s: string, prefix: string)
  {
    |prefix| <= |s| && forall j :: 0 <= j < |prefix| ==> Lower(prefix[j]) == Lower(s[j])
  }

  /** One pattern character against one text character: '.' matches anything
      (single-line mode), any other character matches itself ignoring case. */
  predicate CharMatches(p: char, c: char)
  {
    p == '.' || Lower(p) == Lower(c)
  }

  /** The pattern matches the text starting at its first character. */
  predicate MatchesHere(pattern: string, s: string)
  {
    |pattern| <= |s| && forall j :: 0 <= j < |pattern| ==> CharMatches(pattern[j], s[j])
  }

  /** `Regex.IsMatch`: the pattern matches somewhere in the text (unanchored). */
  predicate IsMatch(pattern: string, s: string)
    decreases |s|
  {
    MatchesHere(pattern, s) || (|s| > 0 && IsMatch(pattern, s[1..]))
  }

  /** The search in `IsMatch` finds a match exactly when one exists at some position. */
  lemma {:induction false} IsMatchAtSomePosition(pattern: string, s: string)
    ensures IsMatch(pattern, s) <==> exists i :: 0 <= i <= |s| && MatchesHere(pattern, s[i..])
    decreases |s|
  {
    assert s[0..] == s;
    if |s| > 0 {
      IsMatchAtSomePosition(pattern, s[1..]);
      if IsMatch(pattern, s[1..]) {
        var i :| 0 <= i <= |s| - 1 && MatchesHere(pattern, s[1..][i..]);
        assert s[1..][i..] == s[i + 1..];
      }
      if exists i :: 0 <= i <= |s| && MatchesHere(pattern, s[i..]) {
        var i :| 0 <= i <= |s| && MatchesHere(pattern, s[i..]);
        if i > 0 {
          assert s[1..][i - 1..] == s[i..];
          assert MatchesHere(pattern, s[1..][i - 1..]);
        }
      }
    }
  }

  /** Every text the registry's `StartsWith` selects is also selected by the
      memo's unanchored pattern match built from the same prefix. */
  lemma StartsWithIsMatch(s: string, prefix: string)
    requires StartsWithIgnoreCase(s, prefix)
    ensures IsMatch(prefix, s)
  {
  }

  /** The converse fails: the memo's match is unanchored. */
  lemma UnanchoredMatchIsWider()
    ensures IsMatch("key", "default.key") && !StartsWithIgnoreCase("default.key", "key")
  {
    var s := "default.key";
    assert MatchesHere("key", s[8..]);
    IsMatchAtSomePosition("key", s);
    assert Lower(s[0]) != Lower('k');
  }
}
