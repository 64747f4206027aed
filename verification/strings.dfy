/**
 * The JavaScript string operations the dashboard relies on, written out as
 * functions over `seq<char>`: ASCII case mapping (`toLowerCase`,
 * `toUpperCase`), `includes`, `startsWith`, `trim`, `split`, `join`,
 * the whitespace class `\s`, and `Number.prototype.toString` for integers.
 */
module Strings {
  import opened Wrappers

  // ---------------------------------------------------------------------------
  // Characters
  // ---------------------------------------------------------------------------

  /** The ECMAScript WhiteSpace and LineTerminator characters: the set matched by
      the regular-expression class `\s` and removed by `String.prototype.trim`. */
  predicate IsWhitespace(c: char) {
    || c == '\t' || c == '\n' || c == '\U{000B}' || c == '\U{000C}' || c == '\r'
    || c == ' ' || c == '\U{00A0}' || c == '\U{1680}'
    || ('\U{2000}' <= c <= '\U{200A}')
    || c == '\U{2028}' || c == '\U{2029}' || c == '\U{202F}' || c == '\U{205F}'
    || c == '\U{3000}' || c == '\U{FEFF}'
  }

  predicate IsAsciiUpper(c: char) { 'A' <= c <= 'Z' }

  predicate IsAsciiLower(c: char) { 'a' <= c <= 'z' }

  predicate IsDigit(c: char) { '0' <= c <= '9' }

  function LowerChar(c: char): (r: char)
    ensures !IsAsciiUpper(r)
    ensures IsAsciiUpper(c) ==> r as int == c as int + 32
    ensures !IsAsciiUpper(c) ==> r == c
  {
    if IsAsciiUpper(c) then (c as int + 32) as char else c
  }

  function UpperChar(c: char): (r: char)
    ensures !IsAsciiLower(r)
    ensures IsAsciiLower(c) ==> r as int == c as int - 32
    ensures !IsAsciiLower(c) ==> r == c
  {
    if IsAsciiLower(c) then (c as int - 32) as char else c
  }

  /** `toLowerCase`, restricted to the ASCII letters. */
  function Lower(s: string): (r: string)
    ensures |r| == |s|
    ensures forall i :: 0 <= i < |s| ==> r[i] == LowerChar(s[i])
  {
    seq(|s|, i requires 0 <= i < |s| => LowerChar(s[i]))
  }

  /** `toUpperCase`, restricted to the ASCII letters. */
  function Upper(s: string): (r: string)
    ensures |r| == |s|
    ensures forall i :: 0 <= i < |s| ==> r[i] == UpperChar(s[i])
  {
    seq(|s|, i requires 0 <= i < |s| => UpperChar(s[i]))
  }

  /** Lower-casing twice is lower-casing once. */
  lemma LowerIdempotent(s: string)
    ensures Lower(Lower(s)) == Lower(s)
  {
  }

  /** Case-insensitive equality, as `a.toLowerCase() === b.toLowerCase()`. */
  predicate EqualsIgnoreCase(a: string, b: string) {
    Lower(a) == Lower(b)
  }

  /** Two strings are equal ignoring case exactly when they agree position by
      position after ASCII lower-casing of each character. */
  lemma EqualsIgnoreCaseIff(a: string, b: string)
    ensures EqualsIgnoreCase(a, b) <==>
      |a| == |b| && forall i :: 0 <= i < |a| ==> LowerChar(a[i]) == LowerChar(b[i])
  {
    if |a| == |b| && forall i :: 0 <= i < |a| ==> LowerChar(a[i]) == LowerChar(b[i]) {
      assert forall i :: 0 <= i < |a| ==> Lower(a)[i] == Lower(b)[i];
    }
    if EqualsIgnoreCase(a, b) {
      assert forall i :: 0 <= i < |a| ==> Lower(a)[i] == Lower(b)[i];
    }
  }

  // ---------------------------------------------------------------------------
  // Substrings
  // ---------------------------------------------------------------------------

  /** `p` occurs in `s` starting at index `i`. */
  predicate OccursAt(s: string, p: string, i: int) {
    0 <= i && i + |p| <= |s| && s[i..i + |p|] == p
  }

  /** `s.includes(p)`, computed by trying each start position in turn. */
  predicate Contains(s: string, p: string)
    decreases |s|
  {
    if |p| > |s| then false
    else if p <= s then true
    else Contains(s[1..], p)
  }

  /** `Contains` is exactly "some occurrence exists". */
  lemma {:induction false} ContainsIff(s: string, p: string)
    ensures Contains(s, p) <==> exists i :: OccursAt(s, p, i)
    decreases |s|
  {
    if |p| > |s| {
      assert forall i :: !OccursAt(s, p, i);
    } else if p <= s {
      assert OccursAt(s, p, 0);
    } else {
      ContainsIff(s[1..], p);
      assert !OccursAt(s, p, 0);
      forall i | OccursAt(s, p, i)
        ensures OccursAt(s[1..], p, i - 1)
      {
        assert s[1..][i - 1..i - 1 + |p|] == s[i..i + |p|];
      }
      forall i | OccursAt(s[1..], p, i)
        ensures OccursAt(s, p, i + 1)
      {
        assert s[1..][i..i + |p|] == s[i + 1..i + 1 + |p|];
      }
    }
  }

  /** Every string includes the empty string. */
  lemma ContainsEmpty(s: string)
    ensures Contains(s, "")
  {
  }

  /** A string includes itself. */
  lemma ContainsSelf(s: string)
    ensures Contains(s, s)
  {
  }

  /** `s || d` for a nullable string: the default replaces null and "" alike. */
  function OrString(s: Option<string>, d: string): (r: string)
    ensures r == d || s == Some(r)
    ensures r == "" ==> d == ""
  {
    if s.Some? && s.value != "" then s.value else d
  }

  /** `s.startsWith(p)`. */
  predicate StartsWith(s: string, p: string) {
    p <= s
  }

  // ---------------------------------------------------------------------------
  // Scanning
  // ---------------------------------------------------------------------------

  /** The end of the longest run of whitespace that starts at `j`. */
  function WsEnd(s: string, j: nat): (e: nat)
    requires j <= |s|
    ensures j <= e <= |s|
    ensures forall t :: j <= t < e ==> IsWhitespace(s[t])
    ensures e == |s| || !IsWhitespace(s[e])
    decreases |s| - j
  {
    if j == |s| || !IsWhitespace(s[j]) then j else WsEnd(s, j + 1)
  }

  /** `s.indexOf(c, j)`: the first index at or after `j` holding `c`. */
  function IndexOf(s: string, c: char, j: nat): (r: Option<nat>)
    requires j <= |s|
    ensures r.Some? ==> j <= r.value < |s| && s[r.value] == c
    ensures r.Some? ==> forall t :: j <= t < r.value ==> s[t] != c
    ensures r.None? ==> forall t :: j <= t < |s| ==> s[t] != c
    decreases |s| - j
  {
    if j == |s| then None
    else if s[j] == c then Some(j)
    else IndexOf(s, c, j + 1)
  }

  /** The number of occurrences of `c` in `s`. */
  function Count(s: string, c: char): nat
  {
    if s == [] then 0 else (if s[0] == c then 1 else 0) + Count(s[1..], c)
  }

  lemma {:induction false} CountAppend(a: string, b: string, c: char)
    ensures Count(a + b, c) == Count(a, c) + Count(b, c)
    decreases |a|
  {
    if a != [] {
      assert (a + b)[0] == a[0];
      assert (a + b)[1..] == a[1..] + b;
      CountAppend(a[1..], b, c);
    } else {
      assert a + b == b;
    }
  }

  lemma {:induction false} CountZeroIff(s: string, c: char)
    ensures Count(s, c) == 0 <==> c !in s
    decreases |s|
  {
    if s != [] {
      CountZeroIff(s[1..], c);
      assert s == [s[0]] + s[1..];
    }
  }

  // ---------------------------------------------------------------------------
  // trim
  // ---------------------------------------------------------------------------

  /** The index just past the last non-whitespace character of `s[..b]`. */
  function TrailEnd(s: string, b: nat): (e: nat)
    requires b <= |s|
    ensures e <= b
    ensures forall t :: e <= t < b ==> IsWhitespace(s[t])
    ensures e == 0 || !IsWhitespace(s[e - 1])
  {
    if b == 0 || !IsWhitespace(s[b - 1]) then b else TrailEnd(s, b - 1)
  }

  /** `s.trim()`: the slice of `s` left after removing leading and trailing
      whitespace. */
  function Trim(s: string): (r: string)
    ensures r == [] || (!IsWhitespace(r[0]) && !IsWhitespace(r[|r| - 1]))
    ensures exists a :: && OccursAt(s, r, a)
                        && (forall t :: 0 <= t < a ==> IsWhitespace(s[t]))
                        && (forall t :: a + |r| <= t < |s| ==> IsWhitespace(s[t]))
  {
    var a := WsEnd(s, 0);
    var b := TrailEnd(s, |s|);
    if b <= a then
      assert a == |s|;
      assert OccursAt(s, [], a);
      []
    else
      assert OccursAt(s, s[a..b], a);
      s[a..b]
  }

  // ---------------------------------------------------------------------------
  // split / join
  // ---------------------------------------------------------------------------

  /** `parts.join(sep)`. */
  function Join(parts: seq<string>, sep: string): string
  {
    if |parts| == 0 then ""
    else if |parts| == 1 then parts[0]
    else parts[0] + sep + Join(parts[1..], sep)
  }

  /** `s.split(sep)` for a one-character separator: the maximal separator-free
      pieces, one more than there are separators, which `Join` puts back together. */
  function Split(s: string, sep: char): (parts: seq<string>)
    ensures |parts| == Count(s, sep) + 1
    ensures parts[0] <= s
    ensures forall i :: 0 <= i < |parts| ==> sep !in parts[i]
    ensures Join(parts, [sep]) == s
    decreases |s|
  {
    match IndexOf(s, sep, 0)
    case None =>
      CountZeroIff(s, sep);
      [s]
    case Some(i) =>
      var rest := Split(s[i + 1..], sep);
      assert s == s[..i] + [sep] + s[i + 1..];
      CountAppend(s[..i] + [sep], s[i + 1..], sep);
      CountAppend(s[..i], [sep], sep);
      CountZeroIff(s[..i], sep);
      assert ([s[..i]] + rest)[1..] == rest;
      [s[..i]] + rest
  }

  lemma SplitAtFirst(s: string, sep: char, i: nat)
    requires IndexOf(s, sep, 0) == Some(i)
    ensures Split(s, sep) == [s[..i]] + Split(s[i + 1..], sep)
  {
  }

  /** The separators of `s` are the one at `i` and those after it. */
  lemma CountAtFirst(s: string, sep: char, i: nat)
    requires i < |s| && s[i] == sep
    requires sep !in s[..i]
    ensures Count(s, sep) == 1 + Count(s[i + 1..], sep)
    ensures Count(s[..i], sep) == 0
  {
    assert s == s[..i] + [sep] + s[i + 1..];
    CountAppend(s[..i] + [sep], s[i + 1..], sep);
    CountAppend(s[..i], [sep], sep);
    CountZeroIff(s[..i], sep);
  }

  lemma JoinCons(a: string, rest: seq<string>, sep: string)
    requires |rest| >= 1
    ensures Join([a] + rest, sep) == a + sep + Join(rest, sep)
  {
    assert ([a] + rest)[1..] == rest;
  }

  /** The first `n` pieces of `s.split(sep)`, joined again with `sep`:
      `s.split(sep).slice(0, n).join(sep)`. */
  function JoinFirst(s: string, sep: char, n: nat): string
  {
    var parts := Split(s, sep);
    Join(parts[..if n < |parts| then n else |parts|], [sep])
  }

  lemma JoinFirstNoSeparator(s: string, sep: char, n: nat)
    requires n >= 1
    requires IndexOf(s, sep, 0) == None
    ensures JoinFirst(s, sep, n) == s
  {
    assert Split(s, sep) == [s];
  }

  lemma JoinFirstOne(s: string, sep: char, i: nat)
    requires IndexOf(s, sep, 0) == Some(i)
    ensures JoinFirst(s, sep, 1) == s[..i]
  {
    SplitAtFirst(s, sep, i);
    assert Split(s, sep)[..1] == [s[..i]];
  }

  lemma JoinFirstStep(s: string, sep: char, i: nat, n: nat)
    requires IndexOf(s, sep, 0) == Some(i)
    requires n >= 2
    ensures JoinFirst(s, sep, n) == s[..i] + [sep] + JoinFirst(s[i + 1..], sep, n - 1)
  {
    SplitAtFirst(s, sep, i);
    var rest := Split(s[i + 1..], sep);
    var m := if n - 1 < |rest| then n - 1 else |rest|;
    assert Split(s, sep)[..if n < |rest| + 1 then n else |rest| + 1] == [s[..i]] + rest[..m];
    JoinCons(s[..i], rest[..m], [sep]);
  }

  /** Putting a separator-free head and a separator in front of a prefix `r`
      of `t` keeps the three facts `JoinFirstPrefix` states. */
  lemma PrefixAfterHead(head: string, sep: char, t: string, r: string)
    requires sep !in head
    requires r <= t
    requires r == t || (|r| < |t| && t[|r|] == sep)
    ensures head + [sep] + r <= head + [sep] + t
    ensures Count(head + [sep] + r, sep) == Count(r, sep) + 1
    ensures var r2 := head + [sep] + r;
            var t2 := head + [sep] + t;
            r2 == t2 || (|r2| < |t2| && t2[|r2|] == sep)
  {
    CountAppend(head + [sep], r, sep);
    CountAppend(head, [sep], sep);
    CountZeroIff(head, sep);
    var r2 := head + [sep] + r;
    var t2 := head + [sep] + t;
    if r != t {
      assert t2[|r2|] == t[|r|];
    }
  }

  /** Joining the first `n` pieces of a split gives the prefix of `s` that ends
      just before the `n`-th separator, or all of `s` when there are fewer. */
  lemma {:induction false} JoinFirstPrefix(s: string, sep: char, n: nat)
    requires n >= 1
    ensures JoinFirst(s, sep, n) <= s
    ensures Count(JoinFirst(s, sep, n), sep) == (if n - 1 < Count(s, sep) then n - 1 else Count(s, sep))
    ensures var r := JoinFirst(s, sep, n);
            r == s || (|r| < |s| && s[|r|] == sep)
    decreases |s|
  {
    match IndexOf(s, sep, 0)
    case None =>
      JoinFirstNoSeparator(s, sep, n);
      CountZeroIff(s, sep);
    case Some(i) =>
      assert sep !in s[..i];
      CountAtFirst(s, sep, i);
      if n == 1 {
        JoinFirstOne(s, sep, i);
      } else {
        var r' := JoinFirst(s[i + 1..], sep, n - 1);
        JoinFirstPrefix(s[i + 1..], sep, n - 1);
        JoinFirstStep(s, sep, i, n);
        PrefixAfterHead(s[..i], sep, s[i + 1..], r');
        assert s == s[..i] + [sep] + s[i + 1..];
      }
  }

  // ---------------------------------------------------------------------------
  // Number.prototype.toString for integers
  // ---------------------------------------------------------------------------

  function DigitChar(d: nat): (c: char)
    requires d < 10
    ensures IsDigit(c)
  {
    ('0' as int + d) as char
  }

  function DigitValue(c: char): nat
    requires IsDigit(c)
  {
    c as int - '0' as int
  }

  /** The value of a string of decimal digits. */
  function DigitsValue(r: string): nat
    requires forall i :: 0 <= i < |r| ==> IsDigit(r[i])
  {
    if r == [] then 0
    else DigitsValue(r[..|r| - 1]) * 10 + DigitValue(r[|r| - 1])
  }

  /** The decimal digits of `n` without leading zeros; reading them back gives `n`. */
  function NatToString(n: nat): (r: string)
    ensures |r| >= 1
    ensures forall i :: 0 <= i < |r| ==> IsDigit(r[i])
    ensures |r| > 1 ==> r[0] != '0'
    ensures DigitsValue(r) == n
    decreases n
  {
    if n < 10 then [DigitChar(n)]
    else
      var r := NatToString(n / 10) + [DigitChar(n % 10)];
      assert r[..|r| - 1] == NatToString(n / 10);
      r
  }

  /** `n.toString()` for an integer `n`: a minus sign for negative values, then
      the digits of the magnitude. */
  function IntToString(n: int): (r: string)
    ensures |r| >= 1
    ensures n >= 0 <==> IsDigit(r[0])
    ensures n < 0 <==> r[0] == '-'
    ensures var digits := if n < 0 then r[1..] else r;
            && |digits| >= 1
            && (forall i :: 0 <= i < |digits| ==> IsDigit(digits[i]))
            && (|digits| > 1 ==> digits[0] != '0')
            && DigitsValue(digits) == if n < 0 then -n else n
  {
    if n < 0 then
      var r := "-" + NatToString(-n);
      assert r[1..] == NatToString(-n);
      r
    else NatToString(n)
  }

  /** Distinct integers print differently. */
  lemma IntToStringInjective(a: int, b: int)
    requires IntToString(a) == IntToString(b)
    ensures a == b
  {
    if a < 0 {
      assert IntToString(a)[1..] == NatToString(-a);
      assert IntToString(b)[1..] == NatToString(-b);
    }
  }
}
