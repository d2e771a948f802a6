/**
 * The java.lang.String and java.lang.Integer operations the server relies on,
 * restated over seq<char>: searching, trimming, ASCII case mapping, splitting
 * on one character, and decimal conversion of 32-bit ints.
 */
module Text {
  import opened Wrappers

  const CRLF: string := "\r\n"

  // ------------------------------------------------------------------
  // Searching (String.indexOf, String.contains, String.lastIndexOf)
  // ------------------------------------------------------------------

  /** t occurs in s starting at index j. */
  predicate OccursAt<T(==)>(s: seq<T>, t: seq<T>, j: int) {
    0 <= j && j + |t| <= |s| && s[j..j + |t|] == t
  }

  /** The first occurrence of t in s at or after k. */
  function IndexOfFrom<T(==)>(s: seq<T>, t: seq<T>, k: nat): (r: Option<nat>)
    requires k <= |s|
    ensures r.Some? ==> k <= r.value && OccursAt(s, t, r.value)
    ensures r.Some? ==> forall j :: k <= j < r.value ==> !OccursAt(s, t, j)
    ensures r.None? ==> forall j :: k <= j ==> !OccursAt(s, t, j)
    decreases |s| - k
  {
    if k + |t| > |s| then None
    else if s[k..k + |t|] == t then Some(k)
    else IndexOfFrom(s, t, k + 1)
  }

  /** String.indexOf(String): None stands for -1. */
  function IndexOf<T(==)>(s: seq<T>, t: seq<T>): Option<nat> {
    IndexOfFrom(s, t, 0)
  }

  /** String.contains(CharSequence). */
  predicate Contains<T(==)>(s: seq<T>, t: seq<T>) {
    IndexOf(s, t).Some?
  }

  lemma ContainsIff<T>(s: seq<T>, t: seq<T>)
    ensures Contains(s, t) <==> exists j :: OccursAt(s, t, j)
  {
    if exists j :: OccursAt(s, t, j) {
      var j :| OccursAt(s, t, j);
      assert j >= 0;
    }
  }

  /** An occurrence that starts inside s is unchanged by appending to s. */
  lemma OccursAtPrefix<T>(s: seq<T>, x: seq<T>, t: seq<T>, j: int)
    requires j + |t| <= |s|
    ensures OccursAt(s + x, t, j) <==> OccursAt(s, t, j)
  {
    if 0 <= j {
      assert (s + x)[j..j + |t|] == s[j..j + |t|];
    }
  }

  /** Occurrences after a prefix are the occurrences in what follows it. */
  lemma OccursAtShift<T>(a: seq<T>, b: seq<T>, t: seq<T>, j: int)
    requires j >= |a|
    ensures OccursAt(a + b, t, j) <==> OccursAt(b, t, j - |a|)
  {
    if j + |t| <= |a + b| {
      assert (a + b)[j..j + |t|] == b[j - |a|..j - |a| + |t|];
    }
  }

  /** The first occurrence in s stays the first once anything is appended to s. */
  lemma {:induction false} IndexOfAppend<T>(s: seq<T>, x: seq<T>, t: seq<T>, k: nat)
    requires k <= |s|
    requires IndexOfFrom(s, t, k).Some?
    ensures IndexOfFrom(s + x, t, k) == IndexOfFrom(s, t, k)
    decreases |s| - k
  {
    OccursAtPrefix(s, x, t, k);
    if k + |t| <= |s| && s[k..k + |t|] != t {
      assert !OccursAt(s + x, t, k);
      IndexOfAppend(s, x, t, k + 1);
    }
  }

  /** String.lastIndexOf(char): -1 when c does not occur. */
  function LastIndexOf(s: string, c: char): (r: int)
    ensures -1 <= r < |s|
    ensures r >= 0 ==> s[r] == c
    ensures forall j :: r < j < |s| ==> s[j] != c
  {
    if s == [] then -1
    else if s[|s| - 1] == c then |s| - 1
    else LastIndexOf(s[..|s| - 1], c)
  }

  predicate StartsWith(s: string, p: string) {
    |p| <= |s| && s[..|p|] == p
  }

  predicate EndsWith(s: string, p: string) {
    |p| <= |s| && s[|s| - |p|..] == p
  }

  // ------------------------------------------------------------------
  // Blanks (String.trim, String.isBlank, String.isEmpty)
  // ------------------------------------------------------------------

  /** String.trim removes every leading and trailing char at or below U+0020. */
  predicate IsTrimmed(c: char) {
    c <= ' '
  }

  /** The first index at or after i whose char is above U+0020, or |s|. */
  function SkipTrimmed(s: string, i: nat): (r: nat)
    requires i <= |s|
    ensures i <= r <= |s|
    ensures forall j :: i <= j < r ==> IsTrimmed(s[j])
    ensures r < |s| ==> !IsTrimmed(s[r])
    decreases |s| - i
  {
    if i == |s| || !IsTrimmed(s[i]) then i else SkipTrimmed(s, i + 1)
  }

  /** The end of s[lo..e] once its trailing chars at or below U+0020 are dropped. */
  function TrimmedEnd(s: string, lo: nat, e: nat): (r: nat)
    requires lo <= e <= |s|
    ensures lo <= r <= e
    ensures forall j :: r <= j < e ==> IsTrimmed(s[j])
    ensures r > lo ==> !IsTrimmed(s[r - 1])
    decreases e
  {
    if e == lo || !IsTrimmed(s[e - 1]) then e else TrimmedEnd(s, lo, e - 1)
  }

  /** String.trim. */
  function Trim(s: string): string {
    var a := SkipTrimmed(s, 0);
    s[a..TrimmedEnd(s, a, |s|)]
  }

  /** s.trim().isEmpty() holds exactly when every char of s is at or below U+0020. */
  lemma TrimEmptyIff(s: string)
    ensures Trim(s) == [] <==> forall i :: 0 <= i < |s| ==> IsTrimmed(s[i])
  {
    var a := SkipTrimmed(s, 0);
    var b := TrimmedEnd(s, a, |s|);
    if Trim(s) == [] {
      assert b == a;
    }
  }

  /** Character.isWhitespace: the ASCII controls 9-13 and 28-31, the space, and the
      Unicode space, line and paragraph separators other than the no-break spaces. */
  predicate IsJavaWhitespace(c: char) {
    ('\t' <= c <= '\r') || ('\U{1C}' <= c <= ' ') || c == '\U{1680}'
    || ('\U{2000}' <= c <= '\U{2006}') || ('\U{2008}' <= c <= '\U{200A}')
    || c == '\U{2028}' || c == '\U{2029}' || c == '\U{205F}' || c == '\U{3000}'
  }

  /** String.isBlank. */
  predicate IsBlank(s: string) {
    forall i :: 0 <= i < |s| ==> IsJavaWhitespace(s[i])
  }

  /** The regular-expression class \s of java.util.regex: [ \t\n\x0B\f\r]. */
  predicate IsRegexSpace(c: char) {
    c == ' ' || ('\t' <= c <= '\r')
  }

  // ------------------------------------------------------------------
  // ASCII case mapping (String.toLowerCase / toUpperCase on ASCII letters)
  // ------------------------------------------------------------------

  function LowerChar(c: char): char {
    if 'A' <= c <= 'Z' then (c as int + 32) as char else c
  }

  function UpperChar(c: char): char {
    if 'a' <= c <= 'z' then (c as int - 32) as char else c
  }

  function ToLower(s: string): string {
    seq(|s|, i requires 0 <= i < |s| => LowerChar(s[i]))
  }

  function ToUpper(s: string): string {
    seq(|s|, i requires 0 <= i < |s| => UpperChar(s[i]))
  }

  /** Lower-casing twice is lower-casing once, so a lower-cased key found again. */
  lemma ToLowerIdempotent(s: string)
    ensures ToLower(ToLower(s)) == ToLower(s)
  {
    assert forall i :: 0 <= i < |s| ==> LowerChar(LowerChar(s[i])) == LowerChar(s[i]);
  }

  /** Two strings that differ only in the case of ASCII letters lower-case alike. */
  lemma ToLowerIgnoresCase(s: string, t: string)
    requires |s| == |t|
    requires forall i :: 0 <= i < |s| ==> LowerChar(s[i]) == LowerChar(t[i])
    ensures ToLower(s) == ToLower(t)
  {
  }

  /** Upper-casing a string that differs from w only in the case of ASCII letters
      gives w, when w is itself upper case. */
  lemma ToUpperOfCaseVariant(s: string, w: string)
    requires ToUpper(w) == w
    requires |s| == |w|
    requires forall i :: 0 <= i < |s| ==> UpperChar(s[i]) == UpperChar(w[i])
    ensures ToUpper(s) == w
  {
    forall i | 0 <= i < |s| ensures ToUpper(s)[i] == w[i] {
      assert ToUpper(w)[i] == UpperChar(w[i]);
    }
  }

  // ------------------------------------------------------------------
  // Splitting on one character (String.split)
  // ------------------------------------------------------------------

  /** The pieces of s between the occurrences of d, empty pieces included. */
  function SplitAll(s: string, d: char): (parts: seq<string>)
    ensures |parts| >= 1
    ensures forall i :: 0 <= i < |parts| ==> d !in parts[i]
    ensures JoinWith(parts, d) == s
  {
    if s == [] then [[]]
    else
      var rest := SplitAll(s[1..], d);
      if s[0] == d then
        assert JoinWith([[]] + rest, d) == [d] + JoinWith(rest, d);
        [[]] + rest
      else
        JoinConsFirst(s[0], rest, d);
        [[s[0]] + rest[0]] + rest[1..]
  }

  /** The inverse of splitting: the parts glued back with d between them. */
  function JoinWith(parts: seq<string>, d: char): string
    requires |parts| >= 1
  {
    if |parts| == 1 then parts[0] else parts[0] + [d] + JoinWith(parts[1..], d)
  }

  lemma JoinConsFirst(c: char, parts: seq<string>, d: char)
    requires |parts| >= 1
    ensures JoinWith([[c] + parts[0]] + parts[1..], d) == [c] + JoinWith(parts, d)
  {
    var p := [[c] + parts[0]] + parts[1..];
    assert p[1..] == parts[1..];
  }

  /** Java drops the trailing empty strings of a split with limit 0. */
  function DropTrailingEmpty(parts: seq<string>): (r: seq<string>)
    ensures |r| <= |parts| && r == parts[..|r|]
    ensures r != [] ==> r[|r| - 1] != []
    ensures forall i :: |r| <= i < |parts| ==> parts[i] == []
  {
    if parts != [] && parts[|parts| - 1] == [] then DropTrailingEmpty(parts[..|parts| - 1])
    else parts
  }

  /** String.split(d) with its default limit 0: the whole string when d does not
      occur, otherwise the pieces without the trailing empty ones. */
  function Split(s: string, d: char): seq<string> {
    if d in s then DropTrailingEmpty(SplitAll(s, d)) else [s]
  }

  /** The first index at or after i holding d, or |s|. */
  function CharIndex(s: string, d: char, i: nat): (r: nat)
    requires i <= |s|
    ensures i <= r <= |s|
    ensures forall j :: i <= j < r ==> s[j] != d
    ensures r < |s| ==> s[r] == d
    decreases |s| - i
  {
    if i == |s| || s[i] == d then i else CharIndex(s, d, i + 1)
  }

  /** String.split(d, 2): the part before the first d and, when d occurs, the rest. */
  function SplitOnce(s: string, d: char): (r: (string, Option<string>))
    ensures r.1.None? <==> d !in s
    ensures d !in r.0
    ensures r.1.Some? ==> s == r.0 + [d] + r.1.value
  {
    var i := CharIndex(s, d, 0);
    if i == |s| then (s, None)
    else
      assert s == s[..i] + [d] + s[i + 1..];
      (s[..i], Some(s[i + 1..]))
  }

  // ------------------------------------------------------------------
  // 32-bit ints (Integer.toString, Integer.parseInt, int overflow)
  // ------------------------------------------------------------------

  const INT_MIN: int := -0x8000_0000
  const INT_MAX: int := 0x7FFF_FFFF

  predicate IsInt32(n: int) {
    INT_MIN <= n <= INT_MAX
  }

  /** Java's int arithmetic: the 32-bit two's-complement value congruent to n. */
  function Wrap32(n: int): (r: int)
    ensures IsInt32(r)
    ensures (r - n) % 0x1_0000_0000 == 0
    ensures IsInt32(n) ==> r == n
  {
    (n + 0x8000_0000) % 0x1_0000_0000 - 0x8000_0000
  }

  predicate IsDigit(c: char) {
    '0' <= c <= '9'
  }

  predicate AllDigits(s: string) {
    forall i :: 0 <= i < |s| ==> IsDigit(s[i])
  }

  function DigitChar(d: nat): (c: char)
    requires d < 10
    ensures IsDigit(c)
  {
    ('0' as int + d) as char
  }

  /** The value of a string of decimal digits. */
  function DigitsValue(s: string): nat
    requires AllDigits(s)
  {
    if s == [] then 0
    else DigitsValue(s[..|s| - 1]) * 10 + (s[|s| - 1] as int - '0' as int)
  }

  /** The decimal digits of n, without leading zeros. */
  function NatToString(n: nat): (s: string)
    ensures s != [] && AllDigits(s)
  {
    if n < 10 then [DigitChar(n)] else NatToString(n / 10) + [DigitChar(n % 10)]
  }

  /** Integer.toString / String.valueOf(int). */
  function IntToString(n: int): (s: string)
    ensures s != []
  {
    if n < 0 then "-" + NatToString(-n) else NatToString(n)
  }

  /** Integer.parseInt(String, 10), with None for a NumberFormatException: an optional
      sign followed by at least one ASCII digit, whose value fits in an int. */
  function ParseInt(s: string): (r: Option<int>)
    ensures r.Some? ==> IsInt32(r.value)
    ensures r.Some? ==> s != []
  {
    if s == [] then None
    else
      var digits := if s[0] == '-' || s[0] == '+' then s[1..] else s;
      if digits == [] || !AllDigits(digits) then None
      else
        var v := if s[0] == '-' then -(DigitsValue(digits) as int) else DigitsValue(digits);
        if IsInt32(v) then Some(v) else None
  }

  lemma {:induction false} DigitsOfNat(n: nat)
    ensures DigitsValue(NatToString(n)) == n
  {
    if n >= 10 {
      DigitsOfNat(n / 10);
      var s := NatToString(n);
      assert s[..|s| - 1] == NatToString(n / 10);
    }
  }

  /** Integer.parseInt(Integer.toString(n)) == n for every int n. */
  lemma ParseIntToString(n: int)
    requires IsInt32(n)
    ensures ParseInt(IntToString(n)) == Some(n)
  {
    if n < 0 {
      ParseIntOfNegative(n);
    } else {
      DigitsOfNat(n);
    }
  }

  lemma ParseIntOfNegative(n: int)
    requires INT_MIN <= n < 0
    ensures ParseInt(IntToString(n)) == Some(n)
  {
    var d := NatToString(-n);
    DigitsOfNat(-n);
    assert ("-" + d)[1..] == d;
  }

  /** A string with a char that is not an ASCII digit, sign aside, is not a number. */
  lemma ParseIntRejectsNonDigit(s: string, i: nat)
    requires 0 < i < |s| || (i == 0 && |s| > 0 && s[0] != '-' && s[0] != '+')
    requires !IsDigit(s[i])
    ensures ParseInt(s) == None
  {
    if 0 < i && (s[0] == '-' || s[0] == '+') {
      assert s[1..][i - 1] == s[i];
    }
  }
}
