/** The .NET string operations the repository list depends on: `Char.IsWhiteSpace`,
    `String.Trim()`, `String.IsNullOrWhiteSpace` and ordinal case-insensitive equality. */
module Strings {

  /** `Char.IsWhiteSpace`: the characters of the Unicode White_Space property. */
  predicate IsWhiteSpace(c: char) {
    || ('\U{9}' <= c <= '\U{D}')
    || c == ' ' || c == '\U{85}' || c == '\U{A0}' || c == '\U{1680}'
    || ('\U{2000}' <= c <= '\U{200A}')
    || c == '\U{2028}' || c == '\U{2029}' || c == '\U{202F}' || c == '\U{205F}' || c == '\U{3000}'
  }

  /** `String.IsNullOrWhiteSpace` on a non-null string: no character other than white space. */
  predicate IsNullOrWhiteSpace(s: string) {
    forall k :: 0 <= k < |s| ==> IsWhiteSpace(s[k])
  }

  /** Length of the longest all-white-space prefix of `s`. */
  function LeadingWhiteSpace(s: string): (n: nat)
    ensures n <= |s|
    ensures n < |s| ==> !IsWhiteSpace(s[n])
  {
    if s == [] || !IsWhiteSpace(s[0]) then 0 else LeadingWhiteSpace(s[1..]) + 1
  }

  /** Everything before `LeadingWhiteSpace(s)` is white space. */
  lemma {:induction false} LeadingWhiteSpaceIsBlank(s: string)
    ensures IsNullOrWhiteSpace(s[..LeadingWhiteSpace(s)])
  {
    if s != [] && IsWhiteSpace(s[0]) {
      LeadingWhiteSpaceIsBlank(s[1..]);
      var m := LeadingWhiteSpace(s[1..]);
      assert s[..m + 1] == [s[0]] + s[1..][..m];
    }
  }

  /** Length of the longest all-white-space suffix of `s`. */
  function TrailingWhiteSpace(s: string): (n: nat)
    ensures n <= |s|
    ensures n < |s| ==> !IsWhiteSpace(s[|s| - n - 1])
  {
    if s == [] || !IsWhiteSpace(s[|s| - 1]) then 0 else TrailingWhiteSpace(s[..|s| - 1]) + 1
  }

  /** Everything after the last `TrailingWhiteSpace(s)` characters' start is white space. */
  lemma {:induction false} TrailingWhiteSpaceIsBlank(s: string)
    ensures IsNullOrWhiteSpace(s[|s| - TrailingWhiteSpace(s)..])
  {
    if s != [] && IsWhiteSpace(s[|s| - 1]) {
      var p := s[..|s| - 1];
      TrailingWhiteSpaceIsBlank(p);
      var m := TrailingWhiteSpace(p);
      var q := s[|s| - (m + 1)..];
      forall k | 0 <= k < |q| ensures IsWhiteSpace(q[k]) {
        if k < m {
          assert q[k] == p[|p| - m..][k];
        }
      }
    }
  }

  /** `String.Trim()`: `s` with white space removed from its start, then from its end. */
  function Trim(s: string): string {
    var t := s[LeadingWhiteSpace(s)..];
    t[..|t| - TrailingWhiteSpace(t)]
  }

  /** The trimmed string is the slice of `s` that starts after the leading white
      space; everything cut off on either side is white space, and the result neither
      starts nor ends with white space. */
  lemma {:induction false} TrimIsSliceWithoutOuterWhiteSpace(s: string)
    ensures LeadingWhiteSpace(s) + |Trim(s)| <= |s|
    ensures Trim(s) == s[LeadingWhiteSpace(s)..LeadingWhiteSpace(s) + |Trim(s)|]
    ensures IsNullOrWhiteSpace(s[..LeadingWhiteSpace(s)])
    ensures IsNullOrWhiteSpace(s[LeadingWhiteSpace(s) + |Trim(s)|..])
    ensures Trim(s) == [] || (!IsWhiteSpace(Trim(s)[0]) && !IsWhiteSpace(Trim(s)[|Trim(s)| - 1]))
  {
    var n := LeadingWhiteSpace(s);
    var t := s[n..];
    var j := TrailingWhiteSpace(t);
    var r := t[..|t| - j];
    assert r == Trim(s);
    LeadingWhiteSpaceIsBlank(s);
    TrailingWhiteSpaceIsBlank(t);
    assert r == s[n..n + |r|];
    assert s[n + |r|..] == t[|t| - j..];
    if r != [] {
      assert r[0] == s[n];
      assert r[|r| - 1] == t[|t| - j - 1];
    }
  }

  /** Trimming leaves nothing exactly when the string is blank: the empty check of
      the Add handler and the blank check of the base directory agree. */
  lemma {:induction false} TrimEmptyIffBlank(s: string)
    ensures Trim(s) == "" <==> IsNullOrWhiteSpace(s)
  {
    TrimIsSliceWithoutOuterWhiteSpace(s);
    var n := LeadingWhiteSpace(s);
    if Trim(s) == "" {
      assert n == |s|;
      forall k | 0 <= k < |s| ensures IsWhiteSpace(s[k]) {
        assert s[..n][k] == s[k];
      }
    }
  }

  /** Trimming twice is the same as trimming once. */
  lemma {:induction false} TrimIdempotent(s: string)
    ensures Trim(Trim(s)) == Trim(s)
  {
    TrimIsSliceWithoutOuterWhiteSpace(s);
    var r := Trim(s);
    if r != "" {
      assert LeadingWhiteSpace(r) == 0;
      assert TrailingWhiteSpace(r) == 0;
    }
  }

  /** Upper-case mapping of one character, as ordinal case-insensitive comparison
      applies it (ASCII letters only). */
  function ToUpperOrdinal(c: char): (u: char)
    ensures ('a' <= c <= 'z') ==> 'A' <= u <= 'Z' && u as int - 'A' as int == c as int - 'a' as int
    ensures !('a' <= c <= 'z') ==> u == c
  {
    if 'a' <= c <= 'z' then (c as int - 32) as char else c
  }

  /** Every character of `s` mapped to upper case, as ordinal case-insensitive
      comparison sees the string. */
  function ToUpperOrdinalString(s: string): (u: string)
    ensures |u| == |s|
  {
    if s == [] then [] else [ToUpperOrdinal(s[0])] + ToUpperOrdinalString(s[1..])
  }

  /** The upper-cased string maps each character on its own, position by position. */
  lemma {:induction false} ToUpperOrdinalStringPointwise(s: string)
    ensures forall k :: 0 <= k < |s| ==> ToUpperOrdinalString(s)[k] == ToUpperOrdinal(s[k])
  {
    if s != [] {
      ToUpperOrdinalStringPointwise(s[1..]);
    }
  }

  /** `String.Equals(a, b, StringComparison.OrdinalIgnoreCase)`, character by
      character. */
  predicate EqualsIgnoreCase(a: string, b: string) {
    if a == [] || b == [] then a == b
    else ToUpperOrdinal(a[0]) == ToUpperOrdinal(b[0]) && EqualsIgnoreCase(a[1..], b[1..])
  }

  /** Two strings are equal ignoring case exactly when their upper-case forms are
      equal. */
  lemma {:induction false} EqualsIgnoreCaseIffSameUpperCase(a: string, b: string)
    ensures EqualsIgnoreCase(a, b) <==> ToUpperOrdinalString(a) == ToUpperOrdinalString(b)
  {
    if a != [] && b != [] {
      EqualsIgnoreCaseIffSameUpperCase(a[1..], b[1..]);
      var ua, ub := ToUpperOrdinalString(a), ToUpperOrdinalString(b);
      assert ua == [ToUpperOrdinal(a[0])] + ToUpperOrdinalString(a[1..]);
      assert ub == [ToUpperOrdinal(b[0])] + ToUpperOrdinalString(b[1..]);
      if ua == ub {
        assert ua[0] == ub[0];
        assert ua[1..] == ub[1..];
      }
    }
  }

  /** Strings that are equal are equal ignoring case, and strings equal ignoring case
      have the same length. */
  lemma {:induction false} EqualsIgnoreCaseBasics(a: string, b: string)
    ensures a == b ==> EqualsIgnoreCase(a, b)
    ensures EqualsIgnoreCase(a, b) ==> |a| == |b|
  {
    if a != [] && b != [] {
      EqualsIgnoreCaseBasics(a[1..], b[1..]);
    }
  }
}
