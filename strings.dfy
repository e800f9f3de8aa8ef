/**
 * The Rust `str` and `char` routines the runner relies on: `split` and
 * `splitn` on a single char, `trim`, and `eq_ignore_ascii_case`.
 */
module Strings {
  import opened Util

  /** Joins `parts` with one `sep` between neighbours; the inverse of Split and SplitN. */
  function Join(parts: seq<string>, sep: char): string
  {
    if |parts| == 0 then ""
    else if |parts| == 1 then parts[0]
    else parts[0] + [sep] + Join(parts[1..], sep)
  }

  /**
   * `s.split(sep)`: every maximal run of non-`sep` chars between two
   * separators (or an end of `s`) is one piece, empty pieces included.
   */
  function Split(s: string, sep: char): (parts: seq<string>)
    ensures |parts| == Count(s, sep) + 1
    ensures forall i :: 0 <= i < |parts| ==> sep !in parts[i]
    ensures Join(parts, sep) == s
  {
    if s == [] then [""]
    else
      var rest := Split(s[1..], sep);
      if s[0] == sep then
        assert s == [sep] + s[1..];
        [""] + rest
      else
        assert s == [s[0]] + s[1..];
        [[s[0]] + rest[0]] + rest[1..]
  }

  lemma SplitOfPiece(t: string, sep: char)
    requires sep !in t
    ensures Split(t, sep) == [t]
  {
  }

  lemma {:induction false} SplitAfterPiece(t: string, u: string, sep: char)
    requires sep !in t
    ensures Split(t + [sep] + u, sep) == [t] + Split(u, sep)
  {
    var s := t + [sep] + u;
    if t == [] {
      assert s[1..] == u;
    } else {
      assert s[0] == t[0] && s[0] != sep;
      assert s[1..] == t[1..] + [sep] + u;
      SplitAfterPiece(t[1..], u, sep);
      var rest := Split(s[1..], sep);
      assert rest[0] == t[1..] && rest[1..] == Split(u, sep);
      assert Split(s, sep) == [[s[0]] + rest[0]] + rest[1..];
      assert [t[0]] + t[1..] == t;
    }
  }

  /** Splitting what Join built gives the pieces back, when no piece holds the separator. */
  lemma {:induction false} SplitJoin(parts: seq<string>, sep: char)
    requires |parts| >= 1
    requires forall i :: 0 <= i < |parts| ==> sep !in parts[i]
    ensures Split(Join(parts, sep), sep) == parts
  {
    if |parts| == 1 {
      SplitOfPiece(parts[0], sep);
    } else {
      SplitJoin(parts[1..], sep);
      SplitAfterPiece(parts[0], Join(parts[1..], sep), sep);
      assert [parts[0]] + parts[1..] == parts;
    }
  }

  /**
   * The char index of the first `c` in `s`: the separator search `splitn`
   * makes before cutting off each piece.
   */
  function IndexOf(s: string, c: char): (r: Option<nat>)
    ensures r.Some? ==> r.value < |s| && s[r.value] == c && c !in s[..r.value]
    ensures r.None? <==> c !in s
  {
    if s == [] then None
    else if s[0] == c then Some(0)
    else match IndexOf(s[1..], c)
      case None => None
      case Some(i) =>
        assert s[..i + 1] == [s[0]] + s[1..][..i];
        Some(i + 1)
  }

  /**
   * `s.splitn(n, sep)`: like Split, but stops after `n - 1` separators and
   * leaves the rest of `s`, separators and all, in the last piece.
   */
  function SplitN(s: string, n: nat, sep: char): (parts: seq<string>)
    ensures |parts| == Min(n, Count(s, sep) + 1)
    ensures forall i :: 0 <= i < |parts| - 1 ==> sep !in parts[i]
    decreases n
  {
    if n == 0 then []
    else if n == 1 then [s]
    else match IndexOf(s, sep)
      case None =>
        CountPositive(s, sep);
        [s]
      case Some(i) =>
        assert s == s[..i] + [sep] + s[i + 1..];
        CountPositive(s[..i], sep);
        CountAppend(s[..i] + [sep], s[i + 1..], sep);
        CountAppend(s[..i], [sep], sep);
        [s[..i]] + SplitN(s[i + 1..], n - 1, sep)
  }

  /** The pieces SplitN returns, joined back, are the input. */
  lemma {:induction false} SplitNJoin(s: string, n: nat, sep: char)
    requires n >= 1
    ensures Join(SplitN(s, n, sep), sep) == s
    decreases n
  {
    if n > 1 && IndexOf(s, sep).Some? {
      var i := IndexOf(s, sep).value;
      SplitNJoin(s[i + 1..], n - 1, sep);
      assert s == s[..i] + [sep] + s[i + 1..];
    }
  }

  /** The 25 code points with the Unicode White_Space property, in order. */
  const WhiteSpaceCodePoints: seq<char> := [
    '\t', '\n', '\U{0B}', '\U{0C}', '\r', ' ', '\U{85}', '\U{A0}', '\U{1680}',
    '\U{2000}', '\U{2001}', '\U{2002}', '\U{2003}', '\U{2004}', '\U{2005}',
    '\U{2006}', '\U{2007}', '\U{2008}', '\U{2009}', '\U{200A}',
    '\U{2028}', '\U{2029}', '\U{202F}', '\U{205F}', '\U{3000}']

  /** The list names 25 distinct code points, in increasing order. */
  lemma WhiteSpaceCodePointsAscending()
    ensures |WhiteSpaceCodePoints| == 25
    ensures forall i, j :: 0 <= i < j < |WhiteSpaceCodePoints| ==> WhiteSpaceCodePoints[i] < WhiteSpaceCodePoints[j]
  {
  }

  /**
   * Rust's `char::is_whitespace`. Among ASCII chars it also accepts the
   * vertical tab, which `char::is_ascii_whitespace` does not.
   */
  predicate IsWhitespace(c: char)
    ensures IsWhitespace(c) <==> c in WhiteSpaceCodePoints
    ensures c as int < 0x80 ==> (IsWhitespace(c) <==> c == ' ' || '\t' <= c <= '\r')
  {
    || ('\t' <= c <= '\r')
    || c == ' '
    || c == '\U{85}'
    || c == '\U{A0}'
    || c == '\U{1680}'
    || ('\U{2000}' <= c <= '\U{200A}')
    || c == '\U{2028}'
    || c == '\U{2029}'
    || c == '\U{202F}'
    || c == '\U{205F}'
    || c == '\U{3000}'
  }

  /** The length of the longest all-whitespace prefix of `s`. */
  function LeadingWhitespace(s: string): (n: nat)
    ensures n <= |s|
    ensures forall k :: 0 <= k < n ==> IsWhitespace(s[k])
    ensures n < |s| ==> !IsWhitespace(s[n])
  {
    if s == [] || !IsWhitespace(s[0]) then 0 else 1 + LeadingWhitespace(s[1..])
  }

  /** Where the longest all-whitespace suffix of `s` starts. */
  function TrailingWhitespaceStart(s: string): (m: nat)
    ensures m <= |s|
    ensures forall k :: m <= k < |s| ==> IsWhitespace(s[k])
    ensures 0 < m ==> !IsWhitespace(s[m - 1])
  {
    if s == [] || !IsWhitespace(s[|s| - 1]) then |s| else TrailingWhitespaceStart(s[..|s| - 1])
  }

  /** `s.trim()`: `s` without its leading and trailing whitespace. */
  function Trim(s: string): (r: string)
    ensures exists i, j ::
              && 0 <= i <= j <= |s| && r == s[i..j]
              && (forall k :: 0 <= k < i ==> IsWhitespace(s[k]))
              && (forall k :: j <= k < |s| ==> IsWhitespace(s[k]))
    ensures r == [] || (!IsWhitespace(r[0]) && !IsWhitespace(r[|r| - 1]))
  {
    var i := LeadingWhitespace(s);
    if i == |s| then
      assert s[i..i] == [];
      []
    else
      var j := TrailingWhitespaceStart(s);
      assert i < j;
      s[i..j]
  }

  /** Trim removes exactly the whitespace padding around a core that has no whitespace at its ends. */
  lemma TrimOfPadded(a: string, t: string, b: string)
    requires forall k :: 0 <= k < |a| ==> IsWhitespace(a[k])
    requires forall k :: 0 <= k < |b| ==> IsWhitespace(b[k])
    requires t == [] || (!IsWhitespace(t[0]) && !IsWhitespace(t[|t| - 1]))
    ensures Trim(a + t + b) == t
  {
    var s := a + t + b;
    var i := LeadingWhitespace(s);
    if t == [] {
      assert forall k :: 0 <= k < |s| ==> IsWhitespace(s[k]) by {
        assert s == a + b;
      }
    } else {
      assert s[|a|] == t[0];
      assert i == |a|;
      var j := TrailingWhitespaceStart(s);
      assert s[|a| + |t| - 1] == t[|t| - 1];
      assert j == |a| + |t|;
      assert s[i..j] == t;
    }
  }

  /** Rust's `char::to_ascii_lowercase`. */
  function AsciiLower(c: char): (d: char)
    ensures !('A' <= d <= 'Z')
    ensures d == c || ('A' <= c <= 'Z' && d as int == c as int + 32)
  {
    if 'A' <= c <= 'Z' then (c as int + 32) as char else c
  }

  /** `c` and `d` are one ASCII letter, once upper case and once lower case. */
  predicate SameLetterOtherCase(c: char, d: char)
  {
    || ('A' <= c <= 'Z' && d as int == c as int + 32)
    || ('A' <= d <= 'Z' && c as int == d as int + 32)
  }

  /**
   * `a.eq_ignore_ascii_case(b)`. Rust compares the UTF-8 bytes; comparing
   * chars is the same test, because a byte below 0x80 only ever encodes an
   * ASCII char and lowering leaves every other byte alone.
   */
  predicate EqIgnoreAsciiCase(a: string, b: string)
    ensures EqIgnoreAsciiCase(a, b) <==>
              && |a| == |b|
              && forall i :: 0 <= i < |a| ==> a[i] == b[i] || SameLetterOtherCase(a[i], b[i])
  {
    |a| == |b| && forall i :: 0 <= i < |a| ==> AsciiLower(a[i]) == AsciiLower(b[i])
  }

  /** Lowers every ASCII letter of `s`: the reference definition for EqIgnoreAsciiCase. */
  function AsciiLowerString(s: string): (r: string)
    ensures |r| == |s|
    ensures forall i :: 0 <= i < |s| ==> r[i] == AsciiLower(s[i])
  {
    if s == [] then [] else [AsciiLower(s[0])] + AsciiLowerString(s[1..])
  }

  lemma EqIgnoreAsciiCaseIsLowerEquality(a: string, b: string)
    ensures EqIgnoreAsciiCase(a, b) <==> AsciiLowerString(a) == AsciiLowerString(b)
  {
  }

  lemma EqIgnoreAsciiCaseIsEquivalence(a: string, b: string, c: string)
    ensures EqIgnoreAsciiCase(a, a)
    ensures EqIgnoreAsciiCase(a, b) ==> EqIgnoreAsciiCase(b, a)
    ensures EqIgnoreAsciiCase(a, b) && EqIgnoreAsciiCase(b, c) ==> EqIgnoreAsciiCase(a, c)
  {
  }
}
