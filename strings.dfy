/**
 * The few `str` operations the navigation pipeline relies on: `trim`,
 * `contains`, `starts_with` and `ends_with`, over `string` (`seq<char>`,
 * one element per Unicode scalar value, as Rust's `char`).
 */
module Strings {

  /** Rust's `char::is_whitespace`: the Unicode White_Space property. */
  predicate IsWhitespace(c: char) {
    ('\t' <= c <= '\r') || c == ' ' || c == '\U{0085}' || c == '\U{00A0}' || c == '\U{1680}'
    || ('\U{2000}' <= c <= '\U{200A}') || c == '\U{2028}' || c == '\U{2029}'
    || c == '\U{202F}' || c == '\U{205F}' || c == '\U{3000}'
  }

  predicate StartsWith(s: string, prefix: string) {
    |prefix| <= |s| && s[..|prefix|] == prefix
  }

  predicate EndsWith(s: string, suffix: string) {
    |suffix| <= |s| && s[|s| - |suffix|..] == suffix
  }

  /** `sub` occurs in `s` starting at position `i`. */
  predicate OccursAt(s: string, sub: string, i: int) {
    0 <= i && i + |sub| <= |s| && s[i..i + |sub|] == sub
  }

  /** `str::contains` for a string pattern, by scanning the start positions one by one. */
  function Contains(s: string, sub: string): (r: bool)
    ensures r <==> exists i :: OccursAt(s, sub, i)
    decreases |s|
  {
    if StartsWith(s, sub) then
      assert OccursAt(s, sub, 0);
      true
    else if s == [] then
      false
    else
      var r := Contains(s[1..], sub);
      assert r ==> exists i :: OccursAt(s, sub, i) by {
        if r {
          var i :| OccursAt(s[1..], sub, i);
          assert s[1..][i..i + |sub|] == s[i + 1..i + 1 + |sub|];
          assert OccursAt(s, sub, i + 1);
        }
      }
      assert (exists i :: OccursAt(s, sub, i)) ==> r by {
        if i :| OccursAt(s, sub, i) {
          assert i != 0;
          assert s[1..][i - 1..i - 1 + |sub|] == s[i..i + |sub|];
          assert OccursAt(s[1..], sub, i - 1);
        }
      }
      r
  }

  /** An occurrence inside `s` is still an occurrence once text is added on either side. */
  lemma ContainsInContext(pre: string, s: string, post: string, sub: string)
    requires Contains(s, sub)
    ensures Contains(pre + s + post, sub)
  {
    var i :| OccursAt(s, sub, i);
    var t := pre + s + post;
    assert t[|pre| + i..|pre| + i + |sub|] == s[i..i + |sub|];
    assert OccursAt(t, sub, |pre| + i);
  }

  /** A suffix of `s` stays a suffix whatever is written in front of `s`. */
  lemma EndsWithAfterPrefix(pre: string, s: string, suffix: string)
    requires EndsWith(s, suffix)
    ensures EndsWith(pre + s, suffix)
  {
    var t := pre + s;
    assert t[|t| - |suffix|..] == s[|s| - |suffix|..];
  }

  /** The number of whitespace characters `s` starts with. */
  function LeadingWhitespace(s: string): (n: nat)
    ensures n <= |s|
    ensures forall k :: 0 <= k < n ==> IsWhitespace(s[k])
    ensures n < |s| ==> !IsWhitespace(s[n])
  {
    if s != [] && IsWhitespace(s[0]) then
      var n := 1 + LeadingWhitespace(s[1..]);
      assert forall k :: 1 <= k < n ==> s[k] == s[1..][k - 1];
      n
    else
      0
  }

  /** The number of whitespace characters `s` ends with. */
  function TrailingWhitespace(s: string): (n: nat)
    ensures n <= |s|
    ensures forall k :: |s| - n <= k < |s| ==> IsWhitespace(s[k])
    ensures n < |s| ==> !IsWhitespace(s[|s| - n - 1])
  {
    if s != [] && IsWhitespace(s[|s| - 1]) then
      var n := 1 + TrailingWhitespace(s[..|s| - 1]);
      assert forall k :: |s| - n <= k < |s| - 1 ==> s[k] == s[..|s| - 1][k];
      n
    else
      0
  }

  /** `s[i..j]` is what is left of `s` once whitespace is stripped from both ends. */
  ghost predicate Stripped(s: string, i: int, j: int) {
    && 0 <= i <= j <= |s|
    && (forall k :: 0 <= k < i ==> IsWhitespace(s[k]))
    && (forall k :: j <= k < |s| ==> IsWhitespace(s[k]))
    && (i < j ==> !IsWhitespace(s[i]) && !IsWhitespace(s[j - 1]))
  }

  /** The trailing run of a suffix of `s` is a trailing run of `s`. */
  lemma TrailingRunOfSuffix(s: string, i: nat, n: nat)
    requires i <= |s| && n == TrailingWhitespace(s[i..])
    ensures forall k :: |s| - n <= k < |s| ==> IsWhitespace(s[k])
    ensures i < |s| - n ==> !IsWhitespace(s[|s| - n - 1])
  {
    var t := s[i..];
    forall k | |s| - n <= k < |s|
      ensures IsWhitespace(s[k])
    {
      assert s[k] == t[k - i];
    }
    if i < |s| - n {
      assert s[|s| - n - 1] == t[|t| - n - 1];
    }
  }

  /** Stripping the leading run, then the trailing run of what is left, strips both ends of `s`. */
  lemma StripBothEnds(s: string, i: nat, n: nat)
    requires i == LeadingWhitespace(s) && n == TrailingWhitespace(s[i..])
    ensures i <= |s| - n && Stripped(s, i, |s| - n)
  {
    TrailingRunOfSuffix(s, i, n);
  }

  /** `str::trim`: `trim_start` and then `trim_end`, keeping the middle. */
  function Trim(s: string): (r: string)
    ensures var i := LeadingWhitespace(s); Stripped(s, i, i + |r|) && r == s[i..i + |r|]
  {
    var i := LeadingWhitespace(s);
    var n := TrailingWhitespace(s[i..]);
    StripBothEnds(s, i, n);
    s[i..|s| - n]
  }

  /** A string with no whitespace at either end is its own trim. */
  lemma TrimOfTrimmed(s: string)
    requires s == [] || (!IsWhitespace(s[0]) && !IsWhitespace(s[|s| - 1]))
    ensures Trim(s) == s
  {
    if s != [] {
      assert LeadingWhitespace(s) == 0;
      assert TrailingWhitespace(s) == 0;
    }
  }

  /** Trimming twice is trimming once. */
  lemma TrimIdempotent(s: string)
    ensures Trim(Trim(s)) == Trim(s)
  {
    TrimOfTrimmed(Trim(s));
  }
}
