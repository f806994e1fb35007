/**
 * The two Python string builtins the user schemas rely on: `str.strip()` with
 * no argument, and `str.lower()`.
 */
module Text {

  /** Python's `str.isspace` on one character: the characters of bidirectional
      class WS, B or S, or of general category Zs. */
  predicate IsSpace(c: char) {
    || ('\t' <= c <= '\r')
    || ('\U{1C}' <= c <= ' ')
    || c == '\U{85}'
    || c == '\U{A0}'
    || c == '\U{1680}'
    || ('\U{2000}' <= c <= '\U{200A}')
    || c == '\U{2028}'
    || c == '\U{2029}'
    || c == '\U{202F}'
    || c == '\U{205F}'
    || c == '\U{3000}'
  }

  /** Every character of `s` from index `lo` up to `hi` is whitespace. */
  predicate SpaceBetween(s: string, lo: int, hi: int)
    requires 0 <= lo && hi <= |s|
  {
    forall k :: lo <= k < hi ==> IsSpace(s[k])
  }

  /** Every character is whitespace: Python's `not s.strip()`. */
  predicate Blank(s: string) {
    SpaceBetween(s, 0, |s|)
  }

  /** The first index at or after `i` that does not hold whitespace, or `|s|`. */
  function SkipSpaces(s: string, i: nat): (k: nat)
    requires i <= |s|
    ensures i <= k <= |s|
    ensures SpaceBetween(s, i, k)
    ensures k == |s| || !IsSpace(s[k])
    decreases |s| - i
  {
    if i < |s| && IsSpace(s[i]) then SkipSpaces(s, i + 1) else i
  }

  /** The smallest index `k`, not below `lo`, such that `s[k..hi]` is all
      whitespace. */
  function SkipSpacesBack(s: string, lo: nat, hi: nat): (k: nat)
    requires lo <= hi <= |s|
    ensures lo <= k <= hi
    ensures SpaceBetween(s, k, hi)
    ensures k == lo || !IsSpace(s[k - 1])
    decreases hi - lo
  {
    if lo < hi && IsSpace(s[hi - 1]) then SkipSpacesBack(s, lo, hi - 1) else hi
  }

  /** The slice `s[i..j]` has only whitespace around it in `s`, and neither
      starts nor ends with whitespace itself. */
  predicate StrippedAt(s: string, i: int, j: int)
    requires 0 <= i <= j <= |s|
  {
    && SpaceBetween(s, 0, i)
    && SpaceBetween(s, j, |s|)
    && (i == j || (!IsSpace(s[i]) && !IsSpace(s[j - 1])))
  }

  /** The reference description of what `s.strip()` returns: a slice of `s`
      cut out by `StrippedAt`. */
  ghost predicate IsStripOf(r: string, s: string) {
    exists i, j :: 0 <= i <= j <= |s| && StrippedAt(s, i, j) && r == s[i..j]
  }

  /** `s.strip()`: leading and trailing whitespace removed. */
  function Strip(s: string): (r: string)
    ensures |r| <= |s|
    ensures r == [] <==> Blank(s)
    ensures IsStripOf(r, s)
  {
    var i := SkipSpaces(s, 0);
    var j := SkipSpacesBack(s, i, |s|);
    s[i..j]
  }

  /** `s.strip()` is exactly the slice the reference description admits:
      that description has one solution and `Strip` computes it. */
  lemma StripCharacterized(r: string, s: string)
    ensures IsStripOf(r, s) <==> r == Strip(s)
  {
  }

  /** Stripping twice is stripping once. */
  lemma StripIdempotent(s: string)
    ensures Strip(Strip(s)) == Strip(s)
  {
  }

  /** An ASCII capital letter. */
  predicate IsUpper(c: char) {
    'A' <= c <= 'Z'
  }

  /** Contains no ASCII capital letter. */
  predicate IsLowercase(s: string) {
    forall i :: 0 <= i < |s| ==> !IsUpper(s[i])
  }

  /** `c.lower()` on one character of the ASCII range. */
  function LowerChar(c: char): char {
    if IsUpper(c) then (c as int + 32) as char else c
  }

  /** Two characters that are equal, or one is the capital of the other. */
  predicate SameIgnoringCase(a: char, b: char) {
    || a == b
    || (IsUpper(a) && b as int == a as int + 32)
    || (IsUpper(b) && a as int == b as int + 32)
  }

  /** Two strings that differ at most in the case of their letters. */
  predicate EqualIgnoringCase(s: string, t: string) {
    |s| == |t| && forall i :: 0 <= i < |s| ==> SameIgnoringCase(s[i], t[i])
  }

  /** `s.lower()`: every capital replaced by its small letter. */
  function Lower(s: string): (r: string)
    ensures IsLowercase(r)
    ensures EqualIgnoringCase(s, r)
  {
    seq(|s|, i requires 0 <= i < |s| => LowerChar(s[i]))
  }

  /** Lowering leaves an already lowercase string alone, and only those. */
  lemma LowerFixesLowercase(s: string)
    ensures Lower(s) == s <==> IsLowercase(s)
  {
  }

  /** Two strings lower to the same string exactly when they differ only in
      the case of their letters. */
  lemma LowerCollision(s: string, t: string)
    ensures Lower(s) == Lower(t) <==> EqualIgnoringCase(s, t)
  {
  }
}
