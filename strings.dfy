/*
 * The two .NET string operations that ChunkText relies on: String.Trim()
 * and String.LastIndexOf(char, int). A .NET string is a sequence of UTF-16
 * code units, while a Dafny char is a Unicode scalar value: the model is exact
 * for text whose characters all lie in the Basic Multilingual Plane.
 */
module Strings {

  /** What a .NET call returns, or the ArgumentOutOfRangeException it throws. */
  datatype Result<T> = Ok(value: T) | ArgumentOutOfRange

  /** char.IsWhiteSpace: the Unicode space, line and paragraph separators
      (categories Zs, Zl, Zp) and the control characters U+0009..U+000D, U+0085. */
  predicate IsWhiteSpace(c: char)
    ensures c <= '\U{7F}' ==> (IsWhiteSpace(c) <==> c == ' ' || '\t' <= c <= '\r')
    ensures IsWhiteSpace(c) ==> c <= ' ' || '\U{85}' <= c <= '\U{3000}'
  {
    c == ' ' || ('\t' <= c <= '\r') || c == '\U{85}' || c == '\U{A0}' || c == '\U{1680}'
    || ('\U{2000}' <= c <= '\U{200A}') || c == '\U{2028}' || c == '\U{2029}'
    || c == '\U{202F}' || c == '\U{205F}' || c == '\U{3000}'
  }

  /** The number of white-space characters at the start of s: everything
      before it is white space, and the character at it (if any) is not. */
  function LeadingWhiteSpace(s: string): (n: nat)
    ensures n <= |s|
    ensures forall i :: 0 <= i < n ==> IsWhiteSpace(s[i])
    ensures n < |s| ==> !IsWhiteSpace(s[n])
  {
    if s != [] && IsWhiteSpace(s[0]) then 1 + LeadingWhiteSpace(s[1..]) else 0
  }

  /** Drops the trailing white space: what is dropped is all white space,
      and what is kept is a prefix that does not end with white space. */
  function TrimEnd(s: string): (r: string)
    ensures |r| <= |s| && r == s[..|r|]
    ensures forall i :: |r| <= i < |s| ==> IsWhiteSpace(s[i])
    ensures r != [] ==> !IsWhiteSpace(r[|r| - 1])
  {
    if s != [] && IsWhiteSpace(s[|s| - 1]) then TrimEnd(s[..|s| - 1]) else s
  }

  /** String.Trim(): the infix of s that starts after its leading white space
      and stops before its trailing white space; it neither starts nor ends
      with white space, and everything cut off is white space. */
  function Trim(s: string): (r: string)
    ensures LeadingWhiteSpace(s) + |r| <= |s|
    ensures r == s[LeadingWhiteSpace(s)..LeadingWhiteSpace(s) + |r|]
    ensures forall i :: LeadingWhiteSpace(s) + |r| <= i < |s| ==> IsWhiteSpace(s[i])
    ensures r != [] ==> !IsWhiteSpace(r[0]) && !IsWhiteSpace(r[|r| - 1])
  {
    var lo := LeadingWhiteSpace(s);
    var r := TrimEnd(s[lo..]);
    assert r != [] ==> r[0] == s[lo];
    r
  }

  /** A chunk trims to the empty string exactly when it is all white space
      (a lone "\n" between two sentences, for instance). */
  lemma TrimEmptyIff(s: string)
    ensures Trim(s) == [] <==> forall i :: 0 <= i < |s| ==> IsWhiteSpace(s[i])
  {
  }

  /** The largest j <= i with s[j] == c, or -1 when there is none. */
  function LastIndexAtOrBefore(s: string, c: char, i: int): (r: int)
    requires -1 <= i < |s|
    ensures -1 <= r <= i
    ensures r >= 0 ==> s[r] == c
    ensures forall j :: r < j <= i ==> s[j] != c
    decreases i + 1
  {
    if i < 0 then -1
    else if s[i] == c then i
    else LastIndexAtOrBefore(s, c, i - 1)
  }

  /** String.LastIndexOf(char value, int startIndex): searches backward from
      startIndex INCLUSIVE. On an empty string it returns -1; otherwise a
      startIndex outside [0, |s|) throws ArgumentOutOfRangeException. */
  function LastIndexOf(s: string, c: char, startIndex: int): (r: Result<int>)
    ensures r.ArgumentOutOfRange? <==> |s| > 0 && !(0 <= startIndex < |s|)
    ensures |s| == 0 ==> r == Ok(-1)
    ensures r.Ok? && |s| > 0 ==>
      -1 <= r.value <= startIndex
      && (r.value >= 0 ==> s[r.value] == c)
      && forall j :: r.value < j <= startIndex ==> s[j] != c
  {
    if |s| == 0 then Ok(-1)
    else if startIndex < 0 || startIndex >= |s| then ArgumentOutOfRange
    else Ok(LastIndexAtOrBefore(s, c, startIndex))
  }
}
