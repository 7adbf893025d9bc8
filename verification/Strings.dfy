/** String primitives the modelled code relies on: prefix and suffix tests,
    substring search, and the stripping functions of Python's `str`. */
module Strings {

  predicate StartsWith(s: string, prefix: string) {
    prefix <= s
  }

  predicate EndsWith(s: string, suffix: string) {
    |suffix| <= |s| && s[|s| - |suffix|..] == suffix
  }

  /** The characters Python's `str.isspace` accepts below code point 128. */
  predicate IsSpace(c: char) {
    c == ' ' || ('\t' <= c <= '\r') || ('\U{1C}' <= c <= '\U{1F}')
  }

  predicate Blank(s: string) {
    forall i :: 0 <= i < |s| ==> IsSpace(s[i])
  }

  lemma EndsWithExtend(a: string, b: string, c: string)
    ensures EndsWith(a, c) ==> EndsWith(b + a, c)
  {
    if EndsWith(a, c) {
      assert (b + a)[|b + a| - |c|..] == a[|a| - |c|..];
    }
  }

  predicate OccursAt(s: string, pattern: string, i: int) {
    0 <= i && i + |pattern| <= |s| && s[i..i + |pattern|] == pattern
  }

  /** `s.find(pattern, start)`: the first occurrence at or after `start`, or -1. */
  function Find(s: string, pattern: string, start: nat): (r: int)
    ensures r == -1 || (start <= r && OccursAt(s, pattern, r))
    ensures forall j :: start <= j && (r == -1 || j < r) ==> !OccursAt(s, pattern, j)
    decreases |s| - start
  {
    if start + |pattern| > |s| then -1
    else if OccursAt(s, pattern, start) then start
    else Find(s, pattern, start + 1)
  }

  predicate Contains(s: string, pattern: string) {
    Find(s, pattern, 0) >= 0
  }

  /** An occurrence in the first part of a text. */
  lemma OccursBefore(a: string, b: string, pattern: string, i: nat)
    requires i + |pattern| <= |a|
    ensures OccursAt(a + b, pattern, i) <==> OccursAt(a, pattern, i)
  {
    assert (a + b)[i..i + |pattern|] == a[i..i + |pattern|];
  }

  /** An occurrence that reaches from the first part into the second one holds the last
      character of the first. */
  lemma OccursAcross(a: string, b: string, pattern: string, i: nat)
    requires i < |a| < i + |pattern| && OccursAt(a + b, pattern, i)
    ensures pattern[|a| - 1 - i] == a[|a| - 1]
  {
    assert (a + b)[i..i + |pattern|][|a| - 1 - i] == a[|a| - 1];
  }

  /** Any occurrence without an earlier one is the one `find` returns. */
  lemma FindIs(s: string, pattern: string, start: nat, at: nat)
    requires start <= at && OccursAt(s, pattern, at)
    requires forall j :: start <= j < at ==> !OccursAt(s, pattern, j)
    ensures Find(s, pattern, start) == at
  {
  }

  lemma FindNone(s: string, pattern: string, start: nat)
    requires forall j :: start <= j ==> !OccursAt(s, pattern, j)
    ensures Find(s, pattern, start) == -1
  {
  }
}
