/** Small facts about sequences and the search every editor starts with. */
module Sequences {

  /** Index of the first element with the property, or the length. */
  function FirstWhere<T>(s: seq<T>, p: T -> bool): (i: nat)
    ensures i <= |s| && (i < |s| ==> p(s[i]))
    ensures forall j :: 0 <= j < i ==> !p(s[j])
  {
    if s == [] || p(s[0]) then 0 else 1 + FirstWhere(s[1..], p)
  }

  lemma Associates<T>(a: seq<T>, b: seq<T>, c: seq<T>)
    ensures a + b + c == a + (b + c)
  {
  }

  lemma ThreeParts<T>(s: seq<T>, i: nat, j: nat)
    requires i <= j <= |s|
    ensures s == s[..i] + (s[i..j] + s[j..])
  {
  }

  lemma TwoParts<T>(s: seq<T>, i: nat)
    requires i <= |s|
    ensures s == s[..i] + s[i..]
  {
  }

  lemma NothingBehind<T>(s: seq<T>)
    ensures s + [] == s
  {
  }

  lemma SplitAround<T>(s: seq<T>, i: nat)
    requires i < |s|
    ensures s == s[..i] + ([s[i]] + s[i + 1..])
  {
  }

  lemma SliceOfTail<T>(s: seq<T>, i: nat, j: nat)
    requires i <= j < |s|
    ensures s[1..][i..j] == s[i + 1..j + 1]
  {
  }

  lemma Slices<T>(a: seq<T>, b: seq<T>, c: seq<T>)
    ensures var t := a + (b + c);
      t[..|a|] == a && t[|a|..|a| + |b|] == b && t[|a| + |b|..] == c
  {
  }

  // ----- sections: from the first `p` up to the next `q`

  /** Index of the first element with the property at or after `i`, or the length. */
  function FirstFrom<T>(s: seq<T>, p: T -> bool, i: nat): (j: nat)
    requires i <= |s|
    ensures i <= j <= |s| && (j < |s| ==> p(s[j]))
    ensures forall k :: i <= k < j ==> !p(s[k])
    decreases |s| - i
  {
    if i == |s| || p(s[i]) then i else FirstFrom(s, p, i + 1)
  }

  /** `sec` starts with the first `p` of the whole and ends before the next `q`. */
  ghost predicate Sectioned<T>(p: T -> bool, q: T -> bool, a: seq<T>, sec: seq<T>, c: seq<T>) {
    && (forall k :: 0 <= k < |a| ==> !p(a[k]))
    && sec != [] && p(sec[0]) && (forall k :: 1 <= k < |sec| ==> !q(sec[k]))
    && (c != [] ==> q(c[0]))
  }

  lemma FirstFromIs<T>(s: seq<T>, p: T -> bool, i: nat, j: nat)
    requires i <= j <= |s| && (j < |s| ==> p(s[j])) && forall k :: i <= k < j ==> !p(s[k])
    ensures FirstFrom(s, p, i) == j
  {
    var k := FirstFrom(s, p, i);
    assert !(k < j) && !(j < k);
  }

  lemma SectionStart<T>(p: T -> bool, a: seq<T>, rest: seq<T>)
    requires (forall k :: 0 <= k < |a| ==> !p(a[k])) && rest != [] && p(rest[0])
    ensures FirstFrom(a + rest, p, 0) == |a|
  {
    assert (a + rest)[|a|] == rest[0];
    FirstFromIs(a + rest, p, 0, |a|);
  }

  lemma SectionStop<T>(q: T -> bool, a: seq<T>, sec: seq<T>, c: seq<T>)
    requires sec != [] && (forall k :: 1 <= k < |sec| ==> !q(sec[k])) && (c != [] ==> q(c[0]))
    ensures FirstFrom(a + (sec + c), q, |a| + 1) == |a| + |sec|
  {
    var ls := a + (sec + c);
    forall k | |a| + 1 <= k < |a| + |sec| ensures !q(ls[k]) { assert ls[k] == sec[k - |a|]; }
    if c != [] { assert ls[|a| + |sec|] == c[0]; }
    FirstFromIs(ls, q, |a| + 1, |a| + |sec|);
  }

  lemma SectionIsFound<T>(p: T -> bool, q: T -> bool, a: seq<T>, sec: seq<T>, c: seq<T>)
    requires Sectioned(p, q, a, sec, c)
    ensures var ls := a + (sec + c);
      FirstFrom(ls, p, 0) == |a| && FirstFrom(ls, q, |a| + 1) == |a| + |sec|
  {
    SectionStart(p, a, sec + c);
    SectionStop(q, a, sec, c);
  }

  lemma FoundIsSection<T>(p: T -> bool, q: T -> bool, ls: seq<T>, i: nat, j: nat)
    requires i == FirstFrom(ls, p, 0) < |ls| && j == FirstFrom(ls, q, i + 1)
    ensures Sectioned(p, q, ls[..i], ls[i..j], ls[j..])
  {
    assert forall k :: 0 <= k < i ==> ls[..i][k] == ls[k];
    assert forall k :: 0 <= k < j - i ==> ls[i..j][k] == ls[i + k];
  }
}
