/** `str.lstrip`, `str.rstrip` and their newline-only forms. */
module Stripping {
  import opened Strings

  function LStrip(s: string): string {
    if s != "" && IsSpace(s[0]) then LStrip(s[1..]) else s
  }

  function LStripNewlines(s: string): (r: string)
    ensures r == "" || r[0] != '\n'
    ensures |r| <= |s| && r == s[|s| - |r|..]
  {
    if s != "" && s[0] == '\n' then LStripNewlines(s[1..]) else s
  }

  function RStripNewlines(s: string): (r: string)
    ensures r == "" || r[|r| - 1] != '\n'
    ensures r <= s
  {
    if s != "" && s[|s| - 1] == '\n' then RStripNewlines(s[..|s| - 1]) else s
  }

  function RStrip(s: string): (r: string)
    ensures r == "" || !IsSpace(r[|r| - 1])
    ensures r <= s && Blank(s[|r|..])
  {
    if s != "" && IsSpace(s[|s| - 1]) then
      assert s == s[..|s| - 1] + [s[|s| - 1]];
      RStrip(s[..|s| - 1])
    else s
  }

  /** `not s.strip()`. */
  predicate StripsToNothing(s: string) {
    RStrip(s) == ""
  }

  /** Stripping leaves nothing of a blank text, and a text that is not blank otherwise. */
  lemma BlankRest(s: string)
    ensures Blank(s) <==> RStrip(s) == ""
    ensures !Blank(s) ==> !Blank(RStrip(s))
  {
    var r := RStrip(s);
    assert forall i :: 0 <= i < |r| ==> s[i] == r[i];
    assert forall i :: |r| <= i < |s| ==> s[i] == s[|r|..][i - |r|];
  }

  lemma {:induction false} RStripIs(r: string, w: string)
    requires (r == "" || !IsSpace(r[|r| - 1])) && Blank(w)
    ensures RStrip(r + w) == r
    decreases |w|
  {
    var s := r + w;
    if w == "" {
      assert s == r;
    } else {
      assert s[..|s| - 1] == r + w[..|w| - 1];
      assert s[|s| - 1] == w[|w| - 1];
      RStripIs(r, w[..|w| - 1]);
    }
  }

  predicate AllNewlines(s: string) {
    forall i :: 0 <= i < |s| ==> s[i] == '\n'
  }

  lemma BlankNewlines(w: string)
    requires AllNewlines(w)
    ensures Blank(w)
  {
  }

  lemma BlankConcat(a: string, b: string)
    ensures Blank(a + b) <==> Blank(a) && Blank(b)
  {
    assert forall i :: 0 <= i < |a| ==> (a + b)[i] == a[i];
    assert forall i :: 0 <= i < |b| ==> (a + b)[|a| + i] == b[i];
  }

  lemma {:induction false} RStripNewlinesIs(r: string, w: string)
    requires (r == "" || r[|r| - 1] != '\n') && AllNewlines(w)
    ensures RStripNewlines(r + w) == r
    decreases |w|
  {
    if w == "" {
      assert r + w == r;
    } else {
      assert (r + w)[..|r + w| - 1] == r + w[..|w| - 1];
      RStripNewlinesIs(r, w[..|w| - 1]);
    }
  }

  lemma {:induction false} RStripNewlinesRest(s: string)
    ensures AllNewlines(s[|RStripNewlines(s)|..])
    decreases |s|
  {
    if s != "" && s[|s| - 1] == '\n' {
      RStripNewlinesRest(s[..|s| - 1]);
      var k := |RStripNewlines(s)|;
      assert s[k..] == s[..|s| - 1][k..] + "\n";
    }
  }

  lemma SplitBehind(s: string, k: nat, w: string)
    requires k <= |s|
    ensures s + w == s[..k] + (s[k..] + w)
  {
  }

  /** Stripping newlines ignores newlines added behind. */
  lemma RStripNewlinesExtended(s: string, w: string)
    requires AllNewlines(w)
    ensures RStripNewlines(s + w) == RStripNewlines(s)
  {
    RStripNewlinesRest(s);
    var r := RStripNewlines(s);
    assert s[..|r|] == r;
    SplitBehind(s, |r|, w);
    RStripNewlinesIs(r, s[|r|..] + w);
  }

  lemma RStripExtended(s: string, w: string)
    requires Blank(w)
    ensures RStrip(s + w) == RStrip(s)
  {
    var r := RStrip(s);
    assert s[..|r|] == r;
    SplitBehind(s, |r|, w);
    RStripIs(r, s[|r|..] + w);
  }
}
