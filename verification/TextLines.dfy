/** Text as lines separated by '\n', the only line break the modelled editors
    are given. */
module TextLines {
  import opened Strings

  /** A line holds no line break. */
  predicate OneLine(s: string) {
    '\n' !in s
  }

  predicate AllLines(ls: seq<string>) {
    forall i :: 0 <= i < |ls| ==> OneLine(ls[i])
  }

  /** The lines of `t`; the last is what follows the last line break, maybe empty. */
  function Lines(t: string): (ls: seq<string>)
    ensures ls != [] && AllLines(ls)
  {
    if t == "" then [""]
    else if t[0] == '\n' then [""] + Lines(t[1..])
    else
      var rest := Lines(t[1..]);
      [[t[0]] + rest[0]] + rest[1..]
  }

  /** Every line followed by a line break. */
  function Unlines(ls: seq<string>): string {
    if ls == [] then "" else ls[0] + "\n" + Unlines(ls[1..])
  }

  /** The lines separated by line breaks. */
  function Join(ls: seq<string>): string
    requires ls != []
  {
    if |ls| == 1 then ls[0] else ls[0] + "\n" + Join(ls[1..])
  }

  lemma {:induction false} LinesOfLine(l: string, t: string)
    requires OneLine(l)
    ensures Lines(l + "\n" + t) == [l] + Lines(t)
    decreases |l|
  {
    if l == "" {
      assert l + "\n" + t == "\n" + t;
      assert ("\n" + t)[1..] == t;
    } else {
      assert (l + "\n" + t)[1..] == l[1..] + "\n" + t;
      LinesOfLine(l[1..], t);
      assert [l[0]] + l[1..] == l;
    }
  }

  lemma {:induction false} LinesOfSingle(l: string)
    requires OneLine(l)
    ensures Lines(l) == [l]
    decreases |l|
  {
    if l != "" {
      LinesOfSingle(l[1..]);
      assert [l[0]] + l[1..] == l;
    }
  }

  lemma AssociateLine(l: string, a: string, b: string)
    ensures l + "\n" + a + b == l + "\n" + (a + b)
  {
  }

  /** Complete lines in front of a text become its first lines. */
  lemma {:induction false} LinesOfUnlines(ls: seq<string>, t: string)
    requires AllLines(ls)
    ensures Lines(Unlines(ls) + t) == ls + Lines(t)
    decreases |ls|
  {
    if ls == [] {
      assert Unlines(ls) + t == t;
      assert ls + Lines(t) == Lines(t);
    } else {
      assert AllLines(ls[1..]);
      var rest := Unlines(ls[1..]) + t;
      LinesOfUnlines(ls[1..], t);
      LinesOfLine(ls[0], rest);
      AssociateLine(ls[0], Unlines(ls[1..]), t);
      assert [ls[0]] + (ls[1..] + Lines(t)) == ls + Lines(t);
    }
  }

  lemma {:induction false} LinesOfJoin(ls: seq<string>)
    requires ls != [] && AllLines(ls)
    ensures Lines(Join(ls)) == ls
    decreases |ls|
  {
    if |ls| == 1 {
      LinesOfSingle(ls[0]);
    } else {
      assert AllLines(ls[1..]);
      LinesOfJoin(ls[1..]);
      LinesOfLine(ls[0], Join(ls[1..]));
      assert [ls[0]] + ls[1..] == ls;
    }
  }

  lemma {:induction false} JoinOfLines(t: string)
    ensures Join(Lines(t)) == t
    decreases |t|
  {
    if t != "" {
      var rest := Lines(t[1..]);
      JoinOfLines(t[1..]);
      if t[0] == '\n' {
        assert Lines(t)[1..] == rest;
        assert Join(Lines(t)) == "" + "\n" + t[1..];
        assert "" + "\n" + t[1..] == [t[0]] + t[1..];
      } else {
        JoinHead(t[0], rest);
      }
    }
  }

  lemma JoinHead(c: char, rest: seq<string>)
    requires rest != []
    ensures Join([[c] + rest[0]] + rest[1..]) == [c] + Join(rest)
  {
    var ls := [[c] + rest[0]] + rest[1..];
    assert ls[1..] == rest[1..];
    if |rest| > 1 {
      assert [c] + rest[0] + "\n" + Join(rest[1..]) == [c] + (rest[0] + "\n" + Join(rest[1..]));
    }
  }

  lemma {:induction false} UnlinesConcat(a: seq<string>, b: seq<string>)
    ensures Unlines(a + b) == Unlines(a) + Unlines(b)
    decreases |a|
  {
    if a == [] {
      assert a + b == b;
    } else {
      assert (a + b)[1..] == a[1..] + b;
      UnlinesConcat(a[1..], b);
    }
  }

  lemma {:induction false} JoinSplit(ls: seq<string>, i: nat)
    requires i < |ls|
    ensures Join(ls) == Unlines(ls[..i]) + Join(ls[i..])
    decreases |ls|
  {
    if i == 0 {
      assert ls[0..] == ls;
    } else {
      JoinSplit(ls[1..], i - 1);
      assert ls[..i][1..] == ls[1..][..i - 1];
      assert ls[i..] == ls[1..][i - 1..];
      var head, mid, tail := ls[0] + "\n", Unlines(ls[..i][1..]), Join(ls[i..]);
      assert head + (mid + tail) == head + mid + tail;
    }
  }

  /** The text before and from line `i` on. */
  lemma SplitAtLine(t: string, i: nat)
    requires i < |Lines(t)|
    ensures t == Unlines(Lines(t)[..i]) + Join(Lines(t)[i..])
  {
    JoinOfLines(t);
    JoinSplit(Lines(t), i);
  }

  /** Offset of the first character of line `i`: the lengths of the lines before it. */
  function Offset(ls: seq<string>, i: nat): nat
    requires i <= |ls|
  {
    |Unlines(ls[..i])|
  }

  lemma {:induction false} OffsetSums(ls: seq<string>, i: nat)
    requires i < |ls|
    ensures Offset(ls, i + 1) == Offset(ls, i) + |ls[i]| + 1
  {
    assert ls[..i + 1] == ls[..i] + [ls[i]];
    UnlinesConcat(ls[..i], [ls[i]]);
    assert [ls[i]][1..] == [];
  }

  lemma LastLine(t: string)
    ensures var ls := Lines(t);
      && t == Unlines(ls[..|ls| - 1]) + ls[|ls| - 1]
      && (ls[|ls| - 1] != "" ==> t != "" && t[|t| - 1] != '\n')
  {
    var ls := Lines(t);
    var k := |ls| - 1;
    SplitAtLine(t, k);
    assert ls[k..] == [ls[k]];
    if ls[k] != "" { assert t[|t| - 1] == ls[k][|ls[k]| - 1]; }
  }

  /** Text that is empty or ends in a line break is a sequence of complete lines. */
  lemma CompleteLines(t: string)
    requires t == "" || EndsWith(t, "\n")
    ensures var ls := Lines(t); ls[|ls| - 1] == "" && t == Unlines(ls[..|ls| - 1])
  {
    LastLine(t);
    if t != "" { assert t[|t| - 1..][0] == '\n'; }
    assert Unlines(Lines(t)[..|Lines(t)| - 1]) + "" == Unlines(Lines(t)[..|Lines(t)| - 1]);
  }

  /** The text splits at the offset of a line. */
  lemma LineOffset(content: string, i: nat)
    requires i < |Lines(content)|
    ensures Offset(Lines(content), i) <= |content|
    ensures content[..Offset(Lines(content), i)] == Unlines(Lines(content)[..i])
    ensures content[Offset(Lines(content), i)..] == Join(Lines(content)[i..])
  {
    SplitAtLine(content, i);
  }

  /** The offset of line `j`, or of the end of the text. */
  function EndOffset(content: string, j: nat): nat
    requires j <= |Lines(content)|
  {
    if j == |Lines(content)| then |content| else Offset(Lines(content), j)
  }

  lemma LineOffsetsOrdered(content: string, i: nat, j: nat)
    requires i < j < |Lines(content)|
    ensures Offset(Lines(content), i) <= Offset(Lines(content), j) <= |content|
  {
    var ls := Lines(content);
    LineOffset(content, j);
    assert ls[..j] == ls[..i] + ls[i..j];
    UnlinesConcat(ls[..i], ls[i..j]);
  }

  lemma OffsetsOrdered(content: string, i: nat, j: nat)
    requires i < j <= |Lines(content)|
    ensures Offset(Lines(content), i) <= EndOffset(content, j) <= |content|
  {
    if j < |Lines(content)| { LineOffsetsOrdered(content, i, j); } else { LineOffset(content, i); }
  }
}
