/** Finding a block between two sentinels in a text, and putting one there. */
module SentinelText {
  import opened Strings
  import opened Stripping

  /** The opening and closing marks of a managed block. */
  datatype Sentinel = Sentinel(begin: string, end: string) {
    ghost predicate Valid() {
      begin != "" && '\n' !in begin && end != "" && '\n' !in end && !IsSpace(end[|end| - 1]) && !IsSpace(begin[0])
    }
  }

  const AWARENESS := Sentinel("<!-- BEGIN " + "agent-memory-hub" + "-awareness -->",
                              "<!-- END " + "agent-memory-hub" + "-awareness -->")
  const AGENTS := Sentinel("<!-- BEGIN " + "agent-memory-hub" + " -->", "<!-- END " + "agent-memory-hub" + " -->")

  lemma MarkOnOneLine(a: string, b: string, c: string)
    requires '\n' !in a && '\n' !in b && '\n' !in c
    requires a != "" && !IsSpace(a[0]) && c != "" && !IsSpace(c[|c| - 1])
    ensures var mark := a + b + c; mark != "" && '\n' !in mark && !IsSpace(mark[0]) && !IsSpace(mark[|mark| - 1])
  {
  }

  /** The marks the adapters use satisfy what the results below ask of them. */
  lemma SentinelsAreValid()
    ensures AWARENESS.Valid() && AGENTS.Valid()
  {
    MarkOnOneLine("<!-- BEGIN ", "agent-memory-hub", "-awareness -->");
    MarkOnOneLine("<!-- END ", "agent-memory-hub", "-awareness -->");
    MarkOnOneLine("<!-- BEGIN ", "agent-memory-hub", " -->");
    MarkOnOneLine("<!-- END ", "agent-memory-hub", " -->");
  }

  /** A managed block opens with the opening mark and holds the closing mark only
      at its end. */
  ghost predicate IsBlock(m: Sentinel, block: string) {
    StartsWith(block, m.begin) && |m.end| <= |block| && Find(block, m.end, 0) == |block| - |m.end|
  }

  /** Index just past the closing mark; all the rest when it is missing. */
  function BlockEnd(m: Sentinel, content: string, start: nat): (e: nat)
    requires start <= |content|
    ensures start <= e <= |content|
  {
    var i := Find(content, m.end, start);
    if i == -1 then |content| else i + |m.end|
  }

  // ----- where the block is

  /** No occurrence of the opening mark starts before a block that follows a line
      break: it would have to contain that line break. */
  lemma BeginAtBlock(m: Sentinel, pre: string, rest: string)
    requires m.Valid() && !Contains(pre, m.begin) && (pre == "" || pre[|pre| - 1] == '\n')
    requires StartsWith(rest, m.begin)
    ensures Find(pre + rest, m.begin, 0) == |pre|
  {
    var t := pre + rest;
    MarkBehind(pre, rest, m.begin);
    forall j | 0 <= j < |pre| ensures !OccursAt(t, m.begin, j) {
      NotBefore(pre, rest, m.begin, j);
    }
    FindIs(t, m.begin, 0, |pre|);
  }

  lemma MarkBehind(pre: string, rest: string, mark: string)
    requires StartsWith(rest, mark)
    ensures OccursAt(pre + rest, mark, |pre|)
  {
    assert (pre + rest)[|pre|..|pre| + |mark|] == rest[..|mark|];
  }

  /** A mark without line break does not start in a text of whole lines that lacks it. */
  lemma NotBefore(pre: string, rest: string, mark: string, j: nat)
    requires j < |pre| && pre[|pre| - 1] == '\n' && '\n' !in mark && !Contains(pre, mark)
    ensures !OccursAt(pre + rest, mark, j)
  {
    if j + |mark| <= |pre| {
      OccursBefore(pre, rest, mark, j);
    } else if OccursAt(pre + rest, mark, j) {
      OccursAcross(pre, rest, mark, j);
    }
  }

  lemma FrontOf(a: string, b: string)
    ensures (a + b)[..|a|] == a
  {
  }

  lemma TakeThrough(s: string, pattern: string, i: nat)
    requires OccursAt(s, pattern, i)
    ensures s[..i + |pattern|] == s[..i] + pattern
  {
    assert s[..i + |pattern|] == s[..i] + s[i..i + |pattern|];
  }

  lemma SameSlices(s: string, t: string, n: nat, i: nat, j: nat)
    requires n <= |s| && n <= |t| && s[..n] == t[..n] && i <= j <= n
    ensures s[i..j] == t[i..j]
  {
    assert forall k :: i <= k < j ==> s[k] == s[..n][k];
    assert forall k :: i <= k < j ==> t[k] == t[..n][k];
  }

  lemma NoneEarlier(content: string, rest: string, mark: string, start: nat, j: nat)
    requires OccursAt(content, mark, start) && j < start && !OccursAt(content, mark, j) && StartsWith(rest, mark)
    ensures !OccursAt(content[..start] + rest, mark, j)
  {
    var t := content[..start] + rest;
    MarkBehind(content[..start], rest, mark);
    TakeThrough(t, mark, start);
    TakeThrough(content, mark, start);
    FrontOf(content[..start], rest);
    SameSlices(t, content, start + |mark|, j, j + |mark|);
  }

  /** Exchanging what follows the first opening mark leaves it the first. */
  lemma BeginStays(m: Sentinel, content: string, rest: string)
    requires Contains(content, m.begin) && StartsWith(rest, m.begin)
    ensures var start := Find(content, m.begin, 0);
            Find(content[..start] + rest, m.begin, 0) == start
  {
    var start := Find(content, m.begin, 0);
    var t := content[..start] + rest;
    MarkBehind(content[..start], rest, m.begin);
    forall j | 0 <= j < start ensures !OccursAt(t, m.begin, j) {
      NoneEarlier(content, rest, m.begin, start, j);
    }
    FindIs(t, m.begin, 0, start);
  }

  lemma OccursInside(pre: string, block: string, post: string, mark: string, i: nat)
    requires i + |mark| <= |block|
    ensures OccursAt(pre + (block + post), mark, |pre| + i) <==> OccursAt(block, mark, i)
  {
    assert (pre + (block + post))[|pre| + i..|pre| + i + |mark|] == block[i..i + |mark|];
  }

  /** A block that starts at `|pre|` ends at its own closing mark. */
  lemma EndOfBlock(m: Sentinel, pre: string, block: string, post: string)
    requires m.Valid() && IsBlock(m, block)
    ensures BlockEnd(m, pre + (block + post), |pre|) == |pre| + |block|
  {
    var t, k := pre + (block + post), |block| - |m.end|;
    assert block[k..k + |m.end|] == m.end;
    OccursInside(pre, block, post, m.end, k);
    forall j | |pre| <= j < |pre| + k ensures !OccursAt(t, m.end, j) {
      OccursInside(pre, block, post, m.end, j - |pre|);
      assert !OccursAt(block, m.end, j - |pre|);
    }
    FindIs(t, m.end, |pre|, |pre| + k);
  }

  // ----- putting a block into a text

  /** The content made ready for a block behind it: a blank line in between. */
  function Separated(content: string): string {
    var c := if content != "" && !EndsWith(content, "\n") then content + "\n" else content;
    if c != "" then c + "\n" else c
  }

  lemma SeparatedEndsLine(content: string)
    ensures var s := Separated(content);
      (s == "" || s[|s| - 1] == '\n') && exists w :: AllNewlines(w) && s == content + w
  {
    var w := if content == "" then "" else if EndsWith(content, "\n") then "\n" else "\n\n";
    assert AllNewlines(w) && Separated(content) == content + w;
  }

  /** Line breaks behind a text without opening mark do not complete one. */
  lemma NoBeginInSeparated(m: Sentinel, content: string, w: string)
    requires m.Valid() && !Contains(content, m.begin) && AllNewlines(w)
    ensures !Contains(content + w, m.begin)
  {
    var t := content + w;
    forall j | 0 <= j ensures !OccursAt(t, m.begin, j) {
      var e := j + |m.begin|;
      if e <= |content| {
        assert t[j..e] == content[j..e];
        assert !OccursAt(content, m.begin, j);
      } else if e <= |t| {
        assert t[j..e][|m.begin| - 1] == '\n';
      }
    }
    FindNone(t, m.begin, 0);
  }

  /** The first opening mark of `t` opens `block`, between `pre` and `post`. */
  ghost predicate Located(m: Sentinel, t: string, pre: string, block: string, post: string) {
    t == pre + (block + post) && Find(t, m.begin, 0) == |pre| && BlockEnd(m, t, |pre|) == |pre| + |block|
  }

  lemma StartsWithConcat(a: string, b: string, prefix: string)
    requires StartsWith(a, prefix)
    ensures StartsWith(a + b, prefix)
  {
  }

  /** A block put behind a text without one is the first and only one. */
  lemma AddedBehind(m: Sentinel, content: string, block: string, post: string)
    requires m.Valid() && IsBlock(m, block) && !Contains(content, m.begin)
    ensures Located(m, Separated(content) + (block + post), Separated(content), block, post)
  {
    SeparatedEndsLine(content);
    var w :| AllNewlines(w) && Separated(content) == content + w;
    NoBeginInSeparated(m, content, w);
    StartsWithConcat(block, post, m.begin);
    BeginAtBlock(m, Separated(content), block + post);
    EndOfBlock(m, Separated(content), block, post);
  }

  lemma UpdatedInPlace(m: Sentinel, content: string, block: string, rest: string)
    requires m.Valid() && IsBlock(m, block) && Contains(content, m.begin)
    ensures var start := Find(content, m.begin, 0);
      Located(m, content[..start] + (block + rest), content[..start], block, rest)
  {
    StartsWithConcat(block, rest, m.begin);
    BeginStays(m, content, block + rest);
    EndOfBlock(m, content[..Find(content, m.begin, 0)], block, rest);
  }

  /** A block whose closing mark stands on a line of its own, written with a line
      break behind it. */
  lemma BlockOfLines(m: Sentinel, head: string)
    requires m.Valid() && StartsWith(head, m.begin) && EndsWith(head, "\n") && !Contains(head, m.end)
    ensures IsBlock(m, head + m.end) && RStrip((head + m.end) + "\n") == head + m.end
  {
    var block := head + m.end;
    assert block[|head|..] == m.end;
    assert head[|head| - 1..][0] == '\n';
    forall j | 0 <= j < |head| ensures !OccursAt(block, m.end, j) {
      NotBefore(head, m.end, m.end, j);
    }
    FindIs(block, m.end, 0, |head|);
    assert block[|block| - 1] == m.end[|m.end| - 1];
    RStripIs(block, "\n");
  }
}
