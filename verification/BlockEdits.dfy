/** What the editors of managed blocks make of a text, character by character: the user's
    text in front of the block and behind it, with a block and without one. */
module BlockEdits {
  import opened Options
  import opened Sequences
  import opened SentinelText
  import opened Strings
  import opened Stripping
  import AgentsBlock
  import AwarenessBlock
  import AwarenessDoctor

  // ----- where a block is

  ghost predicate OccursNowhere(s: string, mark: string) {
    forall j :: !OccursAt(s, mark, j)
  }

  /** `block` starts at the first opening mark and ends behind the first closing mark
      from there on; without one it is all the rest. */
  ghost predicate Marked(m: Sentinel, t: string, pre: string, block: string, post: string) {
    && t == pre + (block + post) && OccursAt(t, m.begin, |pre|)
    && (forall j :: 0 <= j < |pre| ==> !OccursAt(t, m.begin, j))
    && (Closes(m, t, |pre|, |pre| + |block|) || (post == "" && NeverCloses(m, t, |pre|)))
  }

  ghost predicate Closes(m: Sentinel, t: string, start: nat, end: nat) {
    && start + |m.end| <= end && OccursAt(t, m.end, end - |m.end|)
    && forall j :: start <= j < end - |m.end| ==> !OccursAt(t, m.end, j)
  }

  ghost predicate NeverCloses(m: Sentinel, t: string, start: nat) {
    forall j :: start <= j ==> !OccursAt(t, m.end, j)
  }

  lemma MarkedIs(m: Sentinel, t: string, pre: string, block: string, post: string)
    requires Marked(m, t, pre, block, post)
    ensures Contains(t, m.begin) && Find(t, m.begin, 0) == |pre| && BlockEnd(m, t, |pre|) == |pre| + |block|
    ensures t[..|pre|] == pre && t[|pre| + |block|..] == post && t[|pre|..|pre| + |block|] == block
  {
    FindIs(t, m.begin, 0, |pre|);
    Slices(pre, block, post);
    if Closes(m, t, |pre|, |pre| + |block|) {
      FindIs(t, m.end, |pre|, |pre| + |block| - |m.end|);
    } else {
      FindNone(t, m.end, |pre|);
    }
  }

  lemma Unmarked(t: string, mark: string)
    ensures Contains(t, mark) <==> !OccursNowhere(t, mark)
  {
    if OccursNowhere(t, mark) { FindNone(t, mark, 0); }
    if Contains(t, mark) { assert OccursAt(t, mark, Find(t, mark, 0)); }
  }

  /** Every text has a block so marked, or no opening mark. */
  lemma MarkedOrNot(m: Sentinel, t: string) returns (pre: string, block: string, post: string)
    ensures Marked(m, t, pre, block, post) || OccursNowhere(t, m.begin)
  {
    pre, block, post := "", "", "";
    Unmarked(t, m.begin);
    if Contains(t, m.begin) {
      var start := Find(t, m.begin, 0);
      var end := BlockEnd(m, t, start);
      pre, block, post := t[..start], t[start..end], t[end..];
      ThreeParts(t, start, end);
      DividedAt(m, t, pre, block, post);
    }
  }

  lemma DividedAt(m: Sentinel, t: string, pre: string, block: string, post: string)
    requires t == pre + (block + post) && Contains(t, m.begin) && |pre| == Find(t, m.begin, 0)
    requires |pre| + |block| == BlockEnd(m, t, |pre|)
    ensures Marked(m, t, pre, block, post)
  {
    ClosesThere(m, t, |pre|);
  }

  lemma ClosesThere(m: Sentinel, t: string, start: nat)
    requires start <= |t|
    ensures var end := BlockEnd(m, t, start); Closes(m, t, start, end) || (end == |t| && NeverCloses(m, t, start))
  {
  }

  // ----- the awareness block

  /** The user's text around a block: without the line breaks next to the block, and one
      line break between where there is text on both sides. */
  function Around(pre: string, post: string): string {
    var p, q := RStripNewlines(pre), LStripNewlines(post);
    if p == "" then q else if q == "" then p else p + ("\n" + q)
  }

  lemma AroundIs(pre: string, post: string)
    ensures AwarenessBlock.Preserved(pre, post) == Around(pre, post)
    ensures AwarenessBlock.Joined(RStripNewlines(pre), LStripNewlines(post)) == Around(pre, post)
    ensures StripsToNothing(Around(pre, post)) <==> Blank(pre) && Blank(post)
  {
    AwarenessBlock.BlankPreserved(pre, post);
  }

  /** Installing at the end over a block exchanges the block and nothing else. */
  lemma AppendOver(m: Sentinel, t: string, pre: string, block: string, post: string, written: string)
    requires Marked(m, t, pre, block, post)
    ensures AwarenessBlock.Installed(m, t, written, AwarenessBlock.Append) == pre + (written + post)
  {
    MarkedIs(m, t, pre, block, post);
  }

  /** Without a block it comes behind the whole text and an empty line. */
  lemma AppendBehind(m: Sentinel, t: string, written: string)
    requires OccursNowhere(t, m.begin)
    ensures AwarenessBlock.Installed(m, t, written, AwarenessBlock.Append) ==
      t + (if t == "" then "" else if EndsWith(t, "\n") then "\n" else "\n\n") + (written + "\n")
  {
    Unmarked(t, m.begin);
    SeparatedIs(t);
  }

  lemma SeparatedIs(t: string)
    ensures Separated(t) == t + (if t == "" then "" else if EndsWith(t, "\n") then "\n" else "\n\n")
  {
    if t != "" && !EndsWith(t, "\n") { assert t + "\n" + "\n" == t + "\n\n"; }
  }

  /** The text that follows a block in front: an empty line and the user's text without
      its final blanks, unless that is blank. */
  function BehindFront(user: string): string {
    if StripsToNothing(user) then "\n" else "\n\n" + (RStrip(user) + "\n")
  }

  /** Installing at the front puts the block first and all of the user's text behind it. */
  lemma PrependOver(m: Sentinel, t: string, pre: string, block: string, post: string, written: string)
    requires Marked(m, t, pre, block, post)
    ensures AwarenessBlock.Installed(m, t, written, AwarenessBlock.Prepend) == written + BehindFront(Around(pre, post))
    ensures StripsToNothing(Around(pre, post)) <==> Blank(pre) && Blank(post)
  {
    PrependedOver(m, t, pre, block, post, written);
    PrependBlockIs(written, pre, post);
  }

  lemma PrependedOver(m: Sentinel, t: string, pre: string, block: string, post: string, written: string)
    requires Marked(m, t, pre, block, post)
    ensures AwarenessBlock.Installed(m, t, written, AwarenessBlock.Prepend) ==
            AwarenessBlock.PrependBlock(written, pre, post)
  {
    MarkedIs(m, t, pre, block, post);
    PrependedAt(m, t, |pre|, |pre| + |block|, pre, post, written);
  }

  lemma PrependedAt(m: Sentinel, t: string, start: nat, end: nat, pre: string, post: string, written: string)
    requires Find(t, m.begin, 0) == start && start <= end <= |t| && BlockEnd(m, t, start) == end
    requires t[..start] == pre && t[end..] == post
    ensures AwarenessBlock.Installed(m, t, written, AwarenessBlock.Prepend) ==
            AwarenessBlock.PrependBlock(written, pre, post)
  {
  }

  lemma PrependBlockIs(written: string, pre: string, post: string)
    ensures AwarenessBlock.PrependBlock(written, pre, post) == written + BehindFront(Around(pre, post))
    ensures StripsToNothing(Around(pre, post)) <==> Blank(pre) && Blank(post)
  {
    AroundIs(pre, post);
  }

  lemma PrependBefore(m: Sentinel, t: string, written: string)
    requires OccursNowhere(t, m.begin)
    ensures AwarenessBlock.Installed(m, t, written, AwarenessBlock.Prepend) == written + BehindFront(LStripNewlines(t))
    ensures StripsToNothing(LStripNewlines(t)) <==> Blank(t)
  {
    Unmarked(t, m.begin);
    PrependBlockIs(written, "", t);
    assert Around("", t) == LStripNewlines(t);
  }

  /** Removing gives the user's text on both sides, whatever stands there, with one line
      break in place of the block where both sides hold text. */
  lemma RemoveBetween(m: Sentinel, t: string, pre: string, block: string, post: string)
    requires Marked(m, t, pre, block, post)
    ensures AwarenessBlock.Uninstalled(m, t) == Around(pre, post)
    ensures StripsToNothing(AwarenessBlock.Uninstalled(m, t)) <==> Blank(pre) && Blank(post)
  {
    MarkedIs(m, t, pre, block, post);
    AwarenessBlock.UninstalledIs(m, t, |pre|, |pre| + |block|, pre, post);
    AroundIs(pre, post);
  }

  lemma NothingToRemove(m: Sentinel, t: string)
    requires OccursNowhere(t, m.begin)
    ensures AwarenessBlock.Uninstalled(m, t) == t && (StripsToNothing(t) <==> Blank(t))
  {
    Unmarked(t, m.begin);
    BlankRest(t);
  }

  /** What of the user's text stands next to the block: the text up to its last character
      that is no line break, and from the first one on. */
  lemma AroundKeeps(pre: string, post: string) returns (v: string, w: string)
    ensures pre == RStripNewlines(pre) + v && AllNewlines(v) && post == w + LStripNewlines(post) && AllNewlines(w)
    ensures StartsWith(Around(pre, post), RStripNewlines(pre)) && EndsWith(Around(pre, post), LStripNewlines(post))
  {
    RStripNewlinesRest(pre);
    LStripNewlinesFront(post);
    var k, l := |RStripNewlines(pre)|, |post| - |LStripNewlines(post)|;
    v, w := pre[k..], post[..l];
    TwoParts(pre, k);
    TwoParts(post, l);
    AroundEnds(pre, post);
  }

  lemma AroundEnds(pre: string, post: string)
    ensures StartsWith(Around(pre, post), RStripNewlines(pre)) && EndsWith(Around(pre, post), LStripNewlines(post))
  {
    var p, q := RStripNewlines(pre), LStripNewlines(post);
    EndsWithExtend(q, "\n", q);
    EndsWithExtend("\n" + q, p, q);
    StartsWithConcat(p, "\n" + q, p);
  }

  lemma {:induction false} LStripNewlinesFront(s: string)
    ensures AllNewlines(s[..|s| - |LStripNewlines(s)|])
    decreases |s|
  {
    if s != "" && s[0] == '\n' {
      LStripNewlinesFront(s[1..]);
      var k := |s| - |LStripNewlines(s)|;
      assert s[..k] == [s[0]] + s[1..][..k - 1];
    }
  }

  /** There is user text exactly when the text around the block is not blank. */
  lemma UserContentAround(m: Sentinel, t: string, pre: string, block: string, post: string)
    requires Marked(m, t, pre, block, post)
    ensures AwarenessBlock.HasUserContent(m, t) <==> !(Blank(pre) && Blank(post))
  {
    MarkedIs(m, t, pre, block, post);
    BlankConcat(pre, post);
    BlankRest(pre + post);
  }

  lemma UserContentAlone(m: Sentinel, t: string)
    requires OccursNowhere(t, m.begin)
    ensures AwarenessBlock.HasUserContent(m, t) <==> !Blank(t)
  {
    Unmarked(t, m.begin);
    BlankRest(t);
  }

  // ----- the block in AGENTS.md

  /** `upsert_block` over a block exchanges it, and puts what follows on a new line. */
  lemma UpsertOver(m: Sentinel, t: string, pre: string, block: string, post: string, written: string)
    requires Marked(m, t, pre, block, post)
    ensures AgentsBlock.Upsert(m, t, written) ==
      pre + (RStrip(written) + (if post != "" && post[0] == '\n' then post else "\n" + post))
  {
    MarkedIs(m, t, pre, block, post);
    assert StartsWith(post, "\n") <==> post != "" && post[0] == '\n';
  }

  lemma UpsertBehind(m: Sentinel, t: string, written: string)
    requires OccursNowhere(t, m.begin)
    ensures AgentsBlock.Upsert(m, t, written) ==
      t + (if t == "" then "" else if EndsWith(t, "\n") then "\n" else "\n\n") + written
  {
    Unmarked(t, m.begin);
    SeparatedIs(t);
  }

  /** `remove_block` keeps the text in front without its final blanks on lines of its own,
      and the text behind the block's last line as it is. */
  lemma RemoveOver(m: Sentinel, t: string, pre: string, block: string, post: string)
    requires Marked(m, t, pre, block, post)
    ensures AgentsBlock.Remove(m, t) ==
      (if Blank(pre) then "" else RStrip(pre) + "\n") + (if post != "" && post[0] == '\n' then post[1..] else post)
  {
    MarkedIs(m, t, pre, block, post);
    RemovedAt(m, t, |pre|, |pre| + |block|, pre, post);
    ClosedIs(pre, post);
  }

  lemma RemovedAt(m: Sentinel, t: string, start: nat, end: nat, pre: string, post: string)
    requires Find(t, m.begin, 0) == start && start <= end <= |t| && BlockEnd(m, t, start) == end
    requires t[..start] == pre && t[end..] == post
    ensures AgentsBlock.Remove(m, t) == AgentsBlock.Closed(pre, post)
  {
  }

  lemma ClosedIs(pre: string, post: string)
    ensures AgentsBlock.Closed(pre, post) ==
      (if Blank(pre) then "" else RStrip(pre) + "\n") + (if post != "" && post[0] == '\n' then post[1..] else post)
  {
    BlankRest(pre);
    assert StartsWith(post, "\n") <==> post != "" && post[0] == '\n';
    assert "" + "" == "";
  }

  lemma NothingToRemoveThere(m: Sentinel, t: string)
    requires OccursNowhere(t, m.begin)
    ensures AgentsBlock.Remove(m, t) == t
  {
    Unmarked(t, m.begin);
  }

  /** The rendered block names its source and holds the whole guidance up to final blanks,
      between the marks. */
  lemma RenderedHolds(m: Sentinel, source: string, guidance: string) returns (a: string, b: string)
    ensures AgentsBlock.Rendered(m, source, guidance) ==
      m.begin + (a + (source + (b + (RStrip(guidance) + ("\n\n" + (m.end + "\n"))))))
  {
    a := "\n\n> Auto-injected by agent-memory-hub Codex adapter. Edit at\n> ";
    b := " (repo source) and re-install, not in-place.\n\n";
    RenderedParts(m.begin, a, source, b, RStrip(guidance), "\n\n", m.end, "\n");
  }

  lemma RenderedParts(begin: string, a: string, source: string, b: string, guidance: string, c: string, end: string,
                      d: string)
    ensures ((begin + (a + source + b + guidance + c)) + end) + d ==
            begin + (a + (source + (b + (guidance + (c + (end + d))))))
  {
    Associates(a + source + b, guidance, c);
    Associates(a + source, b, guidance + c);
    Associates(a, source, b + (guidance + c));
    var tail := end + d;
    Associates(begin + (a + source + b + guidance + c), end, d);
    Associates(begin, a + (source + (b + (guidance + c))), tail);
    Associates(a, source + (b + (guidance + c)), tail);
    Associates(source, b + (guidance + c), tail);
    Associates(b, guidance + c, tail);
    Associates(guidance, c, tail);
  }

  // ----- the check

  /** The first character that is no blank starts the opening mark. */
  ghost predicate ComesFirst(m: Sentinel, t: string) {
    exists k :: 0 <= k <= |t| && Blank(t[..k]) && OccursAt(t, m.begin, k)
  }

  lemma {:induction false} ComesFirstMeans(m: Sentinel, t: string)
    requires m.Valid()
    ensures StartsWith(LStrip(t), m.begin) <==> ComesFirst(m, t)
    decreases |t|
  {
    if t != "" && IsSpace(t[0]) {
      ComesFirstMeans(m, t[1..]);
      BlankInFront(m, t);
    } else {
      NoBlankInFront(m, t);
    }
  }

  lemma BlankInFront(m: Sentinel, t: string)
    requires m.Valid() && t != "" && IsSpace(t[0])
    ensures ComesFirst(m, t) <==> ComesFirst(m, t[1..])
  {
    forall k | 1 <= k <= |t| ensures Blank(t[..k]) == Blank(t[1..][..k - 1])
      ensures OccursAt(t, m.begin, k) == OccursAt(t[1..], m.begin, k - 1) {
      OneCharacterOn(t, m.begin, k);
    }
    assert !OccursAt(t, m.begin, 0) by { NotAtBlank(t, m.begin); }
    if k :| 1 <= k <= |t| && Blank(t[..k]) && OccursAt(t, m.begin, k) {
      assert Blank(t[1..][..k - 1]) && OccursAt(t[1..], m.begin, k - 1);
    }
    if k :| 0 <= k <= |t| - 1 && Blank(t[1..][..k]) && OccursAt(t[1..], m.begin, k) {
      assert Blank(t[..k + 1]) && OccursAt(t, m.begin, k + 1);
    }
  }

  lemma OneCharacterOn(t: string, mark: string, k: nat)
    requires 1 <= k <= |t| && IsSpace(t[0])
    ensures Blank(t[..k]) == Blank(t[1..][..k - 1])
    ensures OccursAt(t, mark, k) == OccursAt(t[1..], mark, k - 1)
  {
    AwarenessBlock.BlankTail(t[..k]);
    assert t[..k][1..] == t[1..][..k - 1];
    if k + |mark| <= |t| {
      SliceOfTail(t, k - 1, k - 1 + |mark|);
    } else {
      assert k - 1 + |mark| > |t[1..]|;
    }
  }

  lemma NotAtBlank(t: string, mark: string)
    requires t != "" && mark != "" && IsSpace(t[0]) != IsSpace(mark[0])
    ensures !OccursAt(t, mark, 0)
  {
    if |mark| <= |t| { assert t[0..|mark|][0] == t[0]; }
  }

  lemma AtStart(t: string, mark: string)
    ensures OccursAt(t, mark, 0) <==> StartsWith(t, mark)
  {
    if |mark| <= |t| { assert t[0..|mark|] == t[..|mark|]; }
    if mark <= t { assert t[..|mark|] == mark; }
  }

  lemma NoBlankInFront(m: Sentinel, t: string)
    requires t == "" || !IsSpace(t[0])
    ensures StartsWith(t, m.begin) <==> ComesFirst(m, t)
  {
    forall k | 1 <= k <= |t| ensures !Blank(t[..k]) { assert t[..k][0] == t[0]; }
    AtStart(t, m.begin);
    assert Blank(t[..0]);
  }

  lemma {:induction false} MissingMeans(block: string, required: seq<string>)
    ensures forall x :: x in AwarenessDoctor.Missing(block, required) <==> x in required && OccursNowhere(block, x)
    decreases |required|
  {
    if required != [] {
      MissingMeans(block, required[1..]);
      Unmarked(block, required[0]);
      assert required == [required[0]] + required[1..];
    }
  }

  /** The missing texts are named in the order in which they are required. */
  lemma {:induction false} MissingInOrder(block: string, required: seq<string>, x: string)
    ensures AwarenessDoctor.Missing(block, required + [x]) ==
      AwarenessDoctor.Missing(block, required) + (if OccursNowhere(block, x) then [x] else [])
    decreases |required|
  {
    Unmarked(block, x);
    if required == [] {
      assert required + [x] == [x] && [x][1..] == [];
    } else {
      assert (required + [x])[0] == required[0] && (required + [x])[1..] == required[1..] + [x];
      MissingInOrder(block, required[1..], x);
      Associates(if Contains(block, required[0]) then [] else [required[0]],
                 AwarenessDoctor.Missing(block, required[1..]), if OccursNowhere(block, x) then [x] else []);
    }
  }

  /** What each answer of the check says about the file. */
  lemma VerdictMeans(m: Sentinel, t: string, requireFirst: bool, required: seq<string>)
    requires m.Valid()
    ensures var verdict := AwarenessDoctor.VerdictOf(m, Some(t), requireFirst, required);
      var whole := !OccursNowhere(t, m.begin) && !OccursNowhere(t, m.end);
      && (verdict == AwarenessDoctor.Incomplete <==> !whole)
      && (verdict == AwarenessDoctor.NotFirst <==> whole && requireFirst && !ComesFirst(m, t))
      && verdict != AwarenessDoctor.MissingFile
    ensures AwarenessDoctor.VerdictOf(m, None, requireFirst, required) == AwarenessDoctor.MissingFile
  {
    Unmarked(t, m.begin);
    Unmarked(t, m.end);
    ComesFirstMeans(m, t);
  }

  /** A complete block in its place is healthy exactly when it holds every required text;
      otherwise the texts it lacks are named. */
  lemma HealthyMeans(m: Sentinel, t: string, pre: string, block: string, post: string, requireFirst: bool,
                     required: seq<string>)
    requires m.Valid() && Marked(m, t, pre, block, post) && !OccursNowhere(t, m.end)
    requires requireFirst ==> ComesFirst(m, t)
    ensures var verdict := AwarenessDoctor.VerdictOf(m, Some(t), requireFirst, required);
      && (verdict == AwarenessDoctor.Healthy <==> forall x :: x in required ==> !OccursNowhere(block, x))
      && (verdict == AwarenessDoctor.Healthy || verdict.MissingText?)
      && (verdict.MissingText? ==> forall x :: x in verdict.texts <==> x in required && OccursNowhere(block, x))
  {
    MarkedVerdict(m, t, pre, block, post, requireFirst, required);
    MissingMeans(block, required);
    var missing := AwarenessDoctor.Missing(block, required);
    if missing != [] { assert missing[0] in missing; }
  }

  lemma MarkedVerdict(m: Sentinel, t: string, pre: string, block: string, post: string, requireFirst: bool,
                      required: seq<string>)
    requires m.Valid() && Marked(m, t, pre, block, post) && !OccursNowhere(t, m.end)
    requires requireFirst ==> ComesFirst(m, t)
    ensures var missing := AwarenessDoctor.Missing(block, required);
      AwarenessDoctor.VerdictOf(m, Some(t), requireFirst, required) ==
      if missing == [] then AwarenessDoctor.Healthy else AwarenessDoctor.MissingText(missing)
  {
    MarkedIs(m, t, pre, block, post);
    Unmarked(t, m.end);
    ComesFirstMeans(m, t);
    VerdictAt(m, t, |pre|, |pre| + |block|, block, requireFirst, required);
  }

  lemma VerdictAt(m: Sentinel, t: string, start: nat, end: nat, block: string, requireFirst: bool,
                  required: seq<string>)
    requires Find(t, m.begin, 0) == start && start <= end <= |t| && BlockEnd(m, t, start) == end
    requires t[start..end] == block && Contains(t, m.end) && (requireFirst ==> StartsWith(LStrip(t), m.begin))
    ensures var missing := AwarenessDoctor.Missing(block, required);
      AwarenessDoctor.VerdictOf(m, Some(t), requireFirst, required) ==
      if missing == [] then AwarenessDoctor.Healthy else AwarenessDoctor.MissingText(missing)
  {
  }
}
