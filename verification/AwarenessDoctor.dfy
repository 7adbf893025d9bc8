/** The check of an instruction file's awareness block, as the specification of the
    installer. */
module AwarenessDoctor {
  import opened Options
  import opened SentinelText
  import opened Sequences
  import opened Strings
  import opened Stripping
  import opened AwarenessBlock

  datatype Verdict = MissingFile | Incomplete | NotFirst | MissingText(texts: seq<string>) | Healthy

  /** The required texts that do not occur in the block. */
  function Missing(block: string, required: seq<string>): seq<string> {
    if required == [] then []
    else (if Contains(block, required[0]) then [] else [required[0]]) + Missing(block, required[1..])
  }

  lemma MissingStep(block: string, missing: seq<string>, required: seq<string>, i: nat)
    requires i < |required|
    ensures missing + Missing(block, required[i..]) ==
      (if Contains(block, required[i]) then missing else missing + [required[i]]) + Missing(block, required[i + 1..])
  {
    assert required[i..][1..] == required[i + 1..];
  }

  method CollectMissing(block: string, required: seq<string>) returns (missing: seq<string>)
    ensures missing == Missing(block, required)
  {
    missing := [];
    assert required[0..] == required;
    for i := 0 to |required|
      invariant missing + Missing(block, required[i..]) == Missing(block, required)
    {
      MissingStep(block, missing, required, i);
      var found := Contains(block, required[i]);
      if !found { missing := missing + [required[i]]; }
    }
  }

  /** `diagnose_awareness_block`. */
  method Diagnose(m: Sentinel, content: Option<string>, requireFirst: bool, required: seq<string>)
    returns (verdict: Verdict)
    ensures verdict == VerdictOf(m, content, requireFirst, required)
  {
    if content.None? { return MissingFile; }
    var text := content.value;
    if !Contains(text, m.begin) || !Contains(text, m.end) { return Incomplete; }
    if requireFirst && !StartsWith(LStrip(text), m.begin) { return NotFirst; }
    var start := Find(text, m.begin, 0);
    var block := text[start..BlockEnd(m, text, start)];
    var missing := CollectMissing(block, required);
    return if missing != [] then MissingText(missing) else Healthy;
  }

  function VerdictOf(m: Sentinel, content: Option<string>, requireFirst: bool, required: seq<string>): Verdict {
    if content.None? then MissingFile
    else
      var text := content.value;
      if !Contains(text, m.begin) || !Contains(text, m.end) then Incomplete
      else if requireFirst && !StartsWith(LStrip(text), m.begin) then NotFirst
      else
        var start := Find(text, m.begin, 0);
        var missing := Missing(text[start..BlockEnd(m, text, start)], required);
        if missing != [] then MissingText(missing) else Healthy
  }

  lemma MarkOccurs(text: string, mark: string, i: nat)
    requires OccursAt(text, mark, i)
    ensures Contains(text, mark)
  {
  }

  lemma LocatedMarks(m: Sentinel, t: string, pre: string, block: string, post: string)
    requires m.Valid() && IsBlock(m, block) && Located(m, t, pre, block, post)
    ensures Contains(t, m.begin) && Contains(t, m.end)
    ensures t[|pre|..BlockEnd(m, t, |pre|)] == block
  {
    Slices(pre, block, post);
    ClosingMark(m.end, pre, block, post);
  }

  lemma ClosingMark(mark: string, pre: string, block: string, post: string)
    requires EndsWith(block, mark)
    ensures Contains(pre + (block + post), mark)
  {
    var t, k := pre + (block + post), |pre| + |block| - |mark|;
    assert t[k..k + |mark|] == block[|block| - |mark|..];
    MarkOccurs(t, mark, k);
  }

  lemma LocatedVerdict(m: Sentinel, t: string, pre: string, block: string, post: string, requireFirst: bool,
                       required: seq<string>)
    requires m.Valid() && IsBlock(m, block) && Located(m, t, pre, block, post)
    requires requireFirst ==> StartsWith(LStrip(t), m.begin)
    ensures var missing := Missing(block, required);
      VerdictOf(m, Some(t), requireFirst, required) == if missing == [] then Healthy else MissingText(missing)
  {
    LocatedMarks(m, t, pre, block, post);
  }

  /** After an installation at the end the check sees exactly the new block, whatever
      the file held: it can only miss texts the block does not hold. */
  lemma AppendedVerdict(m: Sentinel, content: string, block: string, required: seq<string>)
    requires m.Valid() && IsBlock(m, block)
    ensures var missing := Missing(block, required);
      VerdictOf(m, Some(Installed(m, content, block, Append)), false, required) ==
      if missing == [] then Healthy else MissingText(missing)
  {
    var pre, post := AppendedAt(m, content, block);
    LocatedVerdict(m, Installed(m, content, block, Append), pre, block, post, false, required);
  }

  lemma PrependedInFront(m: Sentinel, content: string, block: string) returns (post: string)
    ensures Installed(m, content, block, Prepend) == block + post
  {
    PrependedIs(m, content, block);
    var user := UserText(m, content);
    post := if StripsToNothing(user) then "\n" else Tail(RStrip(user));
  }

  /** After an installation at the front the check that the block comes first passes
      as well, whatever the file held. */
  lemma PrependedVerdict(m: Sentinel, content: string, block: string, required: seq<string>)
    requires m.Valid() && IsBlock(m, block)
    ensures var missing := Missing(block, required);
      VerdictOf(m, Some(Installed(m, content, block, Prepend)), true, required) ==
      if missing == [] then Healthy else MissingText(missing)
  {
    var post := PrependedInFront(m, content, block);
    var t := block + post;
    LocatedInFront(m, block, post);
    StartsWithConcat(block, post, m.begin);
    assert t[0] == m.begin[0];
    LocatedVerdict(m, t, "", block, post, true, required);
  }
}
