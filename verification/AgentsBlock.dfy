/** The block the Codex adapter keeps in AGENTS.md: `upsert_block` and
    `remove_block` of codex_config.py, and the file operations around them. */
module AgentsBlock {
  import opened Options
  import opened Strings
  import opened SentinelText
  import opened Sequences
  import opened Stripping

  /** `upsert_block`. */
  function Upsert(m: Sentinel, existing: string, block: string): string {
    if !Contains(existing, m.begin) then Separated(existing) + block
    else
      var start := Find(existing, m.begin, 0);
      Updated(m, existing[..start], block, existing[BlockEnd(m, existing, start)..])
  }

  function Updated(m: Sentinel, pre: string, block: string, post: string): string {
    pre + (RStrip(block) + OnNewLine(post))
  }

  function OnNewLine(post: string): string {
    if StartsWith(post, "\n") then post else "\n" + post
  }

  /** `remove_block`. */
  function Remove(m: Sentinel, existing: string): string {
    if !Contains(existing, m.begin) then existing
    else
      var start := Find(existing, m.begin, 0);
      Closed(existing[..start], existing[BlockEnd(m, existing, start)..])
  }

  /** What stays around a removed block: the text before it without final blanks,
      ended by a line break, and the text after it without its first line break. */
  function Closed(pre: string, post: string): string {
    (RStrip(pre) + (if RStrip(pre) != "" then "\n" else "")) + AfterLineBreak(post)
  }

  function AfterLineBreak(post: string): string {
    if StartsWith(post, "\n") then post[1..] else post
  }

  /** `render_agents_block` with the guidance text already read. */
  function Rendered(m: Sentinel, source: string, guidance: string): string {
    (Head(m, source, guidance) + m.end) + "\n"
  }

  function Head(m: Sentinel, source: string, guidance: string): string {
    m.begin + ("\n\n> Auto-injected by agent-memory-hub Codex adapter. Edit at\n> " + source +
               " (repo source) and re-install, not in-place.\n\n" + RStrip(guidance) + "\n\n")
  }

  class AgentsFile {
    const m: Sentinel
    var content: Option<string>

    constructor (m: Sentinel, content: Option<string>)
      ensures this.m == m && this.content == content
    {
      this.m, this.content := m, content;
    }

    function Text(): string
      reads this
    {
      if content.Some? then content.value else ""
    }

    /** `install_agents_block`. */
    method Install(block: string) returns (changed: bool)
      modifies this
      ensures Text() == Upsert(m, old(Text()), block)
      ensures changed <==> Text() != old(Text())
      ensures !changed ==> content == old(content)
    {
      var updated := Upsert(m, Text(), block);
      if updated == Text() { return false; }
      content := Some(updated);
      return true;
    }

    /** `uninstall_agents_block`; the file itself stays. */
    method Uninstall() returns (changed: bool)
      modifies this
      ensures Text() == Remove(m, old(Text())) && (content.Some? <==> old(content).Some?)
      ensures changed <==> Text() != old(Text())
    {
      if content.None? {
        NothingToRemove(m);
        return false;
      }
      var cleaned := Remove(m, Text());
      if cleaned == Text() { return false; }
      content := Some(cleaned);
      return true;
    }
  }

  lemma NothingToRemove(m: Sentinel)
    ensures Remove(m, "") == ""
  {
  }

  // ----- installing twice

  /** The block with the blanks behind it cut off. */
  ghost predicate IsPadded(m: Sentinel, block: string) {
    m.Valid() && IsBlock(m, RStrip(block))
  }

  function Padding(block: string): string {
    block[|RStrip(block)|..]
  }

  lemma PaddingJoins(pre: string, block: string)
    ensures pre + block == pre + (RStrip(block) + Padding(block))
  {
    assert block == RStrip(block) + Padding(block);
  }

  lemma AddedAt(m: Sentinel, existing: string, block: string)
    requires IsPadded(m, block) && !Contains(existing, m.begin)
    ensures Located(m, Upsert(m, existing, block), Separated(existing), RStrip(block), Padding(block))
  {
    PaddingJoins(Separated(existing), block);
    AddedBehind(m, existing, RStrip(block), Padding(block));
  }

  lemma UpdatedAt(m: Sentinel, existing: string, block: string)
    requires IsPadded(m, block) && Contains(existing, m.begin)
    ensures var start := Find(existing, m.begin, 0);
      Located(m, Upsert(m, existing, block), existing[..start], RStrip(block),
              OnNewLine(existing[BlockEnd(m, existing, start)..]))
  {
    var start := Find(existing, m.begin, 0);
    UpdatedInPlace(m, existing, RStrip(block), OnNewLine(existing[BlockEnd(m, existing, start)..]));
  }

  /** A further `Upsert` only puts the text after the block on a new line. */
  lemma UpsertLocated(m: Sentinel, t: string, pre: string, block: string, post: string)
    requires IsPadded(m, block) && Located(m, t, pre, RStrip(block), post)
    ensures Upsert(m, t, block) == pre + (RStrip(block) + OnNewLine(post))
  {
    LocatedContains(m, t, pre, RStrip(block), post);
  }

  lemma SamePost(pre: string, block: string, post: string)
    ensures pre + (block + OnNewLine(post)) == pre + (block + post) <==> StartsWith(post, "\n")
  {
    if !StartsWith(post, "\n") { assert |OnNewLine(post)| == |post| + 1; }
  }

  /** Installing twice is installing once exactly when a block was there before or
      the block brings its own line break; from the second time on nothing changes. */
  lemma UpsertTwice(m: Sentinel, existing: string, block: string)
    requires IsPadded(m, block)
    ensures var once := Upsert(m, existing, block);
      var twice := Upsert(m, once, block);
      && (twice == once <==> Contains(existing, m.begin) || StartsWith(Padding(block), "\n"))
      && Upsert(m, twice, block) == twice
  {
    var once := Upsert(m, existing, block);
    if Contains(existing, m.begin) {
      var start := Find(existing, m.begin, 0);
      var pre, post := existing[..start], OnNewLine(existing[BlockEnd(m, existing, start)..]);
      UpdatedAt(m, existing, block);
      UpsertLocated(m, once, pre, block, post);
      SamePost(pre, RStrip(block), post);
    } else {
      AddedAt(m, existing, block);
      UpsertAdded(m, once, Separated(existing), block);
    }
  }

  lemma UpsertAdded(m: Sentinel, once: string, pre: string, block: string)
    requires IsPadded(m, block) && Located(m, once, pre, RStrip(block), Padding(block))
    ensures var twice := Upsert(m, once, block);
      && (twice == once <==> StartsWith(Padding(block), "\n"))
      && Upsert(m, twice, block) == twice
  {
    var post := Padding(block);
    UpsertLocated(m, once, pre, block, post);
    SamePost(pre, RStrip(block), post);
    var twice := Upsert(m, once, block);
    LocatedContains(m, once, pre, RStrip(block), post);
    UpdatedAt(m, once, block);
    var rest := OnNewLine(once[BlockEnd(m, once, |pre|)..]);
    UpsertLocated(m, twice, once[..|pre|], block, rest);
    SamePost(once[..|pre|], RStrip(block), rest);
  }

  lemma LocatedContains(m: Sentinel, t: string, pre: string, block: string, post: string)
    requires Located(m, t, pre, block, post)
    ensures Contains(t, m.begin) && Find(t, m.begin, 0) == |pre| && t[..|pre|] == pre
    ensures t[BlockEnd(m, t, |pre|)..] == post
  {
    Slices(pre, block, post);
  }

  // ----- removing

  lemma RemoveLocated(m: Sentinel, t: string, pre: string, block: string, post: string)
    requires Located(m, t, pre, block, post)
    ensures Remove(m, t) == Closed(pre, post)
  {
    LocatedContains(m, t, pre, block, post);
  }

  /** Removing after an installation is removing before it where a block was there.
      Otherwise it gives the user's text back without its final blanks, ended by a
      line break, and then whatever the block had behind its closing line. */
  lemma RemoveAfterUpsert(m: Sentinel, existing: string, block: string)
    requires IsPadded(m, block)
    ensures Remove(m, Upsert(m, existing, block)) ==
      if Contains(existing, m.begin) then Remove(m, existing) else Closed(existing, Padding(block))
  {
    if Contains(existing, m.begin) { RemoveUpdated(m, existing, block); } else { RemoveAdded(m, existing, block); }
  }

  lemma RemoveUpdated(m: Sentinel, existing: string, block: string)
    requires IsPadded(m, block) && Contains(existing, m.begin)
    ensures Remove(m, Upsert(m, existing, block)) == Remove(m, existing)
  {
    var start := Find(existing, m.begin, 0);
    var post := existing[BlockEnd(m, existing, start)..];
    UpdatedAt(m, existing, block);
    RemoveLocated(m, Upsert(m, existing, block), existing[..start], RStrip(block), OnNewLine(post));
    assert AfterLineBreak(OnNewLine(post)) == AfterLineBreak(post);
  }

  lemma RemoveAdded(m: Sentinel, existing: string, block: string)
    requires IsPadded(m, block) && !Contains(existing, m.begin)
    ensures Remove(m, Upsert(m, existing, block)) == Closed(existing, Padding(block))
  {
    AddedAt(m, existing, block);
    RemoveLocated(m, Upsert(m, existing, block), Separated(existing), RStrip(block), Padding(block));
    ClosedSeparated(existing, Padding(block));
  }

  lemma ClosedSeparated(existing: string, post: string)
    ensures Closed(Separated(existing), post) == Closed(existing, post)
  {
    SeparatedEndsLine(existing);
    var w :| AllNewlines(w) && Separated(existing) == existing + w;
    BlankNewlines(w);
    RStripExtended(existing, w);
  }

  /** The rendered block meets what the results above ask of a block, unless its
      text holds the closing mark. */
  lemma RenderedBlock(m: Sentinel, source: string, guidance: string)
    requires m.Valid() && !Contains(Head(m, source, guidance), m.end)
    ensures var block := Rendered(m, source, guidance); IsPadded(m, block) && Padding(block) == "\n"
  {
    var head := Head(m, source, guidance);
    EndsWithNewline(m.begin + ("\n\n> Auto-injected by agent-memory-hub Codex adapter. Edit at\n> " + source +
                               " (repo source) and re-install, not in-place.\n\n" + RStrip(guidance) + "\n"), head);
    BlockOfLines(m, head);
    assert ((head + m.end) + "\n")[|head + m.end|..] == "\n";
  }

  lemma EndsWithNewline(s: string, t: string)
    requires t == s + "\n"
    ensures EndsWith(t, "\n")
  {
  }

  /** Installing the rendered block and removing it again. */
  lemma RenderedRoundTrip(m: Sentinel, existing: string, source: string, guidance: string)
    requires m.Valid() && !Contains(Head(m, source, guidance), m.end) && !Contains(existing, m.begin)
    ensures var block := Rendered(m, source, guidance);
      && Upsert(m, Upsert(m, existing, block), block) == Upsert(m, existing, block)
      && Remove(m, Upsert(m, existing, block)) == if Blank(existing) then "" else RStrip(existing) + "\n"
  {
    var block := Rendered(m, source, guidance);
    RenderedBlock(m, source, guidance);
    UpsertTwice(m, existing, block);
    RemoveAfterUpsert(m, existing, block);
    ClosedByLineBreak(existing);
  }

  lemma ClosedByLineBreak(text: string)
    ensures Closed(text, "\n") == if Blank(text) then "" else RStrip(text) + "\n"
  {
    assert AfterLineBreak("\n") == "";
    BlankRest(text);
  }
}
