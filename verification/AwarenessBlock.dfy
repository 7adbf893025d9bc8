/** The awareness block an adapter keeps in a user's instruction file: installing
    it at the end or at the front, updating it in place, and removing it. */
module AwarenessBlock {
  import opened Options
  import opened Strings
  import opened SentinelText
  import opened Sequences
  import opened Stripping

  datatype Placement = Append | Prepend

  /** `_prepend_block` before the block is put in front: the user's text in one piece. */
  function Preserved(before: string, after: string): string {
    var preserved, trailing := RStripNewlines(before), LStripNewlines(after);
    if preserved != "" && trailing != "" then preserved + ("\n" + trailing)
    else if preserved != "" then preserved else trailing
  }

  /** `_prepend_block`. */
  function PrependBlock(block: string, before: string, after: string): string {
    var preserved := Preserved(before, after);
    if StripsToNothing(preserved) then block + "\n" else block + Tail(RStrip(preserved))
  }

  /** What follows a prepended block: a blank line, then the user's text. */
  function Tail(text: string): string {
    "\n\n" + (text + "\n")
  }

  /** The new content of a file that holds `content` (empty for an absent file). */
  function Installed(m: Sentinel, content: string, block: string, placement: Placement): string {
    if Contains(content, m.begin) then
      var start := Find(content, m.begin, 0);
      var end := BlockEnd(m, content, start);
      match placement
      case Prepend => PrependBlock(block, content[..start], content[end..])
      case Append => content[..start] + (block + content[end..])
    else
      match placement
      case Prepend => PrependBlock(block, "", content)
      case Append => Separated(content) + (block + "\n")
  }

  /** The text left by `uninstall_awareness_block`; a blank one removes the file. */
  function Uninstalled(m: Sentinel, content: string): string {
    if !Contains(content, m.begin) then content
    else
      var start := Find(content, m.begin, 0);
      Without(content, start, BlockEnd(m, content, start))
  }

  /** The text without `[start, end)` and the line breaks around it. */
  function Without(content: string, start: nat, end: nat): string
    requires start <= end <= |content|
  {
    Joined(RStripNewlines(content[..start]), LStripNewlines(content[end..]))
  }

  function Joined(before: string, after: string): string {
    before + ((if before != "" && after != "" then "\n" else "") + after)
  }

  /** `_has_user_content`: text outside the managed block that is not blank. */
  predicate HasUserContent(m: Sentinel, content: string) {
    if !Contains(content, m.begin) then !StripsToNothing(content)
    else
      var start := Find(content, m.begin, 0);
      var end := BlockEnd(m, content, start);
      !StripsToNothing(content[..start] + content[end..])
  }

  // ----- the file

  /** An instruction file and the backups written beside it. */
  class InstructionFile {
    const m: Sentinel
    var content: Option<string>
    var backups: seq<string>

    constructor (m: Sentinel, content: Option<string>)
      requires m.Valid()
      ensures this.m == m && this.content == content && this.backups == []
    {
      this.m, this.content, this.backups := m, content, [];
    }

    function Text(): string
      reads this
    {
      if content.Some? then content.value else ""
    }

    /** `_write_backup`. */
    method WriteBackup(text: string)
      modifies this`backups
      ensures backups == if HasUserContent(m, text) then old(backups) + [text] else old(backups)
    {
      if HasUserContent(m, text) { backups := backups + [text]; }
    }

    /** `install_awareness_block`. User text is backed up before it is overwritten. */
    method Install(block: string, placement: Placement) returns (changed: bool)
      requires m.Valid()
      modifies this
      ensures content == Some(Installed(m, old(Text()), block, placement))
      ensures Contains(old(Text()), m.begin) ==> (changed <==> content != old(content))
      ensures !Contains(old(Text()), m.begin) ==> changed
      ensures backups == old(backups) +
        (if changed && old(content).Some? && HasUserContent(m, old(Text())) then [old(Text())] else [])
    {
      var text := Text();
      if Contains(text, m.begin) {
        changed := Update(text, block, placement);
        return changed;
      }
      Add(text, block, placement);
      return true;
    }

    /** The branch for a file without a block. */
    method Add(text: string, block: string, placement: Placement)
      requires Text() == text && !Contains(text, m.begin)
      modifies this
      ensures content == Some(Installed(m, text, block, placement))
      ensures backups == old(backups) + (if old(content).Some? && HasUserContent(m, text) then [text] else [])
    {
      var updated := if placement.Prepend? then PrependBlock(block, "", text) else Separated(text) + (block + "\n");
      if content.Some? { WriteBackup(text); }
      content := Some(updated);
    }

    /** The branch for a file that holds a block. */
    method Update(text: string, block: string, placement: Placement) returns (changed: bool)
      requires m.Valid() && Text() == text && Contains(text, m.begin)
      modifies this
      ensures content == Some(Installed(m, text, block, placement))
      ensures changed <==> content != old(content)
      ensures backups == old(backups) + (if changed && HasUserContent(m, text) then [text] else [])
      ensures old(content).Some?
    {
      assert content.None? ==> text == "";
      var start := Find(text, m.begin, 0);
      var end := BlockEnd(m, text, start);
      if placement.Prepend? {
        var updated := PrependBlock(block, text[..start], text[end..]);
        changed := text != updated;
        if changed { Overwrite(text, updated); }
        return changed;
      }
      SameBlock(text, start, end, block);
      changed := text[start..end] != block;
      if changed { Overwrite(text, text[..start] + (block + text[end..])); }
    }

    method Overwrite(text: string, updated: string)
      modifies this
      ensures content == Some(updated)
      ensures backups == old(backups) + (if HasUserContent(m, text) then [text] else [])
    {
      WriteBackup(text);
      content := Some(updated);
    }

    /** `uninstall_awareness_block`. */
    method Uninstall() returns (changed: bool)
      modifies this
      ensures old(content).None? ==> content == None && !changed
      ensures old(content).Some? ==>
        content == if StripsToNothing(Uninstalled(m, old(Text()))) then None else Some(Uninstalled(m, old(Text())))
      ensures backups == old(backups) +
        (if old(content).Some? && Contains(old(Text()), m.begin) && HasUserContent(m, old(Text()))
         then [old(Text())] else [])
      ensures old(content).Some? ==> (changed <==> Contains(old(Text()), m.begin) || content.None?)
    {
      if content.None? { return false; }
      var text := Text();
      if !Contains(text, m.begin) {
        if StripsToNothing(text) {
          content := None;
          return true;
        }
        return false;
      }
      var cleaned := Uninstalled(m, text);
      WriteBackup(text);
      content := if StripsToNothing(cleaned) then None else Some(cleaned);
      return true;
    }
  }

  lemma SameBlock(text: string, start: nat, end: nat, block: string)
    requires start <= end <= |text|
    ensures text[..start] + (block + text[end..]) == text <==> text[start..end] == block
  {
    assert text == text[..start] + (text[start..end] + text[end..]);
    var updated := text[..start] + (block + text[end..]);
    if updated == text {
      assert |block| == end - start;
      assert updated[start..end] == block;
    }
  }

  // ----- installing twice

  lemma AppendedNew(m: Sentinel, content: string, block: string)
    requires m.Valid() && IsBlock(m, block) && !Contains(content, m.begin)
    ensures Located(m, Installed(m, content, block, Append), Separated(content), block, "\n")
  {
    AddedBehind(m, content, block, "\n");
  }

  /** Where the block is after it was appended or updated. */
  lemma AppendedAt(m: Sentinel, content: string, block: string) returns (pre: string, post: string)
    requires m.Valid() && IsBlock(m, block)
    ensures Located(m, Installed(m, content, block, Append), pre, block, post)
  {
    if Contains(content, m.begin) {
      var start := Find(content, m.begin, 0);
      pre, post := content[..start], content[BlockEnd(m, content, start)..];
      UpdatedInPlace(m, content, block, post);
    } else {
      pre, post := Separated(content), "\n";
      AppendedNew(m, content, block);
    }
  }

  lemma AppendToLocated(m: Sentinel, t: string, pre: string, block: string, post: string)
    requires m.Valid() && Located(m, t, pre, block, post)
    ensures Contains(t, m.begin) && Installed(m, t, block, Append) == t
  {
    Slices(pre, block, post);
  }

  /** Appending (or updating in place) a block twice is doing it once, for every text. */
  lemma AppendTwice(m: Sentinel, content: string, block: string)
    requires m.Valid() && IsBlock(m, block)
    ensures var once := Installed(m, content, block, Append);
      Contains(once, m.begin) && Installed(m, once, block, Append) == once
  {
    var pre, post := AppendedAt(m, content, block);
    AppendToLocated(m, Installed(m, content, block, Append), pre, block, post);
  }

  /** The user text a prepending installation works on. */
  function UserText(m: Sentinel, content: string): string {
    if Contains(content, m.begin) then
      var start := Find(content, m.begin, 0);
      Preserved(content[..start], content[BlockEnd(m, content, start)..])
    else Preserved("", content)
  }

  lemma PrependedIs(m: Sentinel, content: string, block: string)
    ensures Installed(m, content, block, Prepend) ==
      if StripsToNothing(UserText(m, content)) then block + "\n" else block + Tail(RStrip(UserText(m, content)))
  {
  }

  lemma LocatedInFront(m: Sentinel, block: string, post: string)
    requires m.Valid() && IsBlock(m, block)
    ensures Located(m, block + post, "", block, post)
  {
    var t := block + post;
    assert t == "" + (block + post);
    EndOfBlock(m, "", block, post);
    assert t[0..|m.begin|] == m.begin;
    FindIs(t, m.begin, 0, 0);
  }

  lemma BlockInFront(m: Sentinel, block: string, post: string)
    requires m.Valid() && IsBlock(m, block)
    ensures Installed(m, block + post, block, Prepend) == PrependBlock(block, "", post)
    ensures UserText(m, block + post) == LStripNewlines(post)
  {
    InFront(m, block + post, block, post);
    assert RStripNewlines("") == "";
  }

  lemma InFront(m: Sentinel, t: string, block: string, post: string)
    requires m.Valid() && IsBlock(m, block) && t == block + post
    ensures Contains(t, m.begin) && Find(t, m.begin, 0) == 0 && BlockEnd(m, t, 0) == |block|
    ensures t[..0] == "" && t[|block|..] == post
  {
    LocatedInFront(m, block, post);
  }

  lemma {:induction false} LStripKeepsEnd(s: string)
    requires s != "" && !IsSpace(s[|s| - 1])
    ensures var r := LStripNewlines(s);
      && r != "" && !IsSpace(r[|r| - 1]) && |r| <= |s|
      && (r == s <==> s[0] != '\n')
    decreases |s|
  {
    if s[0] == '\n' { LStripKeepsEnd(s[1..]); }
  }

  lemma {:induction false} LStripFollowed(s: string, e: string)
    requires s != "" && !IsSpace(s[|s| - 1])
    ensures LStripNewlines(s + e) == LStripNewlines(s) + e
    decreases |s|
  {
    if s[0] == '\n' {
      assert (s + e)[1..] == s[1..] + e;
      LStripFollowed(s[1..], e);
    }
  }

  lemma LStripLineBreak(s: string)
    ensures LStripNewlines("\n" + s) == LStripNewlines(s)
  {
    assert ("\n" + s)[1..] == s;
  }

  lemma TwoLineBreaks(s: string)
    ensures "\n\n" + s == "\n" + ("\n" + s)
  {
    assert "\n\n" == "\n" + "\n";
    Associates("\n", "\n", s);
  }

  lemma LStripTail(s: string)
    requires s != "" && !IsSpace(s[|s| - 1])
    ensures LStripNewlines(Tail(s)) == LStripNewlines(s) + "\n"
  {
    LStripFollowed(s, "\n");
    LStripLineBreak(s + "\n");
    LStripLineBreak("\n" + (s + "\n"));
    TwoLineBreaks(s + "\n");
  }

  /** A text that does not end in a blank, followed by one line break. */
  lemma LineOf(l: string)
    requires l != "" && !IsSpace(l[|l| - 1])
    ensures RStrip(l + "\n") == l && !StripsToNothing(l + "\n")
  {
    RStripIs(l, "\n");
  }

  /** What a second prepending installation makes of the first one's result. */
  lemma PrependAgain(m: Sentinel, r: string, block: string)
    requires m.Valid() && IsBlock(m, block) && r != "" && !IsSpace(r[|r| - 1])
    ensures var l := LStripNewlines(r);
      && Installed(m, block + Tail(r), block, Prepend) == block + Tail(l)
      && l != "" && !IsSpace(l[|l| - 1])
  {
    StrippedTail(r);
    PrependAgainIs(m, r, LStripNewlines(r), block);
  }

  lemma StrippedTail(r: string)
    requires r != "" && !IsSpace(r[|r| - 1])
    ensures var l := LStripNewlines(r);
      && l != "" && !IsSpace(l[|l| - 1])
      && LStripNewlines(Tail(r)) == l + "\n" && RStrip(l + "\n") == l && !StripsToNothing(l + "\n")
  {
    LStripKeepsEnd(r);
    LStripTail(r);
    LineOf(LStripNewlines(r));
  }

  lemma PrependAgainIs(m: Sentinel, r: string, l: string, block: string)
    requires m.Valid() && IsBlock(m, block)
    requires LStripNewlines(Tail(r)) == l + "\n" && RStrip(l + "\n") == l && !StripsToNothing(l + "\n")
    ensures Installed(m, block + Tail(r), block, Prepend) == block + Tail(l)
  {
    BlockInFront(m, block, Tail(r));
    PrependedIs(m, block + Tail(r), block);
  }

  lemma PrependAgainBlank(m: Sentinel, block: string)
    requires m.Valid() && IsBlock(m, block)
    ensures Installed(m, block + "\n", block, Prepend) == block + "\n"
  {
    BlockInFront(m, block, "\n");
    assert LStripNewlines("\n") == "";
  }

  /** Prepending a block a second time changes the file exactly when the user text
      it preserves is not blank and starts with a line break; a third time never. */
  lemma PrependTwice(m: Sentinel, content: string, block: string)
    requires m.Valid() && IsBlock(m, block)
    ensures var once := Installed(m, content, block, Prepend);
      var twice := Installed(m, once, block, Prepend);
      && (twice != once <==> !StripsToNothing(UserText(m, content)) && UserText(m, content)[0] == '\n')
      && Installed(m, twice, block, Prepend) == twice
  {
    PrependedIs(m, content, block);
    var user := UserText(m, content);
    if !StripsToNothing(user) { StrippedText(user); }
    SettlesOnce(m, Installed(m, content, block, Prepend), StripsToNothing(user), RStrip(user), block);
  }

  lemma StrippedText(s: string)
    requires !StripsToNothing(s)
    ensures RStrip(s) != "" && RStrip(s)[0] == s[0] && !IsSpace(RStrip(s)[|RStrip(s)| - 1])
  {
  }

  lemma SettlesOnce(m: Sentinel, once: string, blank: bool, r: string, block: string)
    requires m.Valid() && IsBlock(m, block) && (!blank ==> r != "" && !IsSpace(r[|r| - 1]))
    requires once == if blank then block + "\n" else block + Tail(r)
    ensures var twice := Installed(m, once, block, Prepend);
      && (twice != once <==> !blank && r[0] == '\n')
      && Installed(m, twice, block, Prepend) == twice
  {
    if blank {
      PrependAgainBlank(m, block);
    } else {
      SettlesAtSecond(m, r, block);
    }
  }

  lemma SettlesAtSecond(m: Sentinel, r: string, block: string)
    requires m.Valid() && IsBlock(m, block) && r != "" && !IsSpace(r[|r| - 1])
    ensures var twice := Installed(m, block + Tail(r), block, Prepend);
      && (twice != block + Tail(r) <==> r[0] == '\n')
      && Installed(m, twice, block, Prepend) == twice
  {
    var l := LStripNewlines(r);
    PrependAgain(m, r, block);
    PrependAgain(m, l, block);
    LStripKeepsEnd(r);
    LStripKeepsEnd(l);
    PartsDiffer(block, r, l);
  }

  lemma PartsDiffer(block: string, r: string, l: string)
    ensures block + Tail(r) == block + Tail(l) <==> r == l
  {
    if block + Tail(r) == block + Tail(l) {
      assert Tail(r) == (block + Tail(r))[|block|..] == (block + Tail(l))[|block|..] == Tail(l);
      assert r == Tail(r)[2..|Tail(r)| - 1] && l == Tail(l)[2..|Tail(l)| - 1];
    }
  }

  lemma BlankInside(s: string)
    ensures Blank(RStripNewlines(s)) <==> Blank(s)
    ensures Blank(LStripNewlines(s)) <==> Blank(s)
  {
    var r := RStripNewlines(s);
    RStripNewlinesRest(s);
    BlankNewlines(s[|r|..]);
    BlankConcat(r, s[|r|..]);
    assert s == r + s[|r|..];
    LStripBlank(s);
  }

  lemma BlankTail(s: string)
    requires s != "" && IsSpace(s[0])
    ensures Blank(s) <==> Blank(s[1..])
  {
    assert forall i :: 1 <= i < |s| ==> s[i] == s[1..][i - 1];
  }

  lemma {:induction false} LStripBlank(s: string)
    ensures Blank(LStripNewlines(s)) <==> Blank(s)
    decreases |s|
  {
    if s != "" && s[0] == '\n' {
      LStripBlank(s[1..]);
      BlankTail(s);
    }
  }

  lemma BlankPreserved(before: string, after: string)
    ensures StripsToNothing(Preserved(before, after)) <==> Blank(before) && Blank(after)
  {
    var preserved, trailing := RStripNewlines(before), LStripNewlines(after);
    BlankInside(before);
    BlankInside(after);
    BlankConcat("\n", trailing);
    BlankConcat(preserved, "\n" + trailing);
    BlankRest(Preserved(before, after));
  }

  /** The condition under which prepending is not stable, in terms of the file before:
      a block is there, the text before it starts with a line break and is not only
      line breaks, and the text around it is not blank. */
  lemma UnstableWhen(m: Sentinel, content: string)
    ensures !StripsToNothing(UserText(m, content)) && UserText(m, content)[0] == '\n' <==>
      Contains(content, m.begin) &&
      var start := Find(content, m.begin, 0);
      var before, after := content[..start], content[BlockEnd(m, content, start)..];
      && before != "" && before[0] == '\n' && RStripNewlines(before) != ""
      && !(Blank(before) && Blank(after))
  {
    if Contains(content, m.begin) {
      var start := Find(content, m.begin, 0);
      PreservedUnstable(content[..start], content[BlockEnd(m, content, start)..]);
    } else {
      NothingBefore(content);
    }
  }

  lemma NothingBefore(content: string)
    ensures var user := Preserved("", content); user == "" || user[0] != '\n'
  {
  }

  lemma PreservedUnstable(before: string, after: string)
    ensures var user := Preserved(before, after);
      !StripsToNothing(user) && user[0] == '\n' <==>
      before != "" && before[0] == '\n' && RStripNewlines(before) != "" && !(Blank(before) && Blank(after))
  {
    BlankPreserved(before, after);
    var kept := RStripNewlines(before);
    if kept != "" { assert kept[0] == before[0]; }
  }

  // ----- removing what was installed

  lemma RemoveLocated(m: Sentinel, t: string, pre: string, block: string, post: string)
    requires Located(m, t, pre, block, post)
    ensures Uninstalled(m, t) == Joined(RStripNewlines(pre), LStripNewlines(post))
  {
    Slices(pre, block, post);
    UninstalledIs(m, t, |pre|, |pre| + |block|, pre, post);
  }

  lemma UninstalledIs(m: Sentinel, t: string, start: nat, end: nat, pre: string, post: string)
    requires Find(t, m.begin, 0) == start && start <= end <= |t| && BlockEnd(m, t, start) == end
    requires t[..start] == pre && t[end..] == post
    ensures Uninstalled(m, t) == Joined(RStripNewlines(pre), LStripNewlines(post))
  {
  }

  /** Removing after an update in place is removing before it. */
  lemma RemoveUpdated(m: Sentinel, content: string, block: string)
    requires m.Valid() && IsBlock(m, block) && Contains(content, m.begin)
    ensures Uninstalled(m, Installed(m, content, block, Append)) == Uninstalled(m, content)
  {
    var start := Find(content, m.begin, 0);
    var end := BlockEnd(m, content, start);
    UpdatedInPlace(m, content, block, content[end..]);
    RemoveLocated(m, Installed(m, content, block, Append), content[..start], block, content[end..]);
    UninstalledIs(m, content, start, end, content[..start], content[end..]);
  }

  /** Removing an appended block gives the user's text back without its final line
      breaks. */
  lemma RemoveAppended(m: Sentinel, content: string, block: string)
    requires m.Valid() && IsBlock(m, block) && !Contains(content, m.begin)
    ensures Uninstalled(m, Installed(m, content, block, Append)) == RStripNewlines(content)
  {
    AppendedNew(m, content, block);
    RemoveLocated(m, Installed(m, content, block, Append), Separated(content), block, "\n");
    SeparatedEndsLine(content);
    var w :| AllNewlines(w) && Separated(content) == content + w;
    RStripNewlinesExtended(content, w);
    assert LStripNewlines("\n") == "";
  }

  /** Removing a prepended block gives the user's text back without its outer line
      breaks and final blanks, ended by one line break; blank text is dropped. */
  lemma RemovePrepended(m: Sentinel, content: string, block: string)
    requires m.Valid() && IsBlock(m, block) && !Contains(content, m.begin)
    ensures Uninstalled(m, Installed(m, content, block, Prepend)) ==
      if StripsToNothing(LStripNewlines(content)) then "" else RStrip(LStripNewlines(content)) + "\n"
  {
    var user := LStripNewlines(content);
    PrependedIs(m, content, block);
    UserTextOfAll(m, content);
    if StripsToNothing(user) {
      RemoveFromFront(m, block, "\n");
      assert LStripNewlines("\n") == "";
    } else {
      StrippedText(user);
      RemoveStripped(m, block, RStrip(user));
    }
  }

  lemma RemoveStripped(m: Sentinel, block: string, r: string)
    requires m.Valid() && IsBlock(m, block) && r != "" && r[0] != '\n' && !IsSpace(r[|r| - 1])
    ensures Uninstalled(m, block + Tail(r)) == r + "\n"
  {
    RemoveFromFront(m, block, Tail(r));
    LStripTail(r);
    LStripKeepsEnd(r);
  }

  lemma UserTextOfAll(m: Sentinel, content: string)
    requires !Contains(content, m.begin)
    ensures UserText(m, content) == LStripNewlines(content)
  {
    assert RStripNewlines("") == "";
  }

  lemma RemoveFromFront(m: Sentinel, block: string, post: string)
    requires m.Valid() && IsBlock(m, block)
    ensures Uninstalled(m, block + post) == LStripNewlines(post)
  {
    LocatedInFront(m, block, post);
    RemoveLocated(m, block + post, "", block, post);
    assert RStripNewlines("") == "";
  }
}
