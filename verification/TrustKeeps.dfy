/** What reading and writing trusted hashes means for the characters and lines of
    config.toml: which lines are read, and which lines stay. */
module TrustKeeps {
  import opened Options
  import opened Sequences
  import opened Strings
  import opened Stripping
  import opened TextLines
  import opened TrustText

  // ----- the lines that are read

  /** The text is `head`, a value in double quotes whose opening quote ends `head`,
      `tail` and blanks. */
  ghost predicate Spells(s: string, head: string, value: string, tail: string) {
    value != "" && '"' !in value && exists w :: Blank(w) && s == head + (value + ("\"" + (tail + w)))
  }

  lemma NoQuoteBefore(s: string, from: nat, q: nat)
    requires from <= q <= |s| && Find(s, "\"", from) == q
    ensures '"' !in s[from..q]
  {
    forall k | 0 <= k < q - from ensures s[from..q][k] != '"' {
      if s[from + k] == '"' {
        assert s[from + k..from + k + 1] == "\"";
        assert OccursAt(s, "\"", from + k);
      }
    }
  }

  lemma FiveParts(s: string, i: nat, q: nat, j: nat)
    requires i <= q < j <= |s|
    ensures s == s[..i] + (s[i..q] + ([s[q]] + (s[q + 1..j] + s[j..])))
  {
    assert s[q + 1..] == s[q + 1..j] + s[j..];
    assert s[q..] == [s[q]] + s[q + 1..];
    assert s[i..] == s[i..q] + s[q..];
  }

  lemma QuoteParts(s: string, head: string, tail: string, q: nat, j: nat)
    requires StartsWith(s, head) && |head| <= q && OccursAt(s, "\"", q) && j == q + 1 + |tail|
    requires StartsWith(s[q + 1..], tail)
    ensures j <= |s| && s[..|head|] == head && [s[q]] == "\"" && s[q + 1..j] == tail
  {
    assert s[q..q + 1][0] == s[q];
    assert s[q + 1..][..|tail|] == s[q + 1..j];
  }

  lemma Spelled(s: string, head: string, value: string, tail: string, w: string)
    requires value != "" && '"' !in value && Blank(w) && s == head + (value + ("\"" + (tail + w)))
    ensures Spells(s, head, value, tail)
  {
  }

  lemma QuotedSpells(s: string, head: string, value: string, tail: string)
    requires Quoted(s, head, tail) == Some(value)
    ensures Spells(s, head, value, tail)
  {
    var q := Find(s, "\"", |head|);
    var j := q + 1 + |tail|;
    NoQuoteBefore(s, |head|, q);
    FiveParts(s, |head|, q, j);
    QuoteParts(s, head, tail, q, j);
    Spelled(s, head, s[|head|..q], tail, s[j..]);
  }

  lemma SpelledQuote(s: string, head: string, value: string, rest: string)
    requires s == head + (value + ("\"" + rest)) && '"' !in value
    ensures Find(s, "\"", |head|) == |head| + |value| && s[|head| + |value| + 1..] == rest
    ensures s[|head|..|head| + |value|] == value && StartsWith(s, head)
  {
    var q := |head| + |value|;
    assert s[|head|..] == value + ("\"" + rest) && s[q..] == "\"" + rest && s[q + 1..] == rest;
    assert s[q..q + 1] == "\"";
    forall j | |head| <= j < q ensures !OccursAt(s, "\"", j) {
      assert s[j] == value[j - |head|] != '"';
      assert s[j..j + 1][0] == s[j];
    }
    FindIs(s, "\"", |head|, q);
  }

  lemma SpelledQuoted(s: string, head: string, value: string, tail: string)
    requires Spells(s, head, value, tail)
    ensures Quoted(s, head, tail) == Some(value)
  {
    var w :| Blank(w) && s == head + (value + ("\"" + (tail + w)));
    SpelledQuote(s, head, value, tail + w);
    assert (tail + w)[|tail|..] == w;
    assert s[|head| + |value| + 1 + |tail|..] == s[|head| + |value| + 1..][|tail|..];
  }

  /** The line opens the section of the key, as the reader's pattern wants it. */
  ghost predicate PlainHeader(line: string, key: string) {
    Spells(line, "[hooks.state.\"", key, "]")
  }

  /** The same, or with a blank before the quoted key. */
  ghost predicate HeaderOf(line: string, key: string) {
    PlainHeader(line, key) || Spells(line, "[hooks.state. \"", key, "]")
  }

  /** A header is read exactly where the line is spelled so. */
  lemma HeaderMeans(line: string, key: string)
    ensures HeaderKey(line) == Some(key) <==> PlainHeader(line, key)
    ensures AnyKey(line) == Some(key) <==> HeaderOf(line, key)
  {
    if HeaderKey(line) == Some(key) { QuotedSpells(line, PLAIN_HEAD, key, "]"); }
    if SpacedKey(line) == Some(key) { QuotedSpells(line, SPACED_HEAD, key, "]"); }
    if PlainHeader(line, key) { SpelledQuoted(line, PLAIN_HEAD, key, "]"); }
    if Spells(line, SPACED_HEAD, key, "]") { SpelledQuoted(line, SPACED_HEAD, key, "]"); }
    HeadsDiffer(line);
  }

  lemma {:induction false} SkippedSpace(s: string)
    ensures var r := SkipSpace(s);
      && (r == "" || !IsSpace(r[0])) && Blank(s[..|s| - |r|]) && s == s[..|s| - |r|] + r
    decreases |s|
  {
    if s != "" && IsSpace(s[0]) {
      SkippedSpace(s[1..]);
      var k := |s| - |SkipSpace(s)|;
      assert s[..k] == [s[0]] + s[1..][..k - 1];
    }
  }

  lemma {:induction false} SkipBlank(w: string, r: string)
    requires Blank(w) && r != "" && !IsSpace(r[0])
    ensures SkipSpace(w + r) == r
    decreases |w|
  {
    if w == "" {
      assert w + r == r;
    } else {
      assert (w + r)[1..] == w[1..] + r;
      SkipBlank(w[1..], r);
    }
  }

  /** The line assigns the hash: the name, an equals sign between blanks, and the hash in
      double quotes before blanks. */
  ghost predicate Assigns(line: string, hash: string) {
    exists v, w, value :: Blank(v) && Blank(w) && Spells(value, "\"", hash, "") &&
                          line == "trusted_hash" + (v + ("=" + (w + value)))
  }

  lemma LineAssigns(line: string, rest: string, v: string, a: string, w: string, value: string, hash: string)
    requires line == HASH_NAME + rest && rest == v + a && a == "=" + (w + value)
    requires Blank(v) && Blank(w) && Spells(value, "\"", hash, "")
    ensures Assigns(line, hash)
  {
  }

  lemma HashSpells(line: string, hash: string)
    requires HashOf(line) == Some(hash)
    ensures Assigns(line, hash)
  {
    var rest := line[|HASH_NAME|..];
    var a := SkipSpace(rest);
    var value := SkipSpace(a[1..]);
    SkippedSpace(rest);
    SkippedSpace(a[1..]);
    QuotedSpells(value, "\"", hash, "");
    var v, w := rest[..|rest| - |a|], a[1..][..|a| - 1 - |value|];
    assert line[..|HASH_NAME|] == HASH_NAME && line == HASH_NAME + rest;
    assert a == "=" + (w + value) by { assert a == "=" + a[1..]; }
    LineAssigns(line, rest, v, a, w, value, hash);
  }

  lemma SpelledHash(line: string, hash: string)
    requires Assigns(line, hash)
    ensures HashOf(line) == Some(hash)
  {
    var v, w, value :| Blank(v) && Blank(w) && Spells(value, "\"", hash, "") &&
                       line == "trusted_hash" + (v + ("=" + (w + value)));
    var assignment := "=" + (w + value);
    assert line[..|HASH_NAME|] == HASH_NAME && line[|HASH_NAME|..] == v + assignment;
    SkipBlank(v, assignment);
    assert assignment[1..] == w + value;
    SpelledQuoted(value, "\"", hash, "");
    assert value[0] == '"';
    SkipBlank(w, value);
  }

  /** A hash is read exactly where the line assigns it. */
  lemma HashMeans(line: string, hash: string)
    ensures HashOf(line) == Some(hash) <==> Assigns(line, hash)
  {
    if HashOf(line) == Some(hash) { HashSpells(line, hash); }
    if Assigns(line, hash) { SpelledHash(line, hash); }
  }

  predicate Bracketed(line: string) {
    line != "" && line[0] == '['
  }

  /** The line at `j` is the first that assigns a hash, before any further bracket. */
  ghost predicate FirstHash(ls: seq<string>, j: nat, hash: string) {
    && j < |ls| && Assigns(ls[j], hash) && (forall k :: 0 <= k <= j ==> !Bracketed(ls[k]))
    && (forall k :: 0 <= k < j ==> NoHash(ls[k]))
  }

  ghost predicate NoHash(line: string) {
    forall h :: !Assigns(line, h)
  }

  lemma NoHashMeans(line: string)
    ensures HashOf(line) == None <==> NoHash(line)
  {
    if HashOf(line).Some? { HashMeans(line, HashOf(line).value); }
    if h :| Assigns(line, h) { HashMeans(line, h); }
  }

  lemma {:induction false} SectionHashFound(ls: seq<string>, hash: string) returns (j: nat)
    requires SectionHash(ls) == Some(hash)
    ensures FirstHash(ls, j, hash)
    decreases |ls|
  {
    NoHashMeans(ls[0]);
    HashMeans(ls[0], hash);
    if HashOf(ls[0]).Some? {
      j := 0;
    } else {
      var k := SectionHashFound(ls[1..], hash);
      j := k + 1;
      assert forall n :: 1 <= n <= j ==> ls[n] == ls[1..][n - 1];
    }
  }

  lemma {:induction false} FirstHashFound(ls: seq<string>, j: nat, hash: string)
    requires FirstHash(ls, j, hash)
    ensures SectionHash(ls) == Some(hash)
    decreases |ls|
  {
    NoHashMeans(ls[0]);
    HashMeans(ls[0], hash);
    if j > 0 {
      assert NoHash(ls[0]);
      assert forall k :: 0 <= k < j ==> ls[1..][k] == ls[k + 1];
      FirstHashFound(ls[1..], j - 1, hash);
    }
  }

  /** The lines up to the next bracket assign this hash first. */
  ghost predicate Assigned(ls: seq<string>, hash: string) {
    exists j: nat :: FirstHash(ls, j, hash)
  }

  lemma AssignedMeans(ls: seq<string>, hash: string)
    ensures SectionHash(ls) == Some(hash) <==> Assigned(ls, hash)
  {
    if SectionHash(ls) == Some(hash) { var j := SectionHashFound(ls, hash); }
    if j: nat :| FirstHash(ls, j, hash) { FirstHashFound(ls, j, hash); }
  }

  /** The line opens the key's section, and the hash is the first one the section assigns. */
  ghost predicate EntryAt(ls: seq<string>, i: nat, key: string, hash: string) {
    i < |ls| && PlainHeader(ls[i], key) && Assigned(ls[i + 1..], hash)
  }

  ghost predicate HasEntry(ls: seq<string>, key: string) {
    exists i: nat, hash :: EntryAt(ls, i, key, hash)
  }

  lemma EntryMeans(ls: seq<string>, key: string, hash: string)
    requires ls != []
    ensures HeaderKey(ls[0]) == Some(key) && SectionHash(ls[1..]) == Some(hash) <==> EntryAt(ls, 0, key, hash)
  {
    HeaderMeans(ls[0], key);
    AssignedMeans(ls[1..], hash);
  }

  lemma EntryLater(ls: seq<string>, i: nat, key: string, hash: string)
    requires ls != []
    ensures EntryAt(ls, i + 1, key, hash) <==> EntryAt(ls[1..], i, key, hash)
  {
    if i + 1 < |ls| { assert ls[1..][i + 1..] == ls[i + 2..]; }
  }

  lemma HeadEntry(ls: seq<string>, key: string)
    requires ls != []
    ensures key in SectionEntry(ls) <==> exists hash :: EntryAt(ls, 0, key, hash)
    ensures key in SectionEntry(ls) ==> EntryAt(ls, 0, key, SectionEntry(ls)[key])
  {
    if key in SectionEntry(ls) { EntryMeans(ls, key, SectionHash(ls[1..]).value); }
    if hash :| EntryAt(ls, 0, key, hash) { EntryMeans(ls, key, hash); }
  }

  lemma HasEntryCons(ls: seq<string>, key: string)
    requires ls != []
    ensures HasEntry(ls, key) <==> key in SectionEntry(ls) || HasEntry(ls[1..], key)
  {
    HeadEntry(ls, key);
    if i: nat, hash :| EntryAt(ls[1..], i, key, hash) {
      EntryLater(ls, i, key, hash);
      assert EntryAt(ls, i + 1, key, hash);
    }
    if i: nat, hash :| EntryAt(ls, i, key, hash) {
      if i > 0 { EntryLater(ls, i - 1, key, hash); }
    }
  }

  lemma {:induction false} EntriesAreRead(ls: seq<string>, key: string)
    ensures key in ReadLines(ls) <==> HasEntry(ls, key)
    decreases |ls|
  {
    if ls != [] {
      HasEntryCons(ls, key);
      EntriesAreRead(ls[1..], key);
    }
  }

  /** The entry that counts for a key: the last one. */
  ghost predicate LastEntry(ls: seq<string>, i: nat, key: string, hash: string) {
    EntryAt(ls, i, key, hash) && !HasEntry(ls[i + 1..], key)
  }

  lemma LastEntryLater(ls: seq<string>, i: nat, key: string, hash: string)
    requires ls != []
    ensures LastEntry(ls, i + 1, key, hash) <==> LastEntry(ls[1..], i, key, hash)
  {
    EntryLater(ls, i, key, hash);
    if i + 1 < |ls| { assert ls[1..][i + 1..] == ls[i + 2..]; }
  }

  lemma {:induction false} LastEntryExists(ls: seq<string>, key: string) returns (i: nat)
    requires key in ReadLines(ls)
    ensures LastEntry(ls, i, key, ReadLines(ls)[key])
    decreases |ls|
  {
    EntriesAreRead(ls[1..], key);
    if key in ReadLines(ls[1..]) {
      var k := LastEntryExists(ls[1..], key);
      i := k + 1;
      LastEntryLater(ls, k, key, ReadLines(ls)[key]);
    } else {
      i := 0;
      HeadEntry(ls, key);
    }
  }

  lemma {:induction false} LastEntryIsRead(ls: seq<string>, i: nat, key: string, hash: string)
    requires LastEntry(ls, i, key, hash)
    ensures key in ReadLines(ls) && ReadLines(ls)[key] == hash
    decreases |ls|
  {
    if i == 0 {
      EntryMeans(ls, key, hash);
      EntriesAreRead(ls[1..], key);
    } else {
      LastEntryLater(ls, i - 1, key, hash);
      LastEntryIsRead(ls[1..], i - 1, key, hash);
    }
  }

  ghost predicate HasLast(ls: seq<string>, key: string, hash: string) {
    exists i: nat :: LastEntry(ls, i, key, hash)
  }

  lemma LinesMean(ls: seq<string>, key: string, hash: string)
    ensures key in ReadLines(ls) && ReadLines(ls)[key] == hash <==> HasLast(ls, key, hash)
  {
    if key in ReadLines(ls) && ReadLines(ls)[key] == hash { var i := LastEntryExists(ls, key); }
    if HasLast(ls, key, hash) {
      var i: nat :| LastEntry(ls, i, key, hash);
      LastEntryIsRead(ls, i, key, hash);
    }
  }

  /** What reading gives for a key: the first hash assigned in its last section that
      assigns one, before the next line that starts with a bracket. */
  lemma ReadMeans(text: string, key: string, hash: string)
    ensures key in Read(text) && Read(text)[key] == hash <==> HasLast(Lines(text), key, hash)
  {
    LinesMean(Lines(text), key, hash);
  }

  // ----- the lines that stay

  /** Lines outside the sections of the keys, in order; `inside` says whether the text
      before stands in such a section. A section ends at the next bracket. */
  ghost function Outside(ls: seq<string>, keys: set<string>, inside: bool): seq<string> {
    if ls == [] then []
    else
      var here := if Bracketed(ls[0]) then HeaderOfAny(ls[0], keys) else inside;
      (if here then [] else [ls[0]]) + Outside(ls[1..], keys, here)
  }

  ghost predicate HeaderOfAny(line: string, keys: set<string>) {
    exists key :: key in keys && HeaderOf(line, key)
  }

  /** Whether the lines end inside a section of the keys. */
  ghost function EndsInside(ls: seq<string>, keys: set<string>, inside: bool): bool {
    if ls == [] then inside
    else EndsInside(ls[1..], keys, if Bracketed(ls[0]) then HeaderOfAny(ls[0], keys) else inside)
  }

  lemma {:induction false} OutsideConcat(a: seq<string>, b: seq<string>, keys: set<string>, inside: bool)
    ensures Outside(a + b, keys, inside) == Outside(a, keys, inside) + Outside(b, keys, EndsInside(a, keys, inside))
    decreases |a|
  {
    if a == [] {
      assert a + b == b;
    } else {
      assert (a + b)[0] == a[0] && (a + b)[1..] == a[1..] + b;
      OutsideConcat(a[1..], b, keys, if Bracketed(a[0]) then HeaderOfAny(a[0], keys) else inside);
    }
  }

  /** A section of one of the keys leaves nothing. */
  lemma OutsideSection(sec: seq<string>, key: string, keys: set<string>, inside: bool)
    requires sec != [] && Bracketed(sec[0]) && HeaderOf(sec[0], key) && key in keys
    requires forall k :: 1 <= k < |sec| ==> !Bracketed(sec[k])
    ensures Outside(sec, keys, inside) == []
  {
    assert HeaderOfAny(sec[0], keys);
    OutsideInside(sec[1..], keys);
  }

  lemma {:induction false} OutsideInside(ls: seq<string>, keys: set<string>)
    requires forall k :: 0 <= k < |ls| ==> !Bracketed(ls[k])
    ensures Outside(ls, keys, true) == []
    decreases |ls|
  {
    if ls != [] { OutsideInside(ls[1..], keys); }
  }

  /** Where lines start with a bracket it does not matter what came before. */
  lemma OutsideBracket(ls: seq<string>, keys: set<string>, a: bool, b: bool)
    requires ls == [] || Bracketed(ls[0])
    ensures Outside(ls, keys, a) == Outside(ls, keys, b)
  {
  }

  /** Exchanging one section of the keys for another changes nothing outside. */
  lemma OutsideExchanged(a: seq<string>, s: seq<string>, t: seq<string>, c: seq<string>, key: string,
                         keys: set<string>)
    requires key in keys && (c == [] || Bracketed(c[0]))
    requires s != [] && Bracketed(s[0]) && HeaderOf(s[0], key) && forall k :: 1 <= k < |s| ==> !Bracketed(s[k])
    requires t != [] && Bracketed(t[0]) && HeaderOf(t[0], key) && forall k :: 1 <= k < |t| ==> !Bracketed(t[k])
    ensures Outside(a + (s + c), keys, false) == Outside(a + (t + c), keys, false)
  {
    OutsideAround(a, s, c, key, keys);
    OutsideAround(a, t, c, key, keys);
  }

  lemma OutsideAround(a: seq<string>, s: seq<string>, c: seq<string>, key: string, keys: set<string>)
    requires key in keys && (c == [] || Bracketed(c[0]))
    requires s != [] && Bracketed(s[0]) && HeaderOf(s[0], key) && forall k :: 1 <= k < |s| ==> !Bracketed(s[k])
    ensures Outside(a + (s + c), keys, false) == Outside(a, keys, false) + Outside(c, keys, false)
  {
    var e := EndsInside(a, keys, false);
    OutsideConcat(a, s + c, keys, false);
    OutsideConcat(s, c, keys, e);
    OutsideSection(s, key, keys, e);
    OutsideBracket(c, keys, EndsInside(s, keys, e), false);
    assert [] + Outside(c, keys, false) == Outside(c, keys, false);
  }

  function WithoutEmptyLast(ls: seq<string>): seq<string>
    requires ls != []
  {
    if ls[|ls| - 1] == "" then ls[..|ls| - 1] else ls
  }

  lemma EmptyLastBehind(a: seq<string>, c: seq<string>)
    requires c != []
    ensures WithoutEmptyLast(a + c) == a + WithoutEmptyLast(c)
  {
    assert (a + c)[|a + c| - 1] == c[|c| - 1];
    assert (a + c)[..|a + c| - 1] == a + c[..|c| - 1];
  }

  /** The text's lines; what follows the last line break only if there is something. */
  function WholeLines(text: string): seq<string> {
    WithoutEmptyLast(Lines(text))
  }

  lemma WholeOfComplete(ls: seq<string>)
    requires AllLines(ls)
    ensures WholeLines(Unlines(ls)) == ls
  {
    LinesOfUnlines(ls, "");
    assert Unlines(ls) + "" == Unlines(ls);
    EmptyLastBehind(ls, [""]);
    assert ls + [] == ls;
  }

  lemma WholeOfJoin(a: seq<string>, c: seq<string>)
    requires AllLines(a) && AllLines(c) && c != []
    ensures WholeLines(Unlines(a) + Join(c)) == a + WithoutEmptyLast(c)
  {
    LinesOfUnlines(a, Join(c));
    LinesOfJoin(c);
    EmptyLastBehind(a, c);
  }

  /** Empty lines and the line of the state table. */
  predicate Pads(ls: seq<string>) {
    forall i :: 0 <= i < |ls| ==> ls[i] == "" || ls[i] == "[hooks.state]"
  }

  lemma {:induction false} UnlinesEnd(ls: seq<string>)
    requires ls != []
    ensures EndsWith(Unlines(ls), "\n")
    decreases |ls|
  {
    if |ls| == 1 {
      assert Unlines(ls[1..]) == "";
      assert Unlines(ls) == ls[0] + "\n";
    } else {
      UnlinesEnd(ls[1..]);
      EndsWithExtend(Unlines(ls[1..]), ls[0] + "\n", "\n");
    }
  }

  lemma WholeLinesBroken(content: string)
    ensures IsLines(WithLineBreak(content), WholeLines(content))
  {
    var ls := Lines(content);
    var k := |ls| - 1;
    LastLine(content);
    if ls[k] == "" {
      assert content == Unlines(ls[..k]);
      if k > 0 { UnlinesEnd(ls[..k]); }
    } else {
      AppendLine(Unlines(ls[..k]), ls[..k], ls[k]);
      assert ls[..k] + [ls[k]] == ls;
      assert !EndsWith(content, "\n") by { assert content[|content| - 1] != '\n'; }
    }
  }

  lemma StateTableWhole(text: string, ls: seq<string>) returns (added: seq<string>)
    requires IsLines(text, ls)
    ensures IsLines(WithStateTable(text), ls + added) && Pads(added)
  {
    added := [];
    assert ls + [] == ls;
    if !Contains(text, STATE_TABLE) {
      added := ["", STATE_TABLE];
      StateTableLine();
      AppendLine(text, ls, "");
      AppendLine(text + "" + "\n", ls + [""], STATE_TABLE);
      assert text + "" + "\n" == text + "\n";
      assert ls + [""] + [STATE_TABLE] == ls + added;
    }
  }

  lemma BlankLineWhole(text: string, ls: seq<string>) returns (added: seq<string>)
    requires IsLines(text, ls)
    ensures IsLines(WithBlankLine(text), ls + added) && Pads(added)
  {
    added := [];
    assert ls + [] == ls;
    if text != "" && !EndsWith(text, "\n\n") {
      added := [""];
      AppendLine(text, ls, "");
      assert text + "" + "\n" == text + "\n";
    }
  }

  lemma PreparedWhole(content: string) returns (added: seq<string>)
    ensures IsLines(Prepared(content), WholeLines(content) + added) && Pads(added)
  {
    WholeLinesBroken(content);
    var table := StateTableWhole(WithLineBreak(content), WholeLines(content));
    var blank := BlankLineWhole(WithStateTable(WithLineBreak(content)), WholeLines(content) + table);
    added := table + blank;
    Associates(WholeLines(content), table, blank);
  }

  /** A line break where the text lacks one at its end. */
  function BreakPad(content: string): string {
    if content != "" && !EndsWith(content, "\n") then "\n" else ""
  }

  /** The state table behind an empty line, where it does not occur. */
  function TablePad(text: string): string {
    if Contains(text, "[hooks.state]") then "" else "\n[hooks.state]\n"
  }

  lemma TablePadded(text: string)
    ensures WithStateTable(text) == text + TablePad(text)
  {
    if !Contains(text, STATE_TABLE) {
      assert "\n[hooks.state]\n" == "\n" + (STATE_TABLE + "\n");
      Associates(text + "\n", STATE_TABLE, "\n");
      Associates(text, "\n", STATE_TABLE + "\n");
    }
  }

  /** What the writer adds behind the text before a new section. */
  lemma PreparedIs(content: string) returns (pad: string)
    ensures Prepared(content) == content + pad
    ensures var sure := BreakPad(content) + TablePad(content + BreakPad(content)); pad == sure || pad == sure + "\n"
    ensures Prepared(content) == "" || EndsWith(Prepared(content), "\n\n")
  {
    var first := BreakPad(content);
    var c1 := content + first;
    var table := TablePad(c1);
    assert WithLineBreak(content) == c1;
    TablePadded(c1);
    Associates(content, first, table);
    pad := first + table;
    if c1 + table != "" && !EndsWith(c1 + table, "\n\n") {
      EndsInTwo(content, c1, table);
      Associates(content, pad, "\n");
      pad := pad + "\n";
    }
  }

  lemma EndsInTwo(content: string, c1: string, table: string)
    requires c1 == WithLineBreak(content) && (table == "" || table == "\n[hooks.state]\n") && c1 + table != ""
    ensures EndsWith(c1 + table + "\n", "\n\n")
  {
    var c2 := c1 + table;
    assert c2[|c2| - 1] == '\n' by {
      if table != "" {
        assert table[14] == '\n' && |table| == 15;
      } else if EndsWith(content, "\n") {
        assert content[|content| - 1..][0] == '\n';
      }
    }
    assert (c2 + "\n")[|c2| - 1..] == "\n\n";
  }

  /** Where no line is the key's header, the whole text stays, and behind it come at
      most line breaks and the state table, and then the section. */
  lemma UpsertAppends(content: string, key: string, hash: string) returns (pad: string)
    requires forall i :: 0 <= i < |Lines(content)| ==> !HeaderOf(Lines(content)[i], key)
    ensures Upsert(content, key, hash) ==
      content + pad + ("[hooks.state.\"" + key + "\"]" + "\n" + ("trusted_hash = \"" + hash + "\"" + "\n" + "\n"))
    ensures var sure := BreakPad(content) + TablePad(content + BreakPad(content)); pad == sure || pad == sure + "\n"
    ensures content + pad == "" || EndsWith(content + pad, "\n\n")
  {
    pad := PreparedIs(content);
    var ls := Lines(content);
    var i := HeaderIndex(ls, key);
    if i < |ls| { HeaderMeans(ls[i], key); SectionHasKey(ls, key, i); }
  }

  /** Lines that are a section of the key. */
  ghost predicate SectionOf(s: seq<string>, key: string) {
    s != [] && Bracketed(s[0]) && HeaderOf(s[0], key) && forall k :: 1 <= k < |s| ==> !Bracketed(s[k])
  }

  lemma BlockIsSection(key: string, hash: string)
    requires Quotable(key) && Quotable(hash)
    ensures var t := BlockOf(key, hash);
      AllLines(t) && Block(key, hash) == Unlines(t) && SectionOf(t, key)
  {
    HeaderLineReads(key);
    HashLineReads(hash);
    BlockIsLines(key, hash);
    HeaderMeans(HeaderLine(key), key);
  }

  /** The text after has the lines outside the keys' sections of the text before, and
      behind them the added ones, which are empty or the state table's. */
  ghost predicate KeepsOutside(before: string, after: string, keys: set<string>, added: seq<string>) {
    Outside(WholeLines(after), keys, false) == Outside(WholeLines(before), keys, false) + added && Pads(added)
  }

  lemma AppendedLines(whole: seq<string>, pads: seq<string>, t: seq<string>, key: string, keys: set<string>)
    returns (added: seq<string>)
    requires Pads(pads) && t != [] && Bracketed(t[0]) && HeaderOf(t[0], key) && key in keys
    requires forall k :: 1 <= k < |t| ==> !Bracketed(t[k])
    ensures Outside(whole + pads + t, keys, false) == Outside(whole, keys, false) + added && Pads(added)
  {
    var e := EndsInside(whole, keys, false);
    OutsideConcat(whole + pads, t, keys, false);
    OutsideSection(t, key, keys, EndsInside(whole + pads, keys, false));
    OutsideConcat(whole, pads, keys, false);
    added := Outside(pads, keys, e);
    OutsideOfPads(pads, keys, e);
    NothingBehind(Outside(whole, keys, false) + added);
  }

  lemma AppendedKeeps(content: string, key: string, hash: string, keys: set<string>) returns (added: seq<string>)
    requires Quotable(key) && Quotable(hash) && key in keys
    requires HeaderIndex(Lines(content), key) == |Lines(content)|
    ensures KeepsOutside(content, Upsert(content, key, hash), keys, added)
  {
    var whole, t := WholeLines(content), BlockOf(key, hash);
    var pads := PreparedWhole(content);
    BlockIsSection(key, hash);
    UnlinesConcat(whole + pads, t);
    AllLinesConcat(whole + pads, t);
    WholeOfComplete(whole + pads + t);
    added := AppendedLines(whole, pads, t, key, keys);
  }

  lemma {:induction false} OutsideOfPads(ls: seq<string>, keys: set<string>, inside: bool)
    requires Pads(ls)
    ensures Pads(Outside(ls, keys, inside))
    decreases |ls|
  {
    if ls != [] {
      OutsideOfPads(ls[1..], keys, if Bracketed(ls[0]) then HeaderOfAny(ls[0], keys) else inside);
    }
  }

  /** The lines around the last section, before and after it is written. */
  lemma LastParts(content: string, t: seq<string>, i: nat, after: string)
    requires i < |Lines(content)| && AllLines(t) && after == Unlines(Lines(content)[..i] + t)
    ensures WholeLines(content) == Lines(content)[..i] + WithoutEmptyLast(Lines(content)[i..])
    ensures WholeLines(after) == Lines(content)[..i] + t
  {
    var ls := Lines(content);
    TwoParts(ls, i);
    EmptyLastBehind(ls[..i], ls[i..]);
    AllLinesConcat(ls[..i], t);
    WholeOfComplete(ls[..i] + t);
  }

  /** The lines around an inner section, before and after it is written. */
  lemma InnerParts(content: string, t: seq<string>, i: nat, j: nat, after: string)
    requires i < j < |Lines(content)| && AllLines(t)
    requires after == Unlines(Lines(content)[..i]) + Unlines(t) + Join(Lines(content)[j..])
    ensures var ls := Lines(content);
      var a, s, c := ls[..i], ls[i..j], WithoutEmptyLast(ls[j..]);
      WholeLines(content) == a + (s + c) && WholeLines(after) == a + (t + c)
  {
    var ls := Lines(content);
    ThreeParts(ls, i, j);
    Associates(ls[..i], ls[i..j], ls[j..]);
    EmptyLastBehind(ls[..i] + ls[i..j], ls[j..]);
    Associates(ls[..i], ls[i..j], WithoutEmptyLast(ls[j..]));
    UnlinesConcat(ls[..i], t);
    AllLinesConcat(ls[..i], t);
    WholeOfJoin(ls[..i] + t, ls[j..]);
    Associates(ls[..i], t, WithoutEmptyLast(ls[j..]));
  }

  lemma BracketStays(c: seq<string>)
    requires c != [] && Bracketed(c[0])
    ensures WithoutEmptyLast(c) != [] && Bracketed(WithoutEmptyLast(c)[0])
  {
  }

  lemma SectionRest(ls: seq<string>, i: nat, j: nat)
    requires i < |ls| && j == |ls| && ls[i] != "" && forall k :: i < k < j ==> !Bracketed(ls[k])
    ensures var s := WithoutEmptyLast(ls[i..]);
      s != [] && s[0] == ls[i] && forall k :: 1 <= k < |s| ==> !Bracketed(s[k])
  {
    assert forall k :: 0 <= k < |ls[i..]| ==> ls[i..][k] == ls[i + k];
  }

  lemma LastKeeps(content: string, t: seq<string>, i: nat, after: string, key: string, keys: set<string>)
    requires i < |Lines(content)| && AllLines(t) && after == Unlines(Lines(content)[..i] + t) && key in keys
    requires SectionOf(t, key) && Bracketed(Lines(content)[i]) && HeaderOf(Lines(content)[i], key)
    requires forall k :: i < k < |Lines(content)| ==> !Bracketed(Lines(content)[k])
    ensures KeepsOutside(content, after, keys, [])
  {
    var ls := Lines(content);
    var s := WithoutEmptyLast(ls[i..]);
    LastParts(content, t, i, after);
    SectionRest(ls, i, |ls|);
    OutsideExchanged(ls[..i], s, t, [], key, keys);
    NothingBehind(s);
    NothingBehind(t);
    NothingBehind(Outside(WholeLines(content), keys, false));
  }

  lemma InnerKeeps(content: string, t: seq<string>, i: nat, j: nat, after: string, key: string, keys: set<string>)
    requires i < j < |Lines(content)| && AllLines(t) && key in keys
    requires after == Unlines(Lines(content)[..i]) + Unlines(t) + Join(Lines(content)[j..])
    requires SectionOf(t, key) && SectionOf(Lines(content)[i..j], key) && Bracketed(Lines(content)[j])
    ensures KeepsOutside(content, after, keys, [])
  {
    var ls := Lines(content);
    InnerParts(content, t, i, j, after);
    BracketStays(ls[j..]);
    OutsideExchanged(ls[..i], ls[i..j], t, WithoutEmptyLast(ls[j..]), key, keys);
    NothingBehind(Outside(WholeLines(content), keys, false));
  }

  lemma UpdatedKeeps(content: string, key: string, hash: string, keys: set<string>)
    requires Quotable(key) && Quotable(hash) && key in keys
    requires HeaderIndex(Lines(content), key) < |Lines(content)|
    ensures KeepsOutside(content, Upsert(content, key, hash), keys, [])
  {
    var ls := Lines(content);
    var i := HeaderIndex(ls, key);
    var j := NextSection(ls, i);
    UpsertShape(content, key, hash, i, j);
    UpdatedLines(content, key, hash, i, j, Upsert(content, key, hash), keys);
  }

  lemma UpdatedLines(content: string, key: string, hash: string, i: nat, j: nat, after: string, keys: set<string>)
    requires Quotable(key) && Quotable(hash) && key in keys
    requires var ls := Lines(content); i == HeaderIndex(ls, key) < |ls| && j == NextSection(ls, i)
    requires var ls := Lines(content);
      after == Unlines(ls[..i]) + Block(key, hash) + (if j == |ls| then "" else Join(ls[j..]))
    ensures KeepsOutside(content, after, keys, [])
  {
    var ls := Lines(content);
    FoundSection(ls, key, i, j);
    BlockIsSection(key, hash);
    if j == |ls| {
      UnlinesConcat(ls[..i], BlockOf(key, hash));
      NothingBehind(Unlines(ls[..i]) + Block(key, hash));
      LastKeeps(content, BlockOf(key, hash), i, after, key, keys);
    } else {
      InnerKeeps(content, BlockOf(key, hash), i, j, after, key, keys);
    }
  }

  lemma FoundSection(ls: seq<string>, key: string, i: nat, j: nat)
    requires i == HeaderIndex(ls, key) < |ls| && j == NextSection(ls, i)
    ensures SectionOf(ls[i..j], key) && (j < |ls| ==> Bracketed(ls[j]))
    ensures Bracketed(ls[i]) && HeaderOf(ls[i], key) && forall k :: i < k < j ==> !Bracketed(ls[k])
  {
    SectionHasKey(ls, key, i);
    HeaderMeans(ls[i], key);
    HeaderOpens(ls[i]);
    SectionBody(ls, i, j);
  }

  lemma UpsertKeepsOutside(content: string, key: string, hash: string, keys: set<string>) returns (added: seq<string>)
    requires Quotable(key) && Quotable(hash) && key in keys
    ensures KeepsOutside(content, Upsert(content, key, hash), keys, added)
  {
    if HeaderIndex(Lines(content), key) < |Lines(content)| {
      UpdatedKeeps(content, key, hash, keys);
      added := [];
    } else {
      added := AppendedKeeps(content, key, hash, keys);
    }
  }

  ghost predicate Writable(items: seq<(string, string)>, keys: set<string>) {
    forall i :: 0 <= i < |items| ==> Quotable(items[i].0) && Quotable(items[i].1) && items[i].0 in keys
  }

  lemma KeepsTwice(a: string, b: string, c: string, keys: set<string>, first: seq<string>, later: seq<string>)
    requires KeepsOutside(a, b, keys, first) && KeepsOutside(b, c, keys, later)
    ensures KeepsOutside(a, c, keys, first + later)
  {
    Associates(Outside(WholeLines(a), keys, false), first, later);
  }

  /** Writing any list of updates keeps every line outside the sections of the updated
      keys, in order; behind them come at most empty lines and lines of the state table. */
  lemma {:induction false} UpsertAllKeepsOutside(content: string, items: seq<(string, string)>, keys: set<string>)
    returns (added: seq<string>)
    requires Writable(items, keys)
    ensures KeepsOutside(content, UpsertAll(content, items), keys, added)
    decreases |items|
  {
    added := [];
    if items == [] {
      NothingBehind(Outside(WholeLines(content), keys, false));
    } else {
      var next := Upsert(content, items[0].0, items[0].1);
      var first := UpsertKeepsOutside(content, items[0].0, items[0].1, keys);
      assert Writable(items[1..], keys);
      var later := UpsertAllKeepsOutside(next, items[1..], keys);
      added := first + later;
      KeepsTwice(content, next, UpsertAll(content, items), keys, first, later);
    }
  }

  // ----- the section that is replaced

  ghost predicate SpacedHeader(line: string, key: string) {
    Spells(line, "[hooks.state. \"", key, "]")
  }

  /** The header whose section is replaced: the first one with a blank before the quoted
      key, and only without such a header the first plain one. */
  ghost predicate Chosen(ls: seq<string>, i: nat, key: string) {
    i < |ls| &&
    if SpacedHeader(ls[i], key) then forall k :: 0 <= k < i ==> !SpacedHeader(ls[k], key)
    else
      && PlainHeader(ls[i], key) && (forall k :: 0 <= k < i ==> !PlainHeader(ls[k], key))
      && forall k :: 0 <= k < |ls| ==> !SpacedHeader(ls[k], key)
  }

  lemma SpacedMeans(line: string, key: string)
    ensures SpacedKey(line) == Some(key) <==> SpacedHeader(line, key)
  {
    if SpacedKey(line) == Some(key) { QuotedSpells(line, SPACED_HEAD, key, "]"); }
    if SpacedHeader(line, key) { SpelledQuoted(line, SPACED_HEAD, key, "]"); }
  }

  lemma FirstIs<T>(s: seq<T>, p: T -> bool, i: nat)
    requires i <= |s| && (i < |s| ==> p(s[i])) && forall k :: 0 <= k < i ==> !p(s[k])
    ensures FirstWhere(s, p) == i
  {
    var j := FirstWhere(s, p);
    assert !(j < i) && !(i < j);
  }

  lemma ChosenIs(ls: seq<string>, i: nat, key: string)
    requires Chosen(ls, i, key)
    ensures HeaderIndex(ls, key) == i
  {
    forall k | 0 <= k < |ls|
      ensures HasSpaced(key)(ls[k]) == SpacedHeader(ls[k], key) && HasHeader(key)(ls[k]) == PlainHeader(ls[k], key)
    {
      SpacedMeans(ls[k], key);
      HeaderMeans(ls[k], key);
    }
    if SpacedHeader(ls[i], key) {
      FirstIs(ls, HasSpaced(key), i);
    } else {
      FirstIs(ls, HasSpaced(key), |ls|);
      FirstIs(ls, HasHeader(key), i);
    }
  }

  /** The section from the chosen header up to the next bracket is replaced by the new one;
      the lines before and behind stay as they are. */
  lemma UpsertReplaces(content: string, key: string, hash: string, i: nat, j: nat)
    requires Chosen(Lines(content), i, key) && i < j <= |Lines(content)|
    requires forall k :: i < k < j ==> !Bracketed(Lines(content)[k])
    requires j < |Lines(content)| ==> Bracketed(Lines(content)[j])
    ensures var ls := Lines(content);
      Upsert(content, key, hash) ==
      Unlines(ls[..i])
      + ("[hooks.state.\"" + key + "\"]" + "\n" + ("trusted_hash = \"" + hash + "\"" + "\n" + "\n"))
      + (if j == |ls| then "" else Join(ls[j..]))
  {
    var ls := Lines(content);
    ChosenIs(ls, i, key);
    forall k | i < k < |ls| ensures OpensSection(ls[k]) <==> Bracketed(ls[k]) { BracketOpens(ls[k]); }
    NextIs(ls, i, j);
    UpsertShape(content, key, hash, i, j);
  }

  lemma BracketOpens(line: string)
    ensures OpensSection(line) <==> Bracketed(line)
  {
  }

  lemma NextIs(ls: seq<string>, i: nat, j: nat)
    requires i < j <= |ls| && (j < |ls| ==> OpensSection(ls[j])) && forall k :: i < k < j ==> !OpensSection(ls[k])
    ensures NextSection(ls, i) == j
  {
    var n := NextSection(ls, i);
    assert !(n < j) && !(j < n);
  }
}
