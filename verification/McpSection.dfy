/** The `[mcp_servers.agent-memory-hub]` section of Codex's config.toml: its
    bounds, and writing it in place or at the end. */
module McpSection {
  import opened Options
  import opened Sequences
  import opened Strings
  import opened Stripping
  import opened TextLines

  const MCP_SECTION := "[mcp_servers." + "agent-memory-hub]"

  /** `line.strip() == header`. */
  predicate IsHeader(header: string, line: string) {
    LStrip(RStrip(line)) == header
  }

  /** `line.lstrip().startswith("[")`. */
  predicate Opens(line: string) {
    StartsWith(LStrip(line), "[")
  }

  /** The line of the section's header, or the number of lines. */
  function HeaderAt(header: string, ls: seq<string>): nat {
    FirstFrom(ls, Is(header), 0)
  }

  function Is(header: string): string -> bool {
    line => IsHeader(header, line)
  }

  /** The first line after line `i` that opens a section, or the number of lines. */
  function SectionEnd(ls: seq<string>, i: nat): (j: nat)
    requires i < |ls|
    ensures i < j <= |ls|
  {
    FirstFrom(ls, Opens, i + 1)
  }

  /** Offsets of the section's first character and of the character after its last,
      in terms of the lines of the text. */
  function Bounds(header: string, existing: string): (bounds: Option<(nat, nat)>)
    ensures bounds.Some? ==> bounds.value.0 <= bounds.value.1 <= |existing|
  {
    var ls := Lines(existing);
    var i := HeaderAt(header, ls);
    if i == |ls| then None
    else
      var j := SectionEnd(ls, i);
      OffsetsOrdered(existing, i, j);
      Some((Offset(ls, i), EndOffset(existing, j)))
  }

  /** The first loop of `mcp_section_bounds`: sums line lengths up to the header. */
  method FindHeader(header: string, ls: seq<string>) returns (i: nat, offset: nat)
    ensures i == HeaderAt(header, ls) && (i < |ls| ==> offset == Offset(ls, i))
  {
    i, offset := 0, 0;
    assert ls[..0] == [];
    while i < |ls|
      invariant i <= HeaderAt(header, ls) && i <= |ls| && (i < |ls| ==> offset == Offset(ls, i))
    {
      var found := IsHeader(header, ls[i]);
      if found { return; }
      OffsetSums(ls, i);
      offset := offset + |ls[i]| + 1;
      i := i + 1;
    }
  }

  /** The second loop: sums on up to the next section. */
  method FindEnd(ls: seq<string>, i: nat, start: nat) returns (j: nat, offset: nat)
    requires i < |ls| && start == Offset(ls, i)
    ensures j == SectionEnd(ls, i) && (j < |ls| ==> offset == Offset(ls, j))
  {
    OffsetSums(ls, i);
    j, offset := i + 1, start + |ls[i]| + 1;
    while j < |ls|
      invariant i < j <= SectionEnd(ls, i) && (j < |ls| ==> offset == Offset(ls, j))
    {
      var found := Opens(ls[j]);
      if found { return; }
      OffsetSums(ls, j);
      offset := offset + |ls[j]| + 1;
      j := j + 1;
    }
  }

  /** `mcp_section_bounds`. */
  method SectionBounds(header: string, existing: string) returns (bounds: Option<(nat, nat)>)
    ensures bounds == Bounds(header, existing)
  {
    var ls := Lines(existing);
    var i, start := FindHeader(header, ls);
    if i == |ls| { return None; }
    var j, end := FindEnd(ls, i, start);
    return Some((start, if j == |ls| then |existing| else end));
  }

  /** What follows the front part of a rebuilt file. */
  function CoreAndRest(core: string, suffix: string): string {
    core + ((if suffix == "" then "" else "\n\n" + RStrip(suffix)) + "\n")
  }

  /** The three parts of an updated file, blank lines in between. */
  function Rebuilt(prefix: string, core: string, suffix: string): string {
    (if prefix == "" then "" else prefix + "\n\n") +
    CoreAndRest(core, suffix)
  }

  /** `upsert_mcp_block`. */
  function Upsert(header: string, existing: string, block: string): string {
    var bounds := Bounds(header, existing);
    if bounds.None? then
      var prefix := RStrip(existing);
      (if prefix == "" then "" else prefix + "\n\n") + block
    else
      var (start, end) := bounds.value;
      Rebuilt(RStrip(existing[..start]), RStrip(block), LStripNewlines(existing[end..]))
  }

  /** `mcp_block`. */
  function McpBlock(header: string, command: string): string {
    header + "\n" + ("command = \"" + command + "\"") + "\n"
  }

  // ----- what a text says, up to blanks

  /** The lines that are not blank, without the blanks behind them. */
  function Content(ls: seq<string>): seq<string> {
    if ls == [] then [] else (if RStrip(ls[0]) == "" then [] else [RStrip(ls[0])]) + Content(ls[1..])
  }

  lemma ContentCons(l: string, rest: seq<string>)
    ensures Content([l] + rest) == (if RStrip(l) == "" then [] else [RStrip(l)]) + Content(rest)
  {
    assert ([l] + rest)[1..] == rest;
  }

  lemma {:induction false} ContentConcat(a: seq<string>, b: seq<string>)
    ensures Content(a + b) == Content(a) + Content(b)
    decreases |a|
  {
    if a == [] {
      assert a + b == b;
    } else {
      assert a + b == [a[0]] + (a[1..] + b);
      ContentCons(a[0], a[1..] + b);
      ContentConcat(a[1..], b);
      Associates(if RStrip(a[0]) == "" then [] else [RStrip(a[0])], Content(a[1..]), Content(b));
    }
  }

  lemma ContentOne(l: string)
    ensures Content([l]) == if RStrip(l) == "" then [] else [RStrip(l)]
  {
    assert [l][1..] == [];
  }

  function WithFirst(c: char, ls: seq<string>): (r: seq<string>)
    requires ls != []
    ensures r != []
  {
    if c == '\n' then [""] + ls else [[c] + ls[0]] + ls[1..]
  }

  function WithLast(ls: seq<string>, c: char): (r: seq<string>)
    requires ls != []
    ensures r != []
  {
    if c == '\n' then ls + [""] else ls[..|ls| - 1] + [ls[|ls| - 1] + [c]]
  }

  lemma FirstAndLast(d: char, ls: seq<string>, c: char)
    requires ls != []
    ensures WithFirst(d, WithLast(ls, c)) == WithLast(WithFirst(d, ls), c)
  {
    if d == '\n' {
      LineBreakBehind([""], ls, c);
    } else {
      assert ls == [ls[0]] + ls[1..];
      if |ls| == 1 {
        OneLineBothEnds(d, ls, c);
      } else {
        LineBreakBehind([[d] + ls[0]], ls[1..], c);
        LineBreakBehind([ls[0]], ls[1..], c);
        Consed(ls[0], WithLast(ls[1..], c));
      }
    }
  }

  lemma LineBreakBehind(a: seq<string>, ls: seq<string>, c: char)
    requires ls != []
    ensures WithLast(a + ls, c) == a + WithLast(ls, c)
  {
    assert (a + ls)[|a + ls| - 1] == ls[|ls| - 1] && (a + ls)[..|a + ls| - 1] == a + ls[..|ls| - 1];
  }

  lemma OneLineBothEnds(d: char, ls: seq<string>, c: char)
    requires |ls| == 1 && d != '\n'
    ensures WithFirst(d, WithLast(ls, c)) == WithLast(WithFirst(d, ls), c)
  {
    var first := [d] + ls[0];
    assert WithFirst(d, ls) == [first];
    if c == '\n' {
      Consed(ls[0], [""]);
      assert ls == [ls[0]] && WithLast([first], c) == [first] + [""];
    } else {
      assert WithLast(ls, c) == [ls[0] + [c]] && WithLast([first], c) == [first + [c]];
      assert [d] + (ls[0] + [c]) == first + [c];
    }
  }

  lemma Consed(l: string, ls: seq<string>)
    ensures ([l] + ls)[0] == l && ([l] + ls)[1..] == ls
  {
  }

  /** One more character on the last line. */
  lemma {:induction false} LinesSnoc(t: string, c: char)
    ensures Lines(t + [c]) == WithLast(Lines(t), c)
    decreases |t|
  {
    var u := t + [c];
    if t == "" {
      assert u == [c] && u[1..] == "";
      assert [c] + "" == "" + [c];
    } else {
      assert u[0] == t[0] && u[1..] == t[1..] + [c];
      LinesSnoc(t[1..], c);
      FirstAndLast(t[0], Lines(t[1..]), c);
    }
  }

  /** A blank behind the last line does not change what the lines say. */
  lemma ContentOfLast(ls: seq<string>, l: string, w: string)
    requires Blank(w)
    ensures Content(ls + [l + w]) == Content(ls + [l])
  {
    ContentConcat(ls, [l + w]);
    ContentConcat(ls, [l]);
    RStripExtended(l, w);
    ContentOne(l);
    ContentOne(l + w);
  }

  lemma ContentAndEmpty(ls: seq<string>)
    ensures Content(ls + [""]) == Content(ls)
  {
    ContentConcat(ls, [""]);
    ContentOne("");
    assert Content(ls) + [] == Content(ls);
  }

  /** A blank behind a text does not change what it says. */
  lemma ContentSnoc(t: string, c: char)
    requires IsSpace(c)
    ensures Content(Lines(t + [c])) == Content(Lines(t))
  {
    LinesSnoc(t, c);
    ContentWithLast(Lines(t), c);
  }

  lemma ContentWithLast(ls: seq<string>, c: char)
    requires ls != [] && IsSpace(c)
    ensures Content(WithLast(ls, c)) == Content(ls)
  {
    var k := |ls| - 1;
    assert ls == ls[..k] + [ls[k]];
    ContentAndEmpty(ls);
    ContentOfLast(ls[..k], ls[k], [c]);
  }

  lemma {:induction false} ContentStripped(t: string)
    ensures Content(Lines(RStrip(t))) == Content(Lines(t))
    decreases |t|
  {
    if t != "" && IsSpace(t[|t| - 1]) {
      assert t == t[..|t| - 1] + [t[|t| - 1]];
      ContentSnoc(t[..|t| - 1], t[|t| - 1]);
      ContentStripped(t[..|t| - 1]);
    }
  }

  /** Whether there is a header depends on what the text says. */
  predicate SaysHeader(header: string, content: seq<string>) {
    exists i :: 0 <= i < |content| && LStrip(content[i]) == header
  }

  lemma SaysCons(header: string, r: string, rest: seq<string>)
    ensures SaysHeader(header, [r] + rest) <==> LStrip(r) == header || SaysHeader(header, rest)
  {
    var all := [r] + rest;
    assert all[0] == r;
    assert forall i :: 0 <= i < |rest| ==> all[i + 1] == rest[i];
  }

  lemma HeaderAtCons(header: string, l: string, rest: seq<string>)
    ensures HeaderAt(header, [l] + rest) < |[l] + rest| <==> IsHeader(header, l) || HeaderAt(header, rest) < |rest|
  {
    var all := [l] + rest;
    var k, n := HeaderAt(header, all), HeaderAt(header, rest);
    assert all[0] == l && forall i :: 0 <= i < |rest| ==> all[i + 1] == rest[i];
    if k < |all| && k > 0 { assert IsHeader(header, rest[k - 1]); }
    if n < |rest| { assert IsHeader(header, all[n + 1]); }
  }

  lemma {:induction false} HeaderSaid(header: string, ls: seq<string>)
    requires header != ""
    ensures HeaderAt(header, ls) < |ls| <==> SaysHeader(header, Content(ls))
    decreases |ls|
  {
    if ls != [] {
      HeaderSaid(header, ls[1..]);
      HeaderAtCons(header, ls[0], ls[1..]);
      assert ls == [ls[0]] + ls[1..];
      if RStrip(ls[0]) != "" {
        SaysCons(header, RStrip(ls[0]), Content(ls[1..]));
      } else {
        assert Content(ls) == Content(ls[1..]);
      }
    }
  }

  // ----- the lines of a section and around it

  /** The lines of the section. */
  function Section(header: string, text: string): seq<string> {
    var ls := Lines(text);
    var i := HeaderAt(header, ls);
    if i == |ls| then [] else ls[i..SectionEnd(ls, i)]
  }

  /** The text before the section, all of it when there is none, and the text behind it. */
  function Before(header: string, text: string): string {
    var bounds := Bounds(header, text);
    if bounds.None? then text else text[..bounds.value.0]
  }

  function After(header: string, text: string): string {
    var bounds := Bounds(header, text);
    if bounds.None? then "" else text[bounds.value.1..]
  }

  /** Text whose first line is the header and whose other lines open no section. */
  ghost predicate IsSection(header: string, core: string) {
    && RStrip(core) == core
    && IsHeader(header, Lines(core)[0])
    && forall k :: 1 <= k < |Lines(core)| ==> !Opens(Lines(core)[k])
  }

  ghost predicate NoHeader(header: string, ls: seq<string>) {
    HeaderAt(header, ls) == |ls|
  }

  /** The lines `a`, then the section's lines, then `c`. */
  ghost predicate Placed(header: string, ls: seq<string>, a: seq<string>, sec: seq<string>, c: seq<string>) {
    ls == a + (sec + c) && Sectioned(Is(header), Opens, a, sec, c)
  }

  lemma PlacedAt(header: string, ls: seq<string>, a: seq<string>, sec: seq<string>, c: seq<string>)
    requires Placed(header, ls, a, sec, c)
    ensures HeaderAt(header, ls) == |a| < |ls| && SectionEnd(ls, |a|) == |a| + |sec|
    ensures ls[..|a|] == a && ls[|a|..|a| + |sec|] == sec && ls[|a| + |sec|..] == c
  {
    SectionIsFound(Is(header), Opens, a, sec, c);
    Slices(a, sec, c);
  }

  lemma PlacedSection(header: string, text: string, a: seq<string>, sec: seq<string>, c: seq<string>)
    requires Placed(header, Lines(text), a, sec, c)
    ensures Section(header, text) == sec
  {
    PlacedAt(header, Lines(text), a, sec, c);
  }

  lemma TextAround(text: string, i: nat, j: nat, a: seq<string>, c: seq<string>)
    requires i < j <= |Lines(text)| && Lines(text)[..i] == a && Lines(text)[j..] == c
    ensures var ls := Lines(text);
      var start, end := Offset(ls, i), EndOffset(text, j);
      && start <= |text| && text[..start] == Unlines(a)
      && end <= |text| && text[end..] == if c == [] then "" else Join(c)
  {
    LineOffset(text, i);
    if j < |Lines(text)| { LineOffset(text, j); }
  }

  lemma BoundsAre(header: string, text: string, i: nat, j: nat)
    requires var ls := Lines(text); HeaderAt(header, ls) == i < |ls| && SectionEnd(ls, i) == j
    ensures var ls := Lines(text);
      Bounds(header, text) == Some((Offset(ls, i), EndOffset(text, j)))
  {
  }

  // ----- the shape of an updated file

  lemma {:induction false} LStripSnoc(s: string, c: char)
    requires IsSpace(c)
    ensures LStrip(s + [c]) == if LStrip(s) == "" then "" else LStrip(s) + [c]
    decreases |s|
  {
    if s == "" {
      assert s + [c] == [c] && [c][1..] == "";
    } else {
      assert (s + [c])[1..] == s[1..] + [c];
      if IsSpace(s[0]) { LStripSnoc(s[1..], c); }
    }
  }

  /** Stripping the end of a text does not close its first line. */
  lemma {:induction false} StrippedOpens(t: string)
    requires Opens(Lines(t)[0])
    ensures Opens(Lines(RStrip(t))[0])
    decreases |t|
  {
    if t != "" && IsSpace(t[|t| - 1]) {
      var u, c := t[..|t| - 1], t[|t| - 1];
      assert t == u + [c];
      LinesSnoc(u, c);
      LStripSnoc(Lines(u)[0], c);
      StrippedOpens(u);
    }
  }

  lemma OpensFirst(t: string)
    requires Opens(Lines(t)[0])
    ensures t != "" && t[0] != '\n'
  {
  }

  lemma StripsToItself(t: string)
    ensures RStrip(RStrip(t)) == RStrip(t)
  {
    assert RStrip(t) + "" == RStrip(t);
    RStripIs(RStrip(t), "");
  }

  lemma {:induction false} ContentOfUnlines(ls: seq<string>)
    requires AllLines(ls)
    ensures Content(Lines(Unlines(ls))) == Content(ls)
  {
    LinesOfUnlines(ls, "");
    assert Unlines(ls) + "" == Unlines(ls);
    ContentAndEmpty(ls);
  }

  /** Stripped text before the section, and the stripped text after it, which is
      empty or opens a section. */
  ghost predicate Parts(header: string, p: string, s: string) {
    RStrip(p) == p && NoHeader(header, Lines(p)) && RStrip(s) == s && (s != "" ==> Opens(Lines(s)[0]))
  }

  /** No section yet. */
  lemma AddedShape(header: string, existing: string, core: string)
    requires header != "" && IsSection(header, core) && Bounds(header, existing) == None
    ensures var p := RStrip(existing);
      Upsert(header, existing, core + "\n") == Rebuilt(p, core, "") && Parts(header, p, "")
  {
    var p := RStrip(existing);
    StripsToItself(existing);
    ContentStripped(existing);
    HeaderSaid(header, Lines(existing));
    HeaderSaid(header, Lines(p));
    assert "" + "\n" == "\n";
  }

  lemma PrefixParts(header: string, a: seq<string>)
    requires header != "" && AllLines(a) && NoHeader(header, a)
    ensures var p := RStrip(Unlines(a));
      RStrip(p) == p && NoHeader(header, Lines(p))
  {
    StripsToItself(Unlines(a));
    ContentStripped(Unlines(a));
    ContentOfUnlines(a);
    HeaderSaid(header, a);
    HeaderSaid(header, Lines(RStrip(Unlines(a))));
  }

  lemma SuffixParts(c: seq<string>)
    requires c != [] && AllLines(c) && Opens(c[0])
    ensures LStripNewlines(Join(c)) == Join(c) && Join(c) != ""
    ensures var s := RStrip(Join(c)); s != "" && RStrip(s) == s && Opens(Lines(s)[0])
  {
    LinesOfJoin(c);
    OpensFirst(Join(c));
    StripsToItself(Join(c));
    StrippedOpens(Join(c));
    OpensFirst(RStrip(Join(c)));
  }

  /** Where the section of a text is. */
  lemma Located(header: string, existing: string) returns (a: seq<string>, sec: seq<string>, c: seq<string>)
    requires Bounds(header, existing).Some?
    ensures Placed(header, Lines(existing), a, sec, c) && AllLines(a) && AllLines(c)
  {
    var ls := Lines(existing);
    a, sec, c := LocatedLines(header, ls);
    LinesOfParts(ls, a, sec, c);
  }

  lemma LinesOfParts(ls: seq<string>, a: seq<string>, sec: seq<string>, c: seq<string>)
    requires AllLines(ls) && ls == a + (sec + c)
    ensures AllLines(a) && AllLines(c)
  {
    Slices(a, sec, c);
  }

  lemma LocatedLines(header: string, ls: seq<string>) returns (a: seq<string>, sec: seq<string>, c: seq<string>)
    requires HeaderAt(header, ls) < |ls|
    ensures Placed(header, ls, a, sec, c)
  {
    var i := HeaderAt(header, ls);
    var j := SectionEnd(ls, i);
    a, sec, c := ls[..i], ls[i..j], ls[j..];
    ThreeParts(ls, i, j);
    FoundIsSection(Is(header), Opens, ls, i, j);
  }

  lemma UpdatedShape(header: string, existing: string, core: string)
    requires header != "" && IsSection(header, core) && Bounds(header, existing).Some?
    ensures var p, s := RStrip(Before(header, existing)), RStrip(After(header, existing));
      Upsert(header, existing, core + "\n") == Rebuilt(p, core, s) && Parts(header, p, s)
  {
    var a, sec, c := Located(header, existing);
    SidesOfPlaced(header, existing, a, sec, c);
    PrefixParts(header, a);
    RestParts(c);
    RebuiltFrom(header, existing, core, a, sec, c);
  }

  function RestOf(c: seq<string>): string {
    if c == [] then "" else RStrip(Join(c))
  }

  lemma RestParts(c: seq<string>)
    requires AllLines(c) && (c != [] ==> Opens(c[0]))
    ensures var s := RestOf(c); RStrip(s) == s && (s != "" ==> Opens(Lines(s)[0]))
  {
    if c != [] { SuffixParts(c); }
  }

  lemma SidesOfPlaced(header: string, text: string, a: seq<string>, sec: seq<string>, c: seq<string>)
    requires Placed(header, Lines(text), a, sec, c)
    ensures Before(header, text) == Unlines(a) && RStrip(After(header, text)) == RestOf(c)
  {
    BoundsOfPlaced(header, text, a, sec, c, if c == [] then "" else Join(c));
  }

  /** The text in front of the section and the text behind it. */
  lemma BoundsOfPlaced(header: string, text: string, a: seq<string>, sec: seq<string>, c: seq<string>, post: string)
    requires Placed(header, Lines(text), a, sec, c) && post == if c == [] then "" else Join(c)
    ensures var b := Bounds(header, text); b.Some? && text[..b.value.0] == Unlines(a) && text[b.value.1..] == post
  {
    PlacedAt(header, Lines(text), a, sec, c);
    LinesAround(header, text, |a|, |a| + |sec|, a, c, post);
  }

  lemma LinesAround(header: string, text: string, i: nat, j: nat, a: seq<string>, c: seq<string>, post: string)
    requires var ls := Lines(text); HeaderAt(header, ls) == i < |ls| && SectionEnd(ls, i) == j
    requires Lines(text)[..i] == a && Lines(text)[j..] == c && post == if c == [] then "" else Join(c)
    ensures var b := Bounds(header, text); b.Some? && text[..b.value.0] == Unlines(a) && text[b.value.1..] == post
  {
    TextAround(text, i, j, a, c);
    BoundsSplit(header, text, i, j, Unlines(a), post);
  }

  lemma RebuiltFrom(header: string, text: string, core: string, a: seq<string>, sec: seq<string>, c: seq<string>)
    requires RStrip(core) == core && Placed(header, Lines(text), a, sec, c) && AllLines(c)
    ensures Upsert(header, text, core + "\n") == Rebuilt(RStrip(Unlines(a)), core, RestOf(c))
  {
    var post := if c == [] then "" else Join(c);
    BoundsOfPlaced(header, text, a, sec, c, post);
    RStripIs(core, "\n");
    UpsertFrom(header, text, core, Unlines(a), post);
    SuffixStripped(RStrip(Unlines(a)), core, c, post);
  }

  lemma BoundsSplit(header: string, text: string, i: nat, j: nat, pre: string, post: string)
    requires var ls := Lines(text); HeaderAt(header, ls) == i < |ls| && SectionEnd(ls, i) == j
    requires var ls := Lines(text);
      var start, end := Offset(ls, i), EndOffset(text, j);
      start <= |text| && text[..start] == pre && end <= |text| && text[end..] == post
    ensures var b := Bounds(header, text); b.Some? && text[..b.value.0] == pre && text[b.value.1..] == post
  {
    BoundsAre(header, text, i, j);
  }

  lemma UpsertFrom(header: string, text: string, core: string, pre: string, post: string)
    requires RStrip(core + "\n") == core
    requires var b := Bounds(header, text); b.Some? && text[..b.value.0] == pre && text[b.value.1..] == post
    ensures Upsert(header, text, core + "\n") == Rebuilt(RStrip(pre), core, LStripNewlines(post))
  {
  }

  lemma SuffixStripped(p: string, core: string, c: seq<string>, post: string)
    requires AllLines(c) && (c != [] ==> Opens(c[0])) && post == if c == [] then "" else Join(c)
    ensures Rebuilt(p, core, LStripNewlines(post)) == Rebuilt(p, core, RestOf(c))
  {
    if c != [] { SuffixParts(c); }
  }

  /** What an update makes of a file: the text before the section, the section and the
      text behind it, joined by blank lines, each without the blanks at its end. */
  lemma UpsertShape(header: string, existing: string, core: string)
    requires header != "" && IsSection(header, core)
    ensures var p, s := RStrip(Before(header, existing)), RStrip(After(header, existing));
      Upsert(header, existing, core + "\n") == Rebuilt(p, core, s) && Parts(header, p, s)
  {
    if Bounds(header, existing).Some? {
      UpdatedShape(header, existing, core);
    } else {
      AddedShape(header, existing, core);
    }
  }

  // ----- reading an updated file

  lemma {:induction false} UnlinesIsJoin(ls: seq<string>)
    requires ls != []
    ensures Unlines(ls) == Join(ls) + "\n"
    decreases |ls|
  {
    if |ls| == 1 {
      assert Unlines(ls[1..]) == "";
      assert ls[0] + "\n" + "" == ls[0] + "\n";
    } else {
      UnlinesIsJoin(ls[1..]);
      Associates(ls[0] + "\n", Join(ls[1..]), "\n");
    }
  }

  /** The lines of a text followed by an empty line. */
  lemma UnlinesAndBlank(t: string)
    ensures Unlines(Lines(t) + [""]) == t + "\n" + "\n"
  {
    UnlinesIsJoin(Lines(t));
    JoinOfLines(t);
    UnlinesConcat(Lines(t), [""]);
    assert [""][1..] == [];
    assert Unlines([""]) == "\n";
  }

  function FrontLines(p: string): seq<string> {
    if p == "" then [] else Lines(p) + [""]
  }

  function BackLines(s: string): seq<string> {
    if s == "" then [] else Lines(s) + [""]
  }

  lemma FrontText(p: string)
    requires RStrip(p) == p
    ensures AllLines(FrontLines(p)) && Unlines(FrontLines(p)) == (if p == "" then "" else p + "\n\n")
    ensures RStrip(Unlines(FrontLines(p))) == p
  {
    if p != "" {
      UnlinesAndBlank(p);
      assert p + "\n" + "\n" == p + "\n\n";
      RStripExtended(p, "\n\n");
    }
  }

  lemma BackText(s: string)
    requires RStrip(s) == s && s != ""
    ensures Lines(s + "\n") == BackLines(s) && Join(BackLines(s)) == s + "\n"
    ensures RestOf(BackLines(s)) == s
  {
    LinesSnoc(s, '\n');
    JoinOfLines(s + "\n");
    RStripExtended(s, "\n");
  }

  /** The lines of a rebuilt text. */
  lemma RebuiltLines(p: string, core: string, s: string)
    requires RStrip(p) == p && RStrip(s) == s
    ensures Lines(Rebuilt(p, core, s)) == FrontLines(p) + ((Lines(core) + [""]) + BackLines(s))
  {
    FrontText(p);
    LinesOfUnlines(FrontLines(p), CoreAndRest(core, s));
    CoreLines(core, s);
  }

  lemma CoreLines(core: string, s: string)
    requires RStrip(s) == s
    ensures Lines(CoreAndRest(core, s)) == (Lines(core) + [""]) + BackLines(s)
  {
    if s == "" {
      LinesSnoc(core, '\n');
      assert core + ("" + "\n") == core + "\n";
    } else {
      BackText(s);
      UnlinesAndBlank(core);
      Regrouped(core, s);
      LinesOfUnlines(Lines(core) + [""], s + "\n");
    }
  }

  lemma Regrouped(core: string, s: string)
    ensures core + (("\n\n" + s) + "\n") == (core + "\n" + "\n") + (s + "\n")
  {
  }

  lemma NotSpecial(header: string)
    requires header != ""
    ensures !IsHeader(header, "") && !Opens("")
  {
  }

  lemma FrontHasNoHeader(header: string, p: string)
    requires header != "" && NoHeader(header, Lines(p))
    ensures forall k :: 0 <= k < |FrontLines(p)| ==> !Is(header)(FrontLines(p)[k])
  {
    NotSpecial(header);
  }

  lemma SectionLines(header: string, core: string)
    requires header != "" && IsSection(header, core)
    ensures var sec := Lines(core) + [""];
      sec != [] && Is(header)(sec[0]) && forall k :: 1 <= k < |sec| ==> !Opens(sec[k])
  {
    NotSpecial(header);
  }

  lemma RebuiltPlaced(header: string, p: string, core: string, s: string)
    requires header != "" && IsSection(header, core) && Parts(header, p, s)
    ensures Placed(header, Lines(Rebuilt(p, core, s)), FrontLines(p), Lines(core) + [""], BackLines(s))
    ensures AllLines(BackLines(s)) && RestOf(BackLines(s)) == s
    ensures RStrip(Unlines(FrontLines(p))) == p
  {
    RebuiltLines(p, core, s);
    FrontText(p);
    FrontHasNoHeader(header, p);
    SectionLines(header, core);
    if s != "" { BackText(s); }
  }

  // ----- the results

  /** Writing the section twice is writing it once, for every text. */
  lemma UpsertTwice(header: string, existing: string, core: string)
    requires header != "" && IsSection(header, core)
    ensures var once := Upsert(header, existing, core + "\n");
      Upsert(header, once, core + "\n") == once
  {
    var p, s := RStrip(Before(header, existing)), RStrip(After(header, existing));
    UpsertShape(header, existing, core);
    RebuiltPlaced(header, p, core, s);
    RebuiltFrom(header, Rebuilt(p, core, s), core, FrontLines(p), Lines(core) + [""], BackLines(s));
  }

  /** Writing the section keeps the text around it character by character, up to the
      blanks at the section's boundaries: the sub-tables that follow the section's
      root, the other sections, and all blank lines between them. */
  lemma UpsertKeepsOutside(header: string, existing: string, core: string)
    requires header != "" && IsSection(header, core)
    ensures var updated := Upsert(header, existing, core + "\n");
      && updated == Rebuilt(RStrip(Before(header, existing)), core, RStrip(After(header, existing)))
      && RStrip(Before(header, updated)) == RStrip(Before(header, existing))
      && RStrip(After(header, updated)) == RStrip(After(header, existing))
      && Section(header, updated) == Lines(core) + [""]
  {
    var p, s := RStrip(Before(header, existing)), RStrip(After(header, existing));
    UpsertShape(header, existing, core);
    RebuiltPlaced(header, p, core, s);
    SidesOfPlaced(header, Rebuilt(p, core, s), FrontLines(p), Lines(core) + [""], BackLines(s));
    PlacedSection(header, Rebuilt(p, core, s), FrontLines(p), Lines(core) + [""], BackLines(s));
  }

  lemma HeaderLine(a: string, b: string)
    requires a != "" && !IsSpace(a[0]) && b != "" && !IsSpace(b[|b| - 1])
    ensures IsHeader(a + b, a + b)
  {
    assert (a + b) + "" == a + b;
    RStripIs(a + b, "");
  }

  lemma CommandLine(command: string)
    requires OneLine(command)
    ensures var l := "command = \"" + command + "\""; OneLine(l) && !Opens(l) && l[|l| - 1] == '"'
  {
  }

  /** The section the adapter writes is one, for every command path on one line. */
  lemma McpBlockIsSection(command: string)
    requires OneLine(command)
    ensures exists core :: McpBlock(MCP_SECTION, command) == core + "\n" && IsSection(MCP_SECTION, core)
  {
    var l := "command = \"" + command + "\"";
    var core := MCP_SECTION + "\n" + l;
    HeaderLine("[mcp_servers.", "agent-memory-hub]");
    CommandLine(command);
    assert OneLine("[mcp_servers.") && OneLine("agent-memory-hub]");
    LinesOfLine(MCP_SECTION, l);
    LinesOfSingle(l);
    assert core[|core| - 1] == l[|l| - 1];
    assert core + "" == core;
    RStripIs(core, "");
    assert McpBlock(MCP_SECTION, command) == core + "\n";
  }
}
