/** What writing the section means for the characters of config.toml: which lines are
    the section, and that all others stay. */
module McpKeeps {
  import opened McpSection
  import opened Options
  import opened Sequences
  import opened Strings
  import opened Stripping
  import opened TextLines

  lemma {:induction false} LStripRest(s: string) returns (k: nat)
    ensures k <= |s| && LStrip(s) == s[k..] && Blank(s[..k]) && (k < |s| ==> !IsSpace(s[k]))
    decreases |s|
  {
    k := 0;
    if s != "" && IsSpace(s[0]) {
      var n := LStripRest(s[1..]);
      k := n + 1;
      assert s[..k] == [s[0]] + s[1..][..n] && s[k..] == s[1..][n..];
    }
  }

  lemma {:induction false} LStripIs(w: string, r: string)
    requires Blank(w) && (r == "" || !IsSpace(r[0]))
    ensures LStrip(w + r) == r
    decreases |w|
  {
    if w == "" {
      assert w + r == r;
    } else {
      assert (w + r)[1..] == w[1..] + r;
      LStripIs(w[1..], r);
    }
  }

  /** The line is the header between blanks. */
  ghost predicate HeaderLineOf(header: string, line: string) {
    exists v, w :: Blank(v) && Blank(w) && line == v + (header + w)
  }

  /** The first character that is no blank is a bracket. */
  predicate FirstIsBracket(line: string) {
    exists k :: 0 <= k < |line| && line[k] == '[' && forall i :: 0 <= i < k ==> IsSpace(line[i])
  }

  predicate NoOuterBlanks(s: string) {
    s != "" && !IsSpace(s[0]) && !IsSpace(s[|s| - 1])
  }

  lemma HeaderSpelled(header: string, line: string)
    requires NoOuterBlanks(header) && IsHeader(header, line)
    ensures HeaderLineOf(header, line)
  {
    var r := RStrip(line);
    var k := LStripRest(r);
    assert line == r + line[|r|..] && r == r[..k] + r[k..];
    Associates(r[..k], header, line[|r|..]);
  }

  lemma SpelledHeader(header: string, line: string)
    requires NoOuterBlanks(header) && HeaderLineOf(header, line)
    ensures IsHeader(header, line)
  {
    var v, w :| Blank(v) && Blank(w) && line == v + (header + w);
    Associates(v, header, w);
    assert (v + header)[|v + header| - 1] == header[|header| - 1];
    RStripIs(v + header, w);
    LStripIs(v, header);
  }

  /** The header's line is recognised exactly so. */
  lemma HeaderLineMeans(header: string, line: string)
    requires NoOuterBlanks(header)
    ensures IsHeader(header, line) <==> HeaderLineOf(header, line)
  {
    if IsHeader(header, line) { HeaderSpelled(header, line); }
    if HeaderLineOf(header, line) { SpelledHeader(header, line); }
  }

  /** A line ends the section before it exactly so. */
  lemma OpensMeans(line: string)
    ensures Opens(line) <==> FirstIsBracket(line)
  {
    var k := LStripRest(line);
    assert forall i :: 0 <= i < k ==> line[i] == line[..k][i];
    if k < |line| { assert line[k..][0] == line[k]; }
    if n :| 0 <= n < |line| && line[n] == '[' && forall i :: 0 <= i < n ==> IsSpace(line[i]) {
      assert k == n;
    }
  }

  /** The text is lines without the header, the header, lines that start with no
      bracket, and a rest that is empty or starts with one. */
  ghost predicate Divided(header: string, text: string,
                          a: seq<string>, h: string, body: seq<string>, rest: seq<string>) {
    && Lines(text) == a + (([h] + body) + rest)
    && (forall k :: 0 <= k < |a| ==> !HeaderLineOf(header, a[k])) && HeaderLineOf(header, h)
    && (forall k :: 0 <= k < |body| ==> !FirstIsBracket(body[k]))
    && (rest != [] ==> FirstIsBracket(rest[0]))
  }

  lemma DividedIsPlaced(header: string, text: string, a: seq<string>, h: string, body: seq<string>, rest: seq<string>)
    requires NoOuterBlanks(header) && Divided(header, text, a, h, body, rest)
    ensures Placed(header, Lines(text), a, [h] + body, rest)
  {
    forall k | 0 <= k < |a| ensures !IsHeader(header, a[k]) { HeaderLineMeans(header, a[k]); }
    HeaderLineMeans(header, h);
    forall k | 1 <= k < |[h] + body| ensures !Opens(([h] + body)[k]) {
      assert ([h] + body)[k] == body[k - 1];
      OpensMeans(body[k - 1]);
    }
    if rest != [] { OpensMeans(rest[0]); }
  }

  /** The text of the lines that follow a section. */
  function TextOf(rest: seq<string>): string {
    if rest == [] then "" else Join(rest)
  }

  /** The section reaches from its header to the next line that starts with a bracket,
      and writing it puts the new text there: in front of it stays the text of the lines
      before, behind it the text of the lines from that bracket on, each without the
      blanks at its end. */
  lemma UpsertAround(header: string, text: string, core: string,
                     a: seq<string>, h: string, body: seq<string>, rest: seq<string>)
    requires NoOuterBlanks(header) && RStrip(core) == core && Divided(header, text, a, h, body, rest)
    ensures Bounds(header, text).Some?
    ensures var (start, end) := Bounds(header, text).value; text[..start] == Unlines(a) && text[end..] == TextOf(rest)
    ensures var p, s := RStrip(Unlines(a)), RStrip(TextOf(rest));
      Upsert(header, text, core + "\n") ==
      (if p == "" then "" else p + "\n\n") + (core + ((if s == "" then "" else "\n\n" + s) + "\n"))
  {
    DividedIsPlaced(header, text, a, h, body, rest);
    BoundsOfPlaced(header, text, a, [h] + body, rest, TextOf(rest));
    LinesOfParts(Lines(text), a, [h] + body, rest);
    RebuiltFrom(header, text, core, a, [h] + body, rest);
    RestStripped(rest);
  }

  lemma RestStripped(rest: seq<string>)
    requires AllLines(rest) && (rest != [] ==> Opens(rest[0]))
    ensures RestOf(rest) == RStrip(TextOf(rest)) && RStrip(RestOf(rest)) == RestOf(rest)
  {
    RestParts(rest);
  }

  /** A text without the header keeps all its characters up to the blanks at its end, and
      the section comes behind it. */
  lemma UpsertBehind(header: string, text: string, block: string)
    requires NoOuterBlanks(header)
    requires forall k :: 0 <= k < |Lines(text)| ==> !HeaderLineOf(header, Lines(text)[k])
    ensures Bounds(header, text) == None
    ensures var p := RStrip(text); Upsert(header, text, block) == (if p == "" then "" else p + "\n\n") + block
  {
    var i := HeaderAt(header, Lines(text));
    if i < |Lines(text)| { HeaderLineMeans(header, Lines(text)[i]); }
  }

  /** Every text is divided so, or has no line with the header. */
  lemma DividedOrNot(header: string, text: string)
    returns (a: seq<string>, h: string, body: seq<string>, rest: seq<string>)
    requires NoOuterBlanks(header)
    ensures Divided(header, text, a, h, body, rest) ||
            forall k :: 0 <= k < |Lines(text)| ==> !HeaderLineOf(header, Lines(text)[k])
  {
    var ls := Lines(text);
    a, h, body, rest := [], "", [], [];
    if HeaderAt(header, ls) < |ls| {
      var sec;
      a, sec, rest := LocatedLines(header, ls);
      h, body := sec[0], sec[1..];
      assert sec == [h] + body;
      PlacedIsDivided(header, text, a, h, body, rest);
    } else {
      forall k | 0 <= k < |ls| ensures !HeaderLineOf(header, ls[k]) {
        assert !Is(header)(ls[k]);
        HeaderLineMeans(header, ls[k]);
      }
    }
  }

  lemma PlacedIsDivided(header: string, text: string, a: seq<string>, h: string, body: seq<string>, rest: seq<string>)
    requires NoOuterBlanks(header) && Placed(header, Lines(text), a, [h] + body, rest)
    ensures Divided(header, text, a, h, body, rest)
  {
    forall k | 0 <= k < |a| ensures !HeaderLineOf(header, a[k]) {
      assert !Is(header)(a[k]);
      HeaderLineMeans(header, a[k]);
    }
    assert Is(header)(([h] + body)[0]);
    HeaderLineMeans(header, h);
    forall k | 0 <= k < |body| ensures !FirstIsBracket(body[k]) {
      assert ([h] + body)[k + 1] == body[k];
      OpensMeans(body[k]);
    }
    if rest != [] { OpensMeans(rest[0]); }
  }

  /** The block the adapter writes is the header's line and the line of the command. */
  lemma McpBlockLines(command: string)
    requires OneLine(command)
    ensures Lines(McpBlock(MCP_SECTION, command)) ==
      ["[mcp_servers.agent-memory-hub]", "command = \"" + command + "\"", ""]
  {
    var l := "command = \"" + command + "\"";
    CommandLine(command);
    assert MCP_SECTION == "[mcp_servers.agent-memory-hub]";
    assert OneLine("[mcp_servers.") && OneLine("agent-memory-hub]");
    LinesOfLine(l, "");
    LinesOfLine(MCP_SECTION, l + "\n" + "");
    assert McpBlock(MCP_SECTION, command) == MCP_SECTION + "\n" + (l + "\n" + "");
    assert Lines("") == [""];
  }
}
