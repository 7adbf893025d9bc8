/** What the shell makes of a hook command, piece by piece, and which commands belong to
    the hub. */
module CommandMeaning {
  import opened Options
  import opened Sequences
  import opened Strings
  import opened Shlex
  import opened HookCommands

  // ----- words as a shell user spells them

  /** A character between double quotes: itself, or behind a backslash. */
  datatype Inner = Itself(c: char) | Behind(c: char)

  /** A piece of a word: a bare character, one behind a backslash, or a quoted text. */
  datatype Piece = Bare(c: char) | Escaped(c: char) | SingleQuoted(text: string) | DoubleQuoted(inner: seq<Inner>)

  predicate InnerFits(i: Inner) {
    i.Itself? ==> i.c != '"' && i.c != '\\'
  }

  predicate Fits(p: Piece) {
    match p
    case Bare(c) => !ShellSpace(c) && c != '\'' && c != '"' && c != '\\'
    case Escaped(_) => true
    case SingleQuoted(text) => '\'' !in text
    case DoubleQuoted(inner) => forall k :: 0 <= k < |inner| ==> InnerFits(inner[k])
  }

  function OneText(i: Inner): string {
    if i.Itself? then [i.c] else ['\\', i.c]
  }

  /** Between double quotes a backslash only protects a backslash or a double quote. */
  function OneValue(i: Inner): string {
    if i.Itself? || i.c == '\\' || i.c == '"' then [i.c] else ['\\', i.c]
  }

  function InnerText(inner: seq<Inner>): string {
    if inner == [] then "" else OneText(inner[0]) + InnerText(inner[1..])
  }

  function InnerValue(inner: seq<Inner>): string {
    if inner == [] then "" else OneValue(inner[0]) + InnerValue(inner[1..])
  }

  function PieceText(p: Piece): string {
    match p
    case Bare(c) => [c]
    case Escaped(c) => ['\\', c]
    case SingleQuoted(text) => "'" + (text + "'")
    case DoubleQuoted(inner) => "\"" + (InnerText(inner) + "\"")
  }

  function PieceValue(p: Piece): string {
    match p
    case Bare(c) => [c]
    case Escaped(c) => [c]
    case SingleQuoted(text) => text
    case DoubleQuoted(inner) => InnerValue(inner)
  }

  function WordText(w: seq<Piece>): string {
    if w == [] then "" else PieceText(w[0]) + WordText(w[1..])
  }

  function WordValue(w: seq<Piece>): string {
    if w == [] then "" else PieceValue(w[0]) + WordValue(w[1..])
  }

  predicate WordFits(w: seq<Piece>) {
    forall k :: 0 <= k < |w| ==> Fits(w[k])
  }

  /** A word with the blanks in front of it. */
  datatype Spaced = Spaced(gap: string, word: seq<Piece>)

  predicate Gaps(s: string) {
    forall k :: 0 <= k < |s| ==> ShellSpace(s[k])
  }

  /** Blanks separate the words; the first may come without. */
  predicate CommandFits(ws: seq<Spaced>, trail: string) {
    && Gaps(trail)
    && (forall k :: 0 <= k < |ws| ==> Gaps(ws[k].gap) && ws[k].word != [] && WordFits(ws[k].word))
    && (forall k :: 1 <= k < |ws| ==> ws[k].gap != "")
  }

  function CommandText(ws: seq<Spaced>, trail: string): string {
    if ws == [] then trail else ws[0].gap + (WordText(ws[0].word) + CommandText(ws[1..], trail))
  }

  function CommandValues(ws: seq<Spaced>): seq<string> {
    if ws == [] then [] else [WordValue(ws[0].word)] + CommandValues(ws[1..])
  }

  // ----- reading them

  lemma {:induction false} SplitSingleText(text: string, rest: string, token: string)
    requires '\'' !in text
    ensures Split(text + ("'" + rest), Single, token) == Split(rest, Word, token + text)
    decreases |text|
  {
    if text == "" {
      assert text + ("'" + rest) == "'" + rest && ("'" + rest)[1..] == rest && token + text == token;
    } else {
      assert (text + ("'" + rest))[1..] == text[1..] + ("'" + rest);
      SplitSingleText(text[1..], rest, token + [text[0]]);
      assert token + [text[0]] + text[1..] == token + text;
    }
  }

  lemma ReadOne(c: char, rest: string)
    ensures [c] + rest != "" && ([c] + rest)[0] == c && ([c] + rest)[1..] == rest
  {
  }

  lemma ReadTwo(c: char, d: char, rest: string)
    ensures [c, d] + rest == [c] + ([d] + rest)
  {
  }

  lemma InnerStep(i: Inner, rest: string, token: string)
    requires InnerFits(i)
    ensures Split(OneText(i) + rest, Double, token) == Split(rest, Double, token + OneValue(i))
  {
    ReadOne(i.c, rest);
    if i.Behind? {
      ReadTwo('\\', i.c, rest);
      ReadOne('\\', [i.c] + rest);
    }
  }

  lemma {:induction false} SplitInner(inner: seq<Inner>, rest: string, token: string)
    requires forall k :: 0 <= k < |inner| ==> InnerFits(inner[k])
    ensures Split(InnerText(inner) + rest, Double, token) == Split(rest, Double, token + InnerValue(inner))
    decreases |inner|
  {
    if inner == [] {
      assert InnerText(inner) + rest == rest && token + InnerValue(inner) == token;
    } else {
      Associates(OneText(inner[0]), InnerText(inner[1..]), rest);
      Associates(token, OneValue(inner[0]), InnerValue(inner[1..]));
      InnerStep(inner[0], InnerText(inner[1..]) + rest, token);
      SplitInner(inner[1..], rest, token + OneValue(inner[0]));
    }
  }

  lemma SplitDoubleText(inner: seq<Inner>, rest: string, token: string)
    requires forall k :: 0 <= k < |inner| ==> InnerFits(inner[k])
    ensures Split(InnerText(inner) + ("\"" + rest), Double, token) == Split(rest, Word, token + InnerValue(inner))
  {
    SplitInner(inner, "\"" + rest, token);
    assert ("\"" + rest)[1..] == rest;
  }

  lemma QuotedParts(quote: string, text: string, rest: string)
    ensures (quote + (text + quote)) + rest == quote + (text + (quote + rest))
  {
    Associates(quote, text + quote, rest);
    Associates(text, quote, rest);
  }

  lemma SplitSingleQuoted(text: string, rest: string, token: string)
    requires '\'' !in text
    ensures Split("'" + (text + "'") + rest, Word, token) == Split(rest, Word, token + text)
  {
    QuotedParts("'", text, rest);
    ReadOne('\'', text + ("'" + rest));
    SplitSingleText(text, rest, token);
  }

  lemma SplitDoubleQuoted(inner: seq<Inner>, rest: string, token: string)
    requires forall k :: 0 <= k < |inner| ==> InnerFits(inner[k])
    ensures Split("\"" + (InnerText(inner) + "\"") + rest, Word, token) == Split(rest, Word, token + InnerValue(inner))
  {
    QuotedParts("\"", InnerText(inner), rest);
    ReadOne('"', InnerText(inner) + ("\"" + rest));
    SplitDoubleText(inner, rest, token);
  }

  /** Inside a word a piece adds its value to the token. */
  lemma SplitPiece(p: Piece, rest: string, token: string)
    requires Fits(p)
    ensures Split(PieceText(p) + rest, Word, token) == Split(rest, Word, token + PieceValue(p))
  {
    match p
    case Bare(c) =>
      ReadOne(c, rest);
    case Escaped(c) =>
      ReadTwo('\\', c, rest);
      ReadOne('\\', [c] + rest);
      ReadOne(c, rest);
    case SingleQuoted(text) =>
      SplitSingleQuoted(text, rest, token);
    case DoubleQuoted(inner) =>
      SplitDoubleQuoted(inner, rest, token);
  }

  lemma {:induction false} SplitWord(w: seq<Piece>, rest: string, token: string)
    requires WordFits(w)
    ensures Split(WordText(w) + rest, Word, token) == Split(rest, Word, token + WordValue(w))
    decreases |w|
  {
    if w == [] {
      assert WordText(w) + rest == rest && token + WordValue(w) == token;
    } else {
      Associates(PieceText(w[0]), WordText(w[1..]), rest);
      SplitPiece(w[0], WordText(w[1..]) + rest, token);
      SplitWord(w[1..], rest, token + PieceValue(w[0]));
      Associates(token, PieceValue(w[0]), WordValue(w[1..]));
    }
  }

  lemma WordOpens(w: seq<Piece>, rest: string)
    requires WordFits(w) && w != []
    ensures WordText(w) + rest != "" && !ShellSpace((WordText(w) + rest)[0])
  {
    assert Fits(w[0]) && PieceText(w[0]) != "" && !ShellSpace(PieceText(w[0])[0]);
    assert (WordText(w) + rest)[0] == PieceText(w[0])[0];
  }

  /** Blanks before a word are skipped. */
  lemma {:induction false} SplitGap(gap: string, rest: string)
    requires Gaps(gap)
    ensures Split(gap + rest, Gap, "") == Split(rest, Gap, "")
    decreases |gap|
  {
    if gap == "" {
      assert gap + rest == rest;
    } else {
      assert (gap + rest)[1..] == gap[1..] + rest;
      SplitGap(gap[1..], rest);
    }
  }

  /** Blanks behind a word end it. */
  lemma SplitEnd(gap: string, rest: string, token: string)
    requires Gaps(gap) && gap != ""
    ensures Split(gap + rest, Word, token) == Cons(token, Split(rest, Gap, ""))
  {
    assert (gap + rest)[1..] == gap[1..] + rest;
    SplitGap(gap[1..], rest);
  }

  lemma SplitFirst(s: Spaced, rest: string)
    requires Gaps(s.gap) && s.word != [] && WordFits(s.word)
    ensures Split(s.gap + (WordText(s.word) + rest), Gap, "") == Split(rest, Word, WordValue(s.word))
  {
    SplitGap(s.gap, WordText(s.word) + rest);
    WordOpens(s.word, rest);
    SplitFromGap(WordText(s.word) + rest);
    SplitWord(s.word, rest, "");
    assert "" + WordValue(s.word) == WordValue(s.word);
  }

  lemma {:induction false} SplitCommand(ws: seq<Spaced>, trail: string)
    requires CommandFits(ws, trail)
    ensures Split(CommandText(ws, trail), Gap, "") == Some(CommandValues(ws))
    decreases |ws|
  {
    if ws == [] {
      NothingBehind(trail);
      SplitGap(trail, "");
    } else {
      var rest := CommandText(ws[1..], trail);
      SplitFirst(ws[0], rest);
      TailFits(ws, trail);
      SplitCommand(ws[1..], trail);
      SplitBetween(ws[1..], trail, WordValue(ws[0].word));
    }
  }

  lemma TailFits(ws: seq<Spaced>, trail: string)
    requires CommandFits(ws, trail) && ws != []
    ensures CommandFits(ws[1..], trail) && (|ws| > 1 ==> ws[1..][0].gap != "")
  {
    assert forall k :: 0 <= k < |ws[1..]| ==> ws[1..][k] == ws[k + 1];
  }

  /** What follows a word ends it, whether a further word or the end. */
  lemma SplitBetween(ws: seq<Spaced>, trail: string, token: string)
    requires CommandFits(ws, trail) && (ws != [] ==> ws[0].gap != "")
    requires Split(CommandText(ws, trail), Gap, "").Some?
    ensures Split(CommandText(ws, trail), Word, token) == Cons(token, Split(CommandText(ws, trail), Gap, ""))
  {
    if ws != [] {
      var rest := WordText(ws[0].word) + CommandText(ws[1..], trail);
      SplitEnd(ws[0].gap, rest, token);
      SplitGap(ws[0].gap, rest);
    } else if trail != "" {
      NothingBehind(trail);
      SplitEnd(trail, "", token);
      SplitGap(trail, "");
    } else {
      NothingBehind([token]);
    }
  }

  /** A command spelled with blanks, quotes and backslashes reads as its words' values. */
  lemma SpelledTokens(ws: seq<Spaced>, trail: string)
    requires CommandFits(ws, trail)
    ensures Tokens(CommandText(ws, trail)) == CommandValues(ws)
  {
    SplitCommand(ws, trail);
  }

  // ----- quoting

  lemma {:induction false} EscapeNothing(s: string)
    requires '\'' !in s
    ensures EscapeQuotes(s) == s
    decreases |s|
  {
    if s != "" { EscapeNothing(s[1..]); }
  }

  lemma {:induction false} EscapeConcat(a: string, b: string)
    ensures EscapeQuotes(a + b) == EscapeQuotes(a) + EscapeQuotes(b)
    decreases |a|
  {
    if a == "" {
      assert a + b == b;
    } else {
      assert (a + b)[1..] == a[1..] + b;
      EscapeConcat(a[1..], b);
    }
  }

  /** Inside the quotation only single quotes are spelled differently: the quotation is
      closed, a single quote between double quotes added, and the quotation opened again. */
  lemma EscapeMeans(a: string, b: string)
    requires '\'' !in a
    ensures EscapeQuotes(a + ("'" + b)) == a + ("'\"'\"'" + EscapeQuotes(b)) && EscapeQuotes(a) == a
  {
    EscapeNothing(a);
    EscapeConcat(a, "'" + b);
    assert ("'" + b)[1..] == b;
  }

  /** A text of safe characters is left alone, every other one is put into single quotes. */
  lemma QuoteMeans(s: string)
    ensures Quote(s) ==
      if s != "" && forall c :: c in s ==> 'a' <= c <= 'z' || 'A' <= c <= 'Z' || '0' <= c <= '9' || c in "_@%+=:,./-"
      then s else "'" + EscapeQuotes(s) + "'"
  {
    if s != "" && forall c :: c in s ==> SafeChar(c) {
      forall i | 0 <= i < |s| ensures SafeChar(s[i]) { assert s[i] in s; }
    } else if s != "" {
      var c :| c in s && !SafeChar(c);
      var i :| 0 <= i < |s| && s[i] == c;
    }
  }

  // ----- broken commands

  /** The end of a command with an open quotation or a last backslash. */
  datatype Open = LastBackslash | OpenSingle(text: string) | OpenDouble(inner: seq<Inner>, backslash: bool)

  predicate OpenFits(o: Open) {
    match o
    case LastBackslash => true
    case OpenSingle(text) => '\'' !in text
    case OpenDouble(inner, _) => forall k :: 0 <= k < |inner| ==> InnerFits(inner[k])
  }

  function OpenText(o: Open): string {
    match o
    case LastBackslash => "\\"
    case OpenSingle(text) => "'" + text
    case OpenDouble(inner, backslash) => "\"" + (InnerText(inner) + (if backslash then "\\" else ""))
  }

  lemma {:induction false} OpenSingleFails(text: string, token: string)
    requires '\'' !in text
    ensures Split(text, Single, token) == None
    decreases |text|
  {
    if text != "" { OpenSingleFails(text[1..], token + [text[0]]); }
  }

  lemma OpenFails(o: Open, token: string)
    requires OpenFits(o)
    ensures Split(OpenText(o), Word, token) == None
  {
    match o
    case LastBackslash =>
    case OpenSingle(text) =>
      ReadOne('\'', text);
      OpenSingleFails(text, token);
    case OpenDouble(inner, backslash) =>
      var last := if backslash then "\\" else "";
      ReadOne('"', InnerText(inner) + last);
      SplitInner(inner, last, token);
  }

  lemma {:induction false} OpenCommandFails(ws: seq<Spaced>, last: Spaced, o: Open)
    requires CommandFits(ws, last.gap) && (ws != [] ==> last.gap != "") && WordFits(last.word) && OpenFits(o)
    ensures Split(CommandText(ws, last.gap) + (WordText(last.word) + OpenText(o)), Gap, "") == None
    decreases |ws|
  {
    var end := WordText(last.word) + OpenText(o);
    if ws == [] {
      SplitGap(last.gap, end);
      OpenEndFails(last.word, o);
    } else {
      var rest := CommandText(ws[1..], last.gap);
      Associates(ws[0].gap, WordText(ws[0].word) + rest, end);
      Associates(WordText(ws[0].word), rest, end);
      SplitFirst(ws[0], rest + end);
      TailFits(ws, last.gap);
      OpenCommandFails(ws[1..], last, o);
      OpenBetween(ws[1..], last.gap, end, WordValue(ws[0].word));
    }
  }

  lemma OpenEndFails(w: seq<Piece>, o: Open)
    requires WordFits(w) && OpenFits(o)
    ensures Split(WordText(w) + OpenText(o), Gap, "") == None
  {
    if w == [] {
      assert WordText(w) + OpenText(o) == OpenText(o);
      SplitFromGap(OpenText(o));
      OpenFails(o, "");
    } else {
      WordOpens(w, OpenText(o));
      SplitFromGap(WordText(w) + OpenText(o));
      SplitWord(w, OpenText(o), "");
      OpenFails(o, "" + WordValue(w));
    }
  }

  lemma OpenBetween(ws: seq<Spaced>, gap: string, end: string, token: string)
    requires CommandFits(ws, gap) && (if ws == [] then gap != "" else ws[0].gap != "")
    requires Split(CommandText(ws, gap) + end, Gap, "") == None
    ensures Split(CommandText(ws, gap) + end, Word, token) == None
  {
    if ws == [] {
      SplitEnd(gap, end, token);
      SplitGap(gap, end);
    } else {
      var rest := WordText(ws[0].word) + CommandText(ws[1..], gap);
      Associates(ws[0].gap, rest, end);
      SplitEnd(ws[0].gap, rest + end, token);
      SplitGap(ws[0].gap, rest + end);
    }
  }

  /** A command with an open quotation or a last backslash is read by its blanks alone. */
  lemma BrokenTokens(ws: seq<Spaced>, last: Spaced, o: Open)
    requires CommandFits(ws, last.gap) && (ws != [] ==> last.gap != "") && WordFits(last.word) && OpenFits(o)
    ensures var command := CommandText(ws, last.gap + (WordText(last.word) + OpenText(o)));
      Tokens(command) == Fields(command, "")
  {
    OpenCommandFails(ws, last, o);
    CommandEnd(ws, last.gap, WordText(last.word) + OpenText(o));
  }

  lemma {:induction false} CommandEnd(ws: seq<Spaced>, gap: string, end: string)
    ensures CommandText(ws, gap + end) == CommandText(ws, gap) + end
    decreases |ws|
  {
    if ws != [] {
      CommandEnd(ws[1..], gap, end);
      Associates(ws[0].gap, WordText(ws[0].word) + CommandText(ws[1..], gap), end);
      Associates(WordText(ws[0].word), CommandText(ws[1..], gap), end);
    }
  }

  // ----- every command is spelled or broken

  predicate AllInnerFit(inner: seq<Inner>) {
    forall k :: 0 <= k < |inner| ==> InnerFits(inner[k])
  }

  /** The text between double quotes: up to the closing one, or to the end. */
  lemma {:induction false} ParseInner(s: string)
    returns (inner: seq<Inner>, closed: bool, backslash: bool, rest: string)
    ensures AllInnerFit(inner) && |rest| <= |s|
    ensures s == InnerText(inner) + (if closed then "\"" + rest else if backslash then "\\" else "")
    decreases |s|
  {
    inner, closed, backslash, rest := [], false, false, "";
    if s == "" {
    } else if s[0] == '"' {
      closed, rest := true, s[1..];
    } else if s == "\\" {
      backslash := true;
    } else {
      var first := if s[0] == '\\' then Behind(s[1]) else Itself(s[0]);
      var k := |OneText(first)|;
      assert s[..k] == OneText(first);
      TwoParts(s, k);
      inner, closed, backslash, rest := ParseInner(s[k..]);
      var end := if closed then "\"" + rest else if backslash then "\\" else "";
      Associates(OneText(first), InnerText(inner), end);
      InnerSnoc(first, inner);
      inner := [first] + inner;
    }
  }

  lemma InnerSnoc(first: Inner, inner: seq<Inner>)
    requires InnerFits(first) && AllInnerFit(inner)
    ensures InnerText([first] + inner) == OneText(first) + InnerText(inner) && AllInnerFit([first] + inner)
  {
    assert ([first] + inner)[1..] == inner;
  }

  lemma ParseSingle(s: string) returns (closed: bool, text: string, rest: string)
    ensures '\'' !in text && |rest| <= |s| && s == if closed then text + ("'" + rest) else text
  {
    var q := FirstWhere(s, c => c == '\'');
    closed, text, rest := q < |s|, s[..q], "";
    assert forall k :: 0 <= k < |text| ==> text[k] == s[k];
    if closed {
      rest := s[q + 1..];
      SplitAround(s, q);
      assert [s[q]] == "'";
    } else {
      assert text == s;
    }
  }

  lemma ParsePiece(s: string) returns (whole: bool, p: Piece, rest: string, o: Open)
    requires s != "" && !ShellSpace(s[0])
    ensures if whole then Fits(p) && s == PieceText(p) + rest && |rest| < |s| else OpenFits(o) && s == OpenText(o)
  {
    var c, tail := s[0], s[1..];
    assert s == [c] + tail;
    whole, p, rest, o := true, Bare(c), tail, LastBackslash;
    if c == '\\' {
      whole := tail != "";
      if whole {
        p, rest := Escaped(tail[0]), tail[1..];
        ReadTwo(c, tail[0], rest);
        assert tail == [tail[0]] + rest;
      }
    } else if c == '\'' {
      var text;
      whole, text, rest := ParseSingle(tail);
      p, o := SingleQuoted(text), OpenSingle(text);
      QuotedParts("'", text, rest);
    } else if c == '"' {
      var inner, backslash;
      inner, whole, backslash, rest := ParseInner(tail);
      p, o := DoubleQuoted(inner), OpenDouble(inner, backslash);
      QuotedParts("\"", InnerText(inner), rest);
    }
  }

  lemma WordCons(p: Piece, w: seq<Piece>, rest: string)
    requires Fits(p) && WordFits(w)
    ensures WordFits([p] + w) && WordText([p] + w) + rest == PieceText(p) + (WordText(w) + rest)
  {
    assert ([p] + w)[1..] == w;
    Associates(PieceText(p), WordText(w), rest);
  }

  /** The word at the start of a text, up to a blank, the end, or where it breaks. */
  lemma {:induction false} ParseWord(s: string) returns (w: seq<Piece>, whole: bool, rest: string, o: Open)
    ensures WordFits(w) && (whole && s != "" && !ShellSpace(s[0]) ==> w != [])
    ensures if whole then s == WordText(w) + rest && (rest == "" || ShellSpace(rest[0]))
            else OpenFits(o) && s == WordText(w) + OpenText(o)
    decreases |s|
  {
    w, whole, rest, o := [], true, s, LastBackslash;
    if s != "" && !ShellSpace(s[0]) {
      var p, tail;
      whole, p, tail, o := ParsePiece(s);
      if whole {
        w, whole, rest, o := ParseWord(tail);
        WordCons(p, w, if whole then rest else OpenText(o));
        w := [p] + w;
      }
    }
  }

  lemma {:induction false} ParseGap(s: string) returns (gap: string, rest: string)
    ensures Gaps(gap) && s == gap + rest && (rest == "" || !ShellSpace(rest[0]))
    ensures s != "" && ShellSpace(s[0]) ==> gap != ""
  {
    var k := FirstWhere(s, c => !ShellSpace(c));
    gap, rest := s[..k], s[k..];
    assert forall i :: 0 <= i < k ==> gap[i] == s[i];
  }

  /** A command ends in blanks, or in a word that breaks. */
  datatype Ending = Trail(gap: string) | Broken(last: Spaced, open: Open)

  function EndingText(e: Ending): string {
    match e
    case Trail(gap) => gap
    case Broken(last, open) => last.gap + (WordText(last.word) + OpenText(open))
  }

  predicate Spelled(ws: seq<Spaced>, e: Ending) {
    match e
    case Trail(gap) => CommandFits(ws, gap)
    case Broken(last, open) =>
      CommandFits(ws, last.gap) && (ws != [] ==> last.gap != "") && WordFits(last.word) && OpenFits(open)
  }

  lemma SpelledCons(first: Spaced, ws: seq<Spaced>, e: Ending, s: string)
    requires Gaps(first.gap) && first.word != [] && WordFits(first.word) && Spelled(ws, e)
    requires s == CommandText(ws, EndingText(e)) && (s == "" || ShellSpace(s[0]))
    ensures Spelled([first] + ws, e)
    ensures CommandText([first] + ws, EndingText(e)) == first.gap + (WordText(first.word) + s)
  {
    assert ([first] + ws)[1..] == ws;
    NextGap(ws, e);
  }

  /** What stands first in a text is the gap of its first word or of its end. */
  lemma NextGap(ws: seq<Spaced>, e: Ending)
    requires Spelled(ws, e)
    requires var s := CommandText(ws, EndingText(e)); s == "" || ShellSpace(s[0])
    ensures ws != [] ==> ws[0].gap != ""
    ensures ws == [] && e.Broken? ==> e.last.gap != ""
  {
    if ws != [] {
      WordOpens(ws[0].word, CommandText(ws[1..], EndingText(e)));
      GapInFront(ws[0].gap, WordText(ws[0].word) + CommandText(ws[1..], EndingText(e)));
    } else if e.Broken? {
      OpenOpens(e.last.word, e.open);
      GapInFront(e.last.gap, WordText(e.last.word) + OpenText(e.open));
    }
  }

  lemma GapInFront(gap: string, rest: string)
    requires rest != "" && !ShellSpace(rest[0]) && (gap + rest == "" || ShellSpace((gap + rest)[0]))
    ensures gap != ""
  {
  }

  lemma OpenOpens(w: seq<Piece>, o: Open)
    requires WordFits(w)
    ensures WordText(w) + OpenText(o) != "" && !ShellSpace((WordText(w) + OpenText(o))[0])
  {
    if w != [] { WordOpens(w, OpenText(o)); }
  }

  /** Every text is a command of words, or one that breaks in its last word: the two
      results above cover all there is. */
  lemma {:induction false} EveryCommand(s: string) returns (ws: seq<Spaced>, e: Ending)
    ensures Spelled(ws, e) && s == CommandText(ws, EndingText(e))
    decreases |s|
  {
    var gap, start := ParseGap(s);
    ws, e := [], Trail(gap);
    if start == "" {
      NothingBehind(gap);
    } else {
      var w, whole, rest, o := ParseWord(start);
      if whole {
        var later, end := EveryCommand(rest);
        SpelledCons(Spaced(gap, w), later, end, rest);
        ws, e := [Spaced(gap, w)] + later, end;
      } else {
        e := Broken(Spaced(gap, w), o);
      }
    }
  }

  /** Texts without blanks, each behind blanks. */
  function FieldsText(fs: seq<(string, string)>, trail: string): string {
    if fs == [] then trail else fs[0].0 + (fs[0].1 + FieldsText(fs[1..], trail))
  }

  predicate AreFields(fs: seq<(string, string)>, trail: string) {
    && Blank(trail)
    && (forall k :: 0 <= k < |fs| ==> Blank(fs[k].0) && fs[k].1 != "" && NoBlank(fs[k].1))
    && (forall k :: 1 <= k < |fs| ==> fs[k].0 != "")
  }

  predicate NoBlank(s: string) {
    forall k :: 0 <= k < |s| ==> !IsSpace(s[k])
  }

  function FieldValues(fs: seq<(string, string)>): seq<string> {
    if fs == [] then [] else [fs[0].1] + FieldValues(fs[1..])
  }

  lemma {:induction false} SkipBlanks(gap: string, rest: string)
    requires Blank(gap)
    ensures Fields(gap + rest, "") == Fields(rest, "")
    decreases |gap|
  {
    if gap == "" {
      assert gap + rest == rest;
    } else {
      assert (gap + rest)[1..] == gap[1..] + rest;
      SkipBlanks(gap[1..], rest);
    }
  }

  lemma {:induction false} TakeField(w: string, rest: string, field: string)
    requires NoBlank(w)
    ensures Fields(w + rest, field) == Fields(rest, field + w)
    decreases |w|
  {
    if w == "" {
      assert w + rest == rest && field + w == field;
    } else {
      assert (w + rest)[1..] == w[1..] + rest;
      TakeField(w[1..], rest, field + [w[0]]);
      assert field + [w[0]] + w[1..] == field + w;
    }
  }

  lemma EndField(gap: string, rest: string, field: string)
    requires Blank(gap) && gap != "" && field != ""
    ensures Fields(gap + rest, field) == [field] + Fields(rest, "")
  {
    assert (gap + rest)[1..] == gap[1..] + rest;
    SkipBlanks(gap[1..], rest);
  }

  /** Broken commands read as their texts between blanks. */
  lemma {:induction false} FieldsAre(fs: seq<(string, string)>, trail: string)
    requires AreFields(fs, trail)
    ensures Fields(FieldsText(fs, trail), "") == FieldValues(fs)
    decreases |fs|
  {
    if fs == [] {
      NothingBehind(trail);
      SkipBlanks(trail, "");
    } else {
      var rest := FieldsText(fs[1..], trail);
      SkipBlanks(fs[0].0, fs[0].1 + rest);
      TakeField(fs[0].1, rest, "");
      assert "" + fs[0].1 == fs[0].1;
      assert forall k :: 0 <= k < |fs[1..]| ==> fs[1..][k] == fs[k + 1];
      FieldsAre(fs[1..], trail);
      FieldEnds(fs[1..], trail, fs[0].1);
    }
  }

  lemma FieldEnds(fs: seq<(string, string)>, trail: string, field: string)
    requires AreFields(fs, trail) && (fs != [] ==> fs[0].0 != "") && field != ""
    ensures Fields(FieldsText(fs, trail), field) == [field] + Fields(FieldsText(fs, trail), "")
  {
    if fs != [] {
      var rest := fs[0].1 + FieldsText(fs[1..], trail);
      EndField(fs[0].0, rest, field);
      SkipBlanks(fs[0].0, rest);
    } else if trail != "" {
      NothingBehind(trail);
      EndField(trail, "", field);
      SkipBlanks(trail, "");
    } else {
      NothingBehind([field]);
    }
  }

  // ----- whose command it is

  /** The same path with the first directory of the current layout in the old layout. */
  ghost predicate IsLegacy(path: string, legacy: string) {
    exists i: nat :: FirstMarker(path, i) && legacy == path[..i] + "/brain/hooks" + path[i + |CURRENT_DIR|..]
  }

  ghost predicate FirstMarker(path: string, i: nat) {
    OccursAt(path, "/agent_runtime_kit/hooks", i) &&
    forall j: nat :: j < i ==> !OccursAt(path, "/agent_runtime_kit/hooks", j)
  }

  /** Both layouts of a path are recognised, and no third path. */
  lemma AliasesMean(path: string, other: string)
    ensures other in Aliases(path) <==> other == path || IsLegacy(path, other)
  {
    var i := Find(path, CURRENT_DIR, 0);
    if i >= 0 {
      assert FirstMarker(path, i);
      forall j: nat | FirstMarker(path, j) ensures j == i { FindIs(path, CURRENT_DIR, 0, j); }
      assert |LegacyPath(path).value| >= |LEGACY_DIR|;
    } else {
      forall j: nat ensures !FirstMarker(path, j) { }
    }
  }

  lemma NoLetterK()
    ensures 'k' !in PATH_PREFIX && 'k' in "/agent_runtime_kit/hooks/" && 'k' in "/brain/hooks/"
  {
    assert 'k' !in LOCAL_BINS && 'k' !in SYSTEM_BINS && 'k' !in "${PATH:+:$PATH}";
    assert "/agent_runtime_kit/hooks/"[22] == 'k';
    assert "/brain/hooks/"[10] == 'k';
  }

  lemma EndsIn(s: string, tail: string, c: char)
    requires EndsWith(s, tail) && c in tail
    ensures c in s
  {
    var i :| 0 <= i < |tail| && tail[i] == c;
    assert s[|s| - |tail|..][i] == s[|s| - |tail| + i];
  }

  lemma CommandWords(adapter: string, path: string)
    ensures var command := AdapterHookCommand(adapter, path);
      && Tokens(command) == [PATH_PREFIX, ADAPTER_VARIABLE + adapter, path]
      && command != "" && command[0] == 'P' && PATH_PREFIX[0] == 'P' && ADAPTER_VARIABLE[0] == 'A'
  {
    HookCommandTokens(adapter, path);
    assert LOCAL_BINS[0] == 'P';
  }

  /** A command built for some path runs a script exactly when the path is the script's,
      in the current layout or the old one. */
  lemma RunsExactly(adapter: string, path: string, script: Script)
    requires StartsWith(script.dir, "/")
    ensures ReferencesScript(AdapterHookCommand(adapter, path), script) <==>
      path == script.Path() || IsLegacy(script.Path(), path)
  {
    var command := AdapterHookCommand(adapter, path);
    CommandWords(adapter, path);
    assert script.Path()[0] == '/';
    AliasesMean(script.Path(), path);
    if alias :| alias in Aliases(script.Path()) && ReferencesPath(command, alias) {
      LegacyIsAbsolute(script.Path(), alias);
      assert alias == path;
    }
    if path in Aliases(script.Path()) { assert Tokens(command)[2] == path; }
  }

  lemma LegacyIsAbsolute(path: string, alias: string)
    requires StartsWith(path, "/") && alias in Aliases(path)
    ensures alias != "" && alias[0] == '/'
  {
    AliasesMean(path, alias);
    if alias != path {
      var i: nat :| FirstMarker(path, i) && alias == path[..i] + "/brain/hooks" + path[i + |CURRENT_DIR|..];
      if i > 0 { assert alias[0] == path[..i][0]; }
    }
  }

  /** It belongs to a hooks directory exactly when the path starts with it, in one of the
      two layouts: no other tool's command does. */
  lemma BelongsExactly(adapter: string, path: string, dir: string)
    requires StartsWith(dir, "/")
    ensures BelongsToDir(AdapterHookCommand(adapter, path), dir) <==>
      StartsWith(path, dir) || exists legacy :: IsLegacy(dir, legacy) && StartsWith(path, legacy)
  {
    var command := AdapterHookCommand(adapter, path);
    CommandWords(adapter, path);
    if prefix :| prefix in Aliases(dir) && ReferencesPrefix(command, prefix) {
      LegacyIsAbsolute(dir, prefix);
      AliasesMean(dir, prefix);
      PathHasPrefix(command, path, adapter, prefix);
    }
    assert Tokens(command)[2] == path;
    if StartsWith(path, dir) { assert Aliases(dir)[0] == dir && ReferencesPrefix(command, dir); }
    if legacy :| IsLegacy(dir, legacy) && StartsWith(path, legacy) {
      AliasesMean(dir, legacy);
      assert ReferencesPrefix(command, legacy);
    }
  }

  lemma PathHasPrefix(command: string, path: string, adapter: string, prefix: string)
    requires Tokens(command) == [PATH_PREFIX, ADAPTER_VARIABLE + adapter, path]
    requires command != "" && command[0] == 'P' && PATH_PREFIX[0] == 'P' && ADAPTER_VARIABLE[0] == 'A'
    requires prefix != "" && prefix[0] == '/' && ReferencesPrefix(command, prefix)
    ensures StartsWith(path, prefix)
  {
    var t :| t in Tokens(command) && StartsWith(t, prefix);
    assert t[0] == '/';
  }

  /** It is recognised by a script's name exactly when the path ends in a hooks directory
      of either layout and that name. */
  lemma NamesExactly(adapter: string, path: string, name: string)
    requires '/' !in adapter
    ensures ReferencesHubScript(AdapterHookCommand(adapter, path), name) <==>
      EndsWith(path, "/agent_runtime_kit/hooks/" + name) || EndsWith(path, "/brain/hooks/" + name)
  {
    var current, legacy := "/agent_runtime_kit/hooks/" + name, "/brain/hooks/" + name;
    MarkerNames(name);
    CommandWords(adapter, path);
    NoLetterK();
    if EndsWith(PATH_PREFIX, current) { EndsIn(PATH_PREFIX, current, 'k'); }
    if EndsWith(PATH_PREFIX, legacy) { EndsIn(PATH_PREFIX, legacy, 'k'); }
    NoSlash(adapter);
    if EndsWith(ADAPTER_VARIABLE + adapter, current) { EndsIn(ADAPTER_VARIABLE + adapter, current, '/'); }
    if EndsWith(ADAPTER_VARIABLE + adapter, legacy) { EndsIn(ADAPTER_VARIABLE + adapter, legacy, '/'); }
    assert Tokens(AdapterHookCommand(adapter, path))[2] == path;
  }

  lemma NoSlash(adapter: string)
    requires '/' !in adapter
    ensures '/' !in ADAPTER_VARIABLE + adapter
  {
    assert '/' !in "AGENT_MEMORY_" && '/' !in "HUB_ADAPTER=";
  }

  lemma MarkerNames(name: string)
    ensures CURRENT_DIR + "/" + name == "/agent_runtime_kit/hooks/" + name
    ensures LEGACY_DIR + "/" + name == "/brain/hooks/" + name
    ensures '/' in "/agent_runtime_kit/hooks/" + name && '/' in "/brain/hooks/" + name
  {
    assert CURRENT_DIR + "/" == "/agent_runtime_kit/hooks/" && LEGACY_DIR + "/" == "/brain/hooks/";
    assert ("/agent_runtime_kit/hooks/" + name)[0] == '/' && ("/brain/hooks/" + name)[0] == '/';
  }
}
