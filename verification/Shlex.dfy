/** `shlex.split` and `shlex.quote` in POSIX mode, and the hook command line
    that is built with the one and read back with the other. */
module Shlex {
  import opened Strings
  import opened Options

  /** The states of the POSIX tokenizer: between words, inside a word, inside
      single or double quotes, after a backslash in a word, after a backslash
      in double quotes. */
  datatype Mode = Gap | Word | Single | Double | WordEscape | DoubleEscape

  predicate ShellSpace(c: char) {
    c == ' ' || c == '\t' || c == '\r' || c == '\n'
  }

  /** A character with no meaning to the tokenizer. */
  predicate PlainChar(c: char) {
    !IsSpace(c) && c != '\'' && c != '"' && c != '\\'
  }

  predicate Plain(s: string) {
    forall i :: 0 <= i < |s| ==> PlainChar(s[i])
  }

  function Cons(token: string, rest: Option<seq<string>>): Option<seq<string>> {
    if rest.Some? then Some([token] + rest.value) else None
  }

  /** Tokens of `s` read from `mode` with `token` collected so far; None is the
      ValueError for an unclosed quotation or a dangling escape. */
  function Split(s: string, mode: Mode, token: string): Option<seq<string>> {
    if s == "" then
      match mode
      case Gap => Some([])
      case Word => Some([token])
      case _ => None
    else
      var c, rest := s[0], s[1..];
      match mode
      case Gap =>
        if ShellSpace(c) then Split(rest, Gap, "")
        else if c == '\\' then Split(rest, WordEscape, "")
        else if c == '\'' then Split(rest, Single, "")
        else if c == '"' then Split(rest, Double, "")
        else Split(rest, Word, [c])
      case Word =>
        if ShellSpace(c) then Cons(token, Split(rest, Gap, ""))
        else if c == '\\' then Split(rest, WordEscape, token)
        else if c == '\'' then Split(rest, Single, token)
        else if c == '"' then Split(rest, Double, token)
        else Split(rest, Word, token + [c])
      case Single =>
        if c == '\'' then Split(rest, Word, token) else Split(rest, Single, token + [c])
      case Double =>
        if c == '"' then Split(rest, Word, token)
        else if c == '\\' then Split(rest, DoubleEscape, token)
        else Split(rest, Double, token + [c])
      case WordEscape => Split(rest, Word, token + [c])
      case DoubleEscape =>
        if c == '\\' || c == '"' then Split(rest, Double, token + [c])
        else Split(rest, Double, token + ['\\', c])
  }

  /** `str.split()` without arguments, with `field` collected so far. */
  function Fields(s: string, field: string): seq<string> {
    if s == "" then (if field == "" then [] else [field])
    else if IsSpace(s[0]) then (if field == "" then [] else [field]) + Fields(s[1..], "")
    else Fields(s[1..], field + [s[0]])
  }

  /** The tokens of a hook command: `shlex.split`, or whitespace fields when the
      quoting is broken. */
  function Tokens(command: string): seq<string> {
    var words := Split(command, Gap, "");
    if words.Some? then words.value else Fields(command, "")
  }

  predicate SafeChar(c: char) {
    'a' <= c <= 'z' || 'A' <= c <= 'Z' || '0' <= c <= '9' || c in "_@%+=:,./-"
  }

  predicate Safe(s: string) {
    s != "" && forall i :: 0 <= i < |s| ==> SafeChar(s[i])
  }

  /** Replaces each single quote by the sequence that leaves the quotation,
      quotes it doubly, and opens the quotation again. */
  function EscapeQuotes(s: string): string {
    if s == "" then ""
    else (if s[0] == '\'' then "'\"'\"'" else [s[0]]) + EscapeQuotes(s[1..])
  }

  function Quote(s: string): string {
    if Safe(s) then s else "'" + EscapeQuotes(s) + "'"
  }

  const LOCAL_BINS := "PATH=" + "/usr/local/bin:" + "/opt/homebrew/bin:"
  const SYSTEM_BINS := "/usr/bin:" + "/bin:" + "/usr/sbin:" + "/sbin"
  const PATH_PREFIX := LOCAL_BINS + SYSTEM_BINS + "${PATH:+:$PATH}"
  const ADAPTER_VARIABLE := "AGENT_MEMORY_" + "HUB_ADAPTER="

  /** `adapter_hook_command` with the prepend strategy and no extra environment. */
  function AdapterHookCommand(adapter: string, script: string): string {
    PATH_PREFIX + " " + (ADAPTER_VARIABLE + Quote(adapter)) + " " + Quote(script)
  }

  // ----- reading back what was quoted

  lemma {:induction false} SplitPlain(w: string, rest: string, token: string)
    requires Plain(w)
    ensures Split(w + rest, Word, token) == Split(rest, Word, token + w)
    decreases |w|
  {
    if w == "" {
      assert w + rest == rest && token + w == token;
    } else {
      assert PlainChar(w[0]);
      assert (w + rest)[1..] == w[1..] + rest;
      assert Plain(w[1..]);
      SplitPlain(w[1..], rest, token + [w[0]]);
      assert token + [w[0]] + w[1..] == token + w;
    }
  }

  lemma {:induction false} SplitSingle(s: string, rest: string, token: string)
    ensures Split(EscapeQuotes(s) + "'" + rest, Single, token) == Split(rest, Word, token + s)
    decreases |s|
  {
    if s == "" {
      SplitChar('\'', rest, Single, token);
      assert EscapeQuotes(s) + "'" + rest == ['\''] + rest;
      assert token + s == token;
    } else {
      var tail := EscapeQuotes(s[1..]) + "'" + rest;
      SplitSingle(s[1..], rest, token + [s[0]]);
      assert token + [s[0]] + s[1..] == token + s;
      if s[0] == '\'' {
        assert EscapeQuotes(s) + "'" + rest == "'\"'\"'" + tail;
        SplitReopened(tail, token);
      } else {
        assert EscapeQuotes(s) + "'" + rest == [s[0]] + tail;
        SplitChar(s[0], tail, Single, token);
      }
    }
  }

  /** One step of the tokenizer, for the states quoting passes through. */
  lemma SplitChar(c: char, rest: string, mode: Mode, token: string)
    requires mode == Single || mode == Double || mode == Word
    ensures mode == Single && c == '\'' ==> Split([c] + rest, mode, token) == Split(rest, Word, token)
    ensures mode == Single && c != '\'' ==> Split([c] + rest, mode, token) == Split(rest, Single, token + [c])
    ensures mode == Double && c == '"' ==> Split([c] + rest, mode, token) == Split(rest, Word, token)
    ensures mode == Double && c == '\'' ==> Split([c] + rest, mode, token) == Split(rest, Double, token + [c])
    ensures mode == Word && c == '\'' ==> Split([c] + rest, mode, token) == Split(rest, Single, token)
    ensures mode == Word && c == '"' ==> Split([c] + rest, mode, token) == Split(rest, Double, token)
    ensures mode == Word && ShellSpace(c) ==> Split([c] + rest, mode, token) == Cons(token, Split(rest, Gap, ""))
  {
    assert ([c] + rest)[1..] == rest;
  }

  lemma SplitReopened(tail: string, token: string)
    ensures Split("'\"'\"'" + tail, Single, token) == Split(tail, Single, token + ['\''])
  {
    var s1, s2, s3, s4 := "\"'\"'" + tail, "'\"'" + tail, "\"'" + tail, "'" + tail;
    assert "'\"'\"'" + tail == ['\''] + s1 && s1 == ['"'] + s2 && s2 == ['\''] + s3;
    assert s3 == ['"'] + s4 && s4 == ['\''] + tail;
    SplitChar('\'', s1, Single, token);
    SplitChar('"', s2, Word, token);
    SplitChar('\'', s3, Double, token);
    SplitChar('"', s4, Double, token + ['\'']);
    SplitChar('\'', tail, Word, token + ['\'']);
  }

  /** Inside a word, a quoted string contributes exactly the original string. */
  lemma SplitQuoted(s: string, rest: string, token: string)
    ensures Split(Quote(s) + rest, Word, token) == Split(rest, Word, token + s)
  {
    if Safe(s) {
      assert Plain(s);
      SplitPlain(s, rest, token);
    } else {
      var all := Quote(s) + rest;
      assert all[1..] == EscapeQuotes(s) + "'" + rest;
      SplitSingle(s, rest, token);
    }
  }

  lemma SplitFromGap(s: string)
    requires s != "" && !ShellSpace(s[0])
    ensures Split(s, Gap, "") == Split(s, Word, "")
  {
    assert "" + [s[0]] == [s[0]];
  }

  /** `shlex.split(shlex.quote(s)) == [s]` for every string, the empty one included. */
  lemma QuoteRoundTrip(s: string)
    ensures Tokens(Quote(s)) == [s]
  {
    assert Quote(s) != "" && !ShellSpace(Quote(s)[0]);
    SplitFromGap(Quote(s));
    SplitQuoted(s, "", "");
    assert Quote(s) + "" == Quote(s) && "" + s == s;
  }

  lemma CommandParts(a: string, b: string, c: string)
    ensures a + " " + b + " " + c == a + " " + (b + " " + c)
  {
  }

  /** The hook command always reads back as its three words, whatever characters
      the adapter name and the script path contain. */
  lemma HookCommandTokens(adapter: string, script: string)
    ensures Tokens(AdapterHookCommand(adapter, script)) ==
            [PATH_PREFIX, ADAPTER_VARIABLE + adapter, script]
  {
    var last := Quote(script);
    var tail := ADAPTER_VARIABLE + Quote(adapter) + " " + last;
    LastWord(script);
    SecondWord(adapter, last);
    PlainWords();
    CommandParts(PATH_PREFIX, ADAPTER_VARIABLE + Quote(adapter), last);
    PlainThenSpace(PATH_PREFIX, tail);
  }

  lemma PlainThenSpace(w: string, tail: string)
    requires Plain(w) && w != ""
    ensures Split(w + " " + tail, Gap, "") == Cons(w, Split(tail, Gap, ""))
  {
    assert w + " " + tail == w + ([' '] + tail);
    assert PlainChar(w[0]);
    SplitFromGap(w + ([' '] + tail));
    SplitPlain(w, [' '] + tail, "");
    assert "" + w == w;
    SplitChar(' ', tail, Word, w);
  }

  lemma SecondWord(adapter: string, last: string)
    ensures Split(ADAPTER_VARIABLE + Quote(adapter) + " " + last, Gap, "") ==
            Cons(ADAPTER_VARIABLE + adapter, Split(last, Gap, ""))
  {
    var v, q := ADAPTER_VARIABLE, Quote(adapter);
    var rest := [' '] + last;
    PlainWords();
    assert v + q + " " + last == v + (q + rest);
    assert v != "" && PlainChar(v[0]);
    SplitFromGap(v + (q + rest));
    SplitPlain(v, q + rest, "");
    assert "" + v == v;
    SplitQuoted(adapter, rest, v);
    SplitChar(' ', last, Word, v + adapter);
  }

  lemma LastWord(script: string)
    ensures Quote(script) != "" && Split(Quote(script), Gap, "") == Some([script])
  {
    assert Quote(script) != "" && !ShellSpace(Quote(script)[0]);
    SplitFromGap(Quote(script));
    SplitQuoted(script, "", "");
    assert Quote(script) + "" == Quote(script) && "" + script == script;
  }

  lemma PlainConcat(a: string, b: string)
    ensures Plain(a) && Plain(b) ==> Plain(a + b)
  {
  }

  lemma PlainLocalBins()
    ensures Plain(LOCAL_BINS)
  {
    PlainConcat("PATH=", "/usr/local/bin:");
    PlainConcat("PATH=" + "/usr/local/bin:", "/opt/homebrew/bin:");
  }

  lemma PlainSystemBins()
    ensures Plain(SYSTEM_BINS)
  {
    PlainConcat("/usr/bin:", "/bin:");
    PlainConcat("/usr/bin:" + "/bin:", "/usr/sbin:");
    PlainConcat("/usr/bin:" + "/bin:" + "/usr/sbin:", "/sbin");
  }

  lemma PlainVariable()
    ensures Plain(ADAPTER_VARIABLE)
  {
    PlainConcat("AGENT_MEMORY_", "HUB_ADAPTER=");
  }

  lemma PlainPathPrefix()
    ensures Plain(PATH_PREFIX)
  {
    PlainLocalBins();
    PlainSystemBins();
    PlainConcat(LOCAL_BINS, SYSTEM_BINS);
    PlainConcat(LOCAL_BINS + SYSTEM_BINS, "${PATH:+:$PATH}");
  }

  lemma PlainWords()
    ensures Plain(PATH_PREFIX) && Plain(ADAPTER_VARIABLE)
  {
    PlainPathPrefix();
    PlainVariable();
  }

  // ----- a plain tail survives any tokenizing

  predicate SomeTokenEndsWith(tokens: seq<string>, tail: string) {
    exists i :: 0 <= i < |tokens| && EndsWith(tokens[i], tail)
  }

  lemma SomeTokenCons(token: string, tokens: seq<string>, tail: string)
    requires SomeTokenEndsWith(tokens, tail)
    ensures SomeTokenEndsWith([token] + tokens, tail)
  {
    var i :| 0 <= i < |tokens| && EndsWith(tokens[i], tail);
    assert ([token] + tokens)[i + 1] == tokens[i];
  }

  /** A quotation that is still open when only plain characters remain never closes. */
  lemma {:induction false} PlainNeverCloses(tail: string, mode: Mode, token: string)
    requires Plain(tail)
    requires mode == Single || mode == Double || (mode == DoubleEscape)
    ensures Split(tail, mode, token) == None
    decreases |tail|
  {
    if tail != "" {
      assert PlainChar(tail[0]);
      assert Plain(tail[1..]);
      match mode
      case Single => PlainNeverCloses(tail[1..], Single, token + [tail[0]]);
      case Double => PlainNeverCloses(tail[1..], Double, token + [tail[0]]);
      case DoubleEscape => PlainNeverCloses(tail[1..], Double, token + ['\\', tail[0]]);
    }
  }

  lemma PlainFinishesWord(tail: string, mode: Mode, token: string)
    requires Plain(tail) && tail != ""
    requires mode == Word || mode == WordEscape || (mode == Gap && token == "")
    ensures Split(tail, mode, token) == Some([token + tail])
  {
    var head := token + [tail[0]];
    assert PlainChar(tail[0]);
    assert Plain(tail[1..]);
    SplitPlain(tail[1..], "", head);
    assert tail[1..] + "" == tail[1..];
    assert head + tail[1..] == token + tail;
    assert "" + [tail[0]] == [tail[0]];
  }

  lemma PlainFinishesToken(tail: string, mode: Mode, token: string)
    requires Plain(tail) && tail != ""
    requires mode == Gap ==> token == ""
    ensures var r := Split(tail, mode, token);
            r.Some? ==> SomeTokenEndsWith(r.value, tail)
  {
    if mode == Single || mode == Double || mode == DoubleEscape {
      PlainNeverCloses(tail, mode, token);
    } else {
      PlainFinishesWord(tail, mode, token);
      EndsWithExtend(tail, token, tail);
      assert EndsWith([token + tail][0], tail);
    }
  }

  lemma {:induction false} SplitKeepsTail(p: string, tail: string, mode: Mode, token: string)
    requires Plain(tail) && tail != ""
    requires mode == Gap ==> token == ""
    ensures var r := Split(p + tail, mode, token);
            r.Some? ==> SomeTokenEndsWith(r.value, tail)
    decreases |p|
  {
    if p == "" {
      assert p + tail == tail;
      PlainFinishesToken(tail, mode, token);
    } else {
      var c, q := p[0], p[1..];
      assert (p + tail)[0] == c && (p + tail)[1..] == q + tail;
      SplitStepKeepsTail(q, tail, c, mode, token);
    }
  }

  lemma {:induction false} SplitStepKeepsTail(q: string, tail: string, c: char, mode: Mode, token: string)
    requires Plain(tail) && tail != ""
    requires mode == Gap ==> token == ""
    ensures var r := Split([c] + (q + tail), mode, token);
            r.Some? ==> SomeTokenEndsWith(r.value, tail)
    decreases |q| + 1, 0
  {
    assert ([c] + (q + tail))[1..] == q + tail;
    match mode
    case Gap =>
      SplitKeepsTail(q, tail, Gap, "");
      SplitKeepsTail(q, tail, WordEscape, "");
      SplitKeepsTail(q, tail, Single, "");
      SplitKeepsTail(q, tail, Double, "");
      SplitKeepsTail(q, tail, Word, [c]);
    case Word =>
      SplitKeepsTail(q, tail, Gap, "");
      var after := Split(q + tail, Gap, "");
      if after.Some? { SomeTokenCons(token, after.value, tail); }
      SplitKeepsTail(q, tail, WordEscape, token);
      SplitKeepsTail(q, tail, Single, token);
      SplitKeepsTail(q, tail, Double, token);
      SplitKeepsTail(q, tail, Word, token + [c]);
    case Single =>
      SplitKeepsTail(q, tail, Word, token);
      SplitKeepsTail(q, tail, Single, token + [c]);
    case Double =>
      SplitKeepsTail(q, tail, Word, token);
      SplitKeepsTail(q, tail, DoubleEscape, token);
      SplitKeepsTail(q, tail, Double, token + [c]);
    case WordEscape => SplitKeepsTail(q, tail, Word, token + [c]);
    case DoubleEscape =>
      SplitKeepsTail(q, tail, Double, token + [c]);
      SplitKeepsTail(q, tail, Double, token + ['\\', c]);
  }

  lemma {:induction false} FieldsKeepTail(p: string, tail: string, field: string)
    requires Plain(tail) && tail != ""
    ensures SomeTokenEndsWith(Fields(p + tail, field), tail)
    decreases |p|
  {
    if p == "" {
      assert p + tail == tail;
      FieldsOfPlain(tail, field);
      EndsWithExtend(tail, field, tail);
      assert EndsWith([field + tail][0], tail);
    } else {
      assert (p + tail)[0] == p[0] && (p + tail)[1..] == p[1..] + tail;
      if IsSpace(p[0]) {
        FieldsKeepTail(p[1..], tail, "");
        if field != "" { SomeTokenCons(field, Fields(p[1..] + tail, ""), tail); }
        else { assert [] + Fields(p[1..] + tail, "") == Fields(p[1..] + tail, ""); }
      } else {
        FieldsKeepTail(p[1..], tail, field + [p[0]]);
      }
    }
  }

  lemma {:induction false} FieldsOfPlain(w: string, field: string)
    requires Plain(w) && field + w != ""
    ensures Fields(w, field) == [field + w]
    decreases |w|
  {
    if w == "" {
      assert field + w == field;
    } else {
      assert PlainChar(w[0]);
      assert Plain(w[1..]);
      assert field + [w[0]] + w[1..] == field + w;
      FieldsOfPlain(w[1..], field + [w[0]]);
    }
  }

  /** Whatever quoting precedes it, a plain end of a command stays the end of
      one of its tokens. */
  lemma PlainTailIsTokenTail(command: string, tail: string)
    requires EndsWith(command, tail) && Plain(tail) && tail != ""
    ensures SomeTokenEndsWith(Tokens(command), tail)
  {
    var p := command[..|command| - |tail|];
    assert command == p + tail;
    SplitKeepsTail(p, tail, Gap, "");
    FieldsKeepTail(p, tail, "");
  }
}
