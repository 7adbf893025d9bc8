/** The `[hooks.state."KEY"]` sections of config.toml: reading the trusted hashes
    and writing them back. */
module TrustText {
  import opened Options
  import opened Sequences
  import opened Strings
  import opened Stripping
  import opened TextLines

  const STATE_TABLE := "[hooks.state]"
  const PLAIN_HEAD := "[hooks.state.\""
  const SPACED_HEAD := "[hooks.state. \""
  const HASH_NAME := "trusted_hash"

  /** The quoted text right after `head`, when only `tail` and whitespace follow. */
  function Quoted(s: string, head: string, tail: string): Option<string> {
    if !StartsWith(s, head) then None
    else
      var q := Find(s, "\"", |head|);
      if q <= |head| then None
      else if StartsWith(s[q + 1..], tail) && Blank(s[q + 1 + |tail|..]) then Some(s[|head|..q])
      else None
  }

  /** The key of a section header as the reader's pattern recognises it. */
  function HeaderKey(line: string): Option<string> {
    Quoted(line, PLAIN_HEAD, "]")
  }

  /** The key of a header with a blank before the quoted key, known to the writer only. */
  function SpacedKey(line: string): Option<string> {
    Quoted(line, SPACED_HEAD, "]")
  }

  function SkipSpace(s: string): (r: string)
    ensures |r| <= |s|
  {
    if s != "" && IsSpace(s[0]) then SkipSpace(s[1..]) else s
  }

  /** The value of a `trusted_hash = "..."` line. */
  function HashOf(line: string): Option<string> {
    if !StartsWith(line, HASH_NAME) then None
    else
      var a := SkipSpace(line[|HASH_NAME|..]);
      if a == "" || a[0] != '=' then None else Quoted(SkipSpace(a[1..]), "\"", "")
  }

  predicate OpensSection(line: string) {
    StartsWith(line, "[")
  }

  /** The first hash before the next section. */
  function SectionHash(ls: seq<string>): Option<string> {
    if ls == [] || OpensSection(ls[0]) then None
    else if HashOf(ls[0]).Some? then HashOf(ls[0])
    else SectionHash(ls[1..])
  }

  function SectionEntry(ls: seq<string>): map<string, string> {
    if ls != [] && HeaderKey(ls[0]).Some? && SectionHash(ls[1..]).Some?
    then map[HeaderKey(ls[0]).value := SectionHash(ls[1..]).value] else map[]
  }

  /** Key to hash over all sections; a later section of a key overrides. */
  function ReadLines(ls: seq<string>): map<string, string> {
    if ls == [] then map[] else SectionEntry(ls) + ReadLines(ls[1..])
  }

  function Read(text: string): map<string, string> {
    ReadLines(Lines(text))
  }

  lemma ReadStep(hashes: map<string, string>, ls: seq<string>, i: nat, header: Option<string>, hash: Option<string>)
    requires i < |ls| && header == HeaderKey(ls[i]) && hash == SectionHash(ls[i + 1..])
    ensures hashes + ReadLines(ls[i..]) ==
      (if header.Some? && hash.Some? then hashes + map[header.value := hash.value] else hashes) + ReadLines(ls[i + 1..])
  {
    assert ls[i..][1..] == ls[i + 1..];
    MapUnionAssociates(hashes, SectionEntry(ls[i..]), ReadLines(ls[i + 1..]));
    assert hashes + map[] == hashes;
  }

  /** `trusted_hashes`. */
  method TrustedHashes(text: string) returns (hashes: map<string, string>)
    ensures hashes == Read(text)
  {
    var ls := Lines(text);
    hashes := map[];
    assert ls[0..] == ls;
    for i := 0 to |ls|
      invariant hashes + ReadLines(ls[i..]) == Read(text)
    {
      var header := HeaderKey(ls[i]);
      ReadStep(hashes, ls, i, header, SectionHash(ls[i + 1..]));
      if header.Some? {
        var hash := SearchSection(ls[i + 1..]);
        if hash.Some? { hashes := hashes + map[header.value := hash.value]; }
      }
    }
  }

  method SearchSection(ls: seq<string>) returns (hash: Option<string>)
    ensures hash == SectionHash(ls)
  {
    var j := 0;
    assert ls[0..] == ls;
    while j < |ls| && !OpensSection(ls[j])
      invariant j <= |ls| && SectionHash(ls[j..]) == SectionHash(ls)
    {
      assert ls[j..][1..] == ls[j + 1..];
      if HashOf(ls[j]).Some? { return HashOf(ls[j]); }
      j := j + 1;
    }
    return None;
  }

  // ----- writing

  function HeaderLine(key: string): string {
    PLAIN_HEAD + key + "\"]"
  }

  function HashLine(hash: string): string {
    "trusted_hash = \"" + hash + "\""
  }

  /** `[hooks.state."KEY"]`, the hash, and a blank line. */
  function Block(key: string, hash: string): string {
    HeaderLine(key) + "\n" + (HashLine(hash) + "\n" + "\n")
  }

  /** The line of the key's header - a spaced one first - or the number of lines. */
  function HeaderIndex(ls: seq<string>, key: string): (i: nat)
    ensures i <= |ls|
    ensures i < |ls| ==> SpacedKey(ls[i]) == Some(key) || HeaderKey(ls[i]) == Some(key)
    ensures i == |ls| ==> forall j :: 0 <= j < |ls| ==> SpacedKey(ls[j]) != Some(key) && HeaderKey(ls[j]) != Some(key)
  {
    var spaced := FirstWhere(ls, HasSpaced(key));
    if spaced < |ls| then spaced else FirstWhere(ls, HasHeader(key))
  }

  function HasSpaced(key: string): string -> bool {
    line => SpacedKey(line) == Some(key)
  }

  function HasHeader(key: string): string -> bool {
    line => HeaderKey(line) == Some(key)
  }

  /** The line that opens the section after line `i`, or the number of lines. */
  function NextSection(ls: seq<string>, i: nat): (j: nat)
    requires i < |ls|
    ensures i < j <= |ls| && (j < |ls| ==> OpensSection(ls[j]))
    ensures forall k :: i < k < j ==> !OpensSection(ls[k])
  {
    i + 1 + FirstWhere(ls[i + 1..], OpensSection)
  }

  /** `_state_section_bounds`: offsets of the section's first character and of the
      character after its last. */
  function SectionBounds(content: string, key: string): (bounds: Option<(nat, nat)>)
    ensures bounds.Some? ==> bounds.value.0 <= bounds.value.1 <= |content|
  {
    var ls := Lines(content);
    var i := HeaderIndex(ls, key);
    if i == |ls| then None
    else
      OffsetsOrdered(content, i, NextSection(ls, i));
      Some((Offset(ls, i), EndOffset(content, NextSection(ls, i))))
  }

  /** `content` ended so that a new section can follow it. */
  function Prepared(content: string): string {
    WithBlankLine(WithStateTable(WithLineBreak(content)))
  }

  function WithLineBreak(content: string): string {
    if content != "" && !EndsWith(content, "\n") then content + "\n" else content
  }

  function WithStateTable(content: string): string {
    if !Contains(content, STATE_TABLE) then content + "\n" + STATE_TABLE + "\n" else content
  }

  function WithBlankLine(content: string): string {
    if content != "" && !EndsWith(content, "\n\n") then content + "\n" else content
  }

  /** The body of the loop of `upsert_trusted_hashes`. */
  function Upsert(content: string, key: string, hash: string): string {
    var bounds := SectionBounds(content, key);
    if bounds.None? then Prepared(content) + Block(key, hash)
    else
      var (start, end) := bounds.value;
      content[..start] + Block(key, hash) + LStripNewlines(content[end..])
  }

  function UpsertAll(content: string, items: seq<(string, string)>): string
    decreases |items|
  {
    if items == [] then content else UpsertAll(Upsert(content, items[0].0, items[0].1), items[1..])
  }

  function Overridden(m: map<string, string>, items: seq<(string, string)>): map<string, string>
    decreases |items|
  {
    if items == [] then m else Overridden(m[items[0].0 := items[0].1], items[1..])
  }

  // ----- texts the theorems are about

  /** Text that can stand between the quotes of a header or a value. */
  predicate Quotable(s: string) {
    s != "" && '"' !in s && OneLine(s)
  }

  function AnyKey(line: string): Option<string> {
    if HeaderKey(line).Some? then HeaderKey(line) else SpacedKey(line)
  }

  /** No key has two headers, in either spelling: TOML v1.0.0, section "Table",
      forbids defining a table twice. */
  ghost predicate UniqueHeaders(ls: seq<string>) {
    UniqueBy(AnyKey, ls)
  }

  ghost predicate UniqueBy(keyOf: string -> Option<string>, ls: seq<string>) {
    forall i, j :: 0 <= i < j < |ls| && keyOf(ls[i]).Some? ==> keyOf(ls[i]) != keyOf(ls[j])
  }

  ghost predicate WellFormed(text: string) {
    UniqueHeaders(Lines(text))
  }

  // ----- reading pieces

  lemma {:induction false} SectionHashAppend(a: seq<string>, b: seq<string>)
    requires b == [] || OpensSection(b[0])
    ensures SectionHash(a + b) == SectionHash(a)
    decreases |a|
  {
    if a == [] {
      assert a + b == b;
    } else {
      assert (a + b)[1..] == a[1..] + b;
      SectionHashAppend(a[1..], b);
    }
  }

  /** Reading splits where a section opens. */
  lemma {:induction false} ReadAppend(a: seq<string>, b: seq<string>)
    requires b == [] || OpensSection(b[0])
    ensures ReadLines(a + b) == ReadLines(a) + ReadLines(b)
    decreases |a|
  {
    if a == [] {
      assert a + b == b;
      assert map[] + ReadLines(b) == ReadLines(b);
    } else {
      assert (a + b)[1..] == a[1..] + b;
      SectionHashAppend(a[1..], b);
      ReadAppend(a[1..], b);
      assert SectionEntry(a + b) == SectionEntry(a);
      MapUnionAssociates(SectionEntry(a), ReadLines(a[1..]), ReadLines(b));
    }
  }

  lemma MapUnionAssociates(a: map<string, string>, b: map<string, string>, c: map<string, string>)
    ensures a + (b + c) == a + b + c
  {
  }

  /** Lines that neither open a section nor hold a hash. */
  predicate Inert(ls: seq<string>) {
    forall i :: 0 <= i < |ls| ==> !OpensSection(ls[i]) && HashOf(ls[i]) == None
  }

  lemma HeaderOpens(line: string)
    ensures AnyKey(line).Some? ==> OpensSection(line)
  {
    if AnyKey(line).Some? { assert line[0] == '['; }
  }

  lemma {:induction false} InertRead(ls: seq<string>)
    requires Inert(ls)
    ensures ReadLines(ls) == map[] && SectionHash(ls) == None
    decreases |ls|
  {
    if ls != [] {
      assert Inert(ls[1..]);
      InertRead(ls[1..]);
      HeaderOpens(ls[0]);
    }
  }

  lemma {:induction false} SectionHashInert(a: seq<string>, b: seq<string>)
    requires Inert(b)
    ensures SectionHash(a + b) == SectionHash(a)
    decreases |a|
  {
    if a == [] {
      assert a + b == b;
      InertRead(b);
    } else {
      assert (a + b)[1..] == a[1..] + b;
      SectionHashInert(a[1..], b);
    }
  }

  lemma {:induction false} ReadInert(a: seq<string>, b: seq<string>)
    requires Inert(b)
    ensures ReadLines(a + b) == ReadLines(a)
    decreases |a|
  {
    if a == [] {
      assert a + b == b;
      InertRead(b);
    } else {
      assert (a + b)[1..] == a[1..] + b;
      SectionHashInert(a[1..], b);
      ReadInert(a[1..], b);
      assert SectionEntry(a + b) == SectionEntry(a);
    }
  }

  lemma QuotedIs(s: string, head: string, value: string, tail: string)
    requires Quotable(value) && s == head + value + "\"" + tail
    ensures Quoted(s, head, tail) == Some(value)
  {
    var q := |head| + |value|;
    assert s[q..q + 1] == "\"";
    forall j | |head| <= j < q ensures !OccursAt(s, "\"", j) {
      assert s[j..j + 1][0] == value[j - |head|];
    }
    FindIs(s, "\"", |head|, q);
    assert s[q + 1..] == tail && s[|head|..q] == value;
    assert s[q + 1 + |tail|..] == "";
  }

  function BlockOf(key: string, hash: string): seq<string> {
    [HeaderLine(key), HashLine(hash), ""]
  }

  lemma HeaderLineReads(key: string)
    requires Quotable(key)
    ensures HeaderKey(HeaderLine(key)) == Some(key) && OpensSection(HeaderLine(key)) && OneLine(HeaderLine(key))
  {
    assert HeaderLine(key) == PLAIN_HEAD + key + "\"" + "]";
    QuotedIs(HeaderLine(key), PLAIN_HEAD, key, "]");
    HeaderOpens(HeaderLine(key));
  }

  /** A written header is recognised exactly for keys without a double quote. */
  lemma HeaderReadable(key: string)
    requires OneLine(key)
    ensures HeaderKey(HeaderLine(key)) == Some(key) <==> Quotable(key)
  {
    var line := HeaderLine(key);
    if Quotable(key) {
      HeaderLineReads(key);
    } else if key != "" {
      var i :| 0 <= i < |key| && key[i] == '"';
      assert line[|PLAIN_HEAD| + i..|PLAIN_HEAD| + i + 1] == "\"";
      assert OccursAt(line, "\"", |PLAIN_HEAD| + i);
      assert Find(line, "\"", |PLAIN_HEAD|) <= |PLAIN_HEAD| + i;
    }
  }

  lemma SkipOneSpace(rest: string)
    requires rest != "" && !IsSpace(rest[0])
    ensures SkipSpace(" " + rest) == rest
  {
    assert (" " + rest)[1..] == rest;
  }

  lemma AssignmentReads(line: string, value: string)
    requires line == HASH_NAME + (" " + ("=" + (" " + value))) && value != "" && !IsSpace(value[0])
    ensures HashOf(line) == Quoted(value, "\"", "")
  {
    var assignment := "=" + (" " + value);
    assert line[..|HASH_NAME|] == HASH_NAME && line[|HASH_NAME|..] == " " + assignment;
    SkipOneSpace(assignment);
    assert assignment[1..] == " " + value;
    SkipOneSpace(value);
  }

  lemma HashLineParts(hash: string)
    ensures HashLine(hash) == HASH_NAME + (" " + ("=" + (" " + ("\"" + hash + "\""))))
  {
    assert "trusted_hash = \"" == HASH_NAME + " = \"";
    assert " = \"" + hash + "\"" == " " + ("=" + (" " + ("\"" + hash + "\"")));
  }

  lemma HashLineReads(hash: string)
    requires Quotable(hash)
    ensures HashOf(HashLine(hash)) == Some(hash) && !OpensSection(HashLine(hash)) && OneLine(HashLine(hash))
  {
    var value := "\"" + hash + "\"";
    HashLineParts(hash);
    AssignmentReads(HashLine(hash), value);
    assert value == "\"" + hash + "\"" + "";
    QuotedIs(value, "\"", hash, "");
    assert HashLine(hash)[0] == 't';
  }

  lemma BlockIsLines(key: string, hash: string)
    requires Quotable(key) && Quotable(hash)
    ensures AllLines(BlockOf(key, hash)) && Block(key, hash) == Unlines(BlockOf(key, hash))
  {
    HeaderLineReads(key);
    HashLineReads(hash);
    var ls := BlockOf(key, hash);
    assert ls[1..] == [HashLine(hash), ""] && ls[1..][1..] == [""] && [""][1..] == [];
    assert Unlines([""]) == "\n";
  }

  /** A written block reads back as its key and hash. */
  lemma BlockReads(key: string, hash: string)
    requires Quotable(key) && Quotable(hash)
    ensures ReadLines(BlockOf(key, hash)) == map[key := hash]
    ensures OpensSection(BlockOf(key, hash)[0]) && AnyKey(BlockOf(key, hash)[0]) == Some(key)
    ensures forall i :: 0 < i < 3 ==> AnyKey(BlockOf(key, hash)[i]) == None
  {
    HeaderLineReads(key);
    HashLineReads(hash);
    var ls := BlockOf(key, hash);
    assert ls[1..] == [HashLine(hash), ""];
    assert ls[1..][1..] == [""];
    HeaderOpens(HashLine(hash));
    HeaderOpens("");
    assert Inert([""]);
    InertRead([""]);
  }

  // ----- which keys a text has headers for

  ghost predicate HasKey(ls: seq<string>, key: string) {
    HasKeyBy(AnyKey, ls, key)
  }

  ghost predicate HasKeyBy(keyOf: string -> Option<string>, ls: seq<string>, key: string) {
    exists i :: 0 <= i < |ls| && keyOf(ls[i]) == Some(key)
  }

  lemma {:induction false} ReadKeysHaveHeaders(ls: seq<string>, key: string)
    requires key in ReadLines(ls)
    ensures HasKey(ls, key)
    decreases |ls|
  {
    if key in ReadLines(ls[1..]) {
      ReadKeysHaveHeaders(ls[1..], key);
      var i :| 0 <= i < |ls[1..]| && AnyKey(ls[1..][i]) == Some(key);
      assert ls[i + 1] == ls[1..][i];
    }
  }

  lemma HasKeyConcat(keyOf: string -> Option<string>, a: seq<string>, b: seq<string>, key: string)
    ensures HasKeyBy(keyOf, a + b, key) <==> HasKeyBy(keyOf, a, key) || HasKeyBy(keyOf, b, key)
  {
    var ls := a + b;
    if i :| 0 <= i < |a| && keyOf(a[i]) == Some(key) { assert ls[i] == a[i]; }
    if i :| 0 <= i < |b| && keyOf(b[i]) == Some(key) { assert ls[|a| + i] == b[i]; }
    if i :| 0 <= i < |ls| && keyOf(ls[i]) == Some(key) {
      assert if i < |a| then keyOf(a[i]) == Some(key) else keyOf(b[i - |a|]) == Some(key);
    }
  }

  lemma UniqueParts(keyOf: string -> Option<string>, a: seq<string>, b: seq<string>)
    requires UniqueBy(keyOf, a + b)
    ensures UniqueBy(keyOf, a) && UniqueBy(keyOf, b)
    ensures forall key :: !(HasKeyBy(keyOf, a, key) && HasKeyBy(keyOf, b, key))
  {
    var ls := a + b;
    forall i, j | 0 <= i < j < |b| && keyOf(b[i]).Some? ensures keyOf(b[i]) != keyOf(b[j]) {
      assert ls[|a| + i] == b[i] && ls[|a| + j] == b[j];
    }
    forall i, j | 0 <= i < j < |a| && keyOf(a[i]).Some? ensures keyOf(a[i]) != keyOf(a[j]) {
      assert ls[i] == a[i] && ls[j] == a[j];
    }
    forall key, i, j | 0 <= i < |a| && 0 <= j < |b| && keyOf(a[i]) == Some(key)
      ensures keyOf(b[j]) != Some(key)
    {
      assert ls[i] == a[i] && ls[|a| + j] == b[j];
    }
  }

  lemma UniqueConcat(keyOf: string -> Option<string>, a: seq<string>, b: seq<string>)
    ensures UniqueBy(keyOf, a + b) <==>
      UniqueBy(keyOf, a) && UniqueBy(keyOf, b) && forall key :: !(HasKeyBy(keyOf, a, key) && HasKeyBy(keyOf, b, key))
  {
    var ls := a + b;
    assert forall i :: 0 <= i < |a| ==> ls[i] == a[i];
    assert forall i :: 0 <= i < |b| ==> ls[|a| + i] == b[i];
    if UniqueBy(keyOf, ls) {
      UniqueParts(keyOf, a, b);
    } else {
      var i, j :| 0 <= i < j < |ls| && keyOf(ls[i]).Some? && keyOf(ls[i]) == keyOf(ls[j]);
      var key := keyOf(ls[i]).value;
      if i < |a| <= j {
        assert keyOf(b[j - |a|]) == Some(key);
        assert HasKeyBy(keyOf, a, key) && HasKeyBy(keyOf, b, key);
      } else if |a| <= i {
        assert keyOf(b[i - |a|]) == keyOf(b[j - |a|]);
      }
    }
  }

  /** A piece exchanged for another with the same key leaves keys unique. */
  lemma UniqueExchanged(keyOf: string -> Option<string>, a: seq<string>, s: seq<string>, t: seq<string>,
                        c: seq<string>, key: string)
    requires UniqueBy(keyOf, a + (s + c)) && UniqueBy(keyOf, t)
    requires HasKeyBy(keyOf, s, key) && forall k :: HasKeyBy(keyOf, t, k) ==> k == key
    ensures UniqueBy(keyOf, a + (t + c))
    ensures !HasKeyBy(keyOf, a, key) && !HasKeyBy(keyOf, c, key)
  {
    UniqueConcat(keyOf, a, s + c);
    UniqueConcat(keyOf, s, c);
    HasKeyConcat(keyOf, s, c, key);
    UniqueConcat(keyOf, t, c);
    forall k ensures !(HasKeyBy(keyOf, a, k) && HasKeyBy(keyOf, t + c, k)) {
      HasKeyConcat(keyOf, t, c, k);
      HasKeyConcat(keyOf, s, c, k);
    }
    UniqueConcat(keyOf, a, t + c);
  }

  /** Lines without headers may follow any text with unique headers. */
  lemma UniqueWithoutKeys(keyOf: string -> Option<string>, a: seq<string>, b: seq<string>)
    requires forall i :: 0 <= i < |b| ==> keyOf(b[i]) == None
    ensures UniqueBy(keyOf, a + b) <==> UniqueBy(keyOf, a)
    ensures forall key :: HasKeyBy(keyOf, a + b, key) <==> HasKeyBy(keyOf, a, key)
  {
    UniqueConcat(keyOf, a, b);
    forall key ensures HasKeyBy(keyOf, a + b, key) <==> HasKeyBy(keyOf, a, key) {
      HasKeyConcat(keyOf, a, b, key);
    }
  }

  // ----- the effect of one update

  lemma ReadThree(a: seq<string>, s: seq<string>, c: seq<string>)
    requires s != [] && OpensSection(s[0]) && (c == [] || OpensSection(c[0]))
    ensures ReadLines(a + (s + c)) == ReadLines(a) + (ReadLines(s) + ReadLines(c))
  {
    ReadAppend(a, s + c);
    ReadAppend(s, c);
  }

  lemma MapReplaced(a: map<string, string>, s: map<string, string>, c: map<string, string>, key: string, hash: string)
    requires key !in a && key !in c && forall k :: k in s ==> k == key
    ensures a + (map[key := hash] + c) == (a + (s + c))[key := hash]
  {
  }

  /** The lines of a written block, and all that is needed to know about them. */
  lemma WrittenBlock(key: string, hash: string) returns (block: seq<string>)
    requires Quotable(key) && Quotable(hash)
    ensures block != [] && AllLines(block) && Block(key, hash) == Unlines(block)
    ensures OpensSection(block[0]) && ReadLines(block) == map[key := hash]
    ensures UniqueBy(AnyKey, block) && forall k :: HasKeyBy(AnyKey, block, k) ==> k == key
  {
    block := BlockOf(key, hash);
    BlockReads(key, hash);
    BlockIsLines(key, hash);
  }

  /** Replacing the lines of one section. */
  lemma ReadReplaced(a: seq<string>, s: seq<string>, c: seq<string>, block: seq<string>, key: string, hash: string)
    requires UniqueHeaders(a + (s + c))
    requires s != [] && AnyKey(s[0]) == Some(key) && forall i :: 1 <= i < |s| ==> !OpensSection(s[i])
    requires c == [] || OpensSection(c[0])
    requires block != [] && OpensSection(block[0]) && ReadLines(block) == map[key := hash]
    requires UniqueBy(AnyKey, block) && forall k :: HasKeyBy(AnyKey, block, k) ==> k == key
    ensures ReadLines(a + (block + c)) == ReadLines(a + (s + c))[key := hash]
    ensures UniqueHeaders(a + (block + c))
  {
    HeaderOpens(s[0]);
    ReadThree(a, s, c);
    ReadThree(a, block, c);
    SectionReads(s, key);
    assert HasKeyBy(AnyKey, s, key);
    UniqueExchanged(AnyKey, a, s, block, c, key);
    if key in ReadLines(a) { ReadKeysHaveHeaders(a, key); }
    if key in ReadLines(c) { ReadKeysHaveHeaders(c, key); }
    MapReplaced(ReadLines(a), ReadLines(s), ReadLines(c), key, hash);
  }

  lemma SectionReads(s: seq<string>, key: string)
    requires s != [] && AnyKey(s[0]) == Some(key) && forall i :: 1 <= i < |s| ==> !OpensSection(s[i])
    ensures forall k :: k in ReadLines(s) ==> k == key
  {
    forall k | k in ReadLines(s) ensures k == key {
      ReadKeysHaveHeaders(s, k);
      var i :| 0 <= i < |s| && AnyKey(s[i]) == Some(k);
      HeaderOpens(s[i]);
    }
  }

  /** A block added behind a text with unique headers. */
  lemma ReadAdded(a: seq<string>, block: seq<string>, key: string, hash: string)
    requires UniqueBy(AnyKey, a) && !HasKeyBy(AnyKey, a, key)
    requires block != [] && OpensSection(block[0]) && ReadLines(block) == map[key := hash]
    requires UniqueBy(AnyKey, block) && forall k :: HasKeyBy(AnyKey, block, k) ==> k == key
    ensures ReadLines(a + block) == ReadLines(a)[key := hash]
    ensures UniqueBy(AnyKey, a + block)
  {
    ReadAppend(a, block);
    MapOverridden(ReadLines(a), key, hash);
    UniqueBehind(AnyKey, a, block, key);
  }

  lemma MapOverridden(m: map<string, string>, key: string, hash: string)
    ensures m + map[key := hash] == m[key := hash]
  {
  }

  lemma UniqueBehind(keyOf: string -> Option<string>, a: seq<string>, block: seq<string>, key: string)
    requires UniqueBy(keyOf, a) && !HasKeyBy(keyOf, a, key)
    requires UniqueBy(keyOf, block) && forall k :: HasKeyBy(keyOf, block, k) ==> k == key
    ensures UniqueBy(keyOf, a + block)
  {
    UniqueConcat(keyOf, a, block);
  }

  /** The same headers, each at most once, and the same hashes. */
  ghost predicate SameSections(a: seq<string>, b: seq<string>) {
    ReadLines(a) == ReadLines(b) && (UniqueHeaders(a) <==> UniqueHeaders(b))
    && forall key :: HasKey(a, key) <==> HasKey(b, key)
  }

  /** An empty last line changes neither what is read nor which keys have headers. */
  lemma EmptyLast(a: seq<string>)
    ensures SameSections(a + [""], a)
  {
    HeaderOpens("");
    assert Inert([""]);
    ReadInert(a, [""]);
    UniqueWithoutKeys(AnyKey, a, [""]);
  }

  /** Complete lines: text that is empty or ends in a line break, as its lines. */
  ghost predicate IsLines(text: string, ls: seq<string>) {
    AllLines(ls) && text == Unlines(ls)
  }

  lemma IsLinesReads(text: string, ls: seq<string>)
    requires IsLines(text, ls)
    ensures Lines(text) == ls + [""] && Read(text) == ReadLines(ls)
    ensures WellFormed(text) <==> UniqueHeaders(ls)
    ensures forall key :: HasKey(Lines(text), key) <==> HasKey(ls, key)
  {
    LinesOfUnlines(ls, "");
    assert Unlines(ls) + "" == Unlines(ls);
    EmptyLast(ls);
  }

  lemma AppendLine(text: string, ls: seq<string>, l: string)
    requires IsLines(text, ls) && OneLine(l)
    ensures IsLines(text + l + "\n", ls + [l])
  {
    UnlinesConcat(ls, [l]);
    assert [l][1..] == [];
    assert Unlines([l]) == l + "\n" + "";
    assert text + (l + "\n" + "") == text + l + "\n";
  }

  /** The lines of a text, the last one completed when there is any text. */
  lemma LineBreakReads(content: string) returns (ls: seq<string>)
    ensures IsLines(WithLineBreak(content), ls) && SameSections(ls, Lines(content))
  {
    if content != "" && !EndsWith(content, "\n") {
      ls := Lines(content);
      LastLine(content);
      var k := |ls| - 1;
      AppendLine(Unlines(ls[..k]), ls[..k], ls[k]);
      assert ls[..k] + [ls[k]] == ls;
    } else {
      CompleteLines(content);
      var all := Lines(content);
      ls := all[..|all| - 1];
      assert all == ls + [""];
      EmptyLast(ls);
    }
  }

  lemma StateTableLine()
    ensures OneLine(STATE_TABLE) && OpensSection(STATE_TABLE) && AnyKey(STATE_TABLE) == None
    ensures ReadLines([STATE_TABLE]) == map[]
  {
    assert STATE_TABLE[12] == ']' && PLAIN_HEAD[12] == '.' && SPACED_HEAD[12] == '.';
    assert [STATE_TABLE][1..] == [];
  }

  lemma StateTableLast(ls: seq<string>)
    ensures SameSections(ls + [STATE_TABLE], ls)
  {
    StateTableLine();
    ReadAppend(ls, [STATE_TABLE]);
    assert ReadLines(ls) + map[] == ReadLines(ls);
    UniqueWithoutKeys(AnyKey, ls, [STATE_TABLE]);
  }

  lemma StateTableReads(text: string, ls: seq<string>) returns (more: seq<string>)
    requires IsLines(text, ls)
    ensures IsLines(WithStateTable(text), more) && SameSections(more, ls)
  {
    more := ls;
    if !Contains(text, STATE_TABLE) {
      more := ls + [""] + [STATE_TABLE];
      EmptyLast(ls);
      StateTableLast(ls + [""]);
      StateTableLine();
      AppendLine(text, ls, "");
      AppendLine(text + "" + "\n", ls + [""], STATE_TABLE);
      assert text + "" + "\n" == text + "\n";
    }
  }

  lemma BlankLineReads(text: string, ls: seq<string>) returns (more: seq<string>)
    requires IsLines(text, ls)
    ensures IsLines(WithBlankLine(text), more) && SameSections(more, ls)
  {
    more := ls;
    if text != "" && !EndsWith(text, "\n\n") {
      more := ls + [""];
      EmptyLast(ls);
      AppendLine(text, ls, "");
      assert text + "" + "\n" == text + "\n";
    }
  }

  lemma PreparedReads(content: string) returns (ls: seq<string>)
    ensures IsLines(Prepared(content), ls) && SameSections(ls, Lines(content))
  {
    var first := LineBreakReads(content);
    var second := StateTableReads(WithLineBreak(content), first);
    ls := BlankLineReads(WithStateTable(WithLineBreak(content)), second);
  }

  lemma UpsertNew(content: string, key: string, hash: string)
    requires WellFormed(content) && Quotable(key) && Quotable(hash) && SectionBounds(content, key) == None
    ensures Read(Upsert(content, key, hash)) == Read(content)[key := hash] && WellFormed(Upsert(content, key, hash))
  {
    var ls := PreparedReads(content);
    assert HeaderIndex(Lines(content), key) == |Lines(content)|;
    assert !HasKey(ls, key);
    AppendBlock(Prepared(content), ls, key, hash);
  }

  lemma AppendBlock(text: string, ls: seq<string>, key: string, hash: string)
    requires IsLines(text, ls) && UniqueHeaders(ls) && !HasKey(ls, key) && Quotable(key) && Quotable(hash)
    ensures Read(text + Block(key, hash)) == ReadLines(ls)[key := hash] && WellFormed(text + Block(key, hash))
  {
    var block := WrittenBlock(key, hash);
    ReadAdded(ls, block, key, hash);
    UnlinesConcat(ls, block);
    IsLinesReads(text + Block(key, hash), ls + block);
  }

  /** An updated section: the lines before it, the block, the lines after it. */
  lemma UpsertShape(content: string, key: string, hash: string, i: nat, j: nat)
    requires var ls := Lines(content); i == HeaderIndex(ls, key) < |ls| && j == NextSection(ls, i)
    ensures var ls := Lines(content);
      Upsert(content, key, hash) == Unlines(ls[..i]) + Block(key, hash) + (if j == |ls| then "" else Join(ls[j..]))
  {
    var ls := Lines(content);
    LineOffset(content, i);
    if j < |ls| {
      LineOffset(content, j);
      assert Join(ls[j..])[0] == ls[j][0];
      assert LStripNewlines(Join(ls[j..])) == Join(ls[j..]);
    } else {
      assert content[|content|..] == "";
    }
  }

  lemma HeadsDiffer(line: string)
    ensures !(StartsWith(line, PLAIN_HEAD) && StartsWith(line, SPACED_HEAD))
  {
    assert PLAIN_HEAD[13] == '"' && SPACED_HEAD[13] == ' ';
    if StartsWith(line, PLAIN_HEAD) { assert line[13] == '"'; }
  }

  lemma SectionHasKey(ls: seq<string>, key: string, i: nat)
    requires i == HeaderIndex(ls, key) < |ls|
    ensures AnyKey(ls[i]) == Some(key)
  {
    HeadsDiffer(ls[i]);
  }

  lemma TextOfParts(text: string, a: seq<string>, block: seq<string>, c: seq<string>)
    requires AllLines(a) && AllLines(block) && AllLines(c) && c != []
    requires text == Unlines(a) + Unlines(block) + Join(c)
    ensures Lines(text) == a + (block + c)
  {
    UnlinesConcat(a, block);
    AllLinesConcat(a, block);
    LinesOfUnlines(a + block, Join(c));
    LinesOfJoin(c);
    Associates(a, block, c);
  }

  lemma AllLinesConcat(a: seq<string>, b: seq<string>)
    requires AllLines(a) && AllLines(b)
    ensures AllLines(a + b)
  {
  }

  lemma TextOfLastParts(text: string, a: seq<string>, block: seq<string>)
    requires AllLines(a) && AllLines(block)
    requires text == Unlines(a) + Unlines(block) + ""
    ensures Read(text) == ReadLines(a + (block + []))
    ensures WellFormed(text) <==> UniqueHeaders(a + (block + []))
  {
    UnlinesConcat(a, block);
    assert a + (block + []) == a + block;
    IsLinesReads(text, a + block);
  }

  lemma SectionBody(ls: seq<string>, i: nat, j: nat)
    requires i < j <= |ls| && forall k :: i < k < j ==> !OpensSection(ls[k])
    ensures forall k :: 1 <= k < |ls[i..j]| ==> !OpensSection(ls[i..j][k])
  {
    forall k | 1 <= k < |ls[i..j]| ensures !OpensSection(ls[i..j][k]) {
      assert ls[i..j][k] == ls[i + k];
    }
  }

  lemma ExistingReplaced(ls: seq<string>, block: seq<string>, key: string, hash: string, i: nat, j: nat)
    requires UniqueHeaders(ls) && i < j <= |ls| && AnyKey(ls[i]) == Some(key)
    requires (forall k :: i < k < j ==> !OpensSection(ls[k])) && (j < |ls| ==> OpensSection(ls[j]))
    requires block != [] && OpensSection(block[0]) && ReadLines(block) == map[key := hash]
    requires UniqueBy(AnyKey, block) && forall k :: HasKeyBy(AnyKey, block, k) ==> k == key
    ensures ReadLines(ls[..i] + (block + ls[j..])) == ReadLines(ls)[key := hash]
    ensures UniqueHeaders(ls[..i] + (block + ls[j..]))
  {
    SectionBody(ls, i, j);
    ThreeParts(ls, i, j);
    ReadReplaced(ls[..i], ls[i..j], ls[j..], block, key, hash);
  }

  /** A section of the key exists. */
  lemma UpsertExisting(content: string, key: string, hash: string, i: nat, j: nat)
    requires WellFormed(content) && Quotable(key) && Quotable(hash)
    requires var ls := Lines(content); i == HeaderIndex(ls, key) < |ls| && j == NextSection(ls, i)
    ensures Read(Upsert(content, key, hash)) == Read(content)[key := hash] && WellFormed(Upsert(content, key, hash))
  {
    var ls := Lines(content);
    UpsertShape(content, key, hash, i, j);
    SectionHasKey(ls, key, i);
    var block := WrittenBlock(key, hash);
    ExistingReplaced(ls, block, key, hash, i, j);
    LinesAround(content, i, j);
    ReadParts(Upsert(content, key, hash), ls[..i], block, ls[j..]);
  }

  lemma LinesAround(content: string, i: nat, j: nat)
    requires i < j <= |Lines(content)|
    ensures AllLines(Lines(content)[..i]) && AllLines(Lines(content)[j..])
    ensures j == |Lines(content)| <==> Lines(content)[j..] == []
  {
  }

  lemma ReadParts(text: string, a: seq<string>, block: seq<string>, c: seq<string>)
    requires AllLines(a) && AllLines(block) && AllLines(c)
    requires text == Unlines(a) + Unlines(block) + (if c == [] then "" else Join(c))
    ensures Read(text) == ReadLines(a + (block + c))
    ensures WellFormed(text) <==> UniqueHeaders(a + (block + c))
  {
    if c == [] { TextOfLastParts(text, a, block); } else { TextOfParts(text, a, block, c); }
  }

  /** Writing one hash sets exactly that key of what is read back, whether its
      section existed or not, and keeps headers unique. */
  lemma UpsertReads(content: string, key: string, hash: string)
    requires WellFormed(content) && Quotable(key) && Quotable(hash)
    ensures Read(Upsert(content, key, hash)) == Read(content)[key := hash] && WellFormed(Upsert(content, key, hash))
  {
    var ls := Lines(content);
    var i := HeaderIndex(ls, key);
    if i == |ls| {
      UpsertNew(content, key, hash);
    } else {
      var j := NextSection(ls, i);
      UpsertExisting(content, key, hash, i, j);
    }
  }

  /** Reading back after any sequence of updates gives the old map overridden by
      the updates in order. */
  lemma {:induction false} UpsertAllReads(content: string, items: seq<(string, string)>)
    requires WellFormed(content)
    requires forall i :: 0 <= i < |items| ==> Quotable(items[i].0) && Quotable(items[i].1)
    ensures Read(UpsertAll(content, items)) == Overridden(Read(content), items)
    ensures WellFormed(UpsertAll(content, items))
    decreases |items|
  {
    if items != [] {
      UpsertReads(content, items[0].0, items[0].1);
      UpsertAllReads(Upsert(content, items[0].0, items[0].1), items[1..]);
    }
  }
}
