/** Which hook commands belong to the hub: the ownership predicates of
    hook_config.py, over commands read with `Shlex.Tokens`. */
module HookCommands {
  import opened Strings
  import opened Options
  import opened Shlex

  const CURRENT_DIR := "/agent_runtime_kit/hooks"
  const LEGACY_DIR := "/brain/hooks"

  /** A hook script: the hooks directory it is installed from and its file name. */
  datatype Script = Script(dir: string, name: string) {
    function Path(): string {
      dir + "/" + name
    }

    /** The script lies in the hooks directory of some hub checkout. */
    predicate InHub() {
      EndsWith(dir, CURRENT_DIR) && name != "" && Plain(name) && '/' !in name
    }
  }

  /** The same path in the layout used before the directory was renamed. */
  function LegacyPath(path: string): Option<string> {
    var i := Find(path, CURRENT_DIR, 0);
    if i == -1 then None else Some(path[..i] + LEGACY_DIR + path[i + |CURRENT_DIR|..])
  }

  function Aliases(path: string): seq<string> {
    var legacy := LegacyPath(path);
    if legacy.Some? && legacy.value != "" && legacy.value != path then [path, legacy.value] else [path]
  }

  predicate ReferencesPath(command: string, path: string) {
    command == path || path in Tokens(command)
  }

  predicate ReferencesPrefix(command: string, prefix: string) {
    StartsWith(command, prefix) || exists t :: t in Tokens(command) && StartsWith(t, prefix)
  }

  /** The command runs this script, from the current or the legacy layout. */
  predicate ReferencesScript(command: string, script: Script) {
    exists path :: path in Aliases(script.Path()) && ReferencesPath(command, path)
  }

  /** The command runs a script of this name from any hub checkout. */
  predicate ReferencesHubScript(command: string, name: string) {
    exists t :: t in Tokens(command) &&
      (EndsWith(t, CURRENT_DIR + "/" + name) || EndsWith(t, LEGACY_DIR + "/" + name))
  }

  /** The command lies in this hooks directory, current or legacy layout. */
  predicate BelongsToDir(command: string, dir: string) {
    exists prefix :: prefix in Aliases(dir) && ReferencesPrefix(command, prefix)
  }

  // ----- the same predicates as values

  function RunsScript(script: Script): string -> bool {
    command => ReferencesScript(command, script)
  }

  function RunsHubScript(name: string): string -> bool {
    command => ReferencesHubScript(command, name)
  }

  function LiesIn(dir: string): string -> bool {
    command => BelongsToDir(command, dir)
  }

  // ----- how the predicates relate

  lemma SharedCharacter(s: string, pattern: string, i: nat, j: nat, k: nat)
    requires OccursAt(s, pattern, i) && OccursAt(s, pattern, j)
    requires i <= j && j + k < i + |pattern|
    ensures pattern[j - i + k] == pattern[k]
  {
    assert s[i..i + |pattern|][j - i + k] == s[j..j + |pattern|][k];
  }

  /** CURRENT_DIR has no border, so two occurrences never overlap. */
  lemma CurrentDirDoesNotOverlap(s: string, i: nat, j: nat)
    requires i < j && OccursAt(s, CURRENT_DIR, i) && OccursAt(s, CURRENT_DIR, j)
    ensures i + |CURRENT_DIR| <= j
  {
    if j - i < |CURRENT_DIR| {
      SharedCharacter(s, CURRENT_DIR, i, j, 0);
      if j - i == 18 { SharedCharacter(s, CURRENT_DIR, i, j, 1); }
    }
  }

  lemma PlainHubTail(name: string)
    requires Plain(name)
    ensures Plain(CURRENT_DIR + "/" + name) && Plain(LEGACY_DIR + "/" + name)
  {
    assert Plain("/agent_runtime_kit");
    assert CURRENT_DIR == "/agent_runtime_kit" + "/hooks";
    PlainConcat("/agent_runtime_kit", "/hooks");
    assert Plain(LEGACY_DIR) && Plain("/");
    PlainConcat(CURRENT_DIR, "/");
    PlainConcat(LEGACY_DIR, "/");
    PlainConcat(CURRENT_DIR + "/", name);
    PlainConcat(LEGACY_DIR + "/", name);
  }

  /** Replacing an earlier or the final marker keeps a marker before the tail. */
  lemma ReplacedMarker(full: string, marker: string, other: string, tail: string, i: nat, p: nat)
    requires p + |marker| <= |full| && full[p..] == marker + tail
    requires i == p || i + |marker| <= p
    ensures var replaced := full[..i] + other + full[i + |marker|..];
            EndsWith(replaced, marker + tail) || EndsWith(replaced, other + tail)
  {
    var rest := full[i + |marker|..];
    if i == p {
      assert rest == full[p..][|marker|..] == tail;
      assert full[..i] + other + rest == full[..i] + (other + tail);
      EndsWithExtend(other + tail, full[..i], other + tail);
    } else {
      assert rest[p - i - |marker|..] == full[p..];
      EndsWithExtend(rest, full[..i] + other, marker + tail);
    }
  }

  lemma MarkerInPath(script: Script)
    requires script.InHub()
    ensures var full, p := script.Path(), |script.dir| - |CURRENT_DIR|;
            p >= 0 && OccursAt(full, CURRENT_DIR, p) && full[p..] == CURRENT_DIR + ("/" + script.name)
  {
    var full, tail, p := script.Path(), "/" + script.name, |script.dir| - |CURRENT_DIR|;
    assert full == script.dir + tail;
    assert full[p..] == script.dir[p..] + tail;
    assert full[p..p + |CURRENT_DIR|] == script.dir[p..];
  }

  lemma FirstMarkerInPath(script: Script) returns (i: nat, p: nat)
    requires script.InHub()
    ensures i == Find(script.Path(), CURRENT_DIR, 0) && (i == p || i + |CURRENT_DIR| <= p)
    ensures p + |CURRENT_DIR| <= |script.Path()| && script.Path()[p..] == CURRENT_DIR + ("/" + script.name)
  {
    p := |script.dir| - |CURRENT_DIR|;
    MarkerInPath(script);
    i := Find(script.Path(), CURRENT_DIR, 0);
    if i < p { CurrentDirDoesNotOverlap(script.Path(), i, p); }
  }

  /** Every alias of a hub script ends in a hub directory marker and the name. */
  lemma AliasEndsInHub(script: Script, path: string)
    requires script.InHub() && path in Aliases(script.Path())
    ensures EndsWith(path, CURRENT_DIR + ("/" + script.name)) || EndsWith(path, LEGACY_DIR + ("/" + script.name))
  {
    var i, p := FirstMarkerInPath(script);
    if path != script.Path() {
      ReplacedMarker(script.Path(), CURRENT_DIR, LEGACY_DIR, "/" + script.name, i, p);
    }
  }

  /** A command that runs this hub script is recognised as running a hub script
      of that name, however it is quoted: what an installer keeps or updates, it
      also recognises for pruning. */
  lemma ScriptIsHubScript(command: string, script: Script)
    requires script.InHub() && ReferencesScript(command, script)
    ensures ReferencesHubScript(command, script.name)
  {
    var path :| path in Aliases(script.Path()) && ReferencesPath(command, path);
    AliasEndsInHub(script, path);
    assert CURRENT_DIR + "/" + script.name == CURRENT_DIR + ("/" + script.name);
    assert LEGACY_DIR + "/" + script.name == LEGACY_DIR + ("/" + script.name);
    var tail := if EndsWith(path, CURRENT_DIR + "/" + script.name)
      then CURRENT_DIR + "/" + script.name else LEGACY_DIR + "/" + script.name;
    if path !in Tokens(command) {
      PlainHubTail(script.name);
      PlainTailIsTokenTail(command, tail);
      var i :| 0 <= i < |Tokens(command)| && EndsWith(Tokens(command)[i], tail);
      assert Tokens(command)[i] in Tokens(command);
    }
  }

  lemma CommandNamesPath(adapter: string, path: string)
    ensures path in Tokens(AdapterHookCommand(adapter, path))
  {
    HookCommandTokens(adapter, path);
    assert Tokens(AdapterHookCommand(adapter, path))[2] == path;
  }

  /** The canonical command runs the script it was built for, lies in its hooks
      directory, and is recognised as a hub script. */
  lemma CanonicalCommand(adapter: string, script: Script)
    ensures var command := AdapterHookCommand(adapter, script.Path());
      && ReferencesScript(command, script)
      && BelongsToDir(command, script.dir)
      && (script.InHub() ==> ReferencesHubScript(command, script.name))
  {
    var path := script.Path();
    var command := AdapterHookCommand(adapter, path);
    CommandNamesPath(adapter, path);
    assert path == Aliases(path)[0];
    assert ReferencesPath(command, path);
    assert Aliases(script.dir)[0] == script.dir;
    assert StartsWith(path, script.dir);
    assert ReferencesPrefix(command, script.dir);
    if script.InHub() { ScriptIsHubScript(command, script); }
  }
}
