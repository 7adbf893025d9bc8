/** What installing and uninstalling the Codex hook of one event does to the
    event's entries, and the properties of that step. */
module CodexEvent {
  import opened Options
  import opened Shlex
  import opened HookCommands
  import opened HookTables

  /** `Crash` is the exception raised before anything is written. */
  datatype Outcome = Crash | Done(entries: seq<Entry>, changed: bool)

  /** What `install_hooks` sets up for one event: the matcher of its entry, the command
      line of its handler, and what it asks about the command of a handler: does it run
      the script from this checkout, does it run a hub script of this name from any
      checkout, does it lie in this hooks directory. */
  datatype Job = Job(matcher: string, command: string, runs: Test, named: Test, owned: Test) {
    /** What runs the script is recognised by the script's name, and the command of the
        job passes all three tests. */
    ghost predicate Valid() {
      (forall c :: runs(c) ==> named(c)) && runs(command) && named(command) && owned(command)
    }
  }

  function CodexJob(script: Script, matcher: string): Job {
    Job(matcher, AdapterHookCommand("codex", script.Path()),
        RunsScript(script), RunsHubScript(script.name), LiesIn(script.dir))
  }

  /** The command `adapter_hook_command` builds serves the installer. */
  lemma CodexJobIsValid(script: Script, matcher: string)
    requires script.InHub()
    ensures CodexJob(script, matcher).Valid()
  {
    CanonicalCommand("codex", script);
    forall c | RunsScript(script)(c) ensures RunsHubScript(script.name)(c) {
      ScriptIsHubScript(c, script);
    }
  }

  const HOOK_TIMEOUT := 10

  function NewHandler(command: string): Handler {
    Handler(Some("command"), Some(command), Some(HOOK_TIMEOUT), None, false, None, "")
  }

  function NewEntry(matcher: string): Entry {
    Entry(if matcher == "" then None else Some(matcher), HookList([]), "")
  }

  // ----- update_hook_command and the move to the front

  function Updated(h: Handler, job: Job): Handler {
    if Passes(h, job.runs) then h.(command := Some(job.command), timeout := Some(HOOK_TIMEOUT), legacyTimeout := None)
    else h
  }

  function UpdatedAll(hs: seq<Handler>, job: Job): (r: seq<Handler>)
    ensures |r| == |hs|
    ensures forall i :: 0 <= i < |hs| ==> r[i] == Updated(hs[i], job)
  {
    if hs == [] then [] else [Updated(hs[0], job)] + UpdatedAll(hs[1..], job)
  }

  function MovedFirst<T>(s: seq<T>, i: nat): seq<T>
    requires i < |s|
  {
    [s[i]] + s[..i] + s[i + 1..]
  }

  lemma MovedFromFront<T>(s: seq<T>)
    ensures s != [] ==> MovedFirst(s, 0) == s
  {
  }

  /** The target entry's handlers before duplicates are pruned. */
  function Placed(hs: seq<Handler>, job: Job): seq<Handler> {
    var i := FirstRun(hs, job.runs);
    if i < |hs| then MovedFirst(UpdatedAll(hs, job), i) else [NewHandler(job.command)] + hs
  }

  predicate PlacingChanges(hs: seq<Handler>, job: Job) {
    var i := FirstRun(hs, job.runs);
    i == |hs| || i > 0 || UpdatedAll(hs, job) != hs
  }

  // ----- prune_duplicate_hub_hook_handlers with a keep_entry

  /** Handlers kept: in the entry to keep, the first that runs the script; and all
      that run no hub script of that name. */
  function Pruned(hs: seq<Handler>, job: Job, keepOne: bool): seq<Handler> {
    if hs == [] then []
    else if keepOne && Passes(hs[0], job.runs) then [hs[0]] + Pruned(hs[1..], job, false)
    else if Passes(hs[0], job.named) then Pruned(hs[1..], job, keepOne)
    else [hs[0]] + Pruned(hs[1..], job, keepOne)
  }

  /** An entry survives with its kept handlers, and is dropped when none is kept -
      also when it had none to begin with. */
  function KeptEntry(e: Entry, job: Job, keepOne: bool): seq<Entry> {
    if Untouchable(e) then [e]
    else
      var kept := Pruned(Handlers(e), job, keepOne);
      if kept == [] then [] else [e.(hooks := HookList(kept))]
  }

  /** `t` is the position of the entry to keep. */
  function Kept(es: seq<Entry>, job: Job, t: int): seq<Entry> {
    if es == [] then [] else KeptEntry(es[0], job, t == 0) + Kept(es[1..], job, t - 1)
  }

  predicate PruneChanges(es: seq<Entry>, job: Job, t: int) {
    es != [] && (Pruned(Handlers(es[0]), job, t == 0) != Handlers(es[0]) ||
                 PruneChanges(es[1..], job, t - 1))
  }

  function Prune(es: seq<Entry>, job: Job, t: int): seq<Entry> {
    if PruneChanges(es, job, t) then Kept(es, job, t) else es
  }

  // ----- one event of install_hooks

  /** The entries with a target entry for the matcher in place. */
  function WithTarget(es: seq<Entry>, matcher: string): (r: seq<Entry>)
    ensures FirstMatch(es, matcher) < |r| && Matches(r[FirstMatch(es, matcher)], matcher)
  {
    if FirstMatch(es, matcher) < |es| then es else es + [NewEntry(matcher)]
  }

  /** The editors that read the target's handlers raise no error. */
  predicate Usable(target: Entry) {
    target.Entry? && !target.hooks.NotAList? && AllObjects(Handlers(target))
  }

  function InstallEvent(es: seq<Entry>, job: Job): Outcome {
    var t := FirstMatch(es, job.matcher);
    var es1 := WithTarget(es, job.matcher);
    if !Usable(es1[t]) then Crash
    else
      var hs, command := Handlers(es1[t]), job.command;
      var es2 := es1[t := es1[t].(hooks := HookList(Placed(hs, job)))];
      Done(Prune(es2, job, t),
           t == |es| || PlacingChanges(hs, job) || PruneChanges(es2, job, t))
  }

  // ----- one event of uninstall_hooks

  /** `hook_belongs_to` reads handlers until one does not belong; a handler that is
      not an object raises an error there. */
  predicate BelongsScanFails(hs: seq<Handler>, owned: Test) {
    hs != [] && (hs[0].RawHandler? || (Passes(hs[0], owned) && BelongsScanFails(hs[1..], owned)))
  }

  function WithoutOwned(hs: seq<Handler>, owned: Test): seq<Handler> {
    if hs == [] then []
    else (if Passes(hs[0], owned) then [] else [hs[0]]) + WithoutOwned(hs[1..], owned)
  }

  function StrippedEntry(e: Entry, owned: Test): seq<Entry> {
    if Untouchable(e) then [e]
    else
      var kept := WithoutOwned(Handlers(e), owned);
      if kept == [] then [] else [e.(hooks := HookList(kept))]
  }

  function Stripped(es: seq<Entry>, owned: Test): seq<Entry> {
    if es == [] then [] else StrippedEntry(es[0], owned) + Stripped(es[1..], owned)
  }

  function UninstallEvent(es: seq<Entry>, owned: Test): Outcome {
    if exists i :: 0 <= i < |es| && BelongsScanFails(Handlers(es[i]), owned) then Crash
    else Done(Stripped(es, owned), Stripped(es, owned) != es)
  }

  // ----- the state every install reaches

  /** The handler is exactly what the installer writes, up to its other keys. */
  predicate Canonical(h: Handler, job: Job) {
    h.Handler? && h.command == Some(job.command) && h.timeout == Some(HOOK_TIMEOUT)
    && h.legacyTimeout == None
  }

  /** The entry's handlers are objects, and the first is the canonical one. */
  predicate Ready(e: Entry, job: Job) {
    AllObjects(Handlers(e)) && Handlers(e) != [] && Canonical(Handlers(e)[0], job)
  }

  predicate SettledTarget(e: Entry, job: Job) {
    var hs := Handlers(e);
    hs != [] && AllObjects(hs) && Canonical(hs[0], job) && NoneNamed(hs[1..], job.named)
  }

  predicate NoneNamedIn(es: seq<Entry>, named: Test) {
    es == [] || (NoneNamed(Handlers(es[0]), named) && NoneNamedIn(es[1..], named))
  }

  /** The first entry with the matcher starts with the canonical handler, and no
      other handler of the event runs a hub script of that name. */
  predicate Settled(es: seq<Entry>, job: Job) {
    es != [] &&
    if Matches(es[0], job.matcher) then SettledTarget(es[0], job) && NoneNamedIn(es[1..], job.named)
    else NoneNamed(Handlers(es[0]), job.named) && Settled(es[1..], job)
  }

  // ----- lemmas about pruning one list

  lemma {:induction false} PrunedIsClean(hs: seq<Handler>, job: Job)
    ensures NoneNamed(Pruned(hs, job, false), job.named)
    decreases |hs|
  {
    if hs != [] { PrunedIsClean(hs[1..], job); }
  }

  lemma {:induction false} PruneClean(hs: seq<Handler>, job: Job)
    requires NoneNamed(hs, job.named)
    ensures Pruned(hs, job, false) == hs
    decreases |hs|
  {
    if hs != [] { PruneClean(hs[1..], job); }
  }

  lemma {:induction false} PruneKeepsForeign(e: Entry, hs: seq<Handler>, job: Job, keepOne: bool)
    requires e.Entry? && job.Valid()
    ensures ForeignParts(e, Pruned(hs, job, keepOne), job.named) == ForeignParts(e, hs, job.named)
    decreases |hs|
  {
    if hs != [] {
      PruneKeepsForeign(e, hs[1..], job, false);
      PruneKeepsForeign(e, hs[1..], job, keepOne);
      var k := if keepOne && Passes(hs[0], job.runs) then false else keepOne;
      assert ([hs[0]] + Pruned(hs[1..], job, k))[1..] == Pruned(hs[1..], job, k);
    }
  }

  lemma {:induction false} PrunedObjects(hs: seq<Handler>, job: Job, keepOne: bool)
    requires AllObjects(hs)
    ensures AllObjects(Pruned(hs, job, keepOne))
    decreases |hs|
  {
    if hs != [] {
      PrunedObjects(hs[1..], job, false);
      PrunedObjects(hs[1..], job, keepOne);
    }
  }

  lemma CanonicalRuns(h: Handler, job: Job)
    requires Canonical(h, job) && job.Valid()
    ensures Passes(h, job.runs) && Passes(h, job.named) && Passes(h, job.owned)
  {
  }

  // ----- placing

  lemma MovedObjects(hs: seq<Handler>, i: nat)
    requires AllObjects(hs) && i < |hs|
    ensures AllObjects(MovedFirst(hs, i)) && MovedFirst(hs, i)[0] == hs[i]
  {
  }

  lemma PlacedStartsCanonical(hs: seq<Handler>, job: Job)
    requires AllObjects(hs)
    ensures var placed := Placed(hs, job);
            placed != [] && Canonical(placed[0], job) && AllObjects(placed)
  {
    var i := FirstRun(hs, job.runs);
    if i < |hs| { MovedObjects(UpdatedAll(hs, job), i); }
  }

  lemma {:induction false} UpdateKeepsForeign(e: Entry, hs: seq<Handler>, job: Job)
    requires e.Entry? && job.Valid()
    ensures ForeignParts(e, UpdatedAll(hs, job), job.named) ==
            ForeignParts(e, hs, job.named)
    decreases |hs|
  {
    if hs != [] {
      UpdateKeepsForeign(e, hs[1..], job);
      var updated := Updated(hs[0], job);
      assert UpdatedAll(hs, job)[1..] == UpdatedAll(hs[1..], job);
      if Passes(hs[0], job.runs) {
        CanonicalRuns(updated, job);
      }
    }
  }

  lemma NamedIsNotForeign(e: Entry, a: seq<Handler>, h: Handler, b: seq<Handler>, named: Test)
    requires e.Entry? && Passes(h, named)
    ensures ForeignParts(e, a + [h] + b, named) == ForeignParts(e, a + b, named)
  {
    ForeignPartsConcat(e, a, [h] + b, named);
    ForeignPartsConcat(e, [h], b, named);
    ForeignOfNamed(e, [h], named);
    ForeignPartsConcat(e, a, b, named);
    assert a + [h] + b == a + ([h] + b);
  }

  lemma MovingKeepsForeign(e: Entry, us: seq<Handler>, i: nat, named: Test)
    requires e.Entry? && i < |us| && Passes(us[i], named)
    ensures ForeignParts(e, MovedFirst(us, i), named) == ForeignParts(e, us, named)
  {
    var a, h, b := us[..i], us[i], us[i + 1..];
    NamedIsNotForeign(e, a, h, b, named);
    NamedIsNotForeign(e, [], h, a + b, named);
    assert us == a + [h] + b;
    assert MovedFirst(us, i) == [] + [h] + (a + b);
    assert [] + (a + b) == a + b;
  }

  lemma PlacingKeepsForeign(e: Entry, hs: seq<Handler>, job: Job)
    requires e.Entry? && job.Valid()
    ensures ForeignParts(e, Placed(hs, job), job.named) ==
            ForeignParts(e, hs, job.named)
  {
    var command := job.command;
    var i := FirstRun(hs, job.runs);
    if i < |hs| {
      var us := UpdatedAll(hs, job);
      UpdateKeepsForeign(e, hs, job);
      CanonicalRuns(us[i], job);
      MovingKeepsForeign(e, us, i, job.named);
    } else {
      CanonicalRuns(NewHandler(job.command), job);
      NamedIsNotForeign(e, [], NewHandler(job.command), hs, job.named);
      assert [] + [NewHandler(job.command)] + hs == [NewHandler(job.command)] + hs;
      assert [] + hs == hs;
    }
  }

  // ----- pruning a whole event

  lemma {:induction false} KeptNoneNamed(es: seq<Entry>, job: Job, t: int)
    requires t < 0
    ensures NoneNamedIn(Kept(es, job, t), job.named)
    decreases |es|
  {
    if es != [] {
      KeptNoneNamed(es[1..], job, t - 1);
      PrunedIsClean(Handlers(es[0]), job);
      NoneNamedConcat(KeptEntry(es[0], job, false), Kept(es[1..], job, t - 1), job.named);
    }
  }

  lemma NoneNamedConcat(a: seq<Entry>, b: seq<Entry>, named: Test)
    requires |a| <= 1 && (a != [] ==> NoneNamed(Handlers(a[0]), named)) && NoneNamedIn(b, named)
    ensures NoneNamedIn(a + b, named)
  {
    if a == [] { assert a + b == b; } else { assert (a + b)[1..] == b; }
  }

  lemma PruneSettlesTarget(e: Entry, job: Job)
    requires e.Entry? && job.Valid() && Ready(e, job)
    ensures |KeptEntry(e, job, true)| == 1 && SettledTarget(KeptEntry(e, job, true)[0], job)
    ensures KeptEntry(e, job, true)[0].Entry? && KeptEntry(e, job, true)[0].matcher == e.matcher
  {
    var hs := Handlers(e);
    CanonicalRuns(hs[0], job);
    PrunedIsClean(hs[1..], job);
    PrunedObjects(hs, job, true);
    assert Pruned(hs, job, true)[1..] == Pruned(hs[1..], job, false);
  }

  lemma SettledHead(e: Entry, rest: seq<Entry>, job: Job)
    requires Matches(e, job.matcher) && SettledTarget(e, job) && NoneNamedIn(rest, job.named)
    ensures Settled([e] + rest, job)
  {
    assert ([e] + rest)[1..] == rest;
  }

  lemma SettledLater(first: seq<Entry>, rest: seq<Entry>, job: Job)
    requires |first| <= 1 && Settled(rest, job)
    requires first != [] ==> !Matches(first[0], job.matcher) && NoneNamed(Handlers(first[0]), job.named)
    ensures Settled(first + rest, job)
  {
    if first == [] { assert first + rest == rest; } else { assert (first + rest)[1..] == rest; }
  }

  lemma KeptCons(e: Entry, rest: seq<Entry>, job: Job, t: int)
    ensures Kept([e] + rest, job, t) == KeptEntry(e, job, t == 0) + Kept(rest, job, t - 1)
  {
    assert ([e] + rest)[1..] == rest;
  }

  /** Pruning an event whose first matching entry starts canonically settles it. */
  lemma {:induction false} KeptSettles(es: seq<Entry>, job: Job, t: nat)
    requires job.Valid() && t == FirstMatch(es, job.matcher) < |es| && Ready(es[t], job)
    ensures Settled(Kept(es, job, t), job)
    decreases |es|
  {
    var e, rest := es[0], es[1..];
    assert es == [e] + rest;
    KeptCons(e, rest, job, t);
    if t == 0 {
      KeptHeadSettles(e, rest, job);
    } else {
      LaterMatch(es, job.matcher, t);
      KeptSettles(rest, job, t - 1);
      KeptLaterSettles(e, Kept(rest, job, t - 1), job);
    }
  }

  lemma KeptHeadSettles(e: Entry, rest: seq<Entry>, job: Job)
    requires job.Valid() && Matches(e, job.matcher) && Ready(e, job)
    ensures Settled(KeptEntry(e, job, true) + Kept(rest, job, -1), job)
  {
    PruneSettlesTarget(e, job);
    KeptNoneNamed(rest, job, -1);
    var kept := KeptEntry(e, job, true);
    assert kept == [kept[0]];
    SettledHead(kept[0], Kept(rest, job, -1), job);
  }

  lemma KeptLaterSettles(e: Entry, kept: seq<Entry>, job: Job)
    requires !Matches(e, job.matcher) && Settled(kept, job)
    ensures Settled(KeptEntry(e, job, false) + kept, job)
  {
    PrunedIsClean(Handlers(e), job);
    SettledLater(KeptEntry(e, job, false), kept, job);
  }

  /** If there was nothing to prune, the event is settled as it stands. */
  lemma {:induction false} UnprunedSettled(es: seq<Entry>, job: Job, t: nat)
    requires job.Valid() && t == FirstMatch(es, job.matcher) < |es| && Ready(es[t], job)
    requires !PruneChanges(es, job, t)
    ensures Settled(es, job)
    decreases |es|
  {
    if t == 0 {
      UnprunedTarget(es[0], job);
      UnprunedNoneNamed(es[1..], job, -1);
    } else {
      LaterMatch(es, job.matcher, t);
      PrunedIsClean(Handlers(es[0]), job);
      UnprunedSettled(es[1..], job, t - 1);
    }
  }

  lemma LaterMatch(es: seq<Entry>, matcher: string, t: nat)
    requires 0 < t == FirstMatch(es, matcher) < |es|
    ensures !Matches(es[0], matcher) && FirstMatch(es[1..], matcher) == t - 1 && es[1..][t - 1] == es[t]
  {
  }

  lemma UnprunedTarget(e: Entry, job: Job)
    requires e.Entry? && job.Valid() && Ready(e, job)
    requires Pruned(Handlers(e), job, true) == Handlers(e)
    ensures SettledTarget(e, job)
  {
    PruneSettlesTarget(e, job);
    assert KeptEntry(e, job, true) == [e];
  }

  lemma {:induction false} UnprunedNoneNamed(es: seq<Entry>, job: Job, t: int)
    requires t < 0 && !PruneChanges(es, job, t)
    ensures NoneNamedIn(es, job.named)
    decreases |es|
  {
    if es != [] {
      PrunedIsClean(Handlers(es[0]), job);
      UnprunedNoneNamed(es[1..], job, t - 1);
    }
  }

  lemma KeptEntryForeign(e: Entry, job: Job, keepOne: bool)
    requires job.Valid()
    ensures Foreign(KeptEntry(e, job, keepOne), job.named) == ForeignEntry(e, job.named)
  {
    var kept := KeptEntry(e, job, keepOne);
    if !Untouchable(e) {
      PruneKeepsForeign(e, Handlers(e), job, keepOne);
      if kept != [] { SameMetadata(kept[0], e, Pruned(Handlers(e), job, keepOne), job.named); }
    }
    if kept != [] { ForeignOne(kept[0], job.named); }
  }

  lemma {:induction false} PruneKeepsAllForeign(es: seq<Entry>, job: Job, t: int)
    requires job.Valid()
    ensures Foreign(Kept(es, job, t), job.named) == Foreign(es, job.named)
    decreases |es|
  {
    if es != [] {
      PruneKeepsAllForeign(es[1..], job, t - 1);
      KeptEntryForeign(es[0], job, t == 0);
      ForeignConcat(KeptEntry(es[0], job, t == 0), Kept(es[1..], job, t - 1), job.named);
    }
  }

  lemma {:induction false} SameMetadata(a: Entry, b: Entry, hs: seq<Handler>, named: Test)
    requires a.Entry? && b.Entry? && a.matcher == b.matcher && a.rest == b.rest
    ensures ForeignParts(a, hs, named) == ForeignParts(b, hs, named)
    decreases |hs|
  {
    if hs != [] { SameMetadata(a, b, hs[1..], named); }
  }

  // ----- the properties of installing one event

  /** The entries after the target's handlers are placed and before pruning. */
  function PlacedEntries(es: seq<Entry>, job: Job): seq<Entry> {
    var t := FirstMatch(es, job.matcher);
    var es1 := WithTarget(es, job.matcher);
    if es1[t].Entry?
    then es1[t := es1[t].(hooks := HookList(Placed(Handlers(es1[t]), job)))]
    else es1
  }

  lemma {:induction false} FirstMatchUpdate(es: seq<Entry>, matcher: string, e: Entry)
    requires FirstMatch(es, matcher) < |es| && Matches(e, matcher)
    ensures FirstMatch(es[FirstMatch(es, matcher) := e], matcher) == FirstMatch(es, matcher)
    decreases |es|
  {
    var t := FirstMatch(es, matcher);
    if t > 0 {
      assert es[t := e][1..] == es[1..][t - 1 := e];
      FirstMatchUpdate(es[1..], matcher, e);
    }
  }

  lemma {:induction false} FirstMatchAppend(es: seq<Entry>, matcher: string, e: Entry)
    requires FirstMatch(es, matcher) == |es| && Matches(e, matcher)
    ensures FirstMatch(es + [e], matcher) == |es|
    decreases |es|
  {
    if es != [] {
      assert (es + [e])[1..] == es[1..] + [e];
      FirstMatchAppend(es[1..], matcher, e);
    }
  }

  lemma PlacedTarget(es: seq<Entry>, job: Job)
    requires InstallEvent(es, job).Done?
    ensures var t, es2 := FirstMatch(es, job.matcher), PlacedEntries(es, job);
      && t == FirstMatch(es2, job.matcher) < |es2| && Ready(es2[t], job)
  {
    var t, es1 := FirstMatch(es, job.matcher), WithTarget(es, job.matcher);
    if t == |es| { FirstMatchAppend(es, job.matcher, NewEntry(job.matcher)); }
    PlacedStartsCanonical(Handlers(es1[t]), job);
    FirstMatchUpdate(es1, job.matcher, PlacedEntries(es, job)[t]);
  }

  /** Installing settles every event it does not fail on, whatever hub handlers of
      this or other checkouts, legacy layouts or foreign handlers it held. */
  lemma InstallSettles(es: seq<Entry>, job: Job)
    requires job.Valid() && InstallEvent(es, job).Done?
    ensures Settled(InstallEvent(es, job).entries, job)
  {
    var t, es2 := FirstMatch(es, job.matcher), PlacedEntries(es, job);
    PlacedTarget(es, job);
    if PruneChanges(es2, job, t) {
      KeptSettles(es2, job, t);
    } else {
      UnprunedSettled(es2, job, t);
    }
  }

  lemma {:induction false} SettledPosition(es: seq<Entry>, job: Job)
    requires Settled(es, job)
    ensures FirstMatch(es, job.matcher) < |es| && SettledTarget(es[FirstMatch(es, job.matcher)], job)
    decreases |es|
  {
    if !Matches(es[0], job.matcher) { SettledPosition(es[1..], job); }
  }

  lemma {:induction false} UpdateOfClean(hs: seq<Handler>, job: Job)
    requires job.Valid() && NoneNamed(hs, job.named)
    ensures UpdatedAll(hs, job) == hs
    decreases |hs|
  {
    if hs != [] {
      UpdateOfClean(hs[1..], job);
    }
  }

  lemma SettledPlacing(e: Entry, job: Job)
    requires job.Valid() && SettledTarget(e, job)
    ensures Placed(Handlers(e), job) == Handlers(e)
    ensures !PlacingChanges(Handlers(e), job)
    ensures Pruned(Handlers(e), job, true) == Handlers(e)
  {
    var hs := Handlers(e);
    CanonicalRuns(hs[0], job);
    UpdateOfClean(hs[1..], job);
    PruneClean(hs[1..], job);
    assert UpdatedAll(hs, job) == hs;
    assert MovedFirst(hs, 0) == hs;
  }

  lemma {:induction false} CleanUnpruned(es: seq<Entry>, job: Job, t: int)
    requires t < 0 && NoneNamedIn(es, job.named)
    ensures !PruneChanges(es, job, t)
    decreases |es|
  {
    if es != [] {
      PruneClean(Handlers(es[0]), job);
      CleanUnpruned(es[1..], job, t - 1);
    }
  }

  lemma {:induction false} SettledUnpruned(es: seq<Entry>, job: Job)
    requires job.Valid() && Settled(es, job)
    ensures !PruneChanges(es, job, FirstMatch(es, job.matcher))
    decreases |es|
  {
    if Matches(es[0], job.matcher) {
      SettledPlacing(es[0], job);
      CleanUnpruned(es[1..], job, -1);
    } else {
      PruneClean(Handlers(es[0]), job);
      SettledUnpruned(es[1..], job);
    }
  }

  /** A settled event is a fixed point of the installer, and the installer says so. */
  lemma SettledIsFixed(es: seq<Entry>, job: Job)
    requires job.Valid() && Settled(es, job)
    ensures InstallEvent(es, job) == Done(es, false)
  {
    var t := FirstMatch(es, job.matcher);
    SettledPosition(es, job);
    SettledPlacing(es[t], job);
    SettledUnpruned(es, job);
    NothingToDo(es, job, t);
  }

  lemma NothingToDo(es: seq<Entry>, job: Job, t: nat)
    requires t == FirstMatch(es, job.matcher) < |es| && Usable(es[t]) && Handlers(es[t]) != []
    requires Placed(Handlers(es[t]), job) == Handlers(es[t])
    requires !PlacingChanges(Handlers(es[t]), job) && !PruneChanges(es, job, t)
    ensures InstallEvent(es, job) == Done(es, false)
  {
    assert es[t].(hooks := HookList(Handlers(es[t]))) == es[t];
    UpdateWithItself(es, t);
  }

  lemma UpdateWithItself<T>(s: seq<T>, i: nat)
    requires i < |s|
    ensures s[i := s[i]] == s
  {
  }

  /** Installing twice is installing once; and the reported flag is exact: it is
      false if and only if the entries stay as they were. */
  lemma InstallEventIdempotent(es: seq<Entry>, job: Job)
    requires job.Valid() && InstallEvent(es, job).Done?
    ensures var r := InstallEvent(es, job);
      && InstallEvent(r.entries, job) == Done(r.entries, false)
      && (r.changed <==> r.entries != es)
  {
    var r := InstallEvent(es, job);
    InstallSettles(es, job);
    SettledIsFixed(r.entries, job);
    if !r.changed { UnchangedEntries(es, job); }
  }

  lemma UnchangedEntries(es: seq<Entry>, job: Job)
    requires InstallEvent(es, job).Done? && !InstallEvent(es, job).changed
    ensures InstallEvent(es, job).entries == es
  {
    var t := FirstMatch(es, job.matcher);
    UnchangedPlacing(Handlers(es[t]), job);
    assert es[t].(hooks := HookList(Handlers(es[t]))) == es[t];
    UpdateWithItself(es, t);
  }

  lemma UnchangedPlacing(hs: seq<Handler>, job: Job)
    requires !PlacingChanges(hs, job)
    ensures Placed(hs, job) == hs && hs != []
  {
    MovedFromFront(hs);
  }

  lemma {:induction false} NoneNamedInCount(es: seq<Entry>, named: Test)
    requires NoneNamedIn(es, named)
    ensures NamedCount(es, named) == 0
    decreases |es|
  {
    if es != [] {
      NoneNamedCount(Handlers(es[0]), named);
      NoneNamedInCount(es[1..], named);
    }
  }

  /** A settled event has exactly one handler for the job, from any checkout. */
  lemma {:induction false} SettledHasOne(es: seq<Entry>, job: Job)
    requires job.Valid() && Settled(es, job)
    ensures NamedCount(es, job.named) == 1
    decreases |es|
  {
    if Matches(es[0], job.matcher) {
      CanonicalRuns(Handlers(es[0])[0], job);
      NoneNamedCount(Handlers(es[0])[1..], job.named);
      NoneNamedInCount(es[1..], job.named);
    } else {
      NoneNamedCount(Handlers(es[0]), job.named);
      SettledHasOne(es[1..], job);
    }
  }

  lemma ReplacedEntry(es: seq<Entry>, t: nat, e: Entry, named: Test)
    requires t < |es| && ForeignEntry(e, named) == ForeignEntry(es[t], named)
    ensures Foreign(es[t := e], named) == Foreign(es, named)
  {
    assert es == es[..t] + [es[t]] + es[t + 1..];
    assert es[t := e] == es[..t] + [e] + es[t + 1..];
    ForeignThree(es[..t], es[t], es[t + 1..], named);
    ForeignThree(es[..t], e, es[t + 1..], named);
  }

  lemma TargetKeepsForeign(es: seq<Entry>, matcher: string, named: Test)
    ensures Foreign(WithTarget(es, matcher), named) == Foreign(es, named)
  {
    if FirstMatch(es, matcher) == |es| {
      ForeignConcat(es, [NewEntry(matcher)], named);
      assert Foreign([NewEntry(matcher)], named) == [];
    }
  }

  lemma PlacedEntryForeign(e: Entry, job: Job)
    requires job.Valid() && Usable(e)
    ensures ForeignEntry(e.(hooks := HookList(Placed(Handlers(e), job))), job.named) ==
            ForeignEntry(e, job.named)
  {
    var placed := Placed(Handlers(e), job);
    PlacingKeepsForeign(e, Handlers(e), job);
    SameMetadata(e.(hooks := HookList(placed)), e, placed, job.named);
  }

  /** Installing keeps every foreign entry and handler, with its metadata, in order. */
  lemma InstallKeepsForeign(es: seq<Entry>, job: Job)
    requires job.Valid() && InstallEvent(es, job).Done?
    ensures Foreign(InstallEvent(es, job).entries, job.named) == Foreign(es, job.named)
  {
    var t, es1 := FirstMatch(es, job.matcher), WithTarget(es, job.matcher);
    var es2 := PlacedEntries(es, job);
    TargetKeepsForeign(es, job.matcher, job.named);
    PlacedEntryForeign(es1[t], job);
    ReplacedEntry(es1, t, es2[t], job.named);
    PruneKeepsAllForeign(es2, job, t);
  }

  lemma ForeignThree(a: seq<Entry>, e: Entry, b: seq<Entry>, named: Test)
    ensures Foreign(a + [e] + b, named) == Foreign(a, named) + ForeignEntry(e, named) + Foreign(b, named)
  {
    ForeignConcat(a + [e], b, named);
    ForeignConcat(a, [e], named);
    ForeignOne(e, named);
  }

  lemma ForeignOne(e: Entry, named: Test)
    ensures Foreign([e], named) == ForeignEntry(e, named)
  {
    assert Foreign([e][1..], named) == [];
  }

  // ----- uninstalling

  /** Nothing in the entry is hub-owned, and a handler list, if there is one the
      editors may touch, is present, not empty, and starts with an object. */
  predicate ForeignOnly(e: Entry, job: Job) {
    Untouchable(e) ||
    (Handlers(e) != [] && Handlers(e)[0].Handler?
     && forall i :: 0 <= i < |Handlers(e)| ==>
          !Passes(Handlers(e)[i], job.named) && !Passes(Handlers(e)[i], job.owned))
  }

  predicate AllForeignOnly(es: seq<Entry>, job: Job) {
    forall i :: 0 <= i < |es| ==> ForeignOnly(es[i], job)
  }

  lemma {:induction false} WithoutOwnedClean(hs: seq<Handler>, owned: Test)
    ensures forall i :: 0 <= i < |WithoutOwned(hs, owned)| ==> !Passes(WithoutOwned(hs, owned)[i], owned)
    ensures forall h :: h in WithoutOwned(hs, owned) ==> h in hs
    ensures (forall i :: 0 <= i < |hs| ==> !Passes(hs[i], owned)) ==> WithoutOwned(hs, owned) == hs
    decreases |hs|
  {
    if hs != [] {
      WithoutOwnedClean(hs[1..], owned);
      if forall i :: 0 <= i < |hs| ==> !Passes(hs[i], owned) {
        assert forall i :: 0 <= i < |hs[1..]| ==> hs[1..][i] == hs[i + 1];
        assert !Passes(hs[0], owned);
      }
    }
  }

  lemma StripForeignOnly(e: Entry, job: Job)
    requires ForeignOnly(e, job)
    ensures StrippedEntry(e, job.owned) == [e] && !BelongsScanFails(Handlers(e), job.owned)
  {
    if !Untouchable(e) { WithoutOwnedClean(Handlers(e), job.owned); }
  }

  lemma {:induction false} StripConcat(a: seq<Entry>, b: seq<Entry>, owned: Test)
    ensures Stripped(a + b, owned) == Stripped(a, owned) + Stripped(b, owned)
    decreases |a|
  {
    if a == [] {
      assert a + b == b;
    } else {
      assert (a + b)[1..] == a[1..] + b;
      StripConcat(a[1..], b, owned);
    }
  }

  // ----- uninstalling again

  lemma {:induction false} ScanAfterStrip(hs: seq<Handler>, owned: Test)
    requires !BelongsScanFails(hs, owned)
    ensures !BelongsScanFails(WithoutOwned(hs, owned), owned)
    decreases |hs|
  {
    if hs != [] && Passes(hs[0], owned) {
      ScanAfterStrip(hs[1..], owned);
      assert WithoutOwned(hs, owned) == WithoutOwned(hs[1..], owned);
    }
  }

  lemma StrippedEntryAgain(e: Entry, owned: Test)
    requires !BelongsScanFails(Handlers(e), owned)
    ensures var kept := StrippedEntry(e, owned);
      && |kept| <= 1 && Stripped(kept, owned) == kept
      && (kept != [] ==> !BelongsScanFails(Handlers(kept[0]), owned))
  {
    var kept := StrippedEntry(e, owned);
    if kept != [] {
      assert kept[1..] == [];
      if !Untouchable(e) {
        ScanAfterStrip(Handlers(e), owned);
        WithoutOwnedClean(Handlers(e), owned);
        WithoutOwnedClean(WithoutOwned(Handlers(e), owned), owned);
      }
    }
  }

  lemma {:induction false} StrippedAgain(es: seq<Entry>, owned: Test)
    requires forall i :: 0 <= i < |es| ==> !BelongsScanFails(Handlers(es[i]), owned)
    ensures Stripped(Stripped(es, owned), owned) == Stripped(es, owned)
    ensures forall i :: 0 <= i < |Stripped(es, owned)| ==> !BelongsScanFails(Handlers(Stripped(es, owned)[i]), owned)
    decreases |es|
  {
    if es != [] {
      StrippedEntryAgain(es[0], owned);
      StrippedAgain(es[1..], owned);
      StripConcat(StrippedEntry(es[0], owned), Stripped(es[1..], owned), owned);
    }
  }

  /** Uninstalling an event a second time raises nothing and changes nothing. */
  lemma UninstallAgain(es: seq<Entry>, owned: Test)
    requires UninstallEvent(es, owned).Done?
    ensures UninstallEvent(UninstallEvent(es, owned).entries, owned) == Done(UninstallEvent(es, owned).entries, false)
  {
    StrippedAgain(es, owned);
  }

  lemma {:induction false} StripAllForeignOnly(es: seq<Entry>, job: Job)
    requires AllForeignOnly(es, job)
    ensures Stripped(es, job.owned) == es
    decreases |es|
  {
    if es != [] {
      StripForeignOnly(es[0], job);
      assert forall i :: 0 <= i < |es[1..]| ==> es[1..][i] == es[i + 1];
      StripAllForeignOnly(es[1..], job);
    }
  }

  lemma {:induction false} ForeignOnlyUnpruned(es: seq<Entry>, job: Job, t: int)
    requires AllForeignOnly(es, job)
    requires t < 0 || t >= |es|
    ensures !PruneChanges(es, job, t)
    decreases |es|
  {
    if es != [] {
      if Untouchable(es[0]) { assert Handlers(es[0]) == []; }
      PruneClean(Handlers(es[0]), job);
      assert forall i :: 0 <= i < |es[1..]| ==> es[1..][i] == es[i + 1];
      ForeignOnlyUnpruned(es[1..], job, t - 1);
    }
  }

  lemma {:induction false} PruneChangesConcat(a: seq<Entry>, b: seq<Entry>, job: Job, t: int)
    ensures PruneChanges(a + b, job, t) <==> PruneChanges(a, job, t) || PruneChanges(b, job, t - |a|)
    decreases |a|
  {
    if a == [] {
      assert a + b == b;
    } else {
      assert (a + b)[1..] == a[1..] + b;
      PruneChangesConcat(a[1..], b, job, t - 1);
    }
  }

  lemma FreshTargetAlone(e: Entry, job: Job)
    requires job.Valid()
    requires Handlers(e) != [] && Canonical(Handlers(e)[0], job) && NoneNamed(Handlers(e)[1..], job.named)
    ensures !PruneChanges([e], job, 0)
  {
    CanonicalRuns(Handlers(e)[0], job);
    PruneClean(Handlers(e)[1..], job);
    assert [e][1..] == [];
  }

  /** Only one entry changed, to a list that starts canonically before clean
      handlers: nothing is pruned. */
  lemma FreshTargetUnpruned(a: seq<Entry>, e: Entry, b: seq<Entry>, job: Job)
    requires AllForeignOnly(a, job) && AllForeignOnly(b, job) && !PruneChanges([e], job, 0)
    ensures !PruneChanges(a + ([e] + b), job, |a|)
  {
    ForeignOnlyUnpruned(a, job, |a|);
    ForeignOnlyUnpruned(b, job, -1);
    PruneChangesConcat(a, [e] + b, job, |a|);
    PruneChangesConcat([e], b, job, 0);
  }

  lemma StripAround(a: seq<Entry>, e: Entry, b: seq<Entry>, job: Job)
    requires AllForeignOnly(a, job) && AllForeignOnly(b, job)
    ensures Stripped(a + ([e] + b), job.owned) == a + (StrippedEntry(e, job.owned) + b)
  {
    StripConcat(a, [e] + b, job.owned);
    StripAllForeignOnly(a, job);
    StripAllForeignOnly(b, job);
    assert ([e] + b)[1..] == b;
  }

  lemma ScanAround(a: seq<Entry>, e: Entry, b: seq<Entry>, job: Job)
    requires AllForeignOnly(a, job) && AllForeignOnly(b, job)
    requires !BelongsScanFails(Handlers(e), job.owned)
    ensures UninstallEvent(a + ([e] + b), job.owned).Done?
  {
    var es := a + ([e] + b);
    forall i | 0 <= i < |es| ensures !BelongsScanFails(Handlers(es[i]), job.owned) {
      if i < |a| { StripForeignOnly(a[i], job); }
      if i > |a| { StripForeignOnly(b[i - |a| - 1], job); }
    }
  }

  /** Stripping the target that a foreign list was prefixed in gives the list back. */
  lemma StripFreshTarget(e: Entry, c: Handler, hs: seq<Handler>, owned: Test)
    requires e.Entry? && e.hooks == HookList([c] + hs) && Passes(c, owned)
    requires (hs != [] ==> hs[0].Handler?) && forall i :: 0 <= i < |hs| ==> !Passes(hs[i], owned)
    ensures StrippedEntry(e, owned) == if hs == [] then [] else [e.(hooks := HookList(hs))]
    ensures !BelongsScanFails(Handlers(e), owned)
  {
    WithoutOwnedClean(hs, owned);
    WithoutOwnedCons(c, hs, owned);
  }

  lemma WithoutOwnedCons(c: Handler, hs: seq<Handler>, owned: Test)
    requires Passes(c, owned)
    ensures WithoutOwned([c] + hs, owned) == WithoutOwned(hs, owned)
    ensures BelongsScanFails([c] + hs, owned) == BelongsScanFails(hs, owned)
  {
    assert ([c] + hs)[1..] == hs;
  }

  lemma PlacedForeign(e: Entry, job: Job)
    requires job.Valid() && e.Entry? && NoneNamed(Handlers(e), job.named)
    ensures Placed(Handlers(e), job) == [NewHandler(job.command)] + Handlers(e)
  {
    var i := FirstRun(Handlers(e), job.runs);
  }

  /** The round trip of the entries around the target. */
  lemma RoundTripAround(a: seq<Entry>, e: Entry, b: seq<Entry>, job: Job)
    requires AllForeignOnly(a, job) && AllForeignOnly(b, job)
    requires !PruneChanges([e], job, 0) && !BelongsScanFails(Handlers(e), job.owned)
    ensures Prune(a + ([e] + b), job, |a|) == a + ([e] + b)
    ensures UninstallEvent(a + ([e] + b), job.owned).Done?
    ensures UninstallEvent(a + ([e] + b), job.owned).entries == a + (StrippedEntry(e, job.owned) + b)
  {
    FreshTargetUnpruned(a, e, b, job);
    ScanAround(a, e, b, job);
    StripAround(a, e, b, job);
  }

  lemma RoundTripTarget(e: Entry, job: Job) returns (placed: Entry)
    requires job.Valid() && Usable(e) && (Handlers(e) != [] ==> ForeignOnly(e, job))
    ensures placed == e.(hooks := HookList(Placed(Handlers(e), job)))
    ensures !PruneChanges([placed], job, 0) && !BelongsScanFails(Handlers(placed), job.owned)
    ensures StrippedEntry(placed, job.owned) == if Handlers(e) == [] then [] else [e]
  {
    var c := NewHandler(job.command);
    CanonicalRuns(c, job);
    PlacedForeign(e, job);
    placed := e.(hooks := HookList([c] + Handlers(e)));
    assert Handlers(placed)[1..] == Handlers(e);
    FreshTargetAlone(placed, job);
    if Handlers(e) != [] { assert placed.(hooks := HookList(Handlers(e))) == e; }
    StripFreshTarget(placed, c, Handlers(e), job.owned);
  }

  /** The entries around the target of an installation. */
  lemma SplitAtTarget(es: seq<Entry>, job: Job) returns (a: seq<Entry>, e: Entry, b: seq<Entry>)
    ensures WithTarget(es, job.matcher) == a + ([e] + b) && |a| == FirstMatch(es, job.matcher)
    ensures e.Entry?
    ensures |a| == |es| ==> es == a && b == [] && Handlers(e) == []
    ensures |a| < |es| ==> es == a + ([e] + b)
  {
    var t, es1 := FirstMatch(es, job.matcher), WithTarget(es, job.matcher);
    a, e, b := es1[..t], es1[t], es1[t + 1..];
    assert es1 == a + ([e] + b);
  }

  lemma InstallAround(a: seq<Entry>, e: Entry, b: seq<Entry>, es: seq<Entry>, job: Job)
    requires WithTarget(es, job.matcher) == a + ([e] + b) && |a| == FirstMatch(es, job.matcher)
    requires InstallEvent(es, job).Done?
    ensures Usable(e)
    ensures InstallEvent(es, job).entries ==
            Prune(a + ([e.(hooks := HookList(Placed(Handlers(e), job)))] + b), job, |a|)
  {
    var placed := e.(hooks := HookList(Placed(Handlers(e), job)));
    ReplacedMiddle(a, e, b, placed);
  }

  lemma ReplacedMiddle<T>(a: seq<T>, x: T, b: seq<T>, y: T)
    ensures (a + ([x] + b))[|a|] == x && (a + ([x] + b))[|a| := y] == a + ([y] + b)
  {
  }

  /** A foreign event gets its own entries back from uninstalling after installing. */
  lemma RoundTripForeignOnly(es: seq<Entry>, job: Job)
    requires job.Valid() && InstallEvent(es, job).Done? && AllForeignOnly(es, job)
    ensures var r := UninstallEvent(InstallEvent(es, job).entries, job.owned);
            r.Done? && r.entries == es
  {
    var a, e, b := SplitAtTarget(es, job);
    InstallAround(a, e, b, es, job);
    ForeignOnlyAround(es, a, e, b, job);
    var placed := RoundTripTarget(e, job);
    RoundTripAround(a, placed, b, job);
    if |a| == |es| { assert a + ([] + b) == es; }
  }

  lemma ForeignOnlyAround(es: seq<Entry>, a: seq<Entry>, e: Entry, b: seq<Entry>, job: Job)
    requires AllForeignOnly(es, job) && Usable(e)
    requires (es == a && b == [] && Handlers(e) == []) || es == a + ([e] + b)
    ensures AllForeignOnly(a, job) && AllForeignOnly(b, job)
    ensures Handlers(e) != [] ==> ForeignOnly(e, job)
    ensures es == a + ([e] + b) ==> Handlers(e) != []
  {
    forall i | 0 <= i < |a| ensures ForeignOnly(a[i], job) { assert a[i] == es[i]; }
    forall i | 0 <= i < |b| ensures ForeignOnly(b[i], job) {
      assert es == a + ([e] + b);
      assert b[i] == es[|a| + 1 + i];
    }
    if es == a + ([e] + b) { assert es[|a|] == e; }
  }

  lemma {:induction false} KeptStartsWithObject(hs: seq<Handler>, owned: Test)
    requires !BelongsScanFails(hs, owned) && WithoutOwned(hs, owned) != []
    ensures WithoutOwned(hs, owned)[0].Handler?
    decreases |hs|
  {
    if Passes(hs[0], owned) { KeptStartsWithObject(hs[1..], owned); }
  }

  lemma StrippedIsForeignOnly(e: Entry, job: Job)
    requires !BelongsScanFails(Handlers(e), job.owned)
    requires forall i :: 0 <= i < |Handlers(e)| && Passes(Handlers(e)[i], job.named) ==>
               Passes(Handlers(e)[i], job.owned)
    ensures AllForeignOnly(StrippedEntry(e, job.owned), job)
  {
    if !Untouchable(e) && WithoutOwned(Handlers(e), job.owned) != [] {
      var kept := WithoutOwned(Handlers(e), job.owned);
      WithoutOwnedClean(Handlers(e), job.owned);
      KeptStartsWithObject(Handlers(e), job.owned);
      forall i | 0 <= i < |kept| ensures !Passes(kept[i], job.named) {
        assert kept[i] in kept;
      }
    }
  }

  lemma {:induction false} StrippedCleanTail(es: seq<Entry>, job: Job)
    requires NoneNamedIn(es, job.named)
    requires forall i :: 0 <= i < |es| ==> !BelongsScanFails(Handlers(es[i]), job.owned)
    ensures AllForeignOnly(Stripped(es, job.owned), job)
    decreases |es|
  {
    if es != [] {
      StrippedIsForeignOnly(es[0], job);
      StrippedCleanTail(es[1..], job);
    }
  }

  lemma {:induction false} StrippedSettled(es: seq<Entry>, job: Job)
    requires job.Valid() && Settled(es, job)
    requires forall i :: 0 <= i < |es| ==> !BelongsScanFails(Handlers(es[i]), job.owned)
    ensures AllForeignOnly(Stripped(es, job.owned), job)
    decreases |es|
  {
    if Matches(es[0], job.matcher) {
      var hs := Handlers(es[0]);
      CanonicalRuns(hs[0], job);
      assert forall i :: 1 <= i < |hs| ==> hs[i] == hs[1..][i - 1];
      StrippedIsForeignOnly(es[0], job);
      StrippedCleanTail(es[1..], job);
    } else {
      StrippedIsForeignOnly(es[0], job);
      StrippedSettled(es[1..], job);
    }
  }

  /** Uninstalling gives back the entries that were there before installing exactly
      when these held no hub handler of the script's name or directory and no empty,
      missing or non-object-led handler list. */
  lemma UninstallUndoesInstall(es: seq<Entry>, job: Job)
    requires job.Valid() && InstallEvent(es, job).Done?
    ensures var r := UninstallEvent(InstallEvent(es, job).entries, job.owned);
            (r.Done? && r.entries == es) <==> AllForeignOnly(es, job)
  {
    var installed := InstallEvent(es, job).entries;
    var r := UninstallEvent(installed, job.owned);
    if AllForeignOnly(es, job) {
      RoundTripForeignOnly(es, job);
    } else if r.Done? && r.entries == es {
      InstallSettles(es, job);
      StrippedSettled(installed, job);
      assert false;
    }
  }
}
