/** The reconciler that converges an event to one canonical managed handler, its
    inverse, and the Qoder doctor that checks for exactly one. */
module ManagedHooks {
  import opened Options
  import opened Shlex
  import opened HookCommands
  import opened HookTables
  import opened Sequences

  /** A handler whose command runs one of the managed scripts from any checkout. */
  predicate Managed(h: Handler, names: set<string>) {
    h.Handler? && exists name :: name in names && ReferencesHubScript(Command(h), name)
  }

  /** The ownership test handed to the editing functions. */
  function Owner(names: set<string>): Handler -> bool {
    h => Managed(h, names)
  }

  function Without(hs: seq<Handler>, own: Handler -> bool): seq<Handler> {
    if hs == [] then [] else (if own(hs[0]) then [] else [hs[0]]) + Without(hs[1..], own)
  }

  function CountIn(hs: seq<Handler>, own: Handler -> bool): nat {
    if hs == [] then 0 else (if own(hs[0]) then 1 else 0) + CountIn(hs[1..], own)
  }

  /** Owned handlers of a whole event. */
  function Count(es: seq<Entry>, own: Handler -> bool): nat {
    if es == [] then 0 else CountIn(Handlers(es[0]), own) + Count(es[1..], own)
  }

  /** An entry without owned handlers stays as it is, even with an empty list; one
      with owned handlers keeps the others and is dropped when there are none. */
  function StripEntry(e: Entry, own: Handler -> bool): seq<Entry> {
    if CountIn(Handlers(e), own) == 0 then [e]
    else
      var kept := Without(Handlers(e), own);
      if kept == [] then [] else [e.(hooks := HookList(kept))]
  }

  function Strip(es: seq<Entry>, own: Handler -> bool): seq<Entry> {
    if es == [] then [] else StripEntry(es[0], own) + Strip(es[1..], own)
  }

  /** Position, among the stripped entries, of the first entry that held an owned handler. */
  function FirstSlot(es: seq<Entry>, own: Handler -> bool): (slot: Option<nat>)
    ensures slot.Some? ==> slot.value <= |Strip(es, own)|
  {
    if es == [] then None
    else if CountIn(Handlers(es[0]), own) > 0 then Some(0)
    else
      var later := FirstSlot(es[1..], own);
      if later.None? then None else Some(1 + later.value)
  }

  function CanonicalEntry(command: string): Entry {
    Entry(Some(""), HookList([Handler(Some("command"), Some(command), None, None, false, None, "")]), "")
  }

  function Position(es: seq<Entry>, own: Handler -> bool, placeFirst: bool): (p: nat)
    ensures p <= |Strip(es, own)|
  {
    if placeFirst then 0
    else
      var slot := FirstSlot(es, own);
      if slot.Some? then slot.value else |Strip(es, own)|
  }

  function Inserted(es: seq<Entry>, p: nat, e: Entry): seq<Entry>
    requires p <= |es|
  {
    es[..p] + ([e] + es[p..])
  }

  /** What the event becomes; the reconciler reports whether that differs. */
  function Reconciled(es: seq<Entry>, command: string, own: Handler -> bool, placeFirst: bool): seq<Entry> {
    Inserted(Strip(es, own), Position(es, own, placeFirst), CanonicalEntry(command))
  }

  // ----- the editors

  /** An event's list of entries, edited in place. */
  class ManagedEntries {
    var entries: seq<Entry>

    constructor (entries: seq<Entry>)
      ensures this.entries == entries
    {
      this.entries := entries;
    }

    /** `_strip_managed_handlers`. */
    method StripManaged(own: Handler -> bool) returns (rebuilt: seq<Entry>, removed: nat, slot: Option<nat>)
      ensures rebuilt == Strip(entries, own) && removed == Count(entries, own) && slot == FirstSlot(entries, own)
    {
      rebuilt, removed, slot := [], 0, None;
      assert entries[0..] == entries;
      for i := 0 to |entries|
        invariant rebuilt + Strip(entries[i..], own) == Strip(entries, own)
        invariant removed + Count(entries[i..], own) == Count(entries, own)
        invariant SlotFrom(slot, |rebuilt|, entries[i..], own) == FirstSlot(entries, own)
      {
        StripStep(rebuilt, slot, entries, i, own);
        var kept, entryRemoved := FilterEntry(entries[i], own);
        removed := removed + entryRemoved;
        if entryRemoved > 0 && slot.None? { slot := Some(|rebuilt|); }
        rebuilt := rebuilt + kept;
      }
    }

    /** `remove_managed_hub_hook_handlers`: the number of handlers removed. */
    method RemoveManaged(own: Handler -> bool) returns (removed: nat)
      modifies this
      ensures entries == Strip(old(entries), own) && removed == Count(old(entries), own)
    {
      var rebuilt, count, slot := StripManaged(own);
      if rebuilt != entries { entries := rebuilt; }
      removed := count;
    }

    /** `reconcile_managed_hub_hook_event`; `fault` is the error for a script that is
        not managed, raised before anything is edited. */
    method Reconcile(script: Script, command: string, names: set<string>, placeFirst: bool)
      returns (fault: bool, changed: bool)
      modifies this
      ensures fault <==> script.name !in names
      ensures fault ==> entries == old(entries)
      ensures !fault ==> entries == Reconciled(old(entries), command, Owner(names), placeFirst)
      ensures !fault ==> changed == (entries != old(entries))
    {
      if script.name !in names { return true, false; }
      var rebuilt, removed, slot := StripManaged(Owner(names));
      var position := if placeFirst then 0 else if slot.Some? then slot.value else |rebuilt|;
      if position > |rebuilt| { position := |rebuilt|; }
      rebuilt := rebuilt[..position] + ([CanonicalEntry(command)] + rebuilt[position..]);
      fault, changed := false, rebuilt != entries;
      if changed { entries := rebuilt; }
    }
  }

  /** The body of the outer loop of `_strip_managed_handlers`. */
  method FilterEntry(entry: Entry, own: Handler -> bool) returns (kept: seq<Entry>, removed: nat)
    ensures kept == StripEntry(entry, own) && removed == CountIn(Handlers(entry), own)
  {
    var filtered, count := FilterHandlers(Handlers(entry), own);
    removed := count;
    if removed == 0 {
      kept := [entry];
    } else if filtered != [] {
      kept := [entry.(hooks := HookList(filtered))];
    } else {
      kept := [];
    }
  }

  /** The slot of the whole list, given the one found so far and the entries kept so far. */
  function SlotFrom(slot: Option<nat>, kept: nat, rest: seq<Entry>, own: Handler -> bool): Option<nat> {
    if slot.Some? then slot
    else if FirstSlot(rest, own).None? then None
    else Some(kept + FirstSlot(rest, own).value)
  }

  lemma StripStep(rebuilt: seq<Entry>, slot: Option<nat>, es: seq<Entry>, i: nat, own: Handler -> bool)
    requires i < |es|
    ensures rebuilt + Strip(es[i..], own) == rebuilt + StripEntry(es[i], own) + Strip(es[i + 1..], own)
    ensures Count(es[i..], own) == CountIn(Handlers(es[i]), own) + Count(es[i + 1..], own)
    ensures SlotFrom(slot, |rebuilt|, es[i..], own) ==
      SlotFrom(if CountIn(Handlers(es[i]), own) > 0 && slot.None? then Some(|rebuilt|) else slot,
               |rebuilt + StripEntry(es[i], own)|, es[i + 1..], own)
  {
    assert es[i..][1..] == es[i + 1..];
  }

  /** The inner loop of `_strip_managed_handlers`. */
  method FilterHandlers(hs: seq<Handler>, own: Handler -> bool) returns (filtered: seq<Handler>, removed: nat)
    ensures filtered == Without(hs, own) && removed == CountIn(hs, own)
  {
    filtered, removed := [], 0;
    assert hs[0..] == hs;
    for i := 0 to |hs|
      invariant filtered + Without(hs[i..], own) == Without(hs, own)
      invariant removed + CountIn(hs[i..], own) == CountIn(hs, own)
    {
      assert hs[i..][1..] == hs[i + 1..];
      if own(hs[i]) { removed := removed + 1; } else { filtered := filtered + [hs[i]]; }
    }
  }

  // ----- stripping

  lemma {:induction false} CountConcat(a: seq<Entry>, b: seq<Entry>, own: Handler -> bool)
    ensures Count(a + b, own) == Count(a, own) + Count(b, own)
    decreases |a|
  {
    if a == [] {
      assert a + b == b;
    } else {
      assert (a + b)[1..] == a[1..] + b;
      CountConcat(a[1..], b, own);
    }
  }

  lemma {:induction false} StripConcat(a: seq<Entry>, b: seq<Entry>, own: Handler -> bool)
    ensures Strip(a + b, own) == Strip(a, own) + Strip(b, own)
    decreases |a|
  {
    if a == [] {
      assert a + b == b;
    } else {
      assert (a + b)[1..] == a[1..] + b;
      StripConcat(a[1..], b, own);
    }
  }

  lemma WithoutStep(hs: seq<Handler>, own: Handler -> bool)
    requires hs != []
    ensures own(hs[0]) ==> Without(hs, own) == Without(hs[1..], own)
    ensures !own(hs[0]) ==> Without(hs, own) == [hs[0]] + Without(hs[1..], own)
    ensures !own(hs[0]) ==> Without(hs, own)[0] == hs[0] && Without(hs, own)[1..] == Without(hs[1..], own)
  {
  }

  lemma {:induction false} WithoutHasNone(hs: seq<Handler>, own: Handler -> bool)
    ensures CountIn(Without(hs, own), own) == 0
    decreases |hs|
  {
    if hs != [] {
      WithoutHasNone(hs[1..], own);
      WithoutStep(hs, own);
    }
  }

  lemma {:induction false} StrippedHasNone(es: seq<Entry>, own: Handler -> bool)
    ensures Count(Strip(es, own), own) == 0
    decreases |es|
  {
    if es != [] {
      StrippedHasNone(es[1..], own);
      CountConcat(StripEntry(es[0], own), Strip(es[1..], own), own);
      WithoutHasNone(Handlers(es[0]), own);
      var first := StripEntry(es[0], own);
      if first != [] { assert Count(first, own) == CountIn(Handlers(first[0]), own) + Count(first[1..], own); }
    }
  }

  /** Stripping changes nothing where nothing is owned. */
  lemma {:induction false} StripClean(es: seq<Entry>, own: Handler -> bool)
    requires Count(es, own) == 0
    ensures Strip(es, own) == es && FirstSlot(es, own) == None
    decreases |es|
  {
    if es != [] { StripClean(es[1..], own); }
  }

  /** A foreign handler with the metadata of its entry, or a whole entry that holds
      no handlers at all. */
  function Others(e: Entry, hs: seq<Handler>, own: Handler -> bool): seq<Item>
    requires e.Entry?
  {
    if hs == [] then []
    else (if own(hs[0]) then [] else [Part(e.matcher, e.rest, hs[0])]) + Others(e, hs[1..], own)
  }

  function OthersOfEntry(e: Entry, own: Handler -> bool): seq<Item> {
    if Handlers(e) == [] then [Whole(e)] else Others(e, Handlers(e), own)
  }

  /** All foreign configuration of the event, in order. */
  function ForeignItems(es: seq<Entry>, own: Handler -> bool): seq<Item> {
    if es == [] then [] else OthersOfEntry(es[0], own) + ForeignItems(es[1..], own)
  }

  lemma ForeignItemsCons(e: Entry, rest: seq<Entry>, own: Handler -> bool)
    ensures ForeignItems([e] + rest, own) == OthersOfEntry(e, own) + ForeignItems(rest, own)
  {
    assert ([e] + rest)[1..] == rest;
  }

  lemma {:induction false} ForeignItemsConcat(a: seq<Entry>, b: seq<Entry>, own: Handler -> bool)
    ensures ForeignItems(a + b, own) == ForeignItems(a, own) + ForeignItems(b, own)
    decreases |a|
  {
    if a == [] {
      assert a + b == b;
    } else {
      assert a + b == [a[0]] + (a[1..] + b);
      ForeignItemsCons(a[0], a[1..] + b, own);
      ForeignItemsConcat(a[1..], b, own);
      Associates(OthersOfEntry(a[0], own), ForeignItems(a[1..], own), ForeignItems(b, own));
    }
  }

  lemma {:induction false} OthersKept(e: Entry, e2: Entry, hs: seq<Handler>, own: Handler -> bool)
    requires e.Entry? && e2.Entry? && e2.matcher == e.matcher && e2.rest == e.rest
    ensures Others(e2, Without(hs, own), own) == Others(e, hs, own)
    ensures Without(hs, own) == [] ==> Others(e, hs, own) == []
    decreases |hs|
  {
    if hs != [] {
      OthersKept(e, e2, hs[1..], own);
      WithoutStep(hs, own);
    }
  }

  lemma StripEntryKeeps(e: Entry, own: Handler -> bool)
    ensures ForeignItems(StripEntry(e, own), own) == OthersOfEntry(e, own)
  {
    var first := StripEntry(e, own);
    if first != [] { assert ForeignItems(first, own) == OthersOfEntry(first[0], own) + ForeignItems(first[1..], own); }
    if CountIn(Handlers(e), own) > 0 {
      OthersKept(e, e.(hooks := HookList(Without(Handlers(e), own))), Handlers(e), own);
    }
  }

  /** Stripping keeps all foreign configuration in order. */
  lemma {:induction false} StripKeepsForeign(es: seq<Entry>, own: Handler -> bool)
    ensures ForeignItems(Strip(es, own), own) == ForeignItems(es, own)
    decreases |es|
  {
    if es != [] {
      StripKeepsForeign(es[1..], own);
      ForeignItemsConcat(StripEntry(es[0], own), Strip(es[1..], own), own);
      StripEntryKeeps(es[0], own);
    }
  }

  // ----- reconciling

  ghost predicate OwnsCanonical(own: Handler -> bool, command: string) {
    own(Handlers(CanonicalEntry(command))[0])
  }

  lemma CanonicalAlone(command: string, own: Handler -> bool)
    ensures Count([CanonicalEntry(command)], own) == if OwnsCanonical(own, command) then 1 else 0
    ensures OwnsCanonical(own, command) ==> Strip([CanonicalEntry(command)], own) == []
    ensures OwnsCanonical(own, command) ==> ForeignItems([CanonicalEntry(command)], own) == []
  {
    var e := CanonicalEntry(command);
    var hs := Handlers(e);
    assert hs[1..] == [] && [e][1..] == [];
    assert CountIn(hs, own) == if own(hs[0]) then 1 else 0;
    assert Count([e], own) == CountIn(hs, own) + Count([], own);
    if own(hs[0]) {
      WithoutStep(hs, own);
      assert StripEntry(e, own) == [];
      assert Strip([e], own) == StripEntry(e, own) + Strip([], own);
      assert Others(e, hs, own) == [];
      assert ForeignItems([e], own) == OthersOfEntry(e, own) + ForeignItems([], own);
    }
  }

  lemma {:induction false} FirstSlotBehind(a: seq<Entry>, b: seq<Entry>, own: Handler -> bool)
    requires Count(a, own) == 0
    ensures FirstSlot(a + b, own) == if FirstSlot(b, own).None? then None else Some(|a| + FirstSlot(b, own).value)
    decreases |a|
  {
    if a == [] {
      assert a + b == b;
    } else {
      assert (a + b)[1..] == a[1..] + b;
      FirstSlotBehind(a[1..], b, own);
    }
  }

  lemma SplitClean(clean: seq<Entry>, p: nat, own: Handler -> bool)
    requires Count(clean, own) == 0 && p <= |clean|
    ensures clean == clean[..p] + clean[p..] && Count(clean[..p], own) == 0 && Count(clean[p..], own) == 0
  {
    assert clean == clean[..p] + clean[p..];
    CountConcat(clean[..p], clean[p..], own);
  }

  /** One owned entry between clean ones. */
  lemma OneOwned(a: seq<Entry>, c: seq<Entry>, b: seq<Entry>, own: Handler -> bool)
    requires Count(a, own) == 0 && Count(b, own) == 0 && Count(c, own) == 1
    requires Strip(c, own) == [] && ForeignItems(c, own) == []
    ensures var es := a + (c + b);
      Count(es, own) == 1 && Strip(es, own) == a + b && ForeignItems(es, own) == ForeignItems(a + b, own)
  {
    CountConcat(a, c + b, own);
    CountConcat(c, b, own);
    StripConcat(a, c + b, own);
    StripConcat(c, b, own);
    StripClean(a, own);
    StripClean(b, own);
    assert [] + b == b;
    ForeignItemsConcat(a, c + b, own);
    ForeignItemsConcat(c, b, own);
    ForeignItemsConcat(a, b, own);
    assert [] + ForeignItems(b, own) == ForeignItems(b, own);
  }

  lemma SlotOfOwned(a: seq<Entry>, e: Entry, b: seq<Entry>, own: Handler -> bool)
    requires Count(a, own) == 0 && CountIn(Handlers(e), own) > 0
    ensures FirstSlot(a + ([e] + b), own) == Some(|a|)
  {
    FirstSlotBehind(a, [e] + b, own);
    assert ([e] + b)[0] == e;
  }

  /** The event after reconciling, seen from its clean entries. */
  lemma InsertedCanonical(clean: seq<Entry>, p: nat, command: string, own: Handler -> bool)
    requires Count(clean, own) == 0 && p <= |clean| && OwnsCanonical(own, command)
    ensures var es := Inserted(clean, p, CanonicalEntry(command));
      && Count(es, own) == 1 && Strip(es, own) == clean && FirstSlot(es, own) == Some(p)
      && ForeignItems(es, own) == ForeignItems(clean, own)
  {
    var e := CanonicalEntry(command);
    SplitClean(clean, p, own);
    CanonicalAlone(command, own);
    OneOwned(clean[..p], [e], clean[p..], own);
    assert CountIn(Handlers(e), own) > 0 by {
      assert Count([e], own) == CountIn(Handlers(e), own) + Count([e][1..], own);
    }
    SlotOfOwned(clean[..p], e, clean[p..], own);
  }

  /** One reconciliation leaves exactly one managed handler, keeps all foreign
      configuration in order, and is undone by removal as if it had not happened. */
  lemma ReconcileConverges(es: seq<Entry>, command: string, own: Handler -> bool, placeFirst: bool)
    requires OwnsCanonical(own, command)
    ensures var r := Reconciled(es, command, own, placeFirst);
      && Count(r, own) == 1
      && ForeignItems(r, own) == ForeignItems(es, own)
      && Strip(r, own) == Strip(es, own)
      && FirstSlot(r, own) == Some(Position(es, own, placeFirst))
  {
    StrippedHasNone(es, own);
    StripKeepsForeign(es, own);
    InsertedCanonical(Strip(es, own), Position(es, own, placeFirst), command, own);
  }

  /** A second reconciliation changes nothing exactly when the canonical command is
      itself recognised as managed; otherwise every further one adds an entry. */
  lemma ReconcileTwice(es: seq<Entry>, command: string, own: Handler -> bool, placeFirst: bool)
    ensures var r := Reconciled(es, command, own, placeFirst);
            Reconciled(r, command, own, placeFirst) == r <==> OwnsCanonical(own, command)
  {
    var r := Reconciled(es, command, own, placeFirst);
    if OwnsCanonical(own, command) {
      ReconcileConverges(es, command, own, placeFirst);
    } else {
      StrippedHasNone(es, own);
      var clean, p := Strip(es, own), Position(es, own, placeFirst);
      var a, b, c := clean[..p], clean[p..], [CanonicalEntry(command)];
      assert clean == a + b;
      CanonicalAlone(command, own);
      CountConcat(a, b, own);
      CountConcat(a, c + b, own);
      CountConcat(c, b, own);
      StripClean(r, own);
      assert |Reconciled(r, command, own, placeFirst)| == |r| + 1;
    }
  }

  // ----- the Qoder doctor

  /** The problem the doctor reports for one event, if any. */
  datatype Problem = WrongCount(found: nat) | WrongScript | WrongCommand

  /** Commands of the managed handlers, in order. */
  function ManagedCommands(hs: seq<Handler>, own: Handler -> bool): seq<string> {
    if hs == [] then []
    else (if hs[0].Handler? && hs[0].command.Some? && own(hs[0]) then [hs[0].command.value] else [])
         + ManagedCommands(hs[1..], own)
  }

  function EventCommands(es: seq<Entry>, own: Handler -> bool): seq<string> {
    if es == [] then [] else ManagedCommands(Handlers(es[0]), own) + EventCommands(es[1..], own)
  }

  function EventProblem(es: seq<Entry>, script: Script, expected: string, own: Handler -> bool): Option<Problem> {
    var managed := EventCommands(es, own);
    if |managed| != 1 then Some(WrongCount(|managed|))
    else if !ReferencesPath(managed[0], script.Path()) then Some(WrongScript)
    else if managed[0] != expected then Some(WrongCommand)
    else None
  }

  /** The inner loop of `diagnose_settings_hooks`: one entry's managed commands. */
  method CollectManaged(hs: seq<Handler>, own: Handler -> bool) returns (managed: seq<string>)
    ensures managed == ManagedCommands(hs, own)
  {
    managed := [];
    assert hs[0..] == hs;
    for j := 0 to |hs|
      invariant managed + ManagedCommands(hs[j..], own) == ManagedCommands(hs, own)
    {
      assert hs[j..][1..] == hs[j + 1..];
      ghost var rest := ManagedCommands(hs[j + 1..], own);
      if hs[j].Handler? && hs[j].command.Some? && own(hs[j]) {
        assert managed + ([hs[j].command.value] + rest) == managed + [hs[j].command.value] + rest;
        managed := managed + [hs[j].command.value];
      } else {
        assert ManagedCommands(hs[j..], own) == rest;
      }
    }
  }

  lemma CommandsStep(managed: seq<string>, es: seq<Entry>, i: nat, own: Handler -> bool)
    requires i < |es|
    ensures managed + EventCommands(es[i..], own) ==
            managed + ManagedCommands(Handlers(es[i]), own) + EventCommands(es[i + 1..], own)
  {
    assert es[i..][1..] == es[i + 1..];
  }

  /** The outer loop: one event's managed commands. */
  method CollectEvent(es: seq<Entry>, own: Handler -> bool) returns (managed: seq<string>)
    ensures managed == EventCommands(es, own)
  {
    managed := [];
    assert es[0..] == es;
    for i := 0 to |es|
      invariant managed + EventCommands(es[i..], own) == EventCommands(es, own)
    {
      CommandsStep(managed, es, i, own);
      var more := CollectManaged(Handlers(es[i]), own);
      managed := managed + more;
    }
  }

  /** One event of `diagnose_settings_hooks`. */
  method DiagnoseEvent(es: seq<Entry>, script: Script, expected: string, own: Handler -> bool)
    returns (problem: Option<Problem>)
    ensures problem == EventProblem(es, script, expected, own)
  {
    var managed := CollectEvent(es, own);
    if |managed| != 1 { return Some(WrongCount(|managed|)); }
    if !ReferencesPath(managed[0], script.Path()) { return Some(WrongScript); }
    if managed[0] != expected { return Some(WrongCommand); }
    return None;
  }

  lemma {:induction false} EventCommandsConcat(a: seq<Entry>, b: seq<Entry>, own: Handler -> bool)
    ensures EventCommands(a + b, own) == EventCommands(a, own) + EventCommands(b, own)
    decreases |a|
  {
    if a == [] {
      assert a + b == b;
    } else {
      assert (a + b)[1..] == a[1..] + b;
      EventCommandsConcat(a[1..], b, own);
    }
  }

  lemma {:induction false} CleanHasNoCommands(hs: seq<Handler>, own: Handler -> bool)
    requires CountIn(hs, own) == 0
    ensures ManagedCommands(hs, own) == []
    decreases |hs|
  {
    if hs != [] { CleanHasNoCommands(hs[1..], own); }
  }

  lemma {:induction false} CleanEventHasNoCommands(es: seq<Entry>, own: Handler -> bool)
    requires Count(es, own) == 0
    ensures EventCommands(es, own) == []
    decreases |es|
  {
    if es != [] {
      CleanHasNoCommands(Handlers(es[0]), own);
      CleanEventHasNoCommands(es[1..], own);
    }
  }

  /** After reconciling, the doctor's only managed command is the canonical one. */
  lemma ReconciledCommands(es: seq<Entry>, command: string, own: Handler -> bool, placeFirst: bool)
    requires OwnsCanonical(own, command)
    ensures EventCommands(Reconciled(es, command, own, placeFirst), own) == [command]
  {
    var clean, p := Strip(es, own), Position(es, own, placeFirst);
    var a, b, c := clean[..p], clean[p..], [CanonicalEntry(command)];
    assert clean == a + b;
    StrippedHasNone(es, own);
    CountConcat(a, b, own);
    CleanEventHasNoCommands(a, own);
    CleanEventHasNoCommands(b, own);
    EventCommandsConcat(a, c + b, own);
    EventCommandsConcat(c, b, own);
    var hs := Handlers(c[0]);
    assert hs[1..] == [] && c[1..] == [];
    assert ManagedCommands(hs, own) == [command];
  }

  /** Reconciling with a command that runs a managed hub script satisfies the doctor,
      whatever the event held before. */
  lemma ReconciledIsHealthy(es: seq<Entry>, script: Script, command: string, names: set<string>, placeFirst: bool)
    requires script.InHub() && script.name in names && ReferencesPath(command, script.Path())
    ensures OwnsCanonical(Owner(names), command)
    ensures EventProblem(Reconciled(es, command, Owner(names), placeFirst), script, command, Owner(names)) == None
  {
    assert script.Path() == Aliases(script.Path())[0];
    ScriptIsHubScript(command, script);
    assert Managed(Handlers(CanonicalEntry(command))[0], names);
    ReconciledCommands(es, command, Owner(names), placeFirst);
  }

  /** Where only handlers with a command are owned, each contributes one command. */
  lemma {:induction false} CommandsCount(hs: seq<Handler>, own: Handler -> bool)
    requires forall h :: own(h) ==> h.Handler? && h.command.Some?
    ensures |ManagedCommands(hs, own)| == CountIn(hs, own)
    decreases |hs|
  {
    if hs != [] { CommandsCount(hs[1..], own); }
  }

  lemma {:induction false} EventCommandsCount(es: seq<Entry>, own: Handler -> bool)
    requires forall h :: own(h) ==> h.Handler? && h.command.Some?
    ensures |EventCommands(es, own)| == Count(es, own)
    decreases |es|
  {
    if es != [] {
      CommandsCount(Handlers(es[0]), own);
      EventCommandsCount(es[1..], own);
    }
  }

  /** A handler without a command is never managed. */
  lemma OwnerHasCommand(names: set<string>, h: Handler)
    requires Owner(names)(h)
    ensures h.Handler? && h.command.Some?
  {
    assert Tokens("") == [];
  }

  /** The doctor's count is the number of handlers removal would remove: it complains
      about the count exactly when that number is not one. */
  lemma DoctorCounts(es: seq<Entry>, script: Script, expected: string, names: set<string>)
    ensures var problem := EventProblem(es, script, expected, Owner(names));
            (problem.Some? && problem.value.WrongCount?) <==> Count(es, Owner(names)) != 1
  {
    forall h | Owner(names)(h) ensures h.Handler? && h.command.Some? { OwnerHasCommand(names, h); }
    EventCommandsCount(es, Owner(names));
  }
}
