/** `install_hooks` and `uninstall_hooks` as they edit the hooks table in place,
    proved against the event and table functions. */
module CodexHooks {
  import opened Options
  import opened HookTables
  import opened CodexEvent
  import opened CodexTable
  import CodexShape

  /** An object with this matcher; a missing matcher is the empty one. */
  predicate HasMatcher(e: Entry, matcher: string) {
    e.Entry? && (e.matcher == Some(matcher) || (e.matcher == None && matcher == ""))
  }

  /** `_matching_entry`. */
  method MatchingEntry(es: seq<Entry>, matcher: string) returns (t: nat)
    ensures t == FirstMatch(es, matcher)
    ensures t < |es| ==> HasMatcher(es[t], matcher)
    ensures forall i :: 0 <= i < t ==> !HasMatcher(es[i], matcher)
  {
    t := 0;
    while t < |es| && !Matches(es[t], matcher)
      invariant t <= |es| && FirstMatch(es, matcher) == t + FirstMatch(es[t..], matcher)
    {
      assert es[t..][1..] == es[t + 1..];
      t := t + 1;
    }
  }

  /** `hook_script_present` on one entry; `fault` is the error raised by a handler
      that is not an object and stands before the first match. */
  method HookScriptPresent(hs: seq<Handler>, runs: Test) returns (fault: bool, present: bool)
    ensures fault <==> exists i :: 0 <= i < FirstRun(hs, runs) && hs[i].RawHandler?
    ensures !fault ==> present == (FirstRun(hs, runs) < |hs|)
    ensures !fault ==> (present <==> exists i :: 0 <= i < |hs| && hs[i].Handler? &&
                                       runs(if hs[i].command.Some? then hs[i].command.value else ""))
  {
    for i := 0 to |hs|
      invariant forall j :: 0 <= j < i ==> hs[j].Handler? && !Passes(hs[j], runs)
    {
      if hs[i].RawHandler? { return true, false; }
      if Passes(hs[i], runs) { return false, true; }
    }
    return false, false;
  }

  /** The body of the loop of `update_hook_command` for a handler object. */
  method UpdateHandler(h: Handler, job: Job) returns (hook: Handler, changed: bool)
    ensures hook == Updated(h, job) && changed == (hook != h)
  {
    hook, changed := h, false;
    if !Passes(h, job.runs) { return; }
    if hook.command != Some(job.command) {
      hook := hook.(command := Some(job.command));
      changed := true;
    }
    if hook.timeout != Some(HOOK_TIMEOUT) {
      hook := hook.(timeout := Some(HOOK_TIMEOUT));
      changed := true;
    }
    if hook.legacyTimeout.Some? {
      hook := hook.(legacyTimeout := None);
      changed := true;
    }
  }

  lemma OneMore<T>(s: seq<T>, i: nat)
    requires i < |s|
    ensures s[..i + 1] == s[..i] + [s[i]]
  {
  }

  lemma SnocDiffers<T>(a: seq<T>, x: T, b: seq<T>, y: T)
    ensures a + [x] == b + [y] <==> a == b && x == y
  {
    assert (a + [x])[..|a|] == a && (b + [y])[..|b|] == b;
    assert a + [x] == b + [y] ==> |a + [x]| == |b + [y]|;
  }

  /** `update_hook_command` on one entry. */
  method UpdateHookCommand(hs: seq<Handler>, job: Job) returns (fault: bool, updated: seq<Handler>, changed: bool)
    ensures fault <==> !AllObjects(hs)
    ensures !fault ==> updated == UpdatedAll(hs, job) && changed == (updated != hs)
  {
    ghost var all := UpdatedAll(hs, job);
    updated, changed := [], false;
    for i := 0 to |hs|
      invariant updated == all[..i] && changed == (updated != hs[..i])
      invariant forall j :: 0 <= j < i ==> hs[j].Handler?
    {
      if hs[i].RawHandler? { return true, hs, false; }
      var hook, hookChanged := UpdateHandler(hs[i], job);
      OneMore(all, i);
      OneMore(hs, i);
      SnocDiffers(all[..i], hook, hs[..i], hs[i]);
      updated, changed := updated + [hook], changed || hookChanged;
    }
    assert hs[..|hs|] == hs && all[..|hs|] == all;
    return false, updated, changed;
  }

  /** The search of `_move_script_hook_first`. */
  method FindRun(hs: seq<Handler>, runs: Test) returns (at: nat)
    ensures at == FirstRun(hs, runs)
  {
    for i := 0 to |hs|
      invariant i <= FirstRun(hs, runs)
    {
      var found := Passes(hs[i], runs);
      if found { return i; }
    }
    return |hs|;
  }

  /** `hooks.insert(0, hooks.pop(index))`. */
  method MoveToFront<T>(s: seq<T>, i: nat) returns (moved: seq<T>)
    requires i < |s|
    ensures moved == MovedFirst(s, i)
  {
    var x, rest := s[i], s[..i] + s[i + 1..];
    moved := [x] + rest;
  }

  /** `_move_script_hook_first`. */
  method MoveScriptHookFirst(hs: seq<Handler>, runs: Test) returns (moved: seq<Handler>, changed: bool)
    ensures var i := FirstRun(hs, runs);
      && (i < |hs| ==> moved == MovedFirst(hs, i) && changed == (i > 0))
      && (i == |hs| ==> moved == hs && !changed)
  {
    var i := FindRun(hs, runs);
    if i == |hs| { return hs, false; }
    if i == 0 {
      MovedFromFront(hs);
      return hs, false;
    }
    moved := MoveToFront(hs, i);
    return moved, true;
  }

  lemma PrunedStep(kept: seq<Handler>, hs: seq<Handler>, i: nat, job: Job, keepOne: bool)
    requires i < |hs|
    ensures var all, rest := kept + Pruned(hs[i..], job, keepOne), hs[i + 1..];
      && (keepOne && Passes(hs[i], job.runs) ==> all == kept + [hs[i]] + Pruned(rest, job, false))
      && (!(keepOne && Passes(hs[i], job.runs)) ==>
            all == if Passes(hs[i], job.named) then kept + Pruned(rest, job, keepOne)
                   else kept + [hs[i]] + Pruned(rest, job, keepOne))
  {
    assert hs[i..][1..] == hs[i + 1..];
  }

  /** The inner loop of `prune_duplicate_hub_hook_handlers`. */
  method PruneHandlers(hs: seq<Handler>, job: Job, keepEntry: bool) returns (kept: seq<Handler>)
    ensures kept == Pruned(hs, job, keepEntry)
  {
    kept := [];
    var keptCurrent := false;
    assert hs[0..] == hs;
    for i := 0 to |hs|
      invariant kept + Pruned(hs[i..], job, keepEntry && !keptCurrent) == Pruned(hs, job, keepEntry)
    {
      PrunedStep(kept, hs, i, job, keepEntry && !keptCurrent);
      var current, named := Passes(hs[i], job.runs), Passes(hs[i], job.named);
      if current && keepEntry && !keptCurrent {
        kept := kept + [hs[i]];
        keptCurrent := true;
      } else if !named {
        kept := kept + [hs[i]];
      }
    }
  }

  lemma WithoutOwnedStep(kept: seq<Handler>, hs: seq<Handler>, i: nat, owned: Test)
    requires i < |hs|
    ensures kept + WithoutOwned(hs[i..], owned) ==
      (if Passes(hs[i], owned) then kept else kept + [hs[i]]) + WithoutOwned(hs[i + 1..], owned)
  {
    assert hs[i..][1..] == hs[i + 1..];
  }

  /** The loop of `_remove_hub_hooks_from_entries` over one entry's handlers. */
  method RemoveOwnedHandlers(hs: seq<Handler>, owned: Test) returns (kept: seq<Handler>)
    ensures kept == WithoutOwned(hs, owned)
  {
    kept := [];
    assert hs[0..] == hs;
    for i := 0 to |hs|
      invariant kept + WithoutOwned(hs[i..], owned) == WithoutOwned(hs, owned)
    {
      WithoutOwnedStep(kept, hs, i, owned);
      var belongs := Passes(hs[i], owned);
      if !belongs { kept := kept + [hs[i]]; }
    }
  }

  /** `hook_belongs_to`: false for an empty list, otherwise the answer of `all`,
      which stops at the first handler outside the directory. */
  method HookBelongsTo(hs: seq<Handler>, owned: Test) returns (fault: bool, all: bool)
    ensures fault <==> BelongsScanFails(hs, owned)
    ensures !fault ==> (all <==> hs != [] && forall i :: 0 <= i < |hs| ==> Passes(hs[i], owned))
  {
    assert hs[0..] == hs;
    for i := 0 to |hs|
      invariant forall j :: 0 <= j < i ==> Passes(hs[j], owned)
      invariant BelongsScanFails(hs[i..], owned) == BelongsScanFails(hs, owned)
    {
      assert hs[i..][1..] == hs[i + 1..];
      if hs[i].RawHandler? { return true, false; }
      if !Passes(hs[i], owned) { return false, false; }
    }
    return false, hs != [];
  }

  lemma {:induction false} AllBelongLeavesNothing(hs: seq<Handler>, owned: Test)
    requires forall i :: 0 <= i < |hs| ==> Passes(hs[i], owned)
    ensures WithoutOwned(hs, owned) == []
    decreases |hs|
  {
    if hs != [] {
      assert forall i :: 0 <= i < |hs[1..]| ==> hs[1..][i] == hs[i + 1];
      AllBelongLeavesNothing(hs[1..], owned);
    }
  }

  /** The steps of `install_hooks` that edit the target entry's handlers. */
  method PlaceHandler(hs: seq<Handler>, job: Job) returns (fault: bool, placed: seq<Handler>, changed: bool)
    requires job.runs(job.command)
    ensures fault <==> !AllObjects(hs)
    ensures !fault ==> placed == Placed(hs, job) && changed == PlacingChanges(hs, job)
  {
    placed, changed := hs, false;
    var scanFault, present := HookScriptPresent(hs, job.runs);
    if scanFault { return true, hs, false; }
    if present {
      fault, placed, changed := UpdateHookCommand(hs, job);
      if fault { return true, hs, false; }
    } else {
      placed, changed := [NewHandler(job.command)] + hs, true;
    }
    var moved, movedChanged := MoveScriptHookFirst(placed, job.runs);
    PlacingSteps(hs, job, present, placed, moved, changed, movedChanged);
    return false, moved, changed || movedChanged;
  }

  /** An event's list of entries, edited in place. */
  class EntryList {
    var entries: seq<Entry>

    constructor (entries: seq<Entry>)
      ensures this.entries == entries
    {
      this.entries := entries;
    }

    /** The body of the loop of `install_hooks` for one event. */
    method Install(job: Job) returns (fault: bool, changed: bool)
      requires job.runs(job.command)
      modifies this
      ensures fault <==> InstallEvent(old(entries), job).Crash?
      ensures !fault ==> InstallEvent(old(entries), job) == Done(entries, changed)
    {
      changed := false;
      var t := MatchingEntry(entries, job.matcher);
      if t == |entries| {
        entries := entries + [NewEntry(job.matcher)];
        changed := true;
      }
      assert entries == WithTarget(old(entries), job.matcher);
      if entries[t].hooks.NotAList? { return true, changed; }
      var placeFault, placed, placing := PlaceHandler(Handlers(entries[t]), job);
      if placeFault { return true, changed; }
      entries := entries[t := entries[t].(hooks := HookList(placed))];
      var pruned := PruneDuplicates(job, t);
      fault, changed := false, changed || placing || pruned;
    }

    /** `prune_duplicate_hub_hook_handlers` keeping the entry at `t`. */
    method PruneDuplicates(job: Job, t: nat) returns (changed: bool)
      modifies this
      ensures entries == Prune(old(entries), job, t)
      ensures changed == PruneChanges(old(entries), job, t)
    {
      changed := false;
      var es, keptEntries := entries, [];
      assert es[0..] == es;
      for i := 0 to |es|
        invariant entries == es
        invariant keptEntries + Kept(es[i..], job, t - i) == Kept(es, job, t)
        invariant (changed || PruneChanges(es[i..], job, t - i)) == PruneChanges(es, job, t)
      {
        KeptStep(keptEntries, es, i, job, t);
        var keptEntry, entryChanged := PruneEntry(es[i], job, i == t);
        keptEntries, changed := keptEntries + keptEntry, changed || entryChanged;
      }
      if changed { entries := keptEntries; }
    }

    /** `_remove_hub_hooks_from_entries`, and the comparison that follows it. */
    method RemoveOwned(owned: Test) returns (fault: bool, changed: bool)
      modifies this
      ensures fault <==> UninstallEvent(old(entries), owned).Crash?
      ensures !fault ==> UninstallEvent(old(entries), owned) == Done(entries, changed)
      ensures !fault ==> CodexShape.KeptForeign(old(entries), entries, owned)
    {
      var es, keptEntries := entries, [];
      assert es[0..] == es;
      for i := 0 to |es|
        invariant entries == es
        invariant forall j :: 0 <= j < i ==> !BelongsScanFails(Handlers(es[j]), owned)
        invariant keptEntries + Stripped(es[i..], owned) == Stripped(es, owned)
      {
        StrippedStep(keptEntries, es, i, owned);
        var stripFault, stripped := StripEntry(es[i], owned);
        if stripFault { return true, false; }
        keptEntries := keptEntries + stripped;
      }
      fault, changed := false, keptEntries != entries;
      entries := keptEntries;
      CodexShape.UninstallKeepsForeign(old(entries), owned);
    }
  }

  /** The body of the outer loop of `prune_duplicate_hub_hook_handlers`. */
  method PruneEntry(entry: Entry, job: Job, keepEntry: bool) returns (kept: seq<Entry>, changed: bool)
    ensures kept == KeptEntry(entry, job, keepEntry)
    ensures changed == (Pruned(Handlers(entry), job, keepEntry) != Handlers(entry))
  {
    if Untouchable(entry) { return [entry], false; }
    var hs := Handlers(entry);
    var filtered := PruneHandlers(hs, job, keepEntry);
    changed := filtered != hs;
    kept := if filtered != [] then [entry.(hooks := HookList(filtered))] else [];
  }

  /** The body of the loop of `_remove_hub_hooks_from_entries`. */
  method StripEntry(entry: Entry, owned: Test) returns (fault: bool, stripped: seq<Entry>)
    ensures fault <==> BelongsScanFails(Handlers(entry), owned)
    ensures !fault ==> stripped == StrippedEntry(entry, owned)
  {
    if Untouchable(entry) { return false, [entry]; }
    var hs := Handlers(entry);
    var scanFault, all := HookBelongsTo(hs, owned);
    if scanFault { return true, []; }
    if all {
      AllBelongLeavesNothing(hs, owned);
      return false, [];
    }
    var filtered := RemoveOwnedHandlers(hs, owned);
    return false, if filtered != [] then [entry.(hooks := HookList(filtered))] else [];
  }

  lemma KeptStep(kept: seq<Entry>, es: seq<Entry>, i: nat, job: Job, t: nat)
    requires i < |es|
    ensures kept + Kept(es[i..], job, t - i) ==
            kept + KeptEntry(es[i], job, i == t) + Kept(es[i + 1..], job, t - (i + 1))
    ensures PruneChanges(es[i..], job, t - i) <==>
      Pruned(Handlers(es[i]), job, i == t) != Handlers(es[i]) || PruneChanges(es[i + 1..], job, t - (i + 1))
  {
    assert es[i..][1..] == es[i + 1..];
  }

  lemma StrippedStep(kept: seq<Entry>, es: seq<Entry>, i: nat, owned: Test)
    requires i < |es|
    ensures kept + Stripped(es[i..], owned) == kept + StrippedEntry(es[i], owned) + Stripped(es[i + 1..], owned)
  {
    assert es[i..][1..] == es[i + 1..];
  }

  /** Updating in place or inserting, and then moving, is placing. */
  lemma PlacingSteps(hs: seq<Handler>, job: Job, present: bool, before: seq<Handler>, moved: seq<Handler>,
                     placing: bool, movedChanged: bool)
    requires present == (FirstRun(hs, job.runs) < |hs|)
    requires present ==> before == UpdatedAll(hs, job) && placing == (before != hs)
    requires !present ==> before == [NewHandler(job.command)] + hs && placing
    requires var i := FirstRun(before, job.runs);
      && (i < |before| ==> moved == MovedFirst(before, i) && movedChanged == (i > 0))
      && (i == |before| ==> moved == before && !movedChanged)
    requires job.runs(job.command)
    ensures moved == Placed(hs, job)
    ensures (placing || movedChanged) == PlacingChanges(hs, job)
  {
    var i := FirstRun(hs, job.runs);
    if present {
      FirstRunIs(before, job.runs, i);
    } else {
      FirstRunIs(before, job.runs, 0);
      assert MovedFirst(before, 0) == before;
    }
  }

  lemma {:induction false} FirstRunIs(hs: seq<Handler>, runs: Test, i: nat)
    requires i < |hs| && Passes(hs[i], runs) && forall j :: 0 <= j < i ==> !Passes(hs[j], runs)
    ensures FirstRun(hs, runs) == i
  {
    var k := FirstRun(hs, runs);
    assert !(k < i) && !(i < k);
  }

  lemma ApplyStep(step: (seq<Entry>, Job) -> Outcome, data: Table, regs: seq<Registration>, i: nat)
    requires i < |regs|
    ensures ApplyEach(step, data, regs[i..]) ==
      match step(EntriesOf(data, regs[i].event), regs[i].job)
      case Crash => TableCrash
      case Done(entries, changed) =>
        match ApplyEach(step, data[regs[i].event := entries], regs[i + 1..])
        case TableCrash => TableCrash
        case TableDone(final, later) => TableDone(final, changed || later)
  {
    assert regs[i..][1..] == regs[i + 1..];
  }

  /** hooks.json: the hooks table on disk. */
  class HookFile {
    var hooks: Table

    constructor (hooks: Table)
      ensures this.hooks == hooks
    {
      this.hooks := hooks;
    }

    /** `install_hooks` up to the trust state; an error leaves the file as it was. */
    method InstallHooks(regs: seq<Registration>) returns (fault: bool, changed: bool)
      requires Runnable(regs)
      modifies this
      ensures fault <==> InstallTable(old(hooks), regs).TableCrash?
      ensures fault ==> hooks == old(hooks)
      ensures !fault ==> InstallTable(old(hooks), regs) == TableDone(hooks, changed)
    {
      var data := hooks;
      changed := false;
      assert regs[0..] == regs;
      for i := 0 to |regs|
        invariant hooks == old(hooks)
        invariant ApplyEach(InstallEvent, old(hooks), regs) ==
          match ApplyEach(InstallEvent, data, regs[i..])
          case TableCrash => TableCrash
          case TableDone(final, later) => TableDone(final, changed || later)
      {
        ApplyStep(InstallEvent, data, regs, i);
        var list := new EntryList(EntriesOf(data, regs[i].event));
        var eventFault, eventChanged := list.Install(regs[i].job);
        if eventFault { return true, false; }
        data := data[regs[i].event := list.entries];
        changed := changed || eventChanged;
      }
      fault := false;
      if changed {
        hooks := data;
      } else {
        UnchangedTable(old(hooks), regs);
      }
    }

    /** `uninstall_hooks`. */
    method UninstallHooks(owned: Test, events: seq<string>) returns (fault: bool, changed: bool)
      modifies this
      ensures fault <==> UninstallTable(old(hooks), owned, events).TableCrash?
      ensures fault ==> hooks == old(hooks)
      ensures !fault ==> UninstallTable(old(hooks), owned, events) == TableDone(hooks, changed)
      ensures !fault ==> hooks.Keys == old(hooks).Keys && forall event :: event in hooks ==>
        if event in events then CodexShape.KeptForeign(old(hooks)[event], hooks[event], owned)
        else hooks[event] == old(hooks)[event]
    {
      CodexShape.UninstallKeepsForeignTable(hooks, owned, events);
      var data := hooks;
      changed := false;
      assert events[0..] == events;
      for i := 0 to |events|
        invariant hooks == old(hooks)
        invariant UninstallTable(old(hooks), owned, events) ==
          match UninstallTable(data, owned, events[i..])
          case TableCrash => TableCrash
          case TableDone(final, later) => TableDone(final, changed || later)
      {
        assert events[i..][1..] == events[i + 1..];
        var list := new EntryList(EntriesOf(data, events[i]));
        var eventFault, eventChanged := list.RemoveOwned(owned);
        if eventFault { return true, false; }
        if eventChanged {
          data := data[events[i] := list.entries];
          changed := true;
        }
      }
      fault := false;
      if changed {
        hooks := data;
      } else {
        UninstallReportsChange(old(hooks), owned, events);
      }
    }
  }
}
