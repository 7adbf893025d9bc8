/** What installing and uninstalling leave of an event, entry by entry and handler by
    handler, and when they raise. */
module CodexShape {
  import opened Options
  import opened Sequences
  import opened HookTables
  import opened CodexEvent
  import opened CodexTable

  // ----- what foreign configuration is

  /** The handler is an object whose command, empty if it has none, passes the test. */
  predicate HasCommand(h: Handler, test: Test) {
    h.Handler? && test(if h.command.Some? then h.command.value else "")
  }

  /** One piece of the event's configuration: an entry that is no object or holds no list of
      handlers, or a handler of another entry, with that entry's matcher and other keys,
      that does not pass the test. */
  ghost predicate IsForeign(es: seq<Entry>, named: Test, item: Item) {
    exists i :: 0 <= i < |es| && ForeignIn(es[i], named, item)
  }

  ghost predicate ForeignIn(e: Entry, named: Test, item: Item) {
    if e.RawEntry? || e.hooks.NotAList? then item == Whole(e)
    else
      item.Part? && item.matcher == e.matcher && item.rest == e.rest && !HasCommand(item.handler, named)
      && e.hooks.HookList? && item.handler in e.hooks.handlers
  }

  lemma {:induction false} PartsMean(e: Entry, hs: seq<Handler>, named: Test, item: Item)
    requires e.Entry?
    ensures item in ForeignParts(e, hs, named) <==>
      item.Part? && item.matcher == e.matcher && item.rest == e.rest && !HasCommand(item.handler, named)
      && item.handler in hs
    decreases |hs|
  {
    if hs != [] {
      PartsMean(e, hs[1..], named, item);
      assert hs == [hs[0]] + hs[1..];
    }
  }

  /** `Foreign` lists exactly these pieces. */
  lemma {:induction false} ForeignMeans(es: seq<Entry>, named: Test, item: Item)
    ensures item in Foreign(es, named) <==> IsForeign(es, named, item)
    decreases |es|
  {
    if es != [] {
      ForeignMeans(es[1..], named, item);
      if es[0].Entry? { PartsMean(es[0], Handlers(es[0]), named, item); }
      assert item in ForeignEntry(es[0], named) <==> ForeignIn(es[0], named, item);
      if i :| 0 <= i < |es[1..]| && ForeignIn(es[1..][i], named, item) { assert es[i + 1] == es[1..][i]; }
      if i :| 1 <= i < |es| && ForeignIn(es[i], named, item) { assert es[1..][i - 1] == es[i]; }
    }
  }

  /** No handler of the event passes the test. */
  ghost predicate NoneHas(es: seq<Entry>, test: Test) {
    forall i :: 0 <= i < |es| ==> NoneIn(es[i], test)
  }

  ghost predicate NoneIn(e: Entry, test: Test) {
    e.Entry? && e.hooks.HookList? ==> forall h :: h in e.hooks.handlers ==> !HasCommand(h, test)
  }

  lemma NoneInEntry(e: Entry, test: Test)
    ensures NoneNamed(Handlers(e), test) <==> NoneIn(e, test)
  {
    var hs := Handlers(e);
    assert forall h :: h in hs ==> (HasCommand(h, test) <==> Passes(h, test));
    if NoneIn(e, test) {
      forall i | 0 <= i < |hs| ensures !Passes(hs[i], test) { assert hs[i] in hs; }
    }
  }

  lemma {:induction false} NoneMeans(es: seq<Entry>, test: Test)
    ensures NoneNamedIn(es, test) <==> NoneHas(es, test)
    decreases |es|
  {
    if es != [] {
      NoneMeans(es[1..], test);
      NoneInEntry(es[0], test);
      assert forall i :: 1 <= i < |es| ==> es[i] == es[1..][i - 1];
      assert forall i :: 0 <= i < |es[1..]| ==> es[1..][i] == es[i + 1];
    }
  }

  // ----- what uninstalling keeps

  lemma {:induction false} ScanFails(hs: seq<Handler>, owned: Test)
    ensures BelongsScanFails(hs, owned) <==>
      exists j :: 0 <= j < |hs| && hs[j].RawHandler? && forall k :: 0 <= k < j ==> Passes(hs[k], owned)
    decreases |hs|
  {
    if hs != [] {
      ScanFails(hs[1..], owned);
      if BelongsScanFails(hs[1..], owned) && Passes(hs[0], owned) {
        var j :| 0 <= j < |hs[1..]| && hs[1..][j].RawHandler? && forall k :: 0 <= k < j ==> Passes(hs[1..][k], owned);
        assert hs[j + 1] == hs[1..][j] && forall k :: 1 <= k < j + 1 ==> hs[k] == hs[1..][k - 1];
      }
      if j :| 0 < j < |hs| && hs[j].RawHandler? && forall k :: 0 <= k < j ==> Passes(hs[k], owned) {
        assert hs[1..][j - 1] == hs[j] && forall k :: 0 <= k < j - 1 ==> hs[1..][k] == hs[k + 1];
      }
    }
  }

  /** Uninstalling raises exactly at a handler that is not an object behind owned ones only. */
  lemma UninstallEventCrashes(es: seq<Entry>, owned: Test)
    ensures UninstallEvent(es, owned).Crash? <==> CrashesAt(es, owned)
  {
    forall i | 0 <= i < |es|
      ensures BelongsScanFails(Handlers(es[i]), owned) <==> RawBehindOwned(Handlers(es[i]), owned)
    {
      ScanFails(Handlers(es[i]), owned);
    }
  }

  ghost predicate CrashesAt(es: seq<Entry>, owned: Test) {
    exists i :: 0 <= i < |es| && RawBehindOwned(Handlers(es[i]), owned)
  }

  ghost predicate RawBehindOwned(hs: seq<Handler>, owned: Test) {
    exists j :: 0 <= j < |hs| && hs[j].RawHandler? && forall k :: 0 <= k < j ==> Passes(hs[k], owned)
  }

  lemma {:induction false} WithoutOwnedForeign(e: Entry, hs: seq<Handler>, owned: Test)
    requires e.Entry?
    ensures ForeignParts(e, WithoutOwned(hs, owned), owned) == ForeignParts(e, hs, owned)
    ensures WithoutOwned(hs, owned) == [] <==> ForeignParts(e, hs, owned) == []
    decreases |hs|
  {
    if hs != [] {
      WithoutOwnedForeign(e, hs[1..], owned);
      if Passes(hs[0], owned) {
        assert WithoutOwned(hs, owned) == WithoutOwned(hs[1..], owned);
      } else {
        var rest := WithoutOwned(hs[1..], owned);
        assert ([hs[0]] + rest)[1..] == rest;
      }
    }
  }

  lemma StrippedEntryKeeps(e: Entry, owned: Test)
    ensures var kept := StrippedEntry(e, owned);
      && NoneNamedIn(kept, owned) && Foreign(kept, owned) == ForeignEntry(e, owned)
      && Groups(kept, owned) == Groups([e], owned) && |Groups(kept, owned)| == |kept|
  {
    var kept := StrippedEntry(e, owned);
    assert [e][1..] == [];
    if !Untouchable(e) {
      WithoutOwnedForeign(e, Handlers(e), owned);
      WithoutOwnedClean(Handlers(e), owned);
      if kept != [] { SameMetadata(kept[0], e, WithoutOwned(Handlers(e), owned), owned); }
    }
    if kept != [] {
      ForeignOne(kept[0], owned);
      assert kept == [kept[0]] && kept[1..] == [];
    }
  }

  lemma {:induction false} NoneNamedInConcat(a: seq<Entry>, b: seq<Entry>, named: Test)
    ensures NoneNamedIn(a + b, named) <==> NoneNamedIn(a, named) && NoneNamedIn(b, named)
    decreases |a|
  {
    if a == [] {
      assert a + b == b;
    } else {
      assert (a + b)[1..] == a[1..] + b;
      NoneNamedInConcat(a[1..], b, named);
    }
  }

  lemma {:induction false} StrippedKeeps(es: seq<Entry>, owned: Test)
    ensures var kept := Stripped(es, owned);
      && NoneNamedIn(kept, owned) && Foreign(kept, owned) == Foreign(es, owned)
      && Groups(kept, owned) == Groups(es, owned) && |Groups(kept, owned)| == |kept|
    decreases |es|
  {
    if es != [] {
      StrippedEntryKeeps(es[0], owned);
      StrippedKeeps(es[1..], owned);
      NoneNamedInConcat(StrippedEntry(es[0], owned), Stripped(es[1..], owned), owned);
      ForeignConcat(StrippedEntry(es[0], owned), Stripped(es[1..], owned), owned);
      GroupsConcat(StrippedEntry(es[0], owned), Stripped(es[1..], owned), owned);
      GroupsConcat([es[0]], es[1..], owned);
      assert es == [es[0]] + es[1..];
    }
  }

  ghost predicate KeptForeign(before: seq<Entry>, after: seq<Entry>, owned: Test) {
    && NoneHas(after, owned) && Foreign(after, owned) == Foreign(before, owned)
    && Groups(after, owned) == Groups(before, owned) && |Groups(after, owned)| == |after|
  }

  /** Uninstalling leaves no owned handler and every foreign one, in order, in its own
      entry, and untouchable entries whole; an entry is left exactly when something
      foreign is in it. */
  lemma UninstallKeepsForeign(es: seq<Entry>, owned: Test)
    requires UninstallEvent(es, owned).Done?
    ensures KeptForeign(es, UninstallEvent(es, owned).entries, owned)
    ensures UninstallEvent(es, owned).changed <==> UninstallEvent(es, owned).entries != es
  {
    StrippedKeeps(es, owned);
    NoneMeans(UninstallEvent(es, owned).entries, owned);
  }

  lemma EntriesLookup(table: Table, event: string)
    ensures event in table ==> EntriesOf(table, event) == table[event]
    ensures event !in table ==> EntriesOf(table, event) == []
  {
  }

  /** The same for a whole table: it raises exactly when the step of some named event
      raises, keeps what is foreign in every named event, and leaves the others alone. */
  lemma UninstallKeepsForeignTable(table: Table, owned: Test, events: seq<string>)
    ensures UninstallTable(table, owned, events).TableCrash? <==>
      exists event :: event in events && event in table && CrashesAt(table[event], owned)
    ensures UninstallTable(table, owned, events).TableDone? ==>
      var after := UninstallTable(table, owned, events).table;
      && after.Keys == table.Keys
      && (forall event :: event in after && event in events ==> KeptForeign(table[event], after[event], owned))
      && (forall event :: event in after && event !in events ==> after[event] == table[event])
  {
    UninstallEachEvent(table, owned, events);
    forall event ensures UninstallEvent(EntriesOf(table, event), owned).Crash? <==>
                         event in table && CrashesAt(table[event], owned) {
      EntriesLookup(table, event);
      UninstallEventCrashes(EntriesOf(table, event), owned);
    }
    var r := UninstallTable(table, owned, events);
    if r.TableDone? {
      forall event | event in table
        ensures event in events ==> KeptForeign(table[event], r.table[event], owned)
        ensures event !in events ==> r.table[event] == table[event]
      {
        EntriesLookup(table, event);
        EntriesLookup(r.table, event);
        UninstallNamed(table, owned, events, event);
      }
    }
  }

  lemma UninstallNamed(table: Table, owned: Test, events: seq<string>, event: string)
    requires event in events ==> UninstallEvent(EntriesOf(table, event), owned).Done?
    ensures event in events ==> KeptForeign(EntriesOf(table, event), EntriesAfter(table, owned, events, event), owned)
    ensures event !in events ==> EntriesAfter(table, owned, events, event) == EntriesOf(table, event)
  {
    if event in events { UninstallKeepsForeign(EntriesOf(table, event), owned); }
  }

  // ----- the exact result of installing

  /** The handlers of the entry are no list, or one of them is no object. */
  ghost predicate Unreadable(e: Entry)
    requires e.Entry?
  {
    e.hooks.NotAList? || exists j :: 0 <= j < |Handlers(e)| && Handlers(e)[j].RawHandler?
  }

  /** Installing raises exactly when the first entry with the matcher is unreadable. */
  lemma InstallEventCrashes(es: seq<Entry>, job: Job)
    ensures InstallEvent(es, job).Crash? <==>
      FirstMatch(es, job.matcher) < |es| && Unreadable(es[FirstMatch(es, job.matcher)])
  {
    var t := FirstMatch(es, job.matcher);
    if t < |es| { UsableOrNot(es[t]); }
  }

  lemma UsableOrNot(e: Entry)
    requires e.Entry?
    ensures Usable(e) <==> !Unreadable(e)
  {
    if !AllObjects(Handlers(e)) {
      var j :| 0 <= j < |Handlers(e)| && !Handlers(e)[j].Handler?;
    }
  }

  lemma {:induction false} PrunedIsWithout(hs: seq<Handler>, job: Job)
    ensures Pruned(hs, job, false) == WithoutOwned(hs, job.named)
    decreases |hs|
  {
    if hs != [] { PrunedIsWithout(hs[1..], job); }
  }

  lemma KeptEntryIsStripped(e: Entry, job: Job)
    ensures KeptEntry(e, job, false) == StrippedEntry(e, job.named)
  {
    PrunedIsWithout(Handlers(e), job);
  }

  lemma {:induction false} KeptBehind(es: seq<Entry>, job: Job, t: int)
    requires t < 0
    ensures Kept(es, job, t) == Stripped(es, job.named)
    decreases |es|
  {
    if es != [] {
      KeptEntryIsStripped(es[0], job);
      KeptBehind(es[1..], job, t - 1);
    }
  }

  lemma {:induction false} KeptIs(a: seq<Entry>, e: Entry, b: seq<Entry>, job: Job)
    ensures Kept(a + ([e] + b), job, |a|) ==
            Stripped(a, job.named) + (KeptEntry(e, job, true) + Stripped(b, job.named))
    decreases |a|
  {
    if a == [] {
      assert a + ([e] + b) == [e] + b;
      KeptCons(e, b, job, 0);
      KeptBehind(b, job, -1);
    } else {
      assert a + ([e] + b) == [a[0]] + (a[1..] + ([e] + b));
      KeptCons(a[0], a[1..] + ([e] + b), job, |a|);
      KeptEntryIsStripped(a[0], job);
      KeptIs(a[1..], e, b, job);
      Associates(StrippedEntry(a[0], job.named), Stripped(a[1..], job.named),
                 KeptEntry(e, job, true) + Stripped(b, job.named));
    }
  }

  lemma {:induction false} WithoutOwnedConcat(a: seq<Handler>, b: seq<Handler>, owned: Test)
    ensures WithoutOwned(a + b, owned) == WithoutOwned(a, owned) + WithoutOwned(b, owned)
    decreases |a|
  {
    if a == [] {
      assert a + b == b;
    } else {
      assert (a + b)[1..] == a[1..] + b;
      WithoutOwnedConcat(a[1..], b, owned);
    }
  }

  lemma {:induction false} UpdatedWithout(hs: seq<Handler>, job: Job)
    requires job.Valid()
    ensures WithoutOwned(UpdatedAll(hs, job), job.named) == WithoutOwned(hs, job.named)
    decreases |hs|
  {
    if hs != [] {
      UpdatedWithout(hs[1..], job);
      assert UpdatedAll(hs, job)[1..] == UpdatedAll(hs[1..], job);
      if Passes(hs[0], job.runs) { CanonicalRuns(Updated(hs[0], job), job); }
    }
  }

  /** The handler an installation puts in front: the first that runs the script, with
      command and timeout brought up to date and everything else as it was, or a new one. */
  function Front(hs: seq<Handler>, job: Job): Handler {
    var i := FirstRun(hs, job.runs);
    if i < |hs| then hs[i].(command := Some(job.command), timeout := Some(10), legacyTimeout := None)
    else Handler(Some("command"), Some(job.command), Some(10), None, false, None, "")
  }

  lemma PlacedIs(hs: seq<Handler>, job: Job) returns (rest: seq<Handler>)
    requires job.Valid()
    ensures Placed(hs, job) == [Front(hs, job)] + rest
    ensures WithoutOwned(rest, job.named) == WithoutOwned(hs, job.named)
    ensures Passes(Front(hs, job), job.runs) && Passes(Front(hs, job), job.named)
    ensures NamedIn(rest, job.named) == NamedIn(hs, job.named) - (if FirstRun(hs, job.runs) < |hs| then 1 else 0)
  {
    var i := FirstRun(hs, job.runs);
    if i == |hs| {
      rest := hs;
    } else {
      var us := UpdatedAll(hs, job);
      rest := us[..i] + us[i + 1..];
      CanonicalRuns(us[i], job);
      WithoutOne(us, i, job.named);
      UpdatedWithout(hs, job);
      UpdatedNamed(hs, job);
      Associates([us[i]], us[..i], us[i + 1..]);
    }
  }

  lemma NamedCons(h: Handler, b: seq<Handler>, named: Test)
    requires Passes(h, named)
    ensures WithoutOwned([h] + b, named) == WithoutOwned(b, named)
    ensures NamedIn([h] + b, named) == NamedIn(b, named) + 1
  {
    assert ([h] + b)[1..] == b;
  }

  lemma WithoutMiddle(a: seq<Handler>, h: Handler, b: seq<Handler>, named: Test)
    requires Passes(h, named)
    ensures WithoutOwned(a + b, named) == WithoutOwned(a + ([h] + b), named)
    ensures NamedIn(a + b, named) == NamedIn(a + ([h] + b), named) - 1
  {
    NamedCons(h, b, named);
    WithoutOwnedConcat(a, [h] + b, named);
    WithoutOwnedConcat(a, b, named);
    NamedInConcat(a, [h] + b, named);
    NamedInConcat(a, b, named);
  }

  lemma WithoutOne(hs: seq<Handler>, i: nat, named: Test)
    requires i < |hs| && Passes(hs[i], named)
    ensures WithoutOwned(hs[..i] + hs[i + 1..], named) == WithoutOwned(hs, named)
    ensures NamedIn(hs[..i] + hs[i + 1..], named) == NamedIn(hs, named) - 1
  {
    SplitAround(hs, i);
    WithoutMiddle(hs[..i], hs[i], hs[i + 1..], named);
  }

  lemma {:induction false} NamedInConcat(a: seq<Handler>, b: seq<Handler>, named: Test)
    ensures NamedIn(a + b, named) == NamedIn(a, named) + NamedIn(b, named)
    decreases |a|
  {
    if a == [] {
      assert a + b == b;
    } else {
      assert (a + b)[1..] == a[1..] + b;
      NamedInConcat(a[1..], b, named);
    }
  }

  lemma {:induction false} UpdatedNamed(hs: seq<Handler>, job: Job)
    requires job.Valid()
    ensures NamedIn(UpdatedAll(hs, job), job.named) == NamedIn(hs, job.named)
    decreases |hs|
  {
    if hs != [] {
      UpdatedNamed(hs[1..], job);
      assert UpdatedAll(hs, job)[1..] == UpdatedAll(hs[1..], job);
      if Passes(hs[0], job.runs) { CanonicalRuns(Updated(hs[0], job), job); }
    }
  }

  lemma {:induction false} NamedCountConcat(a: seq<Entry>, b: seq<Entry>, named: Test)
    ensures NamedCount(a + b, named) == NamedCount(a, named) + NamedCount(b, named)
    decreases |a|
  {
    if a == [] {
      assert a + b == b;
    } else {
      assert (a + b)[1..] == a[1..] + b;
      NamedCountConcat(a[1..], b, named);
    }
  }

  /** Outside the entry to keep something is pruned exactly when a handler is named. */
  lemma {:induction false} PruneChangesNamed(es: seq<Entry>, job: Job, t: int)
    requires t < 0 || t >= |es|
    ensures PruneChanges(es, job, t) <==> NamedCount(es, job.named) > 0
    decreases |es|
  {
    if es != [] {
      PruneChangesNamed(es[1..], job, t - 1);
      NoneNamedCount(Handlers(es[0]), job.named);
      if NoneNamed(Handlers(es[0]), job.named) {
        PruneClean(Handlers(es[0]), job);
      } else {
        PrunedIsClean(Handlers(es[0]), job);
      }
    }
  }

  lemma SameTail(f: Handler, a: seq<Handler>, b: seq<Handler>)
    ensures [f] + a == [f] + b <==> a == b
  {
    assert ([f] + a)[1..] == a && ([f] + b)[1..] == b;
  }

  lemma PruneChangesTarget(e: Entry, f: Handler, rest: seq<Handler>, job: Job)
    requires Handlers(e) == [f] + rest && Passes(f, job.runs)
    ensures PruneChanges([e], job, 0) <==> NamedIn(rest, job.named) > 0
    ensures Pruned(Handlers(e), job, true) == [f] + WithoutOwned(rest, job.named)
    ensures NamedIn(rest, job.named) == 0 ==> WithoutOwned(rest, job.named) == rest
  {
    var hs := Handlers(e);
    assert hs[1..] == rest && [e][1..] == [];
    PrunedIsWithout(rest, job);
    NoneNamedCount(rest, job.named);
    if NoneNamed(rest, job.named) {
      PruneClean(rest, job);
    } else {
      PrunedIsClean(rest, job);
      SameTail(f, Pruned(rest, job, false), rest);
    }
  }

  /** The entries around the target: cleaned of named handlers if there is anything to
      prune in the event, and as they were otherwise. */
  function Cleaned(es: seq<Entry>, named: Test, prunes: bool): seq<Entry> {
    if prunes then Stripped(es, named) else es
  }

  lemma SpareIs(a: seq<Entry>, e: Entry, b: seq<Entry>, job: Job)
    ensures NamedCount(a + ([e] + b), job.named) ==
            NamedCount(a, job.named) + NamedIn(Handlers(e), job.named) + NamedCount(b, job.named)
  {
    NamedCountConcat(a, [e] + b, job.named);
    assert ([e] + b)[1..] == b;
  }

  lemma InstallPruned(a: seq<Entry>, e: Entry, b: seq<Entry>, rest: seq<Handler>, f: Handler, job: Job)
    requires e.Entry? && e.hooks == HookList([f] + rest) && Passes(f, job.runs)
    ensures var prunes := NamedCount(a, job.named) + NamedIn(rest, job.named) + NamedCount(b, job.named) > 0;
      Prune(a + ([e] + b), job, |a|) ==
      Cleaned(a, job.named, prunes)
      + ([e.(hooks := HookList([f] + WithoutOwned(rest, job.named)))] + Cleaned(b, job.named, prunes))
  {
    PruneChangesConcat(a, [e] + b, job, |a|);
    PruneChangesConcat([e], b, job, 0);
    PruneChangesNamed(a, job, |a|);
    PruneChangesNamed(b, job, -1);
    PruneChangesTarget(e, f, rest, job);
    KeptIs(a, e, b, job);
  }

  /** The exact entries after an installation, seen from the target. */
  lemma InstallAroundTarget(es: seq<Entry>, a: seq<Entry>, e: Entry, b: seq<Entry>, job: Job)
    requires job.Valid() && InstallEvent(es, job).Done? && e.Entry?
    requires WithTarget(es, job.matcher) == a + ([e] + b) && |a| == FirstMatch(es, job.matcher)
    ensures var hs := Handlers(e);
      var prunes := NamedCount(a, job.named) + NamedIn(hs, job.named) + NamedCount(b, job.named)
                    > (if FirstRun(hs, job.runs) < |hs| then 1 else 0);
      InstallEvent(es, job).entries ==
      Cleaned(a, job.named, prunes)
      + ([e.(hooks := HookList([Front(hs, job)] + WithoutOwned(hs, job.named)))] + Cleaned(b, job.named, prunes))
  {
    InstallAround(a, e, b, es, job);
    var rest := PlacedIs(Handlers(e), job);
    var placed := e.(hooks := HookList([Front(Handlers(e), job)] + rest));
    InstallPruned(a, placed, b, rest, Front(Handlers(e), job), job);
  }

  /** The exact entries after an installation into an entry that is there: it holds the
      kept or new handler in front of its handlers that run no hub script of the name;
      the other entries are cleaned of handlers that do, where there is any besides the
      kept one, and else stay. */
  lemma InstallInto(es: seq<Entry>, job: Job)
    requires job.Valid() && InstallEvent(es, job).Done? && FirstMatch(es, job.matcher) < |es|
    ensures var t := FirstMatch(es, job.matcher);
      var hs := Handlers(es[t]);
      var prunes := NamedCount(es, job.named) > (if FirstRun(hs, job.runs) < |hs| then 1 else 0);
      InstallEvent(es, job).entries ==
      Cleaned(es[..t], job.named, prunes)
      + ([es[t].(hooks := HookList([Front(hs, job)] + WithoutOwned(hs, job.named)))]
         + Cleaned(es[t + 1..], job.named, prunes))
  {
    var t := FirstMatch(es, job.matcher);
    var a, e, b := es[..t], es[t], es[t + 1..];
    SplitAround(es, t);
    InstallAroundTarget(es, a, e, b, job);
    SpareIs(a, e, b, job);
  }

  /** An entry for the matcher, which is left out when it is empty, with a new handler. */
  function FreshEntry(job: Job): Entry {
    Entry(if job.matcher == "" then None else Some(job.matcher), HookList([Front([], job)]), "")
  }

  lemma NoHandlers(e: Entry, job: Job)
    requires Handlers(e) == []
    ensures FirstRun(Handlers(e), job.runs) == 0 && NamedIn(Handlers(e), job.named) == 0
    ensures NamedCount([], job.named) == 0
    ensures [Front(Handlers(e), job)] + WithoutOwned(Handlers(e), job.named) == [Front([], job)]
    ensures Cleaned([], job.named, true) == [] && Cleaned([], job.named, false) == []
  {
  }

  lemma TargetAdded(es: seq<Entry>, matcher: string)
    requires FirstMatch(es, matcher) == |es|
    ensures WithTarget(es, matcher) == es + ([NewEntry(matcher)] + [])
  {
    BehindAll(es, NewEntry(matcher));
  }

  lemma BehindAll(x: seq<Entry>, y: Entry)
    ensures x + ([y] + []) == x + [y]
  {
  }

  /** The exact entries after an installation without an entry for the matcher: a new
      one behind all others. */
  lemma InstallBehind(es: seq<Entry>, job: Job)
    requires job.Valid() && InstallEvent(es, job).Done? && FirstMatch(es, job.matcher) == |es|
    ensures InstallEvent(es, job).entries ==
      Cleaned(es, job.named, NamedCount(es, job.named) > 0)
      + [FreshEntry(job)]
  {
    var e := NewEntry(job.matcher);
    TargetAdded(es, job.matcher);
    InstallAroundTarget(es, es, e, [], job);
    NoHandlers(e, job);
    assert e.(hooks := HookList([Front([], job)])) == FreshEntry(job);
    BehindAll(Cleaned(es, job.named, NamedCount(es, job.named) > 0), FreshEntry(job));
  }
}
