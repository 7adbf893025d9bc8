/** Installing and uninstalling the Codex hooks over a whole hooks table: the
    events of a registration list, one after the other. */
module CodexTable {
  import opened HookCommands
  import opened HookTables
  import opened CodexEvent

  /** One item of HOOK_SCRIPTS: the event and what is installed for it. */
  datatype Registration = Registration(event: string, job: Job)

  /** The object under the top-level key `hooks`; each event holds a list. */
  type Table = map<string, seq<Entry>>

  ghost predicate Distinct(regs: seq<Registration>) {
    forall i, j :: 0 <= i < j < |regs| ==> regs[i].event != regs[j].event
  }

  /** The registrations are the items of a dictionary, and their jobs are valid and
      share the question whether a command lies in the hooks directory. */
  ghost predicate WellFormed(owned: Test, regs: seq<Registration>) {
    && Distinct(regs)
    && (forall i :: 0 <= i < |regs| ==> regs[i].job.Valid() && regs[i].job.owned == owned)
  }

  /** An item of HOOK_SCRIPTS: per event the matcher and the script's name. */
  datatype HookScript = HookScript(event: string, matcher: string, name: string)

  /** What the installer of the checkout with this hooks directory registers. */
  function Registrations(dir: string, scripts: seq<HookScript>): (regs: seq<Registration>)
    ensures |regs| == |scripts|
    ensures forall i :: 0 <= i < |scripts| ==>
      regs[i] == Registration(scripts[i].event, CodexJob(Script(dir, scripts[i].name), scripts[i].matcher))
  {
    seq(|scripts|, i requires 0 <= i < |scripts| =>
      Registration(scripts[i].event, CodexJob(Script(dir, scripts[i].name), scripts[i].matcher)))
  }

  /** The registrations of a hub checkout meet what the results below ask for. */
  lemma RegistrationsAreWellFormed(dir: string, scripts: seq<HookScript>)
    requires forall i, j :: 0 <= i < j < |scripts| ==> scripts[i].event != scripts[j].event
    requires forall i :: 0 <= i < |scripts| ==> Script(dir, scripts[i].name).InHub()
    ensures WellFormed(LiesIn(dir), Registrations(dir, scripts))
    ensures Runnable(Registrations(dir, scripts))
  {
    var regs := Registrations(dir, scripts);
    forall i | 0 <= i < |regs| ensures regs[i].job.Valid() && regs[i].job.owned == LiesIn(dir) {
      CodexJobIsValid(Script(dir, scripts[i].name), scripts[i].matcher);
    }
  }

  /** The commands run the scripts they are built for. */
  ghost predicate Runnable(regs: seq<Registration>) {
    forall i :: 0 <= i < |regs| ==> regs[i].job.runs(regs[i].job.command)
  }

  function EntriesOf(table: Table, event: string): seq<Entry> {
    if event in table then table[event] else []
  }

  datatype TableOutcome = TableCrash | TableDone(table: Table, changed: bool)

  /** `step` applied to the entries of each registered event, one after the other. */
  function ApplyEach(step: (seq<Entry>, Job) -> Outcome, table: Table, regs: seq<Registration>): TableOutcome
    decreases |regs|
  {
    if regs == [] then TableDone(table, false)
    else
      match step(EntriesOf(table, regs[0].event), regs[0].job)
      case Crash => TableCrash
      case Done(entries, changed) =>
        match ApplyEach(step, table[regs[0].event := entries], regs[1..])
        case TableCrash => TableCrash
        case TableDone(final, later) => TableDone(final, changed || later)
  }

  function InstallTable(table: Table, regs: seq<Registration>): TableOutcome {
    ApplyEach(InstallEvent, table, regs)
  }

  function UninstallTable(table: Table, owned: Test, events: seq<string>): TableOutcome
    decreases |events|
  {
    if events == [] then TableDone(table, false)
    else
      match UninstallEvent(EntriesOf(table, events[0]), owned)
      case Crash => TableCrash
      case Done(entries, changed) =>
        var next := if changed then table[events[0] := entries] else table;
        match UninstallTable(next, owned, events[1..])
        case TableCrash => TableCrash
        case TableDone(final, later) => TableDone(final, changed || later)
  }

  function Events(regs: seq<Registration>): (r: seq<string>)
    ensures |r| == |regs| && forall i :: 0 <= i < |regs| ==> r[i] == regs[i].event
  {
    if regs == [] then [] else [regs[0].event] + Events(regs[1..])
  }

  // ----- a table step is its event steps

  /** Applying fails exactly when the step of some event fails. */
  lemma {:induction false} ApplyFails(step: (seq<Entry>, Job) -> Outcome, table: Table, regs: seq<Registration>)
    requires Distinct(regs)
    ensures ApplyEach(step, table, regs).TableCrash? <==>
      exists k :: 0 <= k < |regs| && step(EntriesOf(table, regs[k].event), regs[k].job).Crash?
    decreases |regs|
  {
    if regs != [] && step(EntriesOf(table, regs[0].event), regs[0].job).Done? {
      var next := table[regs[0].event := step(EntriesOf(table, regs[0].event), regs[0].job).entries];
      ApplyFails(step, next, regs[1..]);
      forall k | 1 <= k < |regs|
        ensures regs[k] == regs[1..][k - 1] && EntriesOf(next, regs[k].event) == EntriesOf(table, regs[k].event)
      {
      }
    }
  }

  /** Every registered event gets the result of its own step; every other event
      keeps its entries. */
  lemma {:induction false} ApplyEachEvent(step: (seq<Entry>, Job) -> Outcome, table: Table, regs: seq<Registration>)
    requires Distinct(regs) && ApplyEach(step, table, regs).TableDone?
    ensures var r := ApplyEach(step, table, regs);
      && (forall i :: 0 <= i < |regs| ==>
            var own := step(EntriesOf(table, regs[i].event), regs[i].job);
            own.Done? && regs[i].event in r.table && r.table[regs[i].event] == own.entries)
      && (forall event :: event !in Events(regs) ==>
            (event in r.table <==> event in table) && (event in table ==> r.table[event] == table[event]))
    decreases |regs|
  {
    if regs != [] {
      var first := step(EntriesOf(table, regs[0].event), regs[0].job);
      var next := table[regs[0].event := first.entries];
      var r := ApplyEach(step, next, regs[1..]);
      ApplyEachEvent(step, next, regs[1..]);
      assert regs[0].event !in Events(regs[1..]);
      forall i | 0 <= i < |regs|
        ensures var own := step(EntriesOf(table, regs[i].event), regs[i].job);
                own.Done? && regs[i].event in r.table && r.table[regs[i].event] == own.entries
      {
        if i > 0 { assert regs[i] == regs[1..][i - 1]; }
      }
      forall event | event !in Events(regs)
        ensures (event in r.table <==> event in table) && (event in table ==> r.table[event] == table[event])
      {
        assert event !in Events(regs[1..]);
        assert event != regs[0].event;
      }
    }
  }

  predicate EventCrashes(table: Table, reg: Registration) {
    InstallEvent(EntriesOf(table, reg.event), reg.job).Crash?
  }

  /** Installing fails exactly when the step of some event fails. */
  lemma InstallCrashes(table: Table, regs: seq<Registration>)
    requires Distinct(regs)
    ensures InstallTable(table, regs).TableCrash? <==>
      exists k :: 0 <= k < |regs| && EventCrashes(table, regs[k])
  {
    ApplyFails(InstallEvent, table, regs);
  }

  /** Every registered event gets the result of its own step; every other event
      keeps its entries. */
  lemma InstallEachEvent(table: Table, owned: Test, regs: seq<Registration>)
    requires WellFormed(owned, regs) && InstallTable(table, regs).TableDone?
    ensures var r := InstallTable(table, regs);
      && (forall i :: 0 <= i < |regs| ==>
            var own := InstallEvent(EntriesOf(table, regs[i].event), regs[i].job);
            own.Done? && regs[i].event in r.table && r.table[regs[i].event] == own.entries)
      && (forall event :: event !in Events(regs) ==>
            (event in r.table <==> event in table) && (event in table ==> r.table[event] == table[event]))
  {
    ApplyEachEvent(InstallEvent, table, regs);
  }

  /** A table whose registered events are all settled. */
  ghost predicate SettledTable(table: Table, regs: seq<Registration>) {
    forall i :: 0 <= i < |regs| ==>
      regs[i].event in table && Settled(table[regs[i].event], regs[i].job)
  }

  lemma InstallSettlesTable(table: Table, owned: Test, regs: seq<Registration>)
    requires WellFormed(owned, regs) && InstallTable(table, regs).TableDone?
    ensures SettledTable(InstallTable(table, regs).table, regs)
  {
    InstallEachEvent(table, owned, regs);
    forall i | 0 <= i < |regs|
      ensures Settled(InstallTable(table, regs).table[regs[i].event], regs[i].job)
    {
      InstallSettles(EntriesOf(table, regs[i].event), regs[i].job);
    }
  }

  lemma {:induction false} ApplyFixed(step: (seq<Entry>, Job) -> Outcome, table: Table, regs: seq<Registration>)
    requires forall i :: 0 <= i < |regs| ==>
      regs[i].event in table && step(table[regs[i].event], regs[i].job) == Done(table[regs[i].event], false)
    ensures ApplyEach(step, table, regs) == TableDone(table, false)
    decreases |regs|
  {
    if regs != [] {
      assert table[regs[0].event := table[regs[0].event]] == table;
      forall i | 0 <= i < |regs[1..]|
        ensures regs[1..][i] == regs[i + 1]
      {
      }
      ApplyFixed(step, table, regs[1..]);
    }
  }

  lemma SettledTableIsFixed(table: Table, owned: Test, regs: seq<Registration>)
    requires WellFormed(owned, regs) && SettledTable(table, regs)
    ensures InstallTable(table, regs) == TableDone(table, false)
  {
    forall i | 0 <= i < |regs|
      ensures InstallEvent(table[regs[i].event], regs[i].job) == Done(table[regs[i].event], false)
    {
      SettledIsFixed(table[regs[i].event], regs[i].job);
    }
    ApplyFixed(InstallEvent, table, regs);
  }

  lemma {:induction false} ApplyUnchanged(step: (seq<Entry>, Job) -> Outcome, table: Table, regs: seq<Registration>)
    requires ApplyEach(step, table, regs).TableDone? && !ApplyEach(step, table, regs).changed
    requires forall es, job :: step(es, job).Done? && !step(es, job).changed ==> es != [] && step(es, job).entries == es
    ensures ApplyEach(step, table, regs).table == table
    decreases |regs|
  {
    if regs != [] {
      assert table[regs[0].event := EntriesOf(table, regs[0].event)] == table;
      ApplyUnchanged(step, table, regs[1..]);
    }
  }

  lemma UnchangedTable(table: Table, regs: seq<Registration>)
    requires InstallTable(table, regs).TableDone? && !InstallTable(table, regs).changed
    ensures InstallTable(table, regs).table == table
  {
    forall es, job | InstallEvent(es, job).Done? && !InstallEvent(es, job).changed
      ensures es != [] && InstallEvent(es, job).entries == es
    {
      UnchangedEntries(es, job);
    }
    ApplyUnchanged(InstallEvent, table, regs);
  }

  /** A second installation changes nothing and says so; and the first says
      "changed" exactly when it changed the table. */
  lemma InstallTwice(table: Table, owned: Test, regs: seq<Registration>)
    requires WellFormed(owned, regs) && InstallTable(table, regs).TableDone?
    ensures var r := InstallTable(table, regs);
      && InstallTable(r.table, regs) == TableDone(r.table, false)
      && (r.changed <==> r.table != table)
  {
    var r := InstallTable(table, regs);
    InstallSettlesTable(table, owned, regs);
    SettledTableIsFixed(r.table, owned, regs);
    if !r.changed { UnchangedTable(table, regs); }
  }

  /** After installing, every registered event has exactly one handler for its
      script from any checkout, and all its foreign configuration in order. */
  lemma InstallLeavesOneHandler(table: Table, owned: Test, regs: seq<Registration>, i: nat)
    requires WellFormed(owned, regs) && InstallTable(table, regs).TableDone? && i < |regs|
    ensures var after, named := InstallTable(table, regs).table, regs[i].job.named;
      && regs[i].event in after
      && NamedCount(after[regs[i].event], named) == 1
      && Foreign(after[regs[i].event], named) == Foreign(EntriesOf(table, regs[i].event), named)
  {
    InstallEachEvent(table, owned, regs);
    InstallSettlesTable(table, owned, regs);
    SettledHasOne(InstallTable(table, regs).table[regs[i].event], regs[i].job);
    InstallKeepsForeign(EntriesOf(table, regs[i].event), regs[i].job);
  }

  // ----- uninstalling a table

  /** The table after one event was uninstalled. */
  function UninstallStep(table: Table, owned: Test, event: string): Table
    requires UninstallEvent(EntriesOf(table, event), owned).Done?
  {
    var step := UninstallEvent(EntriesOf(table, event), owned);
    if step.changed then table[event := step.entries] else table
  }

  lemma UninstallStepFrame(table: Table, owned: Test, event: string)
    requires UninstallEvent(EntriesOf(table, event), owned).Done?
    ensures var next := UninstallStep(table, owned, event);
      && next.Keys == table.Keys
      && EntriesOf(next, event) == UninstallEvent(EntriesOf(table, event), owned).entries
      && (forall other :: other != event ==> EntriesOf(next, other) == EntriesOf(table, other))
      && (UninstallEvent(EntriesOf(table, event), owned).changed <==> next != table)
  {
    var step := UninstallEvent(EntriesOf(table, event), owned);
    assert EntriesOf(table, event) == [] ==> !step.changed;
    if step.changed { assert table[event := step.entries][event] != table[event]; }
  }

  lemma {:induction false} UninstallDone(table: Table, owned: Test, events: seq<string>)
    ensures UninstallTable(table, owned, events).TableDone? <==>
      forall i :: 0 <= i < |events| ==> UninstallEvent(EntriesOf(table, events[i]), owned).Done?
    ensures UninstallTable(table, owned, events).TableDone? ==>
      UninstallTable(table, owned, events).table.Keys == table.Keys
    decreases |events|
  {
    if events != [] && UninstallEvent(EntriesOf(table, events[0]), owned).Done? {
      var next := UninstallStep(table, owned, events[0]);
      UninstallStepFrame(table, owned, events[0]);
      UninstallAgain(EntriesOf(table, events[0]), owned);
      UninstallDone(next, owned, events[1..]);
      forall i | 1 <= i < |events|
        ensures UninstallEvent(EntriesOf(next, events[i]), owned).Done? <==>
                UninstallEvent(EntriesOf(table, events[i]), owned).Done?
      {
      }
      assert forall i :: 1 <= i < |events| ==> events[i] == events[1..][i - 1];
    }
  }

  /** The entries of an event after the events of a list were uninstalled. */
  function EntriesAfter(table: Table, owned: Test, events: seq<string>, event: string): seq<Entry> {
    if event in events && UninstallEvent(EntriesOf(table, event), owned).Done?
    then UninstallEvent(EntriesOf(table, event), owned).entries else EntriesOf(table, event)
  }

  lemma {:induction false} UninstallOneEvent(table: Table, owned: Test, events: seq<string>, event: string)
    requires UninstallTable(table, owned, events).TableDone?
    ensures EntriesOf(UninstallTable(table, owned, events).table, event) == EntriesAfter(table, owned, events, event)
    decreases |events|
  {
    if events != [] {
      UninstallStepFrame(table, owned, events[0]);
      UninstallOneEvent(UninstallStep(table, owned, events[0]), owned, events[1..], event);
      EntriesAfterStep(table, owned, events, event);
    }
  }

  lemma EntriesAfterStep(table: Table, owned: Test, events: seq<string>, event: string)
    requires events != [] && UninstallEvent(EntriesOf(table, events[0]), owned).Done?
    ensures EntriesAfter(UninstallStep(table, owned, events[0]), owned, events[1..], event) ==
            EntriesAfter(table, owned, events, event)
  {
    UninstallStepFrame(table, owned, events[0]);
    assert event in events <==> event == events[0] || event in events[1..];
    if event == events[0] { UninstallAgain(EntriesOf(table, event), owned); }
  }

  /** Every named event is uninstalled by itself; the others keep their entries. */
  lemma UninstallEachEvent(table: Table, owned: Test, events: seq<string>)
    ensures var r := UninstallTable(table, owned, events);
      && (r.TableDone? <==> forall i :: 0 <= i < |events| ==> UninstallEvent(EntriesOf(table, events[i]), owned).Done?)
      && (r.TableDone? ==> r.table.Keys == table.Keys)
    ensures UninstallTable(table, owned, events).TableDone? ==> forall event ::
      EntriesOf(UninstallTable(table, owned, events).table, event) == EntriesAfter(table, owned, events, event)
  {
    UninstallDone(table, owned, events);
    if UninstallTable(table, owned, events).TableDone? {
      forall event
        ensures EntriesOf(UninstallTable(table, owned, events).table, event) ==
                EntriesAfter(table, owned, events, event)
      {
        UninstallOneEvent(table, owned, events, event);
      }
    }
  }

  /** Uninstalling says "changed" exactly when it changed the table. */
  lemma {:induction false} UninstallReportsChange(table: Table, owned: Test, events: seq<string>)
    requires UninstallTable(table, owned, events).TableDone?
    ensures UninstallTable(table, owned, events).changed <==> UninstallTable(table, owned, events).table != table
    decreases |events|
  {
    if events != [] {
      var next, final := UninstallStep(table, owned, events[0]), UninstallTable(table, owned, events).table;
      UninstallStepFrame(table, owned, events[0]);
      UninstallReportsChange(next, owned, events[1..]);
      UninstallEachEvent(next, owned, events[1..]);
      UninstallAgain(EntriesOf(table, events[0]), owned);
      assert EntriesOf(final, events[0]) == EntriesOf(next, events[0]);
    }
  }

  /** The table with an empty list for every registered event it lacked. */
  function Restored(table: Table, events: seq<string>): Table {
    map event | event in table.Keys + (set e | e in events) :: EntriesOf(table, event)
  }

  lemma RestoredIs(table: Table, final: Table, events: seq<string>)
    requires final.Keys == table.Keys + (set e | e in events)
    requires forall event :: event in table && event !in events ==> final[event] == table[event]
    ensures final == Restored(table, events) <==>
      forall event :: event in events ==> final[event] == EntriesOf(table, event)
  {
    var restored := Restored(table, events);
    assert restored.Keys == final.Keys;
    if forall event :: event in events ==> final[event] == EntriesOf(table, event) {
      forall event | event in final ensures final[event] == restored[event] { }
    } else {
      var event :| event in events && final[event] != EntriesOf(table, event);
      assert restored[event] != final[event];
    }
  }

  /** The registered entries as a table sees them after a round trip. */
  lemma {:induction false} EventsMembers(regs: seq<Registration>, event: string)
    ensures event in Events(regs) <==> exists i :: 0 <= i < |regs| && regs[i].event == event
  {
    if i :| 0 <= i < |regs| && regs[i].event == event { assert Events(regs)[i] == event; }
  }

  lemma RoundTripKeys(table: Table, owned: Test, regs: seq<Registration>)
    requires WellFormed(owned, regs) && InstallTable(table, regs).TableDone?
    ensures InstallTable(table, regs).table.Keys == table.Keys + (set e | e in Events(regs))
  {
    var installed := InstallTable(table, regs).table;
    InstallEachEvent(table, owned, regs);
    forall event ensures event in installed <==> event in table || event in Events(regs) {
      EventsMembers(regs, event);
    }
  }

  /** Uninstalling after installing gives the original table back, up to absent
      events becoming empty lists, exactly when the registered events held foreign
      configuration only. */
  lemma UninstallUndoesInstallTable(table: Table, owned: Test, regs: seq<Registration>)
    requires WellFormed(owned, regs) && InstallTable(table, regs).TableDone?
    ensures var r := UninstallTable(InstallTable(table, regs).table, owned, Events(regs));
      (r.TableDone? && r.table == Restored(table, Events(regs))) <==>
      forall i :: 0 <= i < |regs| ==> AllForeignOnly(EntriesOf(table, regs[i].event), regs[i].job)
  {
    var events, installed := Events(regs), InstallTable(table, regs).table;
    InstallEachEvent(table, owned, regs);
    RoundTripKeys(table, owned, regs);
    forall i | 0 <= i < |regs|
      ensures RestoresEvent(table, installed, owned, events[i]) <==>
              AllForeignOnly(EntriesOf(table, regs[i].event), regs[i].job)
    {
      UninstallUndoesInstall(EntriesOf(table, regs[i].event), regs[i].job);
    }
    RestoresAll(table, installed, owned, events);
    assert forall i :: 0 <= i < |regs| ==> RestoresEvent(table, installed, owned, events[i]) ==
                                           AllForeignOnly(EntriesOf(table, regs[i].event), regs[i].job);
  }

  predicate RestoresEvent(table: Table, installed: Table, owned: Test, event: string) {
    var back := UninstallEvent(EntriesOf(installed, event), owned);
    back.Done? && back.entries == EntriesOf(table, event)
  }

  lemma RestoresAll(table: Table, installed: Table, owned: Test, events: seq<string>)
    requires installed.Keys == table.Keys + (set e | e in events)
    requires forall event :: event in table && event !in events ==> installed[event] == table[event]
    ensures var r := UninstallTable(installed, owned, events);
      (r.TableDone? && r.table == Restored(table, events)) <==>
      forall i :: 0 <= i < |events| ==> RestoresEvent(table, installed, owned, events[i])
  {
    var r := UninstallTable(installed, owned, events);
    UninstallEachEvent(installed, owned, events);
    if r.TableDone? {
      forall event | event in table && event !in events ensures r.table[event] == table[event] {
        assert EntriesOf(r.table, event) == EntriesOf(installed, event);
      }
      RestoredIs(table, r.table, events);
      assert forall i :: 0 <= i < |events| ==> r.table[events[i]] == EntriesOf(r.table, events[i]);
    }
  }
}
