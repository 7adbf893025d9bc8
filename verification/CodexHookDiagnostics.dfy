/** The doctor for the Codex hooks table: four structural checks per event, and
    what they say after an installation. */
module CodexHookDiagnostics {
  import opened Options
  import opened HookTables
  import opened CodexEvent
  import opened CodexTable

  predicate EntryHasScript(e: Entry, runs: Test) {
    exists h :: h in Handlers(e) && Passes(h, runs)
  }

  predicate ScriptPresent(es: seq<Entry>, runs: Test) {
    exists e :: e in es && EntryHasScript(e, runs)
  }

  /** The first entry with the matcher has the script. */
  predicate InMatchingEntry(es: seq<Entry>, matcher: string, runs: Test) {
    FirstMatch(es, matcher) < |es| && EntryHasScript(es[FirstMatch(es, matcher)], runs)
  }

  /** The first handler of the first entry with the matcher runs the script. */
  predicate FirstInMatchingEntry(es: seq<Entry>, matcher: string, runs: Test) {
    FirstMatch(es, matcher) < |es| &&
    var hs := Handlers(es[FirstMatch(es, matcher)]);
    hs != [] && Passes(hs[0], runs)
  }

  predicate UsesLegacyTimeout(es: seq<Entry>, runs: Test) {
    exists e, h :: e in es && h in Handlers(e) && Passes(h, runs) && h.legacyTimeout.Some?
  }

  /** The events each check complains about. */
  datatype Findings = Findings(missing: seq<string>, shadowed: seq<string>,
                               notFirst: seq<string>, legacyTimeout: seq<string>)

  /** What one event adds to the findings, given the four checks' answers. */
  function Classified(event: string, present: bool, matching: bool, first: bool, legacy: bool): Findings {
    if !present then Findings([event], [], [], [])
    else Findings([], if matching then [] else [event], if matching && !first then [event] else [],
                  if legacy then [event] else [])
  }

  function EventFindings(es: seq<Entry>, reg: Registration): Findings {
    Classified(reg.event, ScriptPresent(es, reg.job.runs),
               InMatchingEntry(es, reg.job.matcher, reg.job.runs),
               FirstInMatchingEntry(es, reg.job.matcher, reg.job.runs),
               UsesLegacyTimeout(es, reg.job.runs))
  }

  function Merge(a: Findings, b: Findings): Findings {
    Findings(a.missing + b.missing, a.shadowed + b.shadowed,
             a.notFirst + b.notFirst, a.legacyTimeout + b.legacyTimeout)
  }

  const NO_FINDINGS := Findings([], [], [], [])

  function MergeEach(check: (seq<Entry>, Registration) -> Findings, table: Table, regs: seq<Registration>): Findings
    decreases |regs|
  {
    if regs == [] then NO_FINDINGS
    else Merge(check(EntriesOf(table, regs[0].event), regs[0]), MergeEach(check, table, regs[1..]))
  }

  /** The findings of all registered events, in order. */
  function AllFindings(table: Table, regs: seq<Registration>): Findings {
    MergeEach(EventFindings, table, regs)
  }

  method DiagnoseHooks(table: Table, regs: seq<Registration>) returns (r: Findings)
    ensures r == AllFindings(table, regs)
  {
    r := NO_FINDINGS;
    assert Merge(r, AllFindings(table, regs)) == AllFindings(table, regs);
    assert regs[0..] == regs;
    for i := 0 to |regs|
      invariant Merge(r, AllFindings(table, regs[i..])) == AllFindings(table, regs)
    {
      ghost var before := r;
      var es, matcher, runs := EntriesOf(table, regs[i].event), regs[i].job.matcher, regs[i].job.runs;
      r := AddEvent(r, regs[i].event, ScriptPresent(es, runs), InMatchingEntry(es, matcher, runs),
                    FirstInMatchingEntry(es, matcher, runs), UsesLegacyTimeout(es, runs));
      ghost var own := EventFindings(es, regs[i]);
      MergeStep(before, own, AllFindings(table, regs[i + 1..]));
      assert regs[i..][1..] == regs[i + 1..];
    }
    assert Merge(r, NO_FINDINGS) == r;
  }

  /** The body of the doctor's loop: one event added to the findings so far. */
  method AddEvent(found: Findings, event: string, present: bool, matching: bool, first: bool, legacy: bool)
    returns (r: Findings)
    ensures r == Merge(found, Classified(event, present, matching, first, legacy))
  {
    r := found;
    if !present {
      r := r.(missing := r.missing + [event]);
    } else {
      if !matching {
        r := r.(shadowed := r.shadowed + [event]);
      } else if !first {
        r := r.(notFirst := r.notFirst + [event]);
      }
      if legacy {
        r := r.(legacyTimeout := r.legacyTimeout + [event]);
      }
    }
  }

  lemma MergeStep(a: Findings, b: Findings, c: Findings)
    ensures Merge(a, Merge(b, c)) == Merge(Merge(a, b), c)
  {
    assert a.missing + (b.missing + c.missing) == a.missing + b.missing + c.missing;
    assert a.shadowed + (b.shadowed + c.shadowed) == a.shadowed + b.shadowed + c.shadowed;
    assert a.notFirst + (b.notFirst + c.notFirst) == a.notFirst + b.notFirst + c.notFirst;
    assert a.legacyTimeout + (b.legacyTimeout + c.legacyTimeout) == a.legacyTimeout + b.legacyTimeout + c.legacyTimeout;
  }

  // ----- what each list holds

  /** The handler at this place runs the script. */
  predicate RunsAt(es: seq<Entry>, i: int, j: int, runs: Test) {
    0 <= i < |es| && 0 <= j < |Handlers(es[i])| && Passes(Handlers(es[i])[j], runs)
  }

  /** Some handler of the entry runs the script. */
  ghost predicate RunsIn(es: seq<Entry>, i: int, runs: Test) {
    exists j :: RunsAt(es, i, j, runs)
  }

  /** No handler of the event runs the script. */
  ghost predicate Lacks(table: Table, reg: Registration) {
    forall i, j :: !RunsAt(EntriesOf(table, reg.event), i, j, reg.job.runs)
  }

  /** Some do, but none in the first entry with the matcher. */
  ghost predicate Shadows(table: Table, reg: Registration) {
    var es := EntriesOf(table, reg.event);
    !Lacks(table, reg) && !RunsIn(es, FirstMatch(es, reg.job.matcher), reg.job.runs)
  }

  /** Some do in the first entry with the matcher, but its first handler does not. */
  ghost predicate Delays(table: Table, reg: Registration) {
    var es := EntriesOf(table, reg.event);
    var t := FirstMatch(es, reg.job.matcher);
    !RunsAt(es, t, 0, reg.job.runs) && RunsIn(es, t, reg.job.runs)
  }

  /** One of them carries the timeout key of older versions. */
  ghost predicate Outdates(table: Table, reg: Registration) {
    var es := EntriesOf(table, reg.event);
    exists i, j :: RunsAt(es, i, j, reg.job.runs) && Handlers(es[i])[j].legacyTimeout.Some?
  }

  /** The events of the registrations a complaint is true of, in order. */
  ghost function Listed(table: Table, regs: seq<Registration>, complaint: (Table, Registration) -> bool): seq<string> {
    if regs == [] then []
    else (if complaint(table, regs[0]) then [regs[0].event] else []) + Listed(table, regs[1..], complaint)
  }

  lemma EntryHasRun(es: seq<Entry>, i: nat, runs: Test)
    requires i < |es|
    ensures EntryHasScript(es[i], runs) <==> RunsIn(es, i, runs)
  {
    if j :| RunsAt(es, i, j, runs) { assert Handlers(es[i])[j] in Handlers(es[i]); }
    if EntryHasScript(es[i], runs) {
      var h :| h in Handlers(es[i]) && Passes(h, runs);
      var j :| 0 <= j < |Handlers(es[i])| && Handlers(es[i])[j] == h;
      assert RunsAt(es, i, j, runs);
    }
  }

  lemma PresentMeans(table: Table, reg: Registration)
    ensures ScriptPresent(EntriesOf(table, reg.event), reg.job.runs) <==> !Lacks(table, reg)
  {
    var es := EntriesOf(table, reg.event);
    if i, j :| RunsAt(es, i, j, reg.job.runs) {
      EntryHasRun(es, i, reg.job.runs);
      assert es[i] in es;
    }
    if ScriptPresent(es, reg.job.runs) {
      var e :| e in es && EntryHasScript(e, reg.job.runs);
      var i :| 0 <= i < |es| && es[i] == e;
      EntryHasRun(es, i, reg.job.runs);
    }
  }

  lemma LegacyMeans(table: Table, reg: Registration)
    ensures UsesLegacyTimeout(EntriesOf(table, reg.event), reg.job.runs) <==> Outdates(table, reg)
  {
    var es := EntriesOf(table, reg.event);
    if i, j :| RunsAt(es, i, j, reg.job.runs) && Handlers(es[i])[j].legacyTimeout.Some? {
      assert es[i] in es && Handlers(es[i])[j] in Handlers(es[i]);
    }
    if e, h :| e in es && h in Handlers(e) && Passes(h, reg.job.runs) && h.legacyTimeout.Some? {
      var i :| 0 <= i < |es| && es[i] == e;
      var j :| 0 <= j < |Handlers(es[i])| && Handlers(es[i])[j] == h;
      assert RunsAt(es, i, j, reg.job.runs);
    }
  }

  lemma PlaceMeans(table: Table, reg: Registration)
    ensures var es := EntriesOf(table, reg.event);
      var matching := InMatchingEntry(es, reg.job.matcher, reg.job.runs);
      && (matching <==> RunsIn(es, FirstMatch(es, reg.job.matcher), reg.job.runs))
      && (matching && !FirstInMatchingEntry(es, reg.job.matcher, reg.job.runs) <==> Delays(table, reg))
  {
    var es := EntriesOf(table, reg.event);
    var t := FirstMatch(es, reg.job.matcher);
    if t < |es| { EntryHasRun(es, t, reg.job.runs); }
    assert FirstInMatchingEntry(es, reg.job.matcher, reg.job.runs) <==> RunsAt(es, t, 0, reg.job.runs);
  }

  lemma EventFindingsMean(table: Table, reg: Registration)
    ensures EventFindings(EntriesOf(table, reg.event), reg) ==
      Findings(if Lacks(table, reg) then [reg.event] else [], if Shadows(table, reg) then [reg.event] else [],
               if Delays(table, reg) then [reg.event] else [], if Outdates(table, reg) then [reg.event] else [])
  {
    PresentMeans(table, reg);
    PlaceMeans(table, reg);
    LegacyMeans(table, reg);
    RunIsPresent(table, reg);
  }

  lemma RunIsPresent(table: Table, reg: Registration)
    ensures Delays(table, reg) || Outdates(table, reg) ==> !Lacks(table, reg)
    ensures Shadows(table, reg) ==> !Delays(table, reg)
  {
  }

  /** The doctor's four lists name, in order, exactly the events without the script, with
      the script outside the first matching entry, with the script behind another handler
      there, and with an old timeout on a handler that runs it. */
  lemma {:induction false} AllFindingsMean(table: Table, regs: seq<Registration>)
    ensures AllFindings(table, regs) == Findings(Listed(table, regs, Lacks), Listed(table, regs, Shadows),
                                                 Listed(table, regs, Delays), Listed(table, regs, Outdates))
    decreases |regs|
  {
    if regs != [] {
      EventFindingsMean(table, regs[0]);
      AllFindingsMean(table, regs[1..]);
    }
  }

  // ----- after an installation

  lemma {:induction false} CleanHasNoRun(es: seq<Entry>, job: Job, e: Entry, h: Handler)
    requires job.Valid() && NoneNamedIn(es, job.named)
    requires e in es && h in Handlers(e)
    ensures !Passes(h, job.runs)
    decreases |es|
  {
    if e == es[0] {
    } else {
      CleanHasNoRun(es[1..], job, e, h);
    }
  }

  /** In a settled event only canonical handlers run the script. */
  lemma {:induction false} SettledRunsCanonical(es: seq<Entry>, job: Job, e: Entry, h: Handler)
    requires job.Valid() && Settled(es, job) && e in es && h in Handlers(e) && Passes(h, job.runs)
    ensures h.legacyTimeout == None
    decreases |es|
  {
    if e == es[0] {
      var hs := Handlers(e);
      assert forall k :: 1 <= k < |hs| ==> hs[k] == hs[1..][k - 1];
    } else {
      assert e in es[1..];
      if Matches(es[0], job.matcher) {
        CleanHasNoRun(es[1..], job, e, h);
      } else {
        SettledRunsCanonical(es[1..], job, e, h);
      }
    }
  }

  /** A settled event draws no complaint. */
  lemma SettledIsHealthy(es: seq<Entry>, reg: Registration)
    requires reg.job.Valid() && Settled(es, reg.job)
    ensures EventFindings(es, reg) == NO_FINDINGS
  {
    var job := reg.job;
    SettledPosition(es, job);
    var target := es[FirstMatch(es, job.matcher)];
    CanonicalRuns(Handlers(target)[0], job);
    assert Handlers(target)[0] in Handlers(target);
    assert target in es;
    if e, h :| e in es && h in Handlers(e) && Passes(h, job.runs) && h.legacyTimeout.Some? {
      SettledRunsCanonical(es, job, e, h);
    }
  }

  lemma {:induction false} NothingFound(check: (seq<Entry>, Registration) -> Findings, table: Table,
                                        regs: seq<Registration>)
    requires forall i :: 0 <= i < |regs| ==> check(EntriesOf(table, regs[i].event), regs[i]) == NO_FINDINGS
    ensures MergeEach(check, table, regs) == NO_FINDINGS
    decreases |regs|
  {
    if regs != [] {
      forall i | 0 <= i < |regs[1..]| ensures regs[1..][i] == regs[i + 1] { }
      NothingFound(check, table, regs[1..]);
      assert Merge(NO_FINDINGS, NO_FINDINGS) == NO_FINDINGS;
    }
  }

  /** After an installation the doctor's four structural checks find nothing,
      whatever the table held before. */
  lemma InstalledIsHealthy(table: Table, owned: Test, regs: seq<Registration>)
    requires WellFormed(owned, regs) && InstallTable(table, regs).TableDone?
    ensures AllFindings(InstallTable(table, regs).table, regs) == NO_FINDINGS
  {
    InstallSettlesTable(table, owned, regs);
    var after := InstallTable(table, regs).table;
    forall i | 0 <= i < |regs| ensures EventFindings(EntriesOf(after, regs[i].event), regs[i]) == NO_FINDINGS {
      SettledIsHealthy(after[regs[i].event], regs[i]);
    }
    NothingFound(EventFindings, after, regs);
  }
}
