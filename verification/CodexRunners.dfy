/** How many handlers run a job's script after an installation, for scripts inside
    and outside hub checkouts. */
module CodexRunners {
  import opened HookTables
  import opened CodexEvent
  import opened Numbers
  import opened Options
  import opened Sequences

  function RunnersIn(hs: seq<Handler>, runs: Test): nat {
    if hs == [] then 0 else (if Passes(hs[0], runs) then 1 else 0) + RunnersIn(hs[1..], runs)
  }

  /** The number of handlers of the event that run the script from this checkout. */
  function Runners(es: seq<Entry>, runs: Test): nat {
    if es == [] then 0 else RunnersIn(Handlers(es[0]), runs) + Runners(es[1..], runs)
  }

  /** Handlers that run the script without being recognised as hub handlers. */
  function HiddenIn(hs: seq<Handler>, job: Job): nat {
    if hs == [] then 0
    else (if Passes(hs[0], job.runs) && !Passes(hs[0], job.named) then 1 else 0) + HiddenIn(hs[1..], job)
  }

  /** Those outside the entry at `t`. */
  function HiddenOutside(es: seq<Entry>, job: Job, t: int): nat {
    if es == [] then 0
    else (if t == 0 then 0 else HiddenIn(Handlers(es[0]), job)) + HiddenOutside(es[1..], job, t - 1)
  }

  // ----- counting

  lemma {:induction false} RunnersInConcat(a: seq<Handler>, b: seq<Handler>, runs: Test)
    ensures RunnersIn(a + b, runs) == RunnersIn(a, runs) + RunnersIn(b, runs)
    decreases |a|
  {
    if a == [] {
      assert a + b == b;
    } else {
      assert (a + b)[1..] == a[1..] + b;
      RunnersInConcat(a[1..], b, runs);
    }
  }

  lemma {:induction false} RunnersConcat(a: seq<Entry>, b: seq<Entry>, runs: Test)
    ensures Runners(a + b, runs) == Runners(a, runs) + Runners(b, runs)
    decreases |a|
  {
    if a == [] {
      assert a + b == b;
    } else {
      assert (a + b)[1..] == a[1..] + b;
      RunnersConcat(a[1..], b, runs);
    }
  }

  lemma RunnersOne(e: Entry, runs: Test)
    ensures Runners([e], runs) == RunnersIn(Handlers(e), runs)
  {
    assert [e][1..] == [];
  }

  // ----- pruning

  /** Without an entry to keep, exactly the hidden ones are left. */
  lemma {:induction false} PrunedLeavesHidden(hs: seq<Handler>, job: Job)
    ensures RunnersIn(Pruned(hs, job, false), job.runs) == HiddenIn(hs, job)
    decreases |hs|
  {
    if hs != [] {
      PrunedLeavesHidden(hs[1..], job);
      var rest := Pruned(hs[1..], job, false);
      assert ([hs[0]] + rest)[1..] == rest;
    }
  }

  lemma KeptEntryRunners(e: Entry, job: Job, keepOne: bool)
    ensures Runners(KeptEntry(e, job, keepOne), job.runs) == RunnersIn(Pruned(Handlers(e), job, keepOne), job.runs)
  {
    var kept := KeptEntry(e, job, keepOne);
    if kept != [] { RunnersOne(kept[0], job.runs); }
  }

  function AtTarget(es: seq<Entry>, job: Job, t: int): nat {
    if 0 <= t < |es| then RunnersIn(Pruned(Handlers(es[t]), job, true), job.runs) else 0
  }

  lemma {:induction false} KeptRunners(es: seq<Entry>, job: Job, t: int)
    ensures Runners(Kept(es, job, t), job.runs) == HiddenOutside(es, job, t) + AtTarget(es, job, t)
    decreases |es|
  {
    if es != [] {
      KeptRunners(es[1..], job, t - 1);
      KeptEntryRunners(es[0], job, t == 0);
      PrunedLeavesHidden(Handlers(es[0]), job);
      RunnersConcat(KeptEntry(es[0], job, t == 0), Kept(es[1..], job, t - 1), job.runs);
    }
  }

  lemma {:induction false} UnchangedRunners(es: seq<Entry>, job: Job, t: int)
    requires !PruneChanges(es, job, t)
    ensures Runners(es, job.runs) == HiddenOutside(es, job, t) + AtTarget(es, job, t)
    decreases |es|
  {
    if es != [] {
      UnchangedRunners(es[1..], job, t - 1);
      PrunedLeavesHidden(Handlers(es[0]), job);
    }
  }

  lemma PruneRunners(es: seq<Entry>, job: Job, t: int)
    ensures Runners(Prune(es, job, t), job.runs) == HiddenOutside(es, job, t) + AtTarget(es, job, t)
  {
    if PruneChanges(es, job, t) { KeptRunners(es, job, t); } else { UnchangedRunners(es, job, t); }
  }

  // ----- the target entry

  /** Every handler that runs the script has the canonical command. */
  predicate OnlyCanonical(hs: seq<Handler>, job: Job) {
    All(hs, CanonicalIfRunning(job))
  }

  function CanonicalIfRunning(job: Job): Handler -> bool {
    h => Passes(h, job.runs) ==> h.command == Some(job.command)
  }

  predicate All<T>(s: seq<T>, p: T -> bool) {
    forall i :: 0 <= i < |s| ==> p(s[i])
  }

  lemma AllOfParts<T>(s: seq<T>, i: nat, p: T -> bool)
    requires i < |s| && All(s, p)
    ensures All(s[..i] + s[i + 1..], p)
  {
  }

  lemma AllCons<T>(x: T, s: seq<T>, p: T -> bool)
    requires p(x) && All(s, p)
    ensures All([x] + s, p)
  {
  }

  lemma AllTail<T>(s: seq<T>, p: T -> bool)
    requires s != [] && All(s, p)
    ensures p(s[0]) && All(s[1..], p)
  {
  }

  lemma {:induction false} HiddenOfCanonical(hs: seq<Handler>, job: Job)
    requires OnlyCanonical(hs, job)
    ensures HiddenIn(hs, job) ==
      if job.named(job.command) then 0 else RunnersIn(hs, job.runs)
    decreases |hs|
  {
    if hs != [] {
      AllTail(hs, CanonicalIfRunning(job));
      HiddenOfCanonical(hs[1..], job);
    }
  }

  lemma UpdatedRuns(h: Handler, job: Job)
    requires job.runs(job.command)
    ensures Passes(Updated(h, job), job.runs) <==> Passes(h, job.runs)
    ensures Passes(h, job.runs) ==> Updated(h, job).command == Some(job.command)
  {
  }

  lemma {:induction false} UpdatedRunners(hs: seq<Handler>, job: Job)
    requires job.runs(job.command)
    ensures RunnersIn(UpdatedAll(hs, job), job.runs) == RunnersIn(hs, job.runs)
    ensures OnlyCanonical(UpdatedAll(hs, job), job)
    decreases |hs|
  {
    if hs != [] {
      var rest := UpdatedAll(hs[1..], job);
      UpdatedRunners(hs[1..], job);
      UpdatedRuns(hs[0], job);
      assert ([Updated(hs[0], job)] + rest)[1..] == rest;
      AllCons(Updated(hs[0], job), rest, CanonicalIfRunning(job));
    }
  }

  lemma {:induction false} NoRunners(hs: seq<Handler>, job: Job)
    requires forall i :: 0 <= i < |hs| ==> !Passes(hs[i], job.runs)
    ensures RunnersIn(hs, job.runs) == 0 && HiddenIn(hs, job) == 0
    decreases |hs|
  {
    if hs != [] { NoRunners(hs[1..], job); }
  }

  /** A list that starts with a handler that runs the script keeps it and the hidden ones. */
  lemma PrunedFromFirst(h: Handler, rest: seq<Handler>, job: Job)
    requires Passes(h, job.runs)
    ensures RunnersIn(Pruned([h] + rest, job, true), job.runs) == 1 + HiddenIn(rest, job)
  {
    assert ([h] + rest)[1..] == rest;
    PrunedLeavesHidden(rest, job);
    assert ([h] + Pruned(rest, job, false))[1..] == Pruned(rest, job, false);
  }

  lemma RunnersWithout(hs: seq<Handler>, i: nat, runs: Test)
    requires i < |hs| && Passes(hs[i], runs)
    ensures RunnersIn(hs, runs) == RunnersIn(hs[..i] + hs[i + 1..], runs) + 1
  {
    var a, b := hs[..i], hs[i + 1..];
    assert hs == a + ([hs[i]] + b);
    assert ([hs[i]] + b)[1..] == b;
    RunnersInConcat(a, [hs[i]] + b, runs);
    RunnersInConcat(a, b, runs);
  }

  /** The first handler that runs the script and the canonical rest behind it. */
  lemma FirstAndRest(h: Handler, rest: seq<Handler>, job: Job)
    requires Passes(h, job.runs) && OnlyCanonical(rest, job)
    ensures RunnersIn(Pruned([h] + rest, job, true), job.runs) ==
      1 + (if job.named(job.command) then 0 else RunnersIn(rest, job.runs))
  {
    HiddenOfCanonical(rest, job);
    PrunedFromFirst(h, rest, job);
  }

  lemma MovedRunners(updated: seq<Handler>, i: nat, job: Job)
    requires i < |updated| && OnlyCanonical(updated, job) && Passes(updated[i], job.runs)
    ensures RunnersIn(Pruned(MovedFirst(updated, i), job, true), job.runs) ==
      1 + (if job.named(job.command) then 0 else RunnersIn(updated, job.runs) - 1)
  {
    var rest := updated[..i] + updated[i + 1..];
    AllOfParts(updated, i, CanonicalIfRunning(job));
    RunnersWithout(updated, i, job.runs);
    FirstAndRest(updated[i], rest, job);
    Associates([updated[i]], updated[..i], updated[i + 1..]);
  }

  lemma NewRunner(hs: seq<Handler>, job: Job)
    requires job.runs(job.command) && FirstRun(hs, job.runs) == |hs|
    ensures RunnersIn(hs, job.runs) == 0
    ensures RunnersIn(Pruned([NewHandler(job.command)] + hs, job, true), job.runs) == 1
  {
    NoRunners(hs, job);
    PrunedFromFirst(NewHandler(job.command), hs, job);
  }

  lemma PlacedRunners(hs: seq<Handler>, job: Job)
    requires job.runs(job.command)
    ensures RunnersIn(Pruned(Placed(hs, job), job, true), job.runs) ==
      1 + (if job.named(job.command) then 0 else Max(0, RunnersIn(hs, job.runs) - 1))
  {
    var i := FirstRun(hs, job.runs);
    if i < |hs| {
      UpdatedRunners(hs, job);
      UpdatedRuns(hs[i], job);
      MovedRunners(UpdatedAll(hs, job), i, job);
      RunnersWithout(hs, i, job.runs);
    } else {
      NewRunner(hs, job);
    }
  }

  // ----- the whole event

  lemma {:induction false} HiddenUpdated(es: seq<Entry>, job: Job, t: nat, e: Entry)
    requires t < |es|
    ensures HiddenOutside(es[t := e], job, t) == HiddenOutside(es, job, t)
    decreases |es|
  {
    if t == 0 {
      assert es[0 := e][1..] == es[1..];
    } else {
      assert es[t := e][1..] == es[1..][t - 1 := e];
      HiddenUpdated(es[1..], job, t - 1, e);
    }
  }

  lemma {:induction false} HiddenAppended(es: seq<Entry>, job: Job, e: Entry)
    ensures HiddenOutside(es + [e], job, |es|) == HiddenOutside(es, job, |es|)
    decreases |es|
  {
    if es == [] {
      assert (es + [e])[1..] == [];
    } else {
      assert (es + [e])[1..] == es[1..] + [e];
      HiddenAppended(es[1..], job, e);
    }
  }

  /** Handlers of the event's target entry before the installation. */
  function TargetHandlers(es: seq<Entry>, job: Job): seq<Handler> {
    var t := FirstMatch(es, job.matcher);
    if t < |es| then Handlers(es[t]) else []
  }

  /** After an installation the script is run by one handler, plus - where the
      canonical command is not recognised as running a hub script - the further ones of
      the target entry, plus the unrecognised ones of other entries. So one is left
      exactly when there are none of either kind; and in a hub checkout always. */
  lemma RunnersLeft(es: seq<Entry>, job: Job)
    requires job.runs(job.command) && InstallEvent(es, job).Done?
    ensures Runners(InstallEvent(es, job).entries, job.runs) ==
      1 + (if job.named(job.command) then 0
           else Max(0, RunnersIn(TargetHandlers(es, job), job.runs) - 1))
        + HiddenOutside(es, job, FirstMatch(es, job.matcher))
    ensures job.Valid() ==> Runners(InstallEvent(es, job).entries, job.runs) == 1
  {
    CountLeft(es, job);
    if job.Valid() {
      NoneHiddenOutside(es, job, FirstMatch(es, job.matcher));
    }
  }

  lemma CountLeft(es: seq<Entry>, job: Job)
    requires job.runs(job.command) && InstallEvent(es, job).Done?
    ensures Runners(InstallEvent(es, job).entries, job.runs) ==
      1 + (if job.named(job.command) then 0
           else Max(0, RunnersIn(TargetHandlers(es, job), job.runs) - 1))
        + HiddenOutside(es, job, FirstMatch(es, job.matcher))
  {
    var t, es1 := FirstMatch(es, job.matcher), WithTarget(es, job.matcher);
    PlacedRunners(TargetHandlers(es, job), job);
    TargetRunners(es1, t, TargetHandlers(es, job), job);
    if t == |es| { HiddenAppended(es, job, NewEntry(job.matcher)); }
  }

  lemma TargetRunners(es: seq<Entry>, t: nat, hs: seq<Handler>, job: Job)
    requires t < |es| && es[t].Entry? && Handlers(es[t]) == hs
    ensures var e := es[t].(hooks := HookList(Placed(hs, job)));
      Runners(Prune(es[t := e], job, t), job.runs) ==
      HiddenOutside(es, job, t) + RunnersIn(Pruned(Placed(hs, job), job, true), job.runs)
  {
    var e := es[t].(hooks := HookList(Placed(hs, job)));
    PruneRunners(es[t := e], job, t);
    HiddenUpdated(es, job, t, e);
  }

  lemma {:induction false} NoneHidden(hs: seq<Handler>, job: Job)
    requires job.Valid()
    ensures HiddenIn(hs, job) == 0
    decreases |hs|
  {
    if hs != [] {
      NoneHidden(hs[1..], job);
    }
  }

  lemma {:induction false} NoneHiddenOutside(es: seq<Entry>, job: Job, t: int)
    requires job.Valid()
    ensures HiddenOutside(es, job, t) == 0
    decreases |es|
  {
    if es != [] {
      NoneHiddenOutside(es[1..], job, t - 1);
      NoneHidden(Handlers(es[0]), job);
    }
  }
}
