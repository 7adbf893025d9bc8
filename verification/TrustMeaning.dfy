/** What a state key spells, which handlers share a trust identity, and which events the
    trust check reports. */
module TrustMeaning {
  import opened Options
  import opened HookTables
  import opened CodexEvent
  import opened CodexTable
  import opened CodexHookTrust

  // ----- keys

  /** Decimal digits without a superfluous zero in front. */
  predicate Numeral(s: string) {
    s != "" && Digits(s) && (|s| > 1 ==> s[0] != '0')
  }

  lemma {:induction false} DecimalIsNumeral(n: nat)
    ensures Numeral(Decimal(n)) && Value(Decimal(n)) == n && (n > 0 ==> Decimal(n)[0] != '0')
    decreases n
  {
    DecimalValue(n);
    if n >= 10 { DecimalIsNumeral(n / 10); }
  }

  /** The key of a handler spells the file, the label of its event, and the numbers of its
      entry and of itself, with colons between. */
  lemma KeySpells(json: string, eventKey: string, group: nat, handler: nat) returns (g: string, h: string)
    ensures StateKey(json, eventKey, group, handler) == json + (":" + (eventKey + (":" + (g + (":" + h)))))
    ensures Numeral(g) && Value(g) == group && Numeral(h) && Value(h) == handler
  {
    g, h := Decimal(group), Decimal(handler);
    DecimalIsNumeral(group);
    DecimalIsNumeral(handler);
  }

  // ----- identities

  /** Matchers that make no difference to Codex: any two for an event without matchers,
      and an absent and an empty one. */
  predicate SameMatcher(event: string, a: Option<string>, b: Option<string>) {
    event == "UserPromptSubmit" || event == "Stop" || a == b ||
    ((a == None || a == Some("")) && (b == None || b == Some("")))
  }

  /** Timeouts that make no difference: below one second one second counts, and without
      one 600 seconds count. */
  predicate SameTimeout(a: Option<int>, b: Option<int>) {
    a == b || (a.Some? && b.Some? && a.value <= 1 && b.value <= 1) ||
    (a == None && b == Some(600)) || (a == Some(600) && b == None)
  }

  lemma MatcherEvents(event: string)
    requires Label(event).Some?
    ensures event in MATCHER_EVENTS <==> event != "UserPromptSubmit" && event != "Stop"
  {
    LabelledEvents(EVENT_LABELS, event);
    var i :| 0 <= i < |EVENT_LABELS| && EVENT_LABELS[i].0 == event;
    WithMatchers(i);
  }

  lemma WithMatchers(i: nat)
    requires i < |EVENT_LABELS|
    ensures var event := EVENT_LABELS[i].0;
      event in MATCHER_EVENTS <==> event != "UserPromptSubmit" && event != "Stop"
  {
  }

  lemma {:induction false} LabelledEvents(labels: seq<(string, string)>, event: string)
    ensures Lookup(labels, event).Some? <==> exists i :: 0 <= i < |labels| && labels[i].0 == event
    decreases |labels|
  {
    if labels != [] {
      LabelledEvents(labels[1..], event);
      if i :| 0 <= i < |labels[1..]| && labels[1..][i].0 == event { assert labels[i + 1].0 == event; }
      if i :| 1 <= i < |labels| && labels[i].0 == event { assert labels[1..][i - 1].0 == event; }
    }
  }

  /** Two handlers of a supported event have one identity, hence one hash, exactly when
      command, async flag and status message are equal and matcher and timeout make no
      difference; the event's label keeps the events apart. */
  lemma OneIdentity(event: string, a: Option<string>, g: Handler, b: Option<string>, h: Handler)
    requires Label(event).Some? && g.Handler? && h.Handler?
    ensures IdentityOf(event, Label(event).value, a, g) == IdentityOf(event, Label(event).value, b, h) <==>
      && Command(g) == Command(h) && g.isAsync == h.isAsync && g.statusMessage == h.statusMessage
      && SameMatcher(event, a, b) && SameTimeout(g.timeout, h.timeout)
  {
    MatcherEvents(event);
  }

  lemma EventsApart(event: string, a: Option<string>, g: Handler, event2: string, b: Option<string>, h: Handler)
    requires Label(event).Some? && Label(event2).Some? && g.Handler? && h.Handler? && event != event2
    ensures IdentityOf(event, Label(event).value, a, g) != IdentityOf(event2, Label(event2).value, b, h)
  {
    LabelsAreKeys(event, event2);
  }

  // ----- the check

  /** The first command handler of its entry that runs the script, in an entry with the
      registered matcher. */
  ghost predicate ChecksAt(es: seq<Entry>, job: Job, g: nat, h: nat) {
    && g < |es| && Matches(es[g], job.matcher) && h < |Handlers(es[g])| && RunsAsCommand(Handlers(es[g])[h], job.runs)
    && forall k :: 0 <= k < h ==> !RunsAsCommand(Handlers(es[g])[k], job.runs)
  }

  predicate RunsAsCommand(h: Handler, runs: Test) {
    h.Handler? && h.kind == Some("command") && runs(Command(h))
  }

  /** The state holds, under the handler's key, the hash of the handler with the
      registered matcher. */
  ghost predicate TrustedAt(c: Context, state: map<string, string>, reg: Registration, es: seq<Entry>, g: nat, h: nat)
    requires ChecksAt(es, reg.job, g, h) && Label(reg.event).Some?
  {
    var key := StateKey(c.json, Label(reg.event).value, g, h);
    key in state &&
    state[key] == c.digest(IdentityOf(reg.event, Label(reg.event).value, Some(reg.job.matcher), Handlers(es[g])[h]))
  }

  /** The event has such a handler, and all it has are trusted. */
  ghost predicate TrustedEvent(c: Context, state: map<string, string>, reg: Registration, es: seq<Entry>)
    requires Label(reg.event).Some?
  {
    && (exists g: nat, h: nat :: ChecksAt(es, reg.job, g, h))
    && (forall g: nat, h: nat :: ChecksAt(es, reg.job, g, h) ==> TrustedAt(c, state, reg, es, g, h))
  }

  lemma ChecksThere(es: seq<Entry>, job: Job, g: nat)
    requires g < |es|
    ensures FoundIn(es[g], job) <==> exists h: nat :: ChecksAt(es, job, g, h)
    ensures forall h: nat :: ChecksAt(es, job, g, h) ==> h == FirstCommandRun(Handlers(es[g]), job.runs)
  {
    var f := FirstCommandRun(Handlers(es[g]), job.runs);
    if FoundIn(es[g], job) { assert ChecksAt(es, job, g, f); }
    forall h: nat | ChecksAt(es, job, g, h) ensures h == f { FirstIs(Handlers(es[g]), job.runs, h); }
  }

  lemma FirstIs(hs: seq<Handler>, runs: Test, h: nat)
    requires h < |hs| && RunsAsCommand(hs[h], runs) && forall k :: 0 <= k < h ==> !RunsAsCommand(hs[k], runs)
    ensures FirstCommandRun(hs, runs) == h
  {
    var f := FirstCommandRun(hs, runs);
    assert forall k :: 0 <= k < |hs| ==> RunsAsCommand(hs[k], runs) == (IsCommand(hs[k]) && Passes(hs[k], runs));
    assert !(f < h) && !(h < f);
  }

  ghost predicate NoneUntrusted(c: Context, state: map<string, string>, reg: Registration, es: seq<Entry>)
    requires Label(reg.event).Some?
  {
    forall k: nat :: k < |es| ==> !Untrusted(c, state, reg, es, k)
  }

  lemma UntrustedHead(c: Context, state: map<string, string>, reg: Registration, es: seq<Entry>, g: nat)
    requires Label(reg.event).Some? && g < |es|
    ensures UntrustedFrom(c, state, reg, es, g) == [] <==>
            !Untrusted(c, state, reg, es, g) && UntrustedFrom(c, state, reg, es, g + 1) == []
  {
  }

  lemma {:induction false} NothingListed(c: Context, state: map<string, string>, reg: Registration,
                                             es: seq<Entry>, g: nat, k: nat)
    requires Label(reg.event).Some? && g <= k < |es| && UntrustedFrom(c, state, reg, es, g) == []
    ensures UntrustedFrom(c, state, reg, es, k) == []
    decreases k - g
  {
    if g < k {
      UntrustedHead(c, state, reg, es, g);
      NothingListed(c, state, reg, es, g + 1, k);
    }
  }

  /** The list from the first entry on is empty exactly when no entry is untrusted. */
  lemma UntrustedListed(c: Context, state: map<string, string>, reg: Registration, es: seq<Entry>)
    requires Label(reg.event).Some?
    ensures UntrustedFrom(c, state, reg, es, 0) == [] <==> NoneUntrusted(c, state, reg, es)
  {
    if NoneUntrusted(c, state, reg, es) {
      NothingUntrusted(c, state, reg, es, 0);
    }
    if UntrustedFrom(c, state, reg, es, 0) == [] {
      forall k: nat | k < |es| ensures !Untrusted(c, state, reg, es, k) {
        NothingListed(c, state, reg, es, 0, k);
        UntrustedHead(c, state, reg, es, k);
      }
    }
  }

  lemma {:induction false} OwnEventListed(c: Context, state: map<string, string>, reg: Registration,
                                          es: seq<Entry>, g: nat, event: string)
    requires Label(reg.event).Some? && event in UntrustedFrom(c, state, reg, es, g)
    ensures event == reg.event
    decreases |es| - g
  {
    if event in UntrustedFrom(c, state, reg, es, g + 1) { OwnEventListed(c, state, reg, es, g + 1, event); }
  }

  lemma UntrustedMeans(c: Context, state: map<string, string>, reg: Registration, es: seq<Entry>, g: nat)
    requires Label(reg.event).Some? && g < |es|
    ensures Untrusted(c, state, reg, es, g) <==>
      exists h: nat :: ChecksAt(es, reg.job, g, h) && !TrustedAt(c, state, reg, es, g, h)
  {
    ChecksThere(es, reg.job, g);
  }

  lemma FoundMeans(es: seq<Entry>, job: Job)
    ensures FoundFrom(es, job, 0) <==> exists g: nat, h: nat :: ChecksAt(es, job, g, h)
  {
    if FoundFrom(es, job, 0) {
      var k := FoundSomewhere(es, job, 0);
      ChecksThere(es, job, k);
    }
    if g: nat, h: nat :| ChecksAt(es, job, g, h) {
      ChecksThere(es, job, g);
      FoundAt(es, job, 0, g);
    }
  }

  /** One event draws no complaint exactly when it is trusted. */
  lemma EventMismatchesMean(c: Context, state: map<string, string>, reg: Registration, es: seq<Entry>)
    requires Label(reg.event).Some?
    ensures EventMismatches(c, state, reg, es) == [] <==> TrustedEvent(c, state, reg, es)
    ensures forall event :: event in EventMismatches(c, state, reg, es) ==> event == reg.event
  {
    UntrustedListed(c, state, reg, es);
    FoundMeans(es, reg.job);
    AllTrusted(c, state, reg, es);
    forall event | event in EventMismatches(c, state, reg, es) ensures event == reg.event {
      if event in UntrustedFrom(c, state, reg, es, 0) { OwnEventListed(c, state, reg, es, 0, event); }
    }
  }

  lemma AllTrusted(c: Context, state: map<string, string>, reg: Registration, es: seq<Entry>)
    requires Label(reg.event).Some?
    ensures NoneUntrusted(c, state, reg, es) <==>
      forall g: nat, h: nat :: ChecksAt(es, reg.job, g, h) ==> TrustedAt(c, state, reg, es, g, h)
  {
    if NoneUntrusted(c, state, reg, es) {
      forall g: nat, h: nat | ChecksAt(es, reg.job, g, h) ensures TrustedAt(c, state, reg, es, g, h) {
        UntrustedMeans(c, state, reg, es, g);
      }
    } else {
      var k: nat :| k < |es| && Untrusted(c, state, reg, es, k);
      UntrustedMeans(c, state, reg, es, k);
    }
  }

  ghost predicate Complains(c: Context, state: map<string, string>, table: Table, reg: Registration, event: string)
    requires Label(reg.event).Some?
  {
    reg.event == event && !TrustedEvent(c, state, reg, EntriesOf(table, reg.event))
  }

  /** The check names exactly the registered events that are not trusted. */
  lemma {:induction false} MismatchesMean(c: Context, state: map<string, string>, table: Table,
                                          regs: seq<Registration>, event: string)
    requires Supported(regs)
    ensures event in Mismatches(c, state, table, regs) <==>
      exists i :: 0 <= i < |regs| && Complains(c, state, table, regs[i], event)
    decreases |regs|
  {
    if regs != [] {
      var own := EventMismatches(c, state, regs[0], EntriesOf(table, regs[0].event));
      EventMismatchesMean(c, state, regs[0], EntriesOf(table, regs[0].event));
      if own != [] { assert own[0] in own; }
      assert event in own <==> Complains(c, state, table, regs[0], event);
      MismatchesMean(c, state, table, regs[1..], event);
      if i :| 0 <= i < |regs[1..]| && Complains(c, state, table, regs[1..][i], event) {
        assert regs[i + 1] == regs[1..][i];
      }
      if i :| 1 <= i < |regs| && Complains(c, state, table, regs[i], event) { assert regs[1..][i - 1] == regs[i]; }
    }
  }
}
