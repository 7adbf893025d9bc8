/** Trust in Codex hooks: a hash per handler position, refreshed after every
    installation so that it follows handlers whose position changed. */
module CodexHookTrust {
  import opened Options
  import opened HookTables
  import opened CodexEvent
  import opened CodexTable
  import opened TrustText

  // ----- keys

  /** EVENT_KEY_LABELS. */
  const EVENT_LABELS: seq<(string, string)> := [
    ("PreToolUse", "pre_tool_use"), ("PermissionRequest", "permission_request"),
    ("PostToolUse", "post_tool_use"), ("PreCompact", "pre_compact"),
    ("PostCompact", "post_compact"), ("SessionStart", "session_start"),
    ("UserPromptSubmit", "user_prompt_submit"), ("SubagentStart", "subagent_start"),
    ("SubagentStop", "subagent_stop"), ("Stop", "stop")]

  /** Events whose identity includes the matcher. */
  const MATCHER_EVENTS: set<string> := {
    "PreToolUse", "PermissionRequest", "PostToolUse", "PreCompact", "PostCompact",
    "SessionStart", "SubagentStart", "SubagentStop"}

  function Lookup(table: seq<(string, string)>, event: string): Option<string> {
    if table == [] then None
    else if table[0].0 == event then Some(table[0].1) else Lookup(table[1..], event)
  }

  function Label(event: string): Option<string> {
    Lookup(EVENT_LABELS, event)
  }

  function Digit(d: nat): char
    requires d < 10
  {
    ('0' as int + d) as char
  }

  /** Decimal notation. */
  function Decimal(n: nat): string {
    if n < 10 then [Digit(n)] else Decimal(n / 10) + [Digit(n % 10)]
  }

  function StateKey(json: string, eventKey: string, group: nat, handler: nat): string {
    json + (":" + (eventKey + (":" + (Decimal(group) + (":" + Decimal(handler))))))
  }

  // ----- hashes

  /** What the trust hash of a handler is computed from. */
  datatype Identity = Identity(eventKey: string, matcher: Option<string>, isAsync: bool, command: string,
                               timeout: int, statusMessage: Option<string>)

  function NormalizedMatcher(event: string, matcher: Option<string>): Option<string> {
    if event in MATCHER_EVENTS && matcher != Some("") then matcher else None
  }

  function IdentityOf(event: string, eventKey: string, matcher: Option<string>, h: Handler): Identity
    requires h.Handler?
  {
    Identity(eventKey, NormalizedMatcher(event, matcher), h.isAsync, Command(h),
             if h.timeout.None? then 600 else if h.timeout.value < 1 then 1 else h.timeout.value,
             h.statusMessage)
  }

  /** Everything the trust functions are given besides the table: the path of
      hooks.json, the hooks directory, the hashes trusted so far, and the digest. */
  datatype Context = Context(json: string, owned: Test, existing: set<string>, digest: Identity -> string)

  /** Only command handlers carry trust. */
  predicate IsCommand(h: Handler) {
    h.Handler? && h.kind == Some("command")
  }

  predicate HasCommand(es: seq<Entry>, g: nat, h: nat) {
    g < |es| && h < |Handlers(es[g])| && IsCommand(Handlers(es[g])[h])
  }

  function Hash(c: Context, event: string, eventKey: string, es: seq<Entry>, g: nat, h: nat): string
    requires HasCommand(es, g, h)
  {
    c.digest(IdentityOf(event, eventKey, es[g].matcher, Handlers(es[g])[h]))
  }

  /** A handler to be trusted: a hub handler, or one whose hash is trusted already. */
  predicate ShouldTrust(c: Context, event: string, eventKey: string, es: seq<Entry>, g: nat, h: nat) {
    HasCommand(es, g, h) &&
    (Passes(Handlers(es[g])[h], c.owned) || Hash(c, event, eventKey, es, g, h) in c.existing)
  }

  /** `trust_updates_for_hooks`, the entry from handler `h` on. */
  function EntryUpdates(c: Context, event: string, eventKey: string, es: seq<Entry>, g: nat, h: nat): map<string,
                        string>
    requires g < |es|
    decreases |Handlers(es[g])| - h
  {
    if h >= |Handlers(es[g])| then map[]
    else
      (if ShouldTrust(c, event, eventKey, es, g, h)
       then map[StateKey(c.json, eventKey, g, h) := Hash(c, event, eventKey, es, g, h)] else map[])
      + EntryUpdates(c, event, eventKey, es, g, h + 1)
  }

  function EventUpdates(c: Context, event: string, eventKey: string, es: seq<Entry>, g: nat): map<string, string>
    decreases |es| - g
  {
    if g >= |es| then map[]
    else EntryUpdates(c, event, eventKey, es, g, 0) + EventUpdates(c, event, eventKey, es, g + 1)
  }

  lemma EntryStep(c: Context, event: string, eventKey: string, es: seq<Entry>, g: nat, h: nat,
                  done: map<string, string>)
    requires g < |es| && h < |Handlers(es[g])|
    ensures done + EntryUpdates(c, event, eventKey, es, g, h) ==
      (if ShouldTrust(c, event, eventKey, es, g, h)
       then done + map[StateKey(c.json, eventKey, g, h) := Hash(c, event, eventKey, es, g, h)] else done)
      + EntryUpdates(c, event, eventKey, es, g, h + 1)
  {
    var rest := EntryUpdates(c, event, eventKey, es, g, h + 1);
    if ShouldTrust(c, event, eventKey, es, g, h) {
      MapUnionAssociates(done, map[StateKey(c.json, eventKey, g, h) := Hash(c, event, eventKey, es, g, h)], rest);
    } else {
      assert map[] + rest == rest;
    }
  }

  /** The inner loop: one entry. */
  method UpdatesForEntry(c: Context, event: string, eventKey: string, es: seq<Entry>, g: nat,
                         start: map<string, string>)
    returns (updates: map<string, string>)
    requires g < |es|
    ensures updates == start + EntryUpdates(c, event, eventKey, es, g, 0)
  {
    updates := start;
    for h := 0 to |Handlers(es[g])|
      invariant updates + EntryUpdates(c, event, eventKey, es, g, h) ==
                start + EntryUpdates(c, event, eventKey, es, g, 0)
    {
      EntryStep(c, event, eventKey, es, g, h, updates);
      if ShouldTrust(c, event, eventKey, es, g, h) {
        updates := updates + map[StateKey(c.json, eventKey, g, h) := Hash(c, event, eventKey, es, g, h)];
      }
    }
    assert updates + map[] == updates;
  }

  /** The outer loop: the entries of one event. */
  method UpdatesForEvent(c: Context, event: string, eventKey: string, es: seq<Entry>, start: map<string, string>)
    returns (updates: map<string, string>)
    ensures updates == start + EventUpdates(c, event, eventKey, es, 0)
  {
    updates := start;
    for g := 0 to |es|
      invariant updates + EventUpdates(c, event, eventKey, es, g) == start + EventUpdates(c, event, eventKey, es, 0)
    {
      MapUnionAssociates(updates, EntryUpdates(c, event, eventKey, es, g, 0),
                         EventUpdates(c, event, eventKey, es, g + 1));
      updates := UpdatesForEntry(c, event, eventKey, es, g, updates);
    }
    assert updates + map[] == updates;
  }

  // ----- keys are injective

  function DigitValue(c: char): nat {
    if '0' <= c <= '9' then c as int - '0' as int else 0
  }

  function Value(s: string): nat {
    if s == "" then 0 else 10 * Value(s[..|s| - 1]) + DigitValue(s[|s| - 1])
  }

  predicate Digits(s: string) {
    forall i :: 0 <= i < |s| ==> '0' <= s[i] <= '9'
  }

  lemma {:induction false} DecimalValue(n: nat)
    ensures Value(Decimal(n)) == n && Decimal(n) != "" && Digits(Decimal(n))
    decreases n
  {
    if n < 10 {
      assert Decimal(n)[..0] == "";
    } else {
      DecimalValue(n / 10);
      assert Decimal(n)[..|Decimal(n)| - 1] == Decimal(n / 10);
    }
  }

  lemma ColonSplits(a: string, x: string, b: string, y: string)
    requires ':' !in a && ':' !in b && a + (":" + x) == b + (":" + y)
    ensures a == b && x == y
  {
    var s, t := a + (":" + x), b + (":" + y);
    assert s[|a|] == ':' && t[|b|] == ':';
    assert forall k :: 0 <= k < |a| ==> s[k] == a[k] != ':';
    assert forall k :: 0 <= k < |b| ==> t[k] == b[k] != ':';
    assert a == s[..|a|] && b == t[..|b|];
    assert ":" + x == s[|a|..] && ":" + y == t[|b|..];
    assert x == s[|a|..][1..] && y == t[|b|..][1..];
  }

  /** Two positions of the same file share a state key only if they are the same. */
  lemma KeyInjective(json: string, l1: string, g1: nat, h1: nat, l2: string, g2: nat, h2: nat)
    requires ':' !in l1 && ':' !in l2
    requires StateKey(json, l1, g1, h1) == StateKey(json, l2, g2, h2)
    ensures l1 == l2 && g1 == g2 && h1 == h2
  {
    DecimalValue(g1);
    DecimalValue(g2);
    DecimalValue(h1);
    DecimalValue(h2);
    var t1 := LabelTail(l1, g1, h1);
    var t2 := LabelTail(l2, g2, h2);
    assert StateKey(json, l1, g1, h1)[|json|..] == t1;
    assert StateKey(json, l2, g2, h2)[|json|..] == t2;
    assert t1[1..] == l1 + (":" + (Decimal(g1) + (":" + Decimal(h1))));
    assert t2[1..] == l2 + (":" + (Decimal(g2) + (":" + Decimal(h2))));
    ColonSplits(l1, Decimal(g1) + (":" + Decimal(h1)), l2, Decimal(g2) + (":" + Decimal(h2)));
    ColonSplits(Decimal(g1), Decimal(h1), Decimal(g2), Decimal(h2));
  }

  function LabelTail(eventKey: string, g: nat, h: nat): string {
    ":" + (eventKey + (":" + (Decimal(g) + (":" + Decimal(h)))))
  }

  // ----- what the updates are

  lemma {:induction false} EntryUpdateKeys(c: Context, event: string, eventKey: string, es: seq<Entry>, g: nat,
                                           h: nat, key: string)
    returns (at: nat)
    requires g < |es| && key in EntryUpdates(c, event, eventKey, es, g, h)
    ensures h <= at && ShouldTrust(c, event, eventKey, es, g, at) && key == StateKey(c.json, eventKey, g, at)
    decreases |Handlers(es[g])| - h
  {
    if key in EntryUpdates(c, event, eventKey, es, g, h + 1) {
      at := EntryUpdateKeys(c, event, eventKey, es, g, h + 1, key);
    } else {
      at := h;
    }
  }

  lemma {:induction false} EntryUpdateValue(c: Context, event: string, eventKey: string, es: seq<Entry>, g: nat,
                                            h: nat, at: nat)
    requires ':' !in eventKey && h <= at && ShouldTrust(c, event, eventKey, es, g, at)
    ensures var key, m := StateKey(c.json, eventKey, g, at), EntryUpdates(c, event, eventKey, es, g, h);
            key in m && m[key] == Hash(c, event, eventKey, es, g, at)
    decreases |Handlers(es[g])| - h
  {
    var key := StateKey(c.json, eventKey, g, at);
    if h < at {
      EntryUpdateValue(c, event, eventKey, es, g, h + 1, at);
    } else if key in EntryUpdates(c, event, eventKey, es, g, h + 1) {
      var later := EntryUpdateKeys(c, event, eventKey, es, g, h + 1, key);
      KeyInjective(c.json, eventKey, g, at, eventKey, g, later);
    }
  }

  lemma {:induction false} EventUpdateKeys(c: Context, event: string, eventKey: string, es: seq<Entry>, g: nat,
                                           key: string)
    returns (group: nat, at: nat)
    requires key in EventUpdates(c, event, eventKey, es, g)
    ensures g <= group && ShouldTrust(c, event, eventKey, es, group, at) && key == StateKey(c.json, eventKey, group, at)
    decreases |es| - g
  {
    if key in EventUpdates(c, event, eventKey, es, g + 1) {
      group, at := EventUpdateKeys(c, event, eventKey, es, g + 1, key);
    } else {
      group := g;
      at := EntryUpdateKeys(c, event, eventKey, es, g, 0, key);
    }
  }

  lemma {:induction false} EventUpdateValue(c: Context, event: string, eventKey: string, es: seq<Entry>, g: nat,
                                            group: nat, at: nat)
    requires ':' !in eventKey && g <= group && ShouldTrust(c, event, eventKey, es, group, at)
    ensures var key, m := StateKey(c.json, eventKey, group, at), EventUpdates(c, event, eventKey, es, g);
            key in m && m[key] == Hash(c, event, eventKey, es, group, at)
    decreases |es| - g
  {
    var key := StateKey(c.json, eventKey, group, at);
    if g < group {
      EventUpdateValue(c, event, eventKey, es, g + 1, group, at);
    } else {
      EntryUpdateValue(c, event, eventKey, es, group, 0, at);
      if key in EventUpdates(c, event, eventKey, es, g + 1) {
        var later, other := EventUpdateKeys(c, event, eventKey, es, g + 1, key);
        KeyInjective(c.json, eventKey, group, at, eventKey, later, other);
      }
    }
  }

  /** The position of a handler in the table. */
  datatype Position = Position(event: string, group: nat, handler: nat)

  /** The position holds a command handler of a supported event. */
  predicate Holds(table: Table, p: Position) {
    p.event in table && Label(p.event).Some? && HasCommand(table[p.event], p.group, p.handler)
  }

  function KeyAt(json: string, p: Position): string
    requires Label(p.event).Some?
  {
    StateKey(json, Label(p.event).value, p.group, p.handler)
  }

  function HashAt(c: Context, table: Table, p: Position): string
    requires Holds(table, p)
  {
    Hash(c, p.event, Label(p.event).value, table[p.event], p.group, p.handler)
  }

  function HandlerAt(table: Table, p: Position): Handler
    requires Holds(table, p)
  {
    Handlers(table[p.event][p.group])[p.handler]
  }

  predicate Wanted(c: Context, table: Table, p: Position)
    requires Holds(table, p)
  {
    Passes(HandlerAt(table, p), c.owned) || HashAt(c, table, p) in c.existing
  }

  /** The updates of a table: exactly the wanted positions, each with its hash. */
  ghost predicate AreUpdates(c: Context, table: Table, updates: map<string, string>) {
    && (forall p :: Holds(table, p) && Wanted(c, table, p) ==>
          KeyAt(c.json, p) in updates && updates[KeyAt(c.json, p)] == HashAt(c, table, p))
    && (forall key :: key in updates ==>
          exists p :: Holds(table, p) && Wanted(c, table, p) && key == KeyAt(c.json, p))
  }

  lemma LabelsAreKeys(e1: string, e2: string)
    ensures Label(e1).Some? ==> ':' !in Label(e1).value
    ensures Label(e1).Some? && Label(e1) == Label(e2) ==> e1 == e2
  {
    LookupInjective(EVENT_LABELS, e1, e2);
  }

  lemma {:induction false} LookupInjective(labels: seq<(string, string)>, e1: string, e2: string)
    requires forall i :: 0 <= i < |labels| ==> ':' !in labels[i].1
    requires forall i, j :: 0 <= i < j < |labels| ==> labels[i].1 != labels[j].1
    ensures Lookup(labels, e1).Some? ==> ':' !in Lookup(labels, e1).value
    ensures Lookup(labels, e1).Some? ==> exists i :: 0 <= i < |labels| && labels[i].1 == Lookup(labels, e1).value
    ensures Lookup(labels, e1).Some? && Lookup(labels, e1) == Lookup(labels, e2) ==> e1 == e2
    decreases |labels|
  {
    if labels != [] {
      var rest := labels[1..];
      assert forall i :: 0 <= i < |rest| ==> rest[i] == labels[i + 1];
      LookupInjective(rest, e1, e2);
      LookupInjective(rest, e2, e1);
    }
  }

  lemma PositionKeyInjective(json: string, p: Position, q: Position)
    requires Label(p.event).Some? && Label(q.event).Some? && KeyAt(json, p) == KeyAt(json, q)
    ensures p == q
  {
    LabelsAreKeys(p.event, q.event);
    LabelsAreKeys(q.event, p.event);
    KeyInjective(json, Label(p.event).value, p.group, p.handler, Label(q.event).value, q.group, q.handler);
  }

  /** The updates so far cover exactly the events outside `open`. */
  ghost predicate AreUpdatesOutside(c: Context, table: Table, updates: map<string, string>, open: set<string>) {
    && (forall p: Position :: p.event !in open && Holds(table, p) && Wanted(c, table, p) ==>
          KeyAt(c.json, p) in updates && updates[KeyAt(c.json, p)] == HashAt(c, table, p))
    && (forall key :: key in updates ==>
          exists p: Position :: p.event !in open && Holds(table, p) && Wanted(c, table, p) && key == KeyAt(c.json, p))
  }

  lemma EventAdded(c: Context, table: Table, before: map<string, string>, open: set<string>, event: string)
    requires AreUpdatesOutside(c, table, before, open) && event in open && event in table && Label(event).Some?
    ensures AreUpdatesOutside(c, table, before + EventUpdates(c, event, Label(event).value, table[event], 0),
                              open - {event})
  {
    var es, eventKey := table[event], Label(event).value;
    var own := EventUpdates(c, event, eventKey, es, 0);
    var after := before + own;
    forall p: Position | p.event !in open - {event} && Holds(table, p) && Wanted(c, table, p)
      ensures KeyAt(c.json, p) in after && after[KeyAt(c.json, p)] == HashAt(c, table, p)
    {
      PositionAdded(c, table, before, open, event, p);
    }
    forall key | key in after
      ensures exists p: Position ::
        p.event !in open - {event} && Holds(table, p) && Wanted(c, table, p) && key == KeyAt(c.json, p)
    {
      if key in own {
        var group, at := EventUpdateKeys(c, event, eventKey, es, 0, key);
        var p := Position(event, group, at);
        assert Holds(table, p) && Wanted(c, table, p) && key == KeyAt(c.json, p);
      } else {
        var p: Position :| p.event !in open && Holds(table, p) && Wanted(c, table, p) && key == KeyAt(c.json, p);
      }
    }
  }

  lemma PositionAdded(c: Context, table: Table, before: map<string, string>, open: set<string>, event: string,
                      p: Position)
    requires AreUpdatesOutside(c, table, before, open) && event in open && event in table && Label(event).Some?
    requires p.event !in open - {event} && Holds(table, p) && Wanted(c, table, p)
    ensures var after := before + EventUpdates(c, event, Label(event).value, table[event], 0);
      KeyAt(c.json, p) in after && after[KeyAt(c.json, p)] == HashAt(c, table, p)
  {
    var es, eventKey := table[event], Label(event).value;
    LabelsAreKeys(event, event);
    if p.event == event {
      EventUpdateValue(c, event, eventKey, es, 0, p.group, p.handler);
    } else if KeyAt(c.json, p) in EventUpdates(c, event, eventKey, es, 0) {
      var group, at := EventUpdateKeys(c, event, eventKey, es, 0, KeyAt(c.json, p));
      PositionKeyInjective(c.json, p, Position(event, group, at));
    }
  }

  /** `trust_updates_for_hooks`; the events may come in any order. */
  method TrustUpdates(c: Context, table: Table) returns (updates: map<string, string>)
    ensures AreUpdates(c, table, updates)
  {
    updates := map[];
    var open := table.Keys;
    while open != {}
      invariant open <= table.Keys && AreUpdatesOutside(c, table, updates, open)
      decreases |open|
    {
      var event :| event in open;
      if Label(event).Some? {
        EventAdded(c, table, updates, open, event);
        updates := UpdatesForEvent(c, event, Label(event).value, table[event], updates);
      }
      open := open - {event};
    }
  }

  // ----- trust follows the handlers

  /** With the updates written over the old state, a command handler of a supported
      event is trusted at its present position exactly when it is a hub handler or
      its hash was trusted at some position before: moving handlers neither loses
      nor creates trust. */
  lemma TrustFollows(c: Context, table: Table, state: map<string, string>, updates: map<string, string>, p: Position)
    requires c.existing == state.Values && AreUpdates(c, table, updates) && Holds(table, p)
    ensures var after, key := state + updates, KeyAt(c.json, p);
      (key in after && after[key] == HashAt(c, table, p)) <==>
      Passes(HandlerAt(table, p), c.owned) || HashAt(c, table, p) in state.Values
  {
    var key := KeyAt(c.json, p);
    if key in updates {
      var q :| Holds(table, q) && Wanted(c, table, q) && key == KeyAt(c.json, q);
      PositionKeyInjective(c.json, p, q);
    }
  }

  /** Distinct identities have distinct digests. */
  ghost predicate CollisionFree(digest: Identity -> string) {
    forall a, b :: digest(a) == digest(b) ==> a == b
  }

  lemma SameHashSameCommand(c: Context, table: Table, p: Position, q: Position)
    requires CollisionFree(c.digest) && Holds(table, p) && Holds(table, q)
    requires HashAt(c, table, p) == HashAt(c, table, q)
    ensures Command(HandlerAt(table, p)) == Command(HandlerAt(table, q))
  {
    assert IdentityOf(p.event, Label(p.event).value, table[p.event][p.group].matcher, HandlerAt(table, p)) ==
           IdentityOf(q.event, Label(q.event).value, table[q.event][q.group].matcher, HandlerAt(table, q));
  }

  /** Writing the updates makes no foreign hash trusted that was not trusted before. */
  lemma NoNewHash(c: Context, table: Table, state: map<string, string>, updates: map<string, string>, p: Position)
    requires c.existing == state.Values && AreUpdates(c, table, updates) && CollisionFree(c.digest)
    requires Holds(table, p) && !Passes(HandlerAt(table, p), c.owned)
    requires HashAt(c, table, p) in (state + updates).Values
    ensures HashAt(c, table, p) in state.Values
  {
    var after := state + updates;
    var k :| k in after && after[k] == HashAt(c, table, p);
    if k in updates {
      var q :| Holds(table, q) && Wanted(c, table, q) && k == KeyAt(c.json, q);
      SameHashSameCommand(c, table, p, q);
    } else {
      assert state[k] == HashAt(c, table, p);
    }
  }

  /** After the updates are written, computing them again finds nothing to write. */
  lemma UpdatesSettle(c: Context, table: Table, state: map<string, string>, updates: map<string, string>,
                      again: map<string, string>)
    requires c.existing == state.Values && AreUpdates(c, table, updates) && CollisionFree(c.digest)
    requires AreUpdates(c.(existing := (state + updates).Values), table, again)
    ensures forall key :: key in again ==> key in state + updates && (state + updates)[key] == again[key]
  {
    var c2 := c.(existing := (state + updates).Values);
    forall key | key in again ensures key in updates && updates[key] == again[key] {
      var p :| Holds(table, p) && Wanted(c2, table, p) && key == KeyAt(c.json, p);
      assert HashAt(c2, table, p) == HashAt(c, table, p);
      if !Passes(HandlerAt(table, p), c.owned) { NoNewHash(c, table, state, updates, p); }
      assert Wanted(c, table, p);
    }
  }

  // ----- hub_hook_trust_mismatches

  /** The first command handler of the list that runs the script. */
  function FirstCommandRun(hs: seq<Handler>, runs: Test): (h: nat)
    ensures h <= |hs| && (h < |hs| ==> IsCommand(hs[h]) && Passes(hs[h], runs))
    ensures forall j :: 0 <= j < h ==> !(IsCommand(hs[j]) && Passes(hs[j], runs))
  {
    if hs == [] || (IsCommand(hs[0]) && Passes(hs[0], runs)) then 0 else 1 + FirstCommandRun(hs[1..], runs)
  }

  predicate FoundIn(e: Entry, job: Job) {
    Matches(e, job.matcher) && FirstCommandRun(Handlers(e), job.runs) < |Handlers(e)|
  }

  /** The entry at `g` holds the script's command handler, but not under its hash. */
  predicate Untrusted(c: Context, state: map<string, string>, reg: Registration, es: seq<Entry>, g: nat)
    requires g < |es| && Label(reg.event).Some?
  {
    FoundIn(es[g], reg.job) &&
    var h := FirstCommandRun(Handlers(es[g]), reg.job.runs);
    var key := StateKey(c.json, Label(reg.event).value, g, h);
    var expected := c.digest(IdentityOf(reg.event, Label(reg.event).value, Some(reg.job.matcher), Handlers(es[g])[h]));
    !(key in state && state[key] == expected)
  }

  function UntrustedFrom(c: Context, state: map<string, string>, reg: Registration, es: seq<Entry>, g: nat): seq<string>
    requires Label(reg.event).Some?
    decreases |es| - g
  {
    if g >= |es| then []
    else (if Untrusted(c, state, reg, es, g) then [reg.event] else []) + UntrustedFrom(c, state, reg, es, g + 1)
  }

  /** Some entry from `g` on holds the script's command handler. */
  predicate FoundFrom(es: seq<Entry>, job: Job, g: nat)
    decreases |es| - g
  {
    g < |es| && (FoundIn(es[g], job) || FoundFrom(es, job, g + 1))
  }

  function EventMismatches(c: Context, state: map<string, string>, reg: Registration, es: seq<Entry>): seq<string>
    requires Label(reg.event).Some?
  {
    UntrustedFrom(c, state, reg, es, 0) + (if FoundFrom(es, reg.job, 0) then [] else [reg.event])
  }

  ghost predicate Supported(regs: seq<Registration>) {
    forall i :: 0 <= i < |regs| ==> Label(regs[i].event).Some?
  }

  function Mismatches(c: Context, state: map<string, string>, table: Table, regs: seq<Registration>): seq<string>
    requires Supported(regs)
    decreases |regs|
  {
    if regs == [] then []
    else EventMismatches(c, state, regs[0], EntriesOf(table, regs[0].event)) + Mismatches(c, state, table, regs[1..])
  }

  lemma UntrustedStep(c: Context, state: map<string, string>, reg: Registration, es: seq<Entry>, g: nat,
                      mismatches: seq<string>)
    requires Label(reg.event).Some? && g < |es|
    ensures mismatches + UntrustedFrom(c, state, reg, es, g) ==
      (if Untrusted(c, state, reg, es, g) then mismatches + [reg.event] else mismatches)
      + UntrustedFrom(c, state, reg, es, g + 1)
  {
  }

  lemma FoundStep(es: seq<Entry>, job: Job, g: nat)
    requires g < |es|
    ensures FoundFrom(es, job, g) <==> FoundIn(es[g], job) || FoundFrom(es, job, g + 1)
  {
  }

  /** One event of `hub_hook_trust_mismatches`. `fault` is the error for an event
      without a label, raised when the first handler is found and its key is formed. */
  method MismatchesOfEvent(c: Context, state: map<string, string>, reg: Registration, es: seq<Entry>)
    returns (fault: bool, mismatches: seq<string>)
    ensures fault <==> Label(reg.event).None? && FoundFrom(es, reg.job, 0)
    ensures !fault && Label(reg.event).None? ==> mismatches == [reg.event]
    ensures Label(reg.event).Some? ==> mismatches == EventMismatches(c, state, reg, es)
  {
    mismatches := [];
    var found, supported := false, Label(reg.event).Some?;
    for g := 0 to |es|
      invariant supported ==>
        mismatches + UntrustedFrom(c, state, reg, es, g) == UntrustedFrom(c, state, reg, es, 0)
      invariant !supported ==> mismatches == [] && !found
      invariant (found || FoundFrom(es, reg.job, g)) == FoundFrom(es, reg.job, 0)
    {
      FoundStep(es, reg.job, g);
      var here := FoundIn(es[g], reg.job);
      if here && !supported { return true, []; }
      found := found || here;
      if supported {
        UntrustedStep(c, state, reg, es, g, mismatches);
        var untrusted := Untrusted(c, state, reg, es, g);
        if untrusted { mismatches := mismatches + [reg.event]; }
      }
    }
    if !found { mismatches := mismatches + [reg.event]; }
    fault := false;
  }

  // ----- what remains untrusted after an installation

  /** The handler the installer will keep for the event is a command handler: it is
      new, or the one it reuses has that type. */
  predicate ReusesCommand(es: seq<Entry>, job: Job) {
    var t := FirstMatch(es, job.matcher);
    t == |es| ||
    var hs := Handlers(es[t]);
    var i := FirstRun(hs, job.runs);
    i == |hs| || IsCommand(hs[i])
  }

  /** The first handler of the first entry with the matcher. */
  ghost predicate StartsWithHandler(es: seq<Entry>, matcher: string, h: Handler) {
    es != [] &&
    if Matches(es[0], matcher) then Handlers(es[0]) != [] && Handlers(es[0])[0] == h
    else StartsWithHandler(es[1..], matcher, h)
  }

  lemma {:induction false} StartsAtFirstMatch(es: seq<Entry>, matcher: string, h: Handler)
    ensures StartsWithHandler(es, matcher, h) <==>
      var k := FirstMatch(es, matcher); k < |es| && Handlers(es[k]) != [] && Handlers(es[k])[0] == h
    decreases |es|
  {
    if es != [] && !Matches(es[0], matcher) { StartsAtFirstMatch(es[1..], matcher, h); }
  }

  lemma StartsBehind(first: seq<Entry>, rest: seq<Entry>, matcher: string, h: Handler)
    requires |first| <= 1 && (first != [] ==> !Matches(first[0], matcher)) && StartsWithHandler(rest, matcher, h)
    ensures StartsWithHandler(first + rest, matcher, h)
  {
    if first == [] { assert first + rest == rest; } else { assert (first + rest)[1..] == rest; }
  }

  lemma StartsInHead(e: Entry, rest: seq<Entry>, job: Job, h: Handler)
    requires Matches(e, job.matcher) && Handlers(e) != [] && Handlers(e)[0] == h && Passes(h, job.runs)
    ensures StartsWithHandler(KeptEntry(e, job, true) + rest, job.matcher, h)
  {
    assert Pruned(Handlers(e), job, true)[0] == h;
  }

  lemma {:induction false} PruningKeepsFirst(es: seq<Entry>, job: Job, t: nat, h: Handler)
    requires t == FirstMatch(es, job.matcher) && StartsWithHandler(es, job.matcher, h) && Passes(h, job.runs)
    ensures StartsWithHandler(Kept(es, job, t), job.matcher, h)
    decreases |es|
  {
    if t == 0 {
      StartsInHead(es[0], Kept(es[1..], job, -1), job, h);
    } else {
      PruningKeepsFirst(es[1..], job, t - 1, h);
      PruningSkips(es[0], job);
      StartsBehind(KeptEntry(es[0], job, false), Kept(es[1..], job, t - 1), job.matcher, h);
    }
  }

  lemma PruningSkips(e: Entry, job: Job)
    requires !Matches(e, job.matcher)
    ensures var kept := KeptEntry(e, job, false); |kept| <= 1 && (kept != [] ==> !Matches(kept[0], job.matcher))
  {
  }

  lemma InstalledKind(es: seq<Entry>, job: Job)
    requires job.Valid() && InstallEvent(es, job).Done?
    ensures var after := InstallEvent(es, job).entries;
      var k := FirstMatch(after, job.matcher);
      k < |after| && Handlers(after[k]) != [] && (IsCommand(Handlers(after[k])[0]) <==> ReusesCommand(es, job))
  {
    var t, es2 := FirstMatch(es, job.matcher), PlacedEntries(es, job);
    PlacedTarget(es, job);
    var h := Handlers(es2[t])[0];
    CanonicalRuns(h, job);
    StartsAtFirstMatch(es2, job.matcher, h);
    PruningKeepsFirst(es2, job, t, h);
    StartsAtFirstMatch(InstallEvent(es, job).entries, job.matcher, h);
  }

  lemma {:induction false} CleanNowhereNamed(es: seq<Entry>, named: Test, g: nat, h: nat)
    requires NoneNamedIn(es, named) && g < |es| && h < |Handlers(es[g])|
    ensures !Passes(Handlers(es[g])[h], named)
    decreases |es|
  {
    if g > 0 { CleanNowhereNamed(es[1..], named, g - 1, h); }
  }

  lemma NamedOnlyFirst(hs: seq<Handler>, named: Test, h: nat)
    requires h < |hs| && NoneNamed(hs[1..], named) && Passes(hs[h], named)
    ensures h == 0
  {
    assert forall k :: 1 <= k < |hs| ==> hs[k] == hs[1..][k - 1];
  }

  /** In a settled event a hub script of the name runs only first in the first
      matching entry. */
  lemma {:induction false} SettledNamedOnce(es: seq<Entry>, job: Job, g: nat, h: nat)
    requires Settled(es, job) && g < |es| && h < |Handlers(es[g])|
    requires Passes(Handlers(es[g])[h], job.named)
    ensures g == FirstMatch(es, job.matcher) && h == 0
    decreases |es|
  {
    if Matches(es[0], job.matcher) {
      if g > 0 {
        CleanNowhereNamed(es[1..], job.named, g - 1, h);
      } else {
        NamedOnlyFirst(Handlers(es[0]), job.named, h);
      }
    } else if g > 0 {
      SettledNamedOnce(es[1..], job, g - 1, h);
    }
  }

  lemma {:induction false} NothingUntrusted(c: Context, state: map<string, string>, reg: Registration, es: seq<Entry>,
                                            g: nat)
    requires Label(reg.event).Some?
    requires forall k :: g <= k < |es| ==> !Untrusted(c, state, reg, es, k)
    ensures UntrustedFrom(c, state, reg, es, g) == []
    decreases |es| - g
  {
    if g < |es| { NothingUntrusted(c, state, reg, es, g + 1); }
  }

  lemma {:induction false} FoundAt(es: seq<Entry>, job: Job, g: nat, k: nat)
    requires g <= k < |es| && FoundIn(es[k], job)
    ensures FoundFrom(es, job, g)
    decreases |es| - g
  {
    if g < k { FoundAt(es, job, g + 1, k); }
  }

  lemma {:induction false} FoundSomewhere(es: seq<Entry>, job: Job, g: nat) returns (k: nat)
    requires FoundFrom(es, job, g)
    ensures g <= k < |es| && FoundIn(es[k], job)
    decreases |es| - g
  {
    FoundStep(es, job, g);
    if FoundIn(es[g], job) { k := g; } else { k := FoundSomewhere(es, job, g + 1); }
  }

  /** A settled event is found exactly when the kept handler is a command handler. */
  lemma SettledFound(es: seq<Entry>, job: Job)
    requires job.Valid() && Settled(es, job)
    ensures var k := FirstMatch(es, job.matcher);
      k < |es| && Handlers(es[k]) != [] && (FoundFrom(es, job, 0) <==> IsCommand(Handlers(es[k])[0]))
    ensures forall g :: 0 <= g < |es| && FoundIn(es[g], job) ==>
      g == FirstMatch(es, job.matcher) && FirstCommandRun(Handlers(es[g]), job.runs) == 0
  {
    var k := FirstMatch(es, job.matcher);
    SettledPosition(es, job);
    CanonicalRuns(Handlers(es[k])[0], job);
    forall g | 0 <= g < |es| && FoundIn(es[g], job)
      ensures g == k && FirstCommandRun(Handlers(es[g]), job.runs) == 0
    {
      var h := FirstCommandRun(Handlers(es[g]), job.runs);
      SettledNamedOnce(es, job, g, h);
    }
    if IsCommand(Handlers(es[k])[0]) { FoundAt(es, job, 0, k); }
    if FoundFrom(es, job, 0) { var g := FoundSomewhere(es, job, 0); }
  }

  lemma SameIdentity(event: string, eventKey: string, e: Entry, matcher: string, h: Handler)
    requires h.Handler? && Matches(e, matcher)
    ensures IdentityOf(event, eventKey, Some(matcher), h) == IdentityOf(event, eventKey, e.matcher, h)
  {
  }

  /** The kept handler's hash is the one the trust check expects. */
  lemma FirstIsTrusted(c: Context, table: Table, state: map<string, string>, updates: map<string, string>,
                       reg: Registration, g: nat)
    requires Label(reg.event).Some? && reg.event in table
    requires c.existing == state.Values && AreUpdates(c, table, updates)
    requires g < |table[reg.event]| && FoundIn(table[reg.event][g], reg.job)
    requires FirstCommandRun(Handlers(table[reg.event][g]), reg.job.runs) == 0
    requires Passes(Handlers(table[reg.event][g])[0], c.owned)
    ensures !Untrusted(c, state + updates, reg, table[reg.event], g)
  {
    var p := Position(reg.event, g, 0);
    assert Holds(table, p) && HandlerAt(table, p) == Handlers(table[reg.event][g])[0];
    TrustFollows(c, table, state, updates, p);
    SameIdentity(reg.event, Label(reg.event).value, table[reg.event][g], reg.job.matcher, HandlerAt(table, p));
  }

  lemma SettledIsTrusted(c: Context, table: Table, state: map<string, string>, updates: map<string, string>,
                         reg: Registration)
    requires reg.job.Valid() && reg.job.owned == c.owned && Label(reg.event).Some? && reg.event in table
    requires c.existing == state.Values && AreUpdates(c, table, updates)
    requires Settled(table[reg.event], reg.job)
    ensures UntrustedFrom(c, state + updates, reg, table[reg.event], 0) == []
  {
    var es := table[reg.event];
    SettledFound(es, reg.job);
    SettledPosition(es, reg.job);
    CanonicalRuns(Handlers(es[FirstMatch(es, reg.job.matcher)])[0], reg.job);
    forall g | 0 <= g < |es| ensures !Untrusted(c, state + updates, reg, es, g) {
      if FoundIn(es[g], reg.job) { FirstIsTrusted(c, table, state, updates, reg, g); }
    }
    NothingUntrusted(c, state + updates, reg, es, 0);
  }

  /** After installing an event and refreshing the trust state, the event is
      mismatched exactly when the installer reused a handler that is not a command
      handler: the update of a reused handler leaves its type as it was. */
  lemma InstalledEventTrust(c: Context, before: seq<Entry>, after: Table, state: map<string, string>,
                            updates: map<string, string>, reg: Registration)
    requires reg.job.Valid() && reg.job.owned == c.owned && Label(reg.event).Some?
    requires InstallEvent(before, reg.job).Done? && reg.event in after
    requires after[reg.event] == InstallEvent(before, reg.job).entries
    requires c.existing == state.Values && AreUpdates(c, after, updates)
    ensures EventMismatches(c, state + updates, reg, after[reg.event]) ==
            if ReusesCommand(before, reg.job) then [] else [reg.event]
  {
    InstallSettles(before, reg.job);
    InstalledKind(before, reg.job);
    SettledFound(after[reg.event], reg.job);
    SettledIsTrusted(c, after, state, updates, reg);
  }

  predicate EventReusesCommand(table: Table, reg: Registration) {
    ReusesCommand(EntriesOf(table, reg.event), reg.job)
  }

  lemma {:induction false} MismatchesOf(c: Context, state: map<string, string>, after: Table,
                                        regs: seq<Registration>, ok: Registration -> bool)
    requires Supported(regs)
    requires forall i :: 0 <= i < |regs| ==>
      (EventMismatches(c, state, regs[i], EntriesOf(after, regs[i].event)) == [] <==> ok(regs[i]))
    ensures Mismatches(c, state, after, regs) == [] <==> forall i :: 0 <= i < |regs| ==> ok(regs[i])
    decreases |regs|
  {
    if regs != [] {
      assert forall i :: 0 <= i < |regs[1..]| ==> regs[1..][i] == regs[i + 1];
      MismatchesOf(c, state, after, regs[1..], ok);
      ForAllCons(regs, ok);
    }
  }

  lemma ForAllCons(regs: seq<Registration>, ok: Registration -> bool)
    requires regs != []
    ensures (forall i :: 0 <= i < |regs| ==> ok(regs[i])) <==>
            ok(regs[0]) && forall i :: 0 <= i < |regs[1..]| ==> ok(regs[1..][i])
  {
    assert forall i :: 1 <= i < |regs| ==> regs[i] == regs[1..][i - 1];
  }

  /** After an installation and a refresh of the trust state, the trust check finds
      no mismatch exactly when every handler the installer reused was a command
      handler. */
  lemma InstalledIsTrusted(c: Context, table: Table, regs: seq<Registration>, state: map<string, string>,
                           updates: map<string, string>)
    requires CodexTable.WellFormed(c.owned, regs) && Supported(regs) && InstallTable(table, regs).TableDone?
    requires c.existing == state.Values && AreUpdates(c, InstallTable(table, regs).table, updates)
    ensures Mismatches(c, state + updates, InstallTable(table, regs).table, regs) == [] <==>
            forall i :: 0 <= i < |regs| ==> EventReusesCommand(table, regs[i])
  {
    InstalledEach(c, table, regs, state, updates);
    EachReuses(c, table, InstallTable(table, regs).table, regs, state + updates);
  }

  /** The trust check complains about the event exactly when the installer reused a
      handler of another type. */
  predicate MatchesReuse(c: Context, table: Table, after: Table, reg: Registration, trusted: map<string, string>)
    requires Label(reg.event).Some?
  {
    EventMismatches(c, trusted, reg, EntriesOf(after, reg.event)) ==
    if EventReusesCommand(table, reg) then [] else [reg.event]
  }

  ghost predicate AllMatchReuse(c: Context, table: Table, after: Table, regs: seq<Registration>,
                                trusted: map<string, string>)
    requires Supported(regs)
  {
    forall i :: 0 <= i < |regs| ==> MatchesReuse(c, table, after, regs[i], trusted)
  }

  lemma InstalledEach(c: Context, table: Table, regs: seq<Registration>, state: map<string, string>,
                      updates: map<string, string>)
    requires CodexTable.WellFormed(c.owned, regs) && Supported(regs) && InstallTable(table, regs).TableDone?
    requires c.existing == state.Values && AreUpdates(c, InstallTable(table, regs).table, updates)
    ensures AllMatchReuse(c, table, InstallTable(table, regs).table, regs, state + updates)
  {
    var after := InstallTable(table, regs).table;
    forall i | 0 <= i < |regs| ensures MatchesReuse(c, table, after, regs[i], state + updates) {
      InstalledRegistrationTrust(c, table, regs, state, updates, i);
    }
  }

  lemma EachReuses(c: Context, table: Table, after: Table, regs: seq<Registration>, trusted: map<string, string>)
    requires Supported(regs)
    requires AllMatchReuse(c, table, after, regs, trusted)
    ensures Mismatches(c, trusted, after, regs) == [] <==>
            forall i :: 0 <= i < |regs| ==> EventReusesCommand(table, regs[i])
  {
    MismatchesOf(c, trusted, after, regs, reg => EventReusesCommand(table, reg));
  }

  lemma InstalledRegistrationTrust(c: Context, table: Table, regs: seq<Registration>, state: map<string, string>,
                                   updates: map<string, string>, i: nat)
    requires CodexTable.WellFormed(c.owned, regs) && InstallTable(table, regs).TableDone?
    requires i < |regs| && Label(regs[i].event).Some?
    requires c.existing == state.Values && AreUpdates(c, InstallTable(table, regs).table, updates)
    ensures MatchesReuse(c, table, InstallTable(table, regs).table, regs[i], state + updates)
  {
    InstallEachEvent(table, c.owned, regs);
    InstalledEventTrust(c, EntriesOf(table, regs[i].event), InstallTable(table, regs).table, state, updates, regs[i]);
  }
}
