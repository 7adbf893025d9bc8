/** The whole installation of the Codex hooks: the hooks table, and the trust text
    refreshed after it. */
module CodexInstall {
  import opened TextLines
  import opened HookTables
  import opened CodexTable
  import opened CodexHooks
  import opened TrustText
  import opened CodexHookTrust
  import opened Sequences
  import TrustKeeps

  ghost function ItemKeys(items: seq<(string, string)>): set<string> {
    if items == [] then {} else ItemKeys(items[..|items| - 1]) + {items[|items| - 1].0}
  }

  /** The items of the dictionary of updates, in some order. */
  ghost predicate ItemsOf(items: seq<(string, string)>, updates: map<string, string>) {
    ItemKeys(items) == updates.Keys && Agree(items, updates)
  }

  ghost predicate Agree(items: seq<(string, string)>, updates: map<string, string>) {
    forall i :: 0 <= i < |items| ==> items[i].0 in updates && updates[items[i].0] == items[i].1
  }

  ghost predicate AllQuotable(updates: map<string, string>) {
    forall key :: key in updates ==> Quotable(key) && Quotable(updates[key])
  }

  /** The items in some order. The source sorts them by key; what is read back
      after writing them is the same for every order. */
  method ListItems(updates: map<string, string>) returns (items: seq<(string, string)>)
    ensures ItemsOf(items, updates)
  {
    items := [];
    var open := updates.Keys;
    while open != {}
      invariant open <= updates.Keys && Agree(items, updates) && ItemKeys(items) == updates.Keys - open
      decreases |open|
    {
      var key :| key in open;
      AgreeSnoc(items, updates, key);
      WithoutKey(updates.Keys, open, key);
      items, open := items + [(key, updates[key])], open - {key};
    }
  }

  /** `upsert_trusted_hashes`. */
  method UpsertTrustedHashes(content: string, items: seq<(string, string)>) returns (updated: string)
    ensures updated == UpsertAll(content, items)
    ensures forall keys :: TrustKeeps.Writable(items, keys) ==>
      exists added :: TrustKeeps.KeepsOutside(content, updated, keys, added)
  {
    updated := content;
    assert items[0..] == items;
    for i := 0 to |items|
      invariant UpsertAll(updated, items[i..]) == UpsertAll(content, items)
    {
      assert items[i..][1..] == items[i + 1..];
      updated := Upsert(updated, items[i].0, items[i].1);
    }
    forall keys | TrustKeeps.Writable(items, keys)
      ensures exists added :: TrustKeeps.KeepsOutside(content, updated, keys, added)
    {
      var added := TrustKeeps.UpsertAllKeepsOutside(content, items, keys);
    }
  }

  lemma WithoutKey(all: set<string>, open: set<string>, key: string)
    requires key in open && open <= all
    ensures all - (open - {key}) == (all - open) + {key}
  {
  }

  lemma AgreeSnoc(items: seq<(string, string)>, updates: map<string, string>, key: string)
    requires Agree(items, updates) && key in updates
    ensures Agree(items + [(key, updates[key])], updates)
    ensures ItemKeys(items + [(key, updates[key])]) == ItemKeys(items) + {key}
  {
    assert (items + [(key, updates[key])])[..|items|] == items;
  }

  lemma {:induction false} OverriddenSnoc(m: map<string, string>, items: seq<(string, string)>, item: (string, string))
    ensures Overridden(m, items + [item]) == Overridden(m, items)[item.0 := item.1]
    decreases |items|
  {
    if items == [] {
      assert ([] + [item])[1..] == [];
    } else {
      assert (items + [item])[1..] == items[1..] + [item];
      OverriddenSnoc(m[items[0].0 := items[0].1], items[1..], item);
    }
  }

  lemma OneMoreKey(m: map<string, string>, keys: set<string>, updates: map<string, string>, key: string)
    requires keys <= updates.Keys && key in updates
    ensures (m + map k | k in keys :: updates[k])[key := updates[key]] ==
            m + map k | k in keys + {key} :: updates[k]
  {
  }

  /** Overriding with items that agree with a map adds those entries of the map. */
  lemma {:induction false} OverriddenBy(m: map<string, string>, items: seq<(string, string)>,
                                        updates: map<string, string>)
    requires Agree(items, updates)
    ensures ItemKeys(items) <= updates.Keys
    ensures Overridden(m, items) == m + map key | key in ItemKeys(items) :: updates[key]
    decreases |items|
  {
    if items != [] {
      var k := |items| - 1;
      assert items == items[..k] + [items[k]];
      OverriddenBy(m, items[..k], updates);
      OverriddenSnoc(m, items[..k], items[k]);
      OneMoreKey(m, ItemKeys(items[..k]), updates, items[k].0);
    }
  }

  lemma OverriddenIsUnion(m: map<string, string>, items: seq<(string, string)>, updates: map<string, string>)
    requires ItemsOf(items, updates)
    ensures Overridden(m, items) == m + updates
  {
    OverriddenBy(m, items, updates);
    assert updates == map key | key in ItemKeys(items) :: updates[key];
  }

  /** Every hash to be written is there already. */
  predicate AllCurrent(state: map<string, string>, updates: map<string, string>) {
    forall key :: key in updates ==> key in state && state[key] == updates[key]
  }

  /** What a refresh with these updates may make of the text. */
  ghost predicate Refreshed(text: string, updates: map<string, string>, after: string, changed: bool) {
    if AllCurrent(Read(text), updates) then after == text && !changed
    else exists items :: ItemsOf(items, updates) && after == UpsertAll(text, items) && changed == (after != text)
  }

  /** Reading the trusted hashes back after a refresh gives the old ones overridden
      by the updates, whichever sections existed before. */
  lemma RefreshReads(text: string, updates: map<string, string>, after: string, changed: bool)
    requires TrustText.WellFormed(text) && AllQuotable(updates) && Refreshed(text, updates, after, changed)
    ensures Read(after) == Read(text) + updates && TrustText.WellFormed(after)
  {
    if AllCurrent(Read(text), updates) {
      assert Read(text) + updates == Read(text);
    } else {
      var items :| ItemsOf(items, updates) && after == UpsertAll(text, items) && changed == (after != text);
      UpsertAllReads(text, items);
      OverriddenIsUnion(Read(text), items, updates);
    }
  }

  /** A refresh keeps every line of the text outside the sections of the updated keys,
      in order, and adds outside them at most empty lines and the state-table line. */
  lemma RefreshKeepsOutside(text: string, updates: map<string, string>, after: string, changed: bool)
    returns (added: seq<string>)
    requires AllQuotable(updates) && Refreshed(text, updates, after, changed)
    ensures TrustKeeps.KeepsOutside(text, after, updates.Keys, added)
  {
    added := [];
    if AllCurrent(Read(text), updates) {
      NothingBehind(TrustKeeps.Outside(TrustKeeps.WholeLines(text), updates.Keys, false));
    } else {
      var items :| ItemsOf(items, updates) && after == UpsertAll(text, items) && changed == (after != text);
      added := TrustKeeps.UpsertAllKeepsOutside(text, items, updates.Keys);
    }
  }

  /** What an installation leaves: both files, the updates it wrote, and whether it
      changed the table and the text. */
  datatype Installation = Installation(table: Table, text: string, updates: map<string, string>,
                                       tableChanged: bool, textChanged: bool)

  /** One installation: the table step, and a refresh with the table's updates. */
  ghost predicate Installs(c: Context, regs: seq<Registration>, table: Table, text: string, r: Installation) {
    && InstallTable(table, regs) == TableDone(r.table, r.tableChanged)
    && AreUpdates(c.(existing := Read(text).Values), r.table, r.updates)
    && Refreshed(text, r.updates, r.text, r.textChanged)
  }

  /** Keys and hashes can stand between quotes: the path of hooks.json has no double
      quote and no line break, and neither have digests. */
  ghost predicate PlainContext(c: Context) {
    '"' !in c.json && OneLine(c.json) && forall id :: Quotable(c.digest(id))
  }

  lemma {:induction false} LookupPlain(labels: seq<(string, string)>, event: string)
    requires forall i :: 0 <= i < |labels| ==> '"' !in labels[i].1 && OneLine(labels[i].1)
    ensures Lookup(labels, event).Some? ==> '"' !in Lookup(labels, event).value && OneLine(Lookup(labels, event).value)
    decreases |labels|
  {
    if labels != [] {
      assert forall i :: 0 <= i < |labels[1..]| ==> labels[1..][i] == labels[i + 1];
      LookupPlain(labels[1..], event);
    }
  }

  lemma PlainLabels()
    ensures forall i :: 0 <= i < |EVENT_LABELS| ==> '"' !in EVENT_LABELS[i].1 && OneLine(EVENT_LABELS[i].1)
  {
  }

  lemma KeyIsQuotable(json: string, eventKey: string, g: nat, h: nat)
    requires '"' !in json && OneLine(json) && '"' !in eventKey && OneLine(eventKey)
    ensures Quotable(StateKey(json, eventKey, g, h))
  {
    DecimalValue(g);
    DecimalValue(h);
    var digits := Decimal(g) + (":" + Decimal(h));
    assert '"' !in digits && OneLine(digits);
    var tail := eventKey + (":" + digits);
    assert '"' !in tail && OneLine(tail);
  }

  lemma UpdatesAreQuotable(c: Context, table: Table, updates: map<string, string>)
    requires PlainContext(c) && AreUpdates(c, table, updates)
    ensures AllQuotable(updates)
  {
    forall key | key in updates ensures Quotable(key) && Quotable(updates[key]) {
      var p :| Holds(table, p) && Wanted(c, table, p) && key == KeyAt(c.json, p);
      PlainLabels();
      LookupPlain(EVENT_LABELS, p.event);
      KeyIsQuotable(c.json, Label(p.event).value, p.group, p.handler);
    }
  }

  lemma InstallationReads(c: Context, regs: seq<Registration>, table: Table, text: string, r: Installation)
    requires PlainContext(c) && TrustText.WellFormed(text) && Installs(c, regs, table, text, r)
    ensures Read(r.text) == Read(text) + r.updates && TrustText.WellFormed(r.text)
  {
    UpdatesAreQuotable(c.(existing := Read(text).Values), r.table, r.updates);
    RefreshReads(text, r.updates, r.text, r.textChanged);
  }

  /** An installation keeps every line of config.toml outside the sections it updates. */
  lemma InstallKeepsOutside(c: Context, regs: seq<Registration>, table: Table, text: string, r: Installation)
    returns (added: seq<string>)
    requires PlainContext(c) && Installs(c, regs, table, text, r)
    ensures TrustKeeps.KeepsOutside(text, r.text, r.updates.Keys, added)
  {
    UpdatesAreQuotable(c.(existing := Read(text).Values), r.table, r.updates);
    added := RefreshKeepsOutside(text, r.updates, r.text, r.textChanged);
  }

  /** After one installation a command handler of a supported event is trusted at
      its position exactly when it is a hub handler or its hash was trusted before. */
  lemma InstallKeepsTrust(c: Context, regs: seq<Registration>, table: Table, text: string, r: Installation, p: Position)
    requires PlainContext(c) && TrustText.WellFormed(text)
    requires Installs(c, regs, table, text, r) && Holds(r.table, p)
    ensures (KeyAt(c.json, p) in Read(r.text) && Read(r.text)[KeyAt(c.json, p)] == HashAt(c, r.table, p)) <==>
            Passes(HandlerAt(r.table, p), c.owned) || HashAt(c, r.table, p) in Read(text).Values
  {
    InstallationReads(c, regs, table, text, r);
    var c1 := c.(existing := Read(text).Values);
    assert HashAt(c1, r.table, p) == HashAt(c, r.table, p);
    TrustFollows(c1, r.table, Read(text), r.updates, p);
  }

  lemma TableTwice(table: Table, owned: Test, regs: seq<Registration>, table2: Table, changed: bool,
                   table3: Table, changedAgain: bool)
    requires CodexTable.WellFormed(owned, regs)
    requires InstallTable(table, regs) == TableDone(table2, changed)
    requires InstallTable(table2, regs) == TableDone(table3, changedAgain)
    ensures table3 == table2 && !changedAgain
  {
    InstallTwice(table, owned, regs);
  }

  lemma RefreshTwice(c: Context, table: Table, state: map<string, string>, updates: map<string, string>,
                     text: string, again: map<string, string>, text2: string, changed: bool)
    requires c.existing == state.Values && AreUpdates(c, table, updates) && CollisionFree(c.digest)
    requires Read(text) == state + updates
    requires AreUpdates(c.(existing := Read(text).Values), table, again) && Refreshed(text, again, text2, changed)
    ensures text2 == text && !changed
  {
    UpdatesSettle(c, table, state, updates, again);
  }

  /** The second of two installations changes neither the table nor the trust text,
      and reports so. */
  lemma InstallsTwice(c: Context, regs: seq<Registration>, table: Table, text: string,
                      first: Installation, second: Installation)
    requires CodexTable.WellFormed(c.owned, regs) && PlainContext(c) && CollisionFree(c.digest)
    requires TrustText.WellFormed(text)
    requires Installs(c, regs, table, text, first) && Installs(c, regs, first.table, first.text, second)
    ensures second.table == first.table && second.text == first.text
    ensures !second.tableChanged && !second.textChanged
  {
    InstallationReads(c, regs, table, text, first);
    TableTwice(table, c.owned, regs, first.table, first.tableChanged, second.table, second.tableChanged);
    var c1 := c.(existing := Read(text).Values);
    assert c1.(existing := Read(first.text).Values) == c.(existing := Read(first.text).Values);
    RefreshTwice(c1, first.table, Read(text), first.updates, first.text,
                 second.updates, second.text, second.textChanged);
  }

  /** After an installation from any state the trust check passes exactly when every
      handler the installer reused was a command handler. */
  lemma InstallPassesTrustCheck(c: Context, regs: seq<Registration>, table: Table, text: string, r: Installation)
    requires CodexTable.WellFormed(c.owned, regs) && PlainContext(c) && TrustText.WellFormed(text) && Supported(regs)
    requires Installs(c, regs, table, text, r)
    ensures Mismatches(c, Read(r.text), r.table, regs) == [] <==>
            forall i :: 0 <= i < |regs| ==> EventReusesCommand(table, regs[i])
  {
    InstallationReads(c, regs, table, text, r);
    var c1 := c.(existing := Read(text).Values);
    InstalledIsTrusted(c1, table, regs, Read(text), r.updates);
    MismatchesIgnoreExisting(c, c1, Read(r.text), r.table, regs);
  }

  lemma {:induction false} MismatchesIgnoreExisting(c: Context, c1: Context, state: map<string, string>, table: Table,
                                                    regs: seq<Registration>)
    requires Supported(regs) && c1.json == c.json && c1.digest == c.digest
    ensures Mismatches(c, state, table, regs) == Mismatches(c1, state, table, regs)
    decreases |regs|
  {
    if regs != [] {
      UntrustedIgnoresExisting(c, c1, state, regs[0], EntriesOf(table, regs[0].event), 0);
      MismatchesIgnoreExisting(c, c1, state, table, regs[1..]);
    }
  }

  lemma {:induction false} UntrustedIgnoresExisting(c: Context, c1: Context, state: map<string, string>,
                                                    reg: Registration, es: seq<Entry>, g: nat)
    requires Label(reg.event).Some? && c1.json == c.json && c1.digest == c.digest
    ensures UntrustedFrom(c, state, reg, es, g) == UntrustedFrom(c1, state, reg, es, g)
    decreases |es| - g
  {
    if g < |es| { UntrustedIgnoresExisting(c, c1, state, reg, es, g + 1); }
  }

  /** hooks.json and config.toml of one Codex home. */
  class CodexHome {
    var hooks: Table
    var config: string
    const json: string
    const digest: Identity -> string

    constructor (hooks: Table, config: string, json: string, digest: Identity -> string)
      ensures this.hooks == hooks && this.config == config && this.json == json && this.digest == digest
    {
      this.hooks, this.config, this.json, this.digest := hooks, config, json, digest;
    }

    /** `sync_codex_hook_trust_state`. */
    method SyncTrust(owned: Test) returns (changed: bool, ghost updates: map<string, string>)
      modifies this`config
      ensures AreUpdates(Context(json, owned, Read(old(config)).Values, digest), hooks, updates)
      ensures Refreshed(old(config), updates, config, changed)
    {
      var state := TrustedHashes(config);
      var wanted := TrustUpdates(Context(json, owned, state.Values, digest), hooks);
      updates, changed := wanted, false;
      if wanted == map[] || AllCurrent(state, wanted) { return; }
      changed := WriteUpdates(wanted);
    }

    /** The part of `sync_codex_hook_trust_state` that writes. */
    method WriteUpdates(wanted: map<string, string>) returns (changed: bool)
      requires !AllCurrent(Read(config), wanted)
      modifies this`config
      ensures Refreshed(old(config), wanted, config, changed)
    {
      var items := ListItems(wanted);
      var updated := UpsertTrustedHashes(config, items);
      changed := updated != config;
      config := updated;
    }

    /** `install_hooks`; an error while editing the table leaves both files as they were. */
    method Install(owned: Test, regs: seq<Registration>) returns (fault: bool, changed: bool, ghost r: Installation)
      requires Runnable(regs)
      modifies this
      ensures fault <==> InstallTable(old(hooks), regs).TableCrash?
      ensures fault ==> hooks == old(hooks) && config == old(config)
      ensures !fault ==> Installs(Context(json, owned, {}, digest), regs, old(hooks), old(config), r)
      ensures !fault ==> hooks == r.table && config == r.text && changed == (r.tableChanged || r.textChanged)
    {
      r := Installation(hooks, config, map[], false, false);
      var file := new HookFile(hooks);
      var tableFault, tableChanged := file.InstallHooks(regs);
      if tableFault { return true, false, r; }
      hooks := file.hooks;
      var textChanged, updates := SyncTrust(owned);
      fault, changed := false, tableChanged || textChanged;
      r := Installation(hooks, config, updates, tableChanged, textChanged);
      assert Context(json, owned, {}, digest).(existing := Read(old(config)).Values) ==
             Context(json, owned, Read(old(config)).Values, digest);
    }
  }
}
