/** What removing and reconciling managed handlers leave of an event, and what the
    Qoder doctor answers for any event. */
module ManagedShape {
  import opened Options
  import opened Sequences
  import opened Shlex
  import opened Strings
  import opened CommandMeaning
  import opened HookCommands
  import opened HookTables
  import opened ManagedHooks

  // ----- what is managed and what is not

  /** A handler is managed exactly when it is an object and some word of its command ends in
      a hooks directory of either layout and one of the names. */
  lemma ManagedMeans(h: Handler, names: set<string>)
    ensures Owner(names)(h) <==> h.Handler? && h.command.Some? && NamesSome(h.command.value, names)
  {
    if Owner(names)(h) {
      OwnerHasCommand(names, h);
      var name :| name in names && ReferencesHubScript(Command(h), name);
      NamesMeans(h.command.value, name);
    }
    if h.Handler? && h.command.Some? {
      forall name ensures ReferencesHubScript(h.command.value, name) <==> NamesScript(h.command.value, name) {
        NamesMeans(h.command.value, name);
      }
    }
  }

  ghost predicate NamesSome(command: string, names: set<string>) {
    exists name :: name in names && NamesScript(command, name)
  }

  ghost predicate NamesScript(command: string, name: string) {
    exists t :: t in Tokens(command) &&
      (EndsWith(t, "/agent_runtime_kit/hooks/" + name) || EndsWith(t, "/brain/hooks/" + name))
  }

  lemma NamesMeans(command: string, name: string)
    ensures ReferencesHubScript(command, name) <==> NamesScript(command, name)
  {
    MarkerNames(name);
  }

  /** One piece of what other tools put into the event: an entry without handlers, or a
      handler that is not managed, with the matcher and the other keys of its entry. */
  ghost predicate IsOther(es: seq<Entry>, own: Handler -> bool, item: Item) {
    exists i :: 0 <= i < |es| && OtherIn(es[i], own, item)
  }

  ghost predicate OtherIn(e: Entry, own: Handler -> bool, item: Item) {
    if e.RawEntry? || !e.hooks.HookList? || e.hooks.handlers == [] then item == Whole(e)
    else
      item.Part? && item.matcher == e.matcher && item.rest == e.rest && !own(item.handler)
      && item.handler in e.hooks.handlers
  }

  lemma {:induction false} OthersMean(e: Entry, hs: seq<Handler>, own: Handler -> bool, item: Item)
    requires e.Entry?
    ensures item in Others(e, hs, own) <==>
      item.Part? && item.matcher == e.matcher && item.rest == e.rest && !own(item.handler) && item.handler in hs
    decreases |hs|
  {
    if hs != [] {
      OthersMean(e, hs[1..], own, item);
      assert hs == [hs[0]] + hs[1..];
    }
  }

  /** `ForeignItems` lists exactly these pieces. */
  lemma {:induction false} ForeignItemsMean(es: seq<Entry>, own: Handler -> bool, item: Item)
    ensures item in ForeignItems(es, own) <==> IsOther(es, own, item)
    decreases |es|
  {
    if es != [] {
      ForeignItemsMean(es[1..], own, item);
      if es[0].Entry? { OthersMean(es[0], Handlers(es[0]), own, item); }
      assert item in OthersOfEntry(es[0], own) <==> OtherIn(es[0], own, item);
      if i :| 0 <= i < |es[1..]| && OtherIn(es[1..][i], own, item) { assert es[i + 1] == es[1..][i]; }
      if i :| 1 <= i < |es| && OtherIn(es[i], own, item) { assert es[1..][i - 1] == es[i]; }
    }
  }

  // ----- what removing keeps

  /** The foreign configuration entry by entry; entries with nothing foreign do not appear. */
  function OtherGroups(es: seq<Entry>, own: Handler -> bool): seq<seq<Item>> {
    if es == [] then []
    else (if OthersOfEntry(es[0], own) == [] then [] else [OthersOfEntry(es[0], own)]) + OtherGroups(es[1..], own)
  }

  /** All handlers of the event. */
  function HandlerCount(es: seq<Entry>): nat {
    if es == [] then 0 else |Handlers(es[0])| + HandlerCount(es[1..])
  }

  lemma {:induction false} OtherGroupsConcat(a: seq<Entry>, b: seq<Entry>, own: Handler -> bool)
    ensures OtherGroups(a + b, own) == OtherGroups(a, own) + OtherGroups(b, own)
    decreases |a|
  {
    if a == [] {
      assert a + b == b;
    } else {
      assert (a + b)[0] == a[0] && (a + b)[1..] == a[1..] + b;
      OtherGroupsConcat(a[1..], b, own);
      var first := if OthersOfEntry(a[0], own) == [] then [] else [OthersOfEntry(a[0], own)];
      Associates(first, OtherGroups(a[1..], own), OtherGroups(b, own));
    }
  }

  lemma {:induction false} HandlerCountConcat(a: seq<Entry>, b: seq<Entry>)
    ensures HandlerCount(a + b) == HandlerCount(a) + HandlerCount(b)
    decreases |a|
  {
    if a == [] {
      assert a + b == b;
    } else {
      assert (a + b)[1..] == a[1..] + b;
      HandlerCountConcat(a[1..], b);
    }
  }

  lemma {:induction false} WithoutCounts(e: Entry, hs: seq<Handler>, own: Handler -> bool)
    requires e.Entry?
    ensures |Without(hs, own)| + CountIn(hs, own) == |hs|
    ensures Without(hs, own) == [] <==> Others(e, hs, own) == []
    decreases |hs|
  {
    if hs != [] { WithoutCounts(e, hs[1..], own); }
  }

  lemma GroupOfOne(e: Entry, own: Handler -> bool)
    ensures OtherGroups([e], own) == if OthersOfEntry(e, own) == [] then [] else [OthersOfEntry(e, own)]
    ensures HandlerCount([e]) == |Handlers(e)|
  {
    assert [e][1..] == [];
  }

  lemma {:induction false} OthersOfClean(e: Entry, hs: seq<Handler>, own: Handler -> bool)
    requires e.Entry? && CountIn(hs, own) == 0
    ensures |Others(e, hs, own)| == |hs|
    decreases |hs|
  {
    if hs != [] { OthersOfClean(e, hs[1..], own); }
  }

  lemma StripEntryShape(e: Entry, own: Handler -> bool)
    ensures var kept := StripEntry(e, own);
      && OtherGroups(kept, own) == OtherGroups([e], own) && |OtherGroups(kept, own)| == |kept|
      && HandlerCount(kept) + CountIn(Handlers(e), own) == |Handlers(e)|
  {
    var kept := StripEntry(e, own);
    GroupOfOne(e, own);
    if CountIn(Handlers(e), own) == 0 {
      if Handlers(e) != [] { OthersOfClean(e, Handlers(e), own); }
    } else {
      WithoutCounts(e, Handlers(e), own);
      if kept != [] {
        GroupOfOne(kept[0], own);
        OthersKept(e, kept[0], Handlers(e), own);
      }
    }
  }

  /** Removing leaves no managed handler and every foreign one, in order, in its own entry;
      an entry goes exactly when it held managed handlers only. The number that is reported
      is the number of handlers the event has lost. */
  lemma {:induction false} StripShape(es: seq<Entry>, own: Handler -> bool)
    ensures var kept := Strip(es, own);
      && Count(kept, own) == 0 && ForeignItems(kept, own) == ForeignItems(es, own)
      && OtherGroups(kept, own) == OtherGroups(es, own) && |OtherGroups(kept, own)| == |kept|
      && Count(es, own) == HandlerCount(es) - HandlerCount(kept)
    decreases |es|
  {
    StrippedHasNone(es, own);
    StripKeepsForeign(es, own);
    if es != [] {
      StripShape(es[1..], own);
      StripEntryShape(es[0], own);
      OtherGroupsConcat(StripEntry(es[0], own), Strip(es[1..], own), own);
      HandlerCountConcat(StripEntry(es[0], own), Strip(es[1..], own));
      GroupOfOne(es[0], own);
    }
  }

  // ----- where reconciling puts the canonical handler

  /** An entry for every matcher with one command handler, and nothing else in either. */
  function Fresh(command: string): Entry {
    Entry(Some(""), HookList([Handler(Some("command"), Some(command), None, None, false, None, "")]), "")
  }

  /** The first entry with a managed handler, or none. */
  lemma {:induction false} OwnedOrNot(es: seq<Entry>, own: Handler -> bool)
    returns (a: seq<Entry>, e: Entry, b: seq<Entry>)
    ensures Count(es, own) == 0 || (es == a + ([e] + b) && Count(a, own) == 0 && CountIn(Handlers(e), own) > 0)
    decreases |es|
  {
    a, e, b := [], RawEntry(""), [];
    if es != [] {
      e, b := es[0], es[1..];
      assert es == [] + ([e] + b);
      if CountIn(Handlers(es[0]), own) == 0 {
        a, e, b := OwnedOrNot(es[1..], own);
        Associates([es[0]], a, [e] + b);
        assert ([es[0]] + a)[1..] == a;
        a := [es[0]] + a;
      }
    }
  }

  /** In front of everything when asked to. */
  lemma ReconcileInFront(es: seq<Entry>, command: string, own: Handler -> bool)
    ensures Reconciled(es, command, own, true) == [Fresh(command)] + Strip(es, own)
  {
    var kept := Strip(es, own);
    assert kept[..0] == [] && kept[0..] == kept;
    assert [] + ([Fresh(command)] + kept) == [Fresh(command)] + kept;
  }

  /** Otherwise in place of the first entry that held a managed handler: what stood before
      it stays before it, untouched. */
  lemma ReconcileInPlace(a: seq<Entry>, e: Entry, b: seq<Entry>, command: string, own: Handler -> bool)
    requires Count(a, own) == 0 && CountIn(Handlers(e), own) > 0
    ensures Reconciled(a + ([e] + b), command, own, false) == a + ([Fresh(command)] + Strip([e] + b, own))
  {
    SlotOfOwned(a, e, b, own);
    StripConcat(a, [e] + b, own);
    StripClean(a, own);
    var kept := a + Strip([e] + b, own);
    assert kept[..|a|] == a && kept[|a|..] == Strip([e] + b, own);
  }

  /** And behind everything where there was none. */
  lemma ReconcileBehind(es: seq<Entry>, command: string, own: Handler -> bool)
    requires Count(es, own) == 0
    ensures Reconciled(es, command, own, false) == es + [Fresh(command)]
  {
    StripClean(es, own);
    assert es[..|es|] == es && es[|es|..] == [];
    assert [Fresh(command)] + [] == [Fresh(command)];
  }

  // ----- what the doctor answers

  lemma {:induction false} CommandIsListed(hs: seq<Handler>, own: Handler -> bool, j: nat)
    requires j < |hs| && own(hs[j]) && hs[j].Handler? && hs[j].command.Some?
    ensures hs[j].command.value in ManagedCommands(hs, own)
    decreases |hs|
  {
    if j > 0 { CommandIsListed(hs[1..], own, j - 1); }
  }

  lemma {:induction false} EventListsCommand(es: seq<Entry>, own: Handler -> bool, i: nat, j: nat)
    requires i < |es| && j < |Handlers(es[i])| && own(Handlers(es[i])[j])
    requires Handlers(es[i])[j].Handler? && Handlers(es[i])[j].command.Some?
    ensures Handlers(es[i])[j].command.value in EventCommands(es, own)
    decreases |es|
  {
    if i > 0 { EventListsCommand(es[1..], own, i - 1, j); } else { CommandIsListed(Handlers(es[0]), own, j); }
  }

  lemma OneElement(s: seq<string>, x: string)
    requires |s| == 1 && x in s
    ensures s == [x]
  {
  }

  /** The doctor counts every managed handler, wherever it stands, and complains about
      the count unless it is one. */
  lemma ProblemCount(es: seq<Entry>, script: Script, expected: string, names: set<string>)
    ensures var problem, count := EventProblem(es, script, expected, Owner(names)), Count(es, Owner(names));
      && (count != 1 ==> problem == Some(WrongCount(count)))
      && (count == 1 ==> problem.None? || problem.value == WrongScript || problem.value == WrongCommand)
  {
    forall h | Owner(names)(h) ensures h.Handler? && h.command.Some? { OwnerHasCommand(names, h); }
    EventCommandsCount(es, Owner(names));
  }

  /** For the only one, wherever it stands, it asks first whether it runs the script at
      its expected path, and then whether its command is the canonical one. */
  lemma ProblemOfOne(es: seq<Entry>, i: nat, j: nat, script: Script, expected: string, names: set<string>)
    requires i < |es| && j < |Handlers(es[i])| && Managed(Handlers(es[i])[j], names)
    requires Count(es, Owner(names)) == 1
    ensures var problem, command := EventProblem(es, script, expected, Owner(names)), Command(Handlers(es[i])[j]);
      && (problem == Some(WrongScript) <==> !ReferencesPath(command, script.Path()))
      && (problem == Some(WrongCommand) <==> ReferencesPath(command, script.Path()) && command != expected)
      && (problem == None <==> ReferencesPath(command, script.Path()) && command == expected)
  {
    var own := Owner(names);
    assert own(Handlers(es[i])[j]);
    forall h | own(h) ensures h.Handler? && h.command.Some? { OwnerHasCommand(names, h); }
    EventCommandsCount(es, own);
    EventListsCommand(es, own, i, j);
    OneElement(EventCommands(es, own), Command(Handlers(es[i])[j]));
  }
}
