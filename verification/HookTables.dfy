/** The hooks table of an agent's JSON configuration: per event a list of
    entries, each with a matcher and a list of handlers, shared with other tools. */
module HookTables {
  import opened Options
  import opened Sequences

  /** A handler object, or any JSON value that is not an object.
      `legacyTimeout` is the key `timeout_ms`; `rest` stands for all other keys. */
  datatype Handler =
    | RawHandler(raw: string)
    | Handler(kind: Option<string>, command: Option<string>, timeout: Option<int>,
              legacyTimeout: Option<int>, isAsync: bool, statusMessage: Option<string>, rest: string)

  /** The value under an entry's key `hooks`. */
  datatype Hooks = NoHooks | NotAList(raw: string) | HookList(handlers: seq<Handler>)

  /** An entry object, or any JSON value that is not an object. */
  datatype Entry =
    | RawEntry(raw: string)
    | Entry(matcher: Option<string>, hooks: Hooks, rest: string)

  function Command(h: Handler): string
    requires h.Handler?
  {
    if h.command.Some? then h.command.value else ""
  }

  /** A question about a command: whether it runs a certain script, say. */
  type Test = string -> bool

  predicate Passes(h: Handler, test: Test) {
    h.Handler? && test(Command(h))
  }

  predicate Matches(e: Entry, matcher: string) {
    e.Entry? && (if e.matcher.Some? then e.matcher.value else "") == matcher
  }

  /** The handlers a loop over `entry.get("hooks", [])` visits. */
  function Handlers(e: Entry): seq<Handler> {
    if e.Entry? && e.hooks.HookList? then e.hooks.handlers else []
  }

  /** The entry is passed over by every editor: not an object, or `hooks` is not a list. */
  predicate Untouchable(e: Entry) {
    e.RawEntry? || e.hooks.NotAList?
  }

  /** Index of the first entry with this matcher, or the number of entries. */
  function FirstMatch(es: seq<Entry>, matcher: string): (t: nat)
    ensures t <= |es| && (t < |es| ==> Matches(es[t], matcher))
    ensures forall i :: 0 <= i < t ==> !Matches(es[i], matcher)
  {
    if es == [] || Matches(es[0], matcher) then 0 else 1 + FirstMatch(es[1..], matcher)
  }

  /** Index of the first handler that passes the test, or the number of handlers. */
  function FirstRun(hs: seq<Handler>, runs: Test): (i: nat)
    ensures i <= |hs| && (i < |hs| ==> Passes(hs[i], runs))
    ensures forall j :: 0 <= j < i ==> !Passes(hs[j], runs)
  {
    FirstWhere(hs, Passing(runs))
  }

  function Passing(test: Test): Handler -> bool {
    h => Passes(h, test)
  }

  /** Reading a key of a handler that is not an object raises an error. */
  predicate AllObjects(hs: seq<Handler>) {
    forall i :: 0 <= i < |hs| ==> hs[i].Handler?
  }

  // ----- the part of a table that belongs to other tools

  /** One piece of foreign configuration: a whole entry no editor may touch, or
      one handler with the metadata of the entry it stands in. */
  datatype Item =
    | Whole(entry: Entry)
    | Part(matcher: Option<string>, rest: string, handler: Handler)

  function ForeignParts(e: Entry, hs: seq<Handler>, named: Test): seq<Item>
    requires e.Entry?
  {
    if hs == [] then []
    else (if Passes(hs[0], named) then [] else [Part(e.matcher, e.rest, hs[0])])
         + ForeignParts(e, hs[1..], named)
  }

  function ForeignEntry(e: Entry, named: Test): seq<Item> {
    if Untouchable(e) then [Whole(e)] else ForeignParts(e, Handlers(e), named)
  }

  /** Everything in the table that does not pass the test `named`, in order. */
  function Foreign(es: seq<Entry>, named: Test): seq<Item> {
    if es == [] then [] else ForeignEntry(es[0], named) + Foreign(es[1..], named)
  }

  /** The same, entry by entry; entries without anything foreign do not appear. */
  function Groups(es: seq<Entry>, named: Test): seq<seq<Item>> {
    if es == [] then []
    else (if ForeignEntry(es[0], named) == [] then [] else [ForeignEntry(es[0], named)]) + Groups(es[1..], named)
  }

  lemma {:induction false} GroupsConcat(a: seq<Entry>, b: seq<Entry>, named: Test)
    ensures Groups(a + b, named) == Groups(a, named) + Groups(b, named)
    decreases |a|
  {
    if a == [] {
      assert a + b == b;
    } else {
      assert (a + b)[1..] == a[1..] + b;
      GroupsConcat(a[1..], b, named);
    }
  }

  lemma {:induction false} ForeignPartsConcat(e: Entry, a: seq<Handler>, b: seq<Handler>, named: Test)
    requires e.Entry?
    ensures ForeignParts(e, a + b, named) == ForeignParts(e, a, named) + ForeignParts(e, b, named)
    decreases |a|
  {
    if a == [] {
      assert a + b == b;
    } else {
      assert (a + b)[1..] == a[1..] + b;
      ForeignPartsConcat(e, a[1..], b, named);
    }
  }

  lemma {:induction false} ForeignConcat(a: seq<Entry>, b: seq<Entry>, named: Test)
    ensures Foreign(a + b, named) == Foreign(a, named) + Foreign(b, named)
    decreases |a|
  {
    if a == [] {
      assert a + b == b;
    } else {
      assert (a + b)[1..] == a[1..] + b;
      ForeignConcat(a[1..], b, named);
    }
  }

  lemma {:induction false} ForeignOfNamed(e: Entry, hs: seq<Handler>, named: Test)
    requires e.Entry? && forall i :: 0 <= i < |hs| ==> Passes(hs[i], named)
    ensures ForeignParts(e, hs, named) == []
    decreases |hs|
  {
    if hs != [] { ForeignOfNamed(e, hs[1..], named); }
  }

  // ----- counting hub handlers

  function NamedIn(hs: seq<Handler>, named: Test): nat {
    if hs == [] then 0 else (if Passes(hs[0], named) then 1 else 0) + NamedIn(hs[1..], named)
  }

  /** The number of handlers of the event that run a hub script of this name. */
  function NamedCount(es: seq<Entry>, named: Test): nat {
    if es == [] then 0 else NamedIn(Handlers(es[0]), named) + NamedCount(es[1..], named)
  }

  /** No handler of the list runs a hub script of this name. */
  predicate NoneNamed(hs: seq<Handler>, named: Test) {
    forall i :: 0 <= i < |hs| ==> !Passes(hs[i], named)
  }

  lemma {:induction false} NoneNamedCount(hs: seq<Handler>, named: Test)
    ensures NoneNamed(hs, named) <==> NamedIn(hs, named) == 0
    decreases |hs|
  {
    if hs != [] {
      NoneNamedCount(hs[1..], named);
      if NoneNamed(hs[1..], named) && !Passes(hs[0], named) {
        assert forall i :: 1 <= i < |hs| ==> hs[i] == hs[1..][i - 1];
      }
    }
  }
}
