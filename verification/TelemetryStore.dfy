/** The telemetry server's store: one row per installation and one per day, against
    the full history of recorded events. */
module TelemetryStore {
  import opened Numbers
  import opened Options

  const DAY := 86_400
  const KEPT_DAYS := 180
  const TREND_DAYS := 14
  const LISTED_VALUES := 8
  const LISTED_INSTALLATIONS := 20
  const UNKNOWN := "unknown"

  datatype Kind = Install | Active

  /** A validated event and the second it was recorded. */
  datatype Event = Event(id: string, kind: Kind, platform: string, architecture: string, version: string,
                         channel: string, adapter: string, time: int)

  /** A row of `instances`. */
  datatype Instance = Instance(firstSeen: int, lastSeen: int, lastInstall: Option<int>, lastActive: Option<int>,
                               platform: string, architecture: string, version: string,
                               channel: string, adapter: string)

  /** A row of `daily_activity`; the calendar day is the number of whole days since 1970. */
  datatype Activity = Activity(day: int, id: string, kind: Kind)

  datatype Trend = Trend(day: int, installs: nat, active: nat)
  /** `recent` holds the installations themselves; the report shows a hash of each. */
  datatype Summary = Summary(total: nat, installed24h: nat, active24h: nat, active7d: nat, trend: seq<Trend>,
                             breakdowns: Breakdowns, recent: seq<string>)

  function DayOf(time: int): int {
    time / DAY
  }

  // ----- what the full history says

  /** The last event with the property. */
  function LastWith(history: seq<Event>, p: Event -> bool): Option<Event> {
    if history == [] then None
    else if p(history[|history| - 1]) then Some(history[|history| - 1])
    else LastWith(history[..|history| - 1], p)
  }

  function FirstWith(history: seq<Event>, p: Event -> bool): Option<Event> {
    if history == [] then None
    else if p(history[0]) then Some(history[0])
    else FirstWith(history[1..], p)
  }

  function Of(id: string): Event -> bool {
    (e: Event) => e.id == id
  }

  function Doing(id: string, kind: Kind): Event -> bool {
    (e: Event) => e.id == id && e.kind == kind
  }

  function WithChannel(id: string): Event -> bool {
    (e: Event) => e.id == id && e.channel != UNKNOWN
  }

  function WithAdapter(id: string): Event -> bool {
    (e: Event) => e.id == id && e.adapter != UNKNOWN
  }

  function TimeOf(e: Option<Event>): Option<int> {
    if e.Some? then Some(e.value.time) else None
  }

  /** The row an installation should have: when it was first and last seen, its last
      installation and activity, its last details, and its last known channel and adapter. */
  function RowOf(history: seq<Event>, id: string): Option<Instance> {
    var first, last := FirstWith(history, Of(id)), LastWith(history, Of(id));
    if first.None? || last.None? then None
    else
      var channel, adapter := LastWith(history, WithChannel(id)), LastWith(history, WithAdapter(id));
      Some(Instance(first.value.time, last.value.time,
                    TimeOf(LastWith(history, Doing(id, Install))), TimeOf(LastWith(history, Doing(id, Active))),
                    last.value.platform, last.value.architecture, last.value.version,
                    if channel.Some? then channel.value.channel else UNKNOWN,
                    if adapter.Some? then adapter.value.adapter else UNKNOWN))
  }

  /** The installations with an event of this kind at or after `since`. */
  function Since(history: seq<Event>, kind: Kind, since: int): set<string> {
    set e | e in history && e.kind == kind && e.time >= since :: e.id
  }

  /** The installations with an event of this kind on the day. */
  function OnDay(history: seq<Event>, kind: Kind, day: int): set<string> {
    set e | e in history && e.kind == kind && DayOf(e.time) == day :: e.id
  }

  predicate Ordered(history: seq<Event>) {
    forall i, j :: 0 <= i < j < |history| ==> history[i].time <= history[j].time
  }

  // ----- the statements of `record`

  /** INSERT ... ON CONFLICT DO UPDATE of one row. */
  function Upserted(row: Option<Instance>, e: Event): Instance {
    var install := if e.kind.Install? then Some(e.time) else None;
    var active := if e.kind.Active? then Some(e.time) else None;
    match row
    case None =>
      Instance(e.time, e.time, install, active, e.platform, e.architecture, e.version, e.channel, e.adapter)
    case Some(r) =>
      Instance(r.firstSeen, e.time,
               if install.Some? then install else r.lastInstall, if active.Some? then active else r.lastActive,
               e.platform, e.architecture, e.version,
               if e.channel == UNKNOWN then r.channel else e.channel,
               if e.adapter == UNKNOWN then r.adapter else e.adapter)
  }

  function Lookup(instances: map<string, Instance>, id: string): Option<Instance> {
    if id in instances then Some(instances[id]) else None
  }

  lemma {:induction false} FirstWithSnoc(history: seq<Event>, e: Event, p: Event -> bool)
    ensures FirstWith(history + [e], p) ==
      if FirstWith(history, p).Some? then FirstWith(history, p) else if p(e) then Some(e) else None
    decreases |history|
  {
    if history == [] {
      assert history + [e] == [e] && [e][1..] == [];
    } else {
      assert (history + [e])[1..] == history[1..] + [e];
      FirstWithSnoc(history[1..], e, p);
    }
  }

  lemma LastWithSnoc(history: seq<Event>, e: Event, p: Event -> bool)
    ensures LastWith(history + [e], p) == if p(e) then Some(e) else LastWith(history, p)
  {
    assert (history + [e])[..|history|] == history;
  }

  lemma {:induction false} LastWithFound(history: seq<Event>, p: Event -> bool)
    ensures LastWith(history, p).Some? ==> LastWith(history, p).value in history && p(LastWith(history, p).value)
    ensures LastWith(history, p).None? ==> forall e :: e in history ==> !p(e)
    decreases |history|
  {
    if history != [] {
      var before := history[..|history| - 1];
      assert history == before + [history[|history| - 1]];
      LastWithFound(before, p);
    }
  }

  lemma {:induction false} FirstAndLast(history: seq<Event>, p: Event -> bool)
    ensures FirstWith(history, p).Some? <==> LastWith(history, p).Some?
    decreases |history|
  {
    if history != [] {
      var before, e := history[..|history| - 1], history[|history| - 1];
      assert history == before + [e];
      FirstAndLast(before, p);
      FirstWithSnoc(before, e, p);
    }
  }

  /** The upsert of one event turns every row into the one the longer history asks for. */
  lemma RowAfter(history: seq<Event>, e: Event, id: string)
    ensures RowOf(history + [e], id) ==
      if id == e.id then Some(Upserted(RowOf(history, id), e)) else RowOf(history, id)
  {
    FirstWithSnoc(history, e, Of(id));
    LastWithSnoc(history, e, Of(id));
    LastWithSnoc(history, e, Doing(id, Install));
    LastWithSnoc(history, e, Doing(id, Active));
    LastWithSnoc(history, e, WithChannel(id));
    LastWithSnoc(history, e, WithAdapter(id));
    FirstAndLast(history, Of(id));
    if RowOf(history, id).None? {
      LastWithFound(history, Of(id));
      LastWithFound(history, Doing(id, Install));
      LastWithFound(history, Doing(id, Active));
      LastWithFound(history, WithChannel(id));
      LastWithFound(history, WithAdapter(id));
    }
  }

  // ----- what the rows say about the history

  /** With times in order, the last event of a kind is the latest. */
  lemma {:induction false} LastIsLatest(history: seq<Event>, p: Event -> bool, e: Event)
    requires Ordered(history) && e in history && p(e)
    ensures LastWith(history, p).Some? && e.time <= LastWith(history, p).value.time
    decreases |history|
  {
    var before, last := history[..|history| - 1], history[|history| - 1];
    assert history == before + [last];
    var i :| 0 <= i < |history| && history[i] == e;
    if !p(last) {
      assert before[i] == e;
      LastIsLatest(before, p, e);
    }
  }

  /** `row[...] and row[...] >= since`: the value 0 counts as absent. */
  predicate Counts(value: Option<int>, since: int) {
    value.Some? && value.value != 0 && value.value >= since
  }

  /** The installations whose last event of this kind was at or after `since`; one at
      second 0 counts as none. */
  function Reported(history: seq<Event>, kind: Kind, since: int): set<string> {
    set e | e in history && Counts(TimeOf(LastWith(history, Doing(e.id, kind))), since) :: e.id
  }

  lemma InReported(history: seq<Event>, id: string, kind: Kind, since: int)
    ensures id in Reported(history, kind, since) <==> Counts(TimeOf(LastWith(history, Doing(id, kind))), since)
  {
    LastWithFound(history, Doing(id, kind));
    if Counts(TimeOf(LastWith(history, Doing(id, kind))), since) {
      var e := LastWith(history, Doing(id, kind)).value;
      assert e in history && e.id == id;
    }
  }

  /** The installation's last event of this kind fell on second 0. */
  predicate LastAtZero(history: seq<Event>, kind: Kind, id: string) {
    TimeOf(LastWith(history, Doing(id, kind))) == Some(0)
  }

  /** Of a clock that never went back, an installation counts for a period exactly when
      it had an event since then, unless its last one fell on second 0. */
  lemma CountsSince(history: seq<Event>, kind: Kind, since: int, id: string)
    requires Ordered(history)
    ensures id in Reported(history, kind, since) <==>
      id in Since(history, kind, since) && !LastAtZero(history, kind, id)
  {
    var p := Doing(id, kind);
    InReported(history, id, kind, since);
    LastWithFound(history, p);
    if id in Since(history, kind, since) {
      var e :| e in history && e.kind == kind && e.time >= since && e.id == id;
      LastIsLatest(history, p, e);
    }
  }

  /** The report counts all installations with an event since then exactly when the
      period starts after second 0 or no installation was last heard of on it. */
  lemma ReportedIsSince(history: seq<Event>, kind: Kind, since: int)
    requires Ordered(history)
    ensures Reported(history, kind, since) == Since(history, kind, since) <==>
      since > 0 || forall e :: e in history ==> !LastAtZero(history, kind, e.id)
  {
    forall id
      ensures id in Reported(history, kind, since) <==>
        id in Since(history, kind, since) && !LastAtZero(history, kind, id)
    {
      CountsSince(history, kind, since, id);
    }
    forall e | e in history && LastAtZero(history, kind, e.id)
      ensures e.id in Since(history, kind, since) <==> since <= 0
    {
      LastAtZeroIsSince(history, kind, since, e.id);
    }
    forall id | id in Since(history, kind, since) ensures exists e :: e in history && e.id == id {
      var e :| e in history && e.kind == kind && e.time >= since && e.id == id;
    }
  }

  lemma LastAtZeroIsSince(history: seq<Event>, kind: Kind, since: int, id: string)
    requires Ordered(history) && LastAtZero(history, kind, id)
    ensures id in Since(history, kind, since) <==> since <= 0
  {
    var p := Doing(id, kind);
    LastWithFound(history, p);
    var last := LastWith(history, p).value;
    if since <= 0 { assert last in history && last.kind == kind && last.time >= since && last.id == id; }
    if id in Since(history, kind, since) {
      var e :| e in history && e.kind == kind && e.time >= since && e.id == id;
      LastIsLatest(history, p, e);
    }
  }

  // ----- the most common and the most recent

  predicate Descending(top: seq<string>, count: string -> int) {
    forall i, j :: 0 <= i < j < |top| ==> top[i] != top[j] && count(top[i]) >= count(top[j])
  }

  /** The `k` items with the largest keys, in descending order. */
  ghost predicate TopOf(top: seq<string>, items: set<string>, key: string -> int, k: nat) {
    && |top| <= k && (forall i :: 0 <= i < |top| ==> top[i] in items)
    && Descending(top, key)
    && (forall x :: x in items && x !in top ==>
          |top| == k && forall i :: 0 <= i < |top| ==> key(top[i]) >= key(x))
  }

  lemma LargestExists(items: set<string>, key: string -> int) returns (x: string)
    requires items != {}
    ensures x in items && forall y :: y in items ==> key(y) <= key(x)
    decreases items
  {
    x :| x in items;
    if items != {x} {
      var other := LargestExists(items - {x}, key);
      x := if key(other) > key(x) then other else x;
    }
  }

  method Largest(items: set<string>, key: string -> int, k: nat) returns (top: seq<string>)
    ensures TopOf(top, items, key, k)
  {
    top := [];
    var open := items;
    while open != {} && |top| < k
      invariant |top| <= k && (forall i :: 0 <= i < |top| ==> top[i] in items && top[i] !in open)
      invariant Descending(top, key)
      invariant forall x :: x in items <==> x in open || x in top
      invariant forall i, x :: 0 <= i < |top| && x in open ==> key(top[i]) >= key(x)
      decreases k - |top|
    {
      ghost var largest := LargestExists(open, key);
      var x :| x in open && forall y :: y in open ==> key(y) <= key(x);
      top, open := top + [x], open - {x};
    }
  }

  /** The columns the report breaks the installations down by. */
  datatype Column = Platform | Version | Channel | Adapter

  function Value(row: Instance, column: Column): string {
    match column
    case Platform => row.platform
    case Version => row.version
    case Channel => row.channel
    case Adapter => row.adapter
  }

  function HoldersIn(rows: map<string, Instance>, column: Column): string -> int {
    (name: string) => |set id | id in rows && Value(rows[id], column) == name|
  }

  function ValuesIn(rows: map<string, Instance>, column: Column): set<string> {
    set id | id in rows :: Value(rows[id], column)
  }

  function LastSeenIn(rows: map<string, Instance>): string -> int {
    (id: string) => if id in rows then rows[id].lastSeen else 0
  }

  /** The rows the history asks for. */
  function RowsOf(history: seq<Event>): map<string, Instance> {
    map id | id in (set e | e in history :: e.id) && RowOf(history, id).Some? :: RowOf(history, id).value
  }

  datatype Breakdowns = Breakdowns(platforms: seq<Share>, versions: seq<Share>,
                                   channels: seq<Share>, adapters: seq<Share>)

  datatype Share = Share(name: string, count: int)

  /** The names of the list with their counts, without the unknown one. */
  function Known(top: seq<string>, count: string -> int): seq<Share> {
    if top == [] then []
    else Known(top[..|top| - 1], count) +
         (if top[|top| - 1] == UNKNOWN then [] else [Share(top[|top| - 1], count(top[|top| - 1]))])
  }

  lemma RowsAre(rows: map<string, Instance>, history: seq<Event>)
    requires rows.Keys == set e | e in history :: e.id
    requires forall id :: Lookup(rows, id) == RowOf(history, id)
    ensures rows == RowsOf(history)
  {
    forall id | id in rows ensures id in RowsOf(history) && RowsOf(history)[id] == rows[id] {
      assert Lookup(rows, id) == RowOf(history, id);
    }
  }

  ghost predicate BreakdownOf(shares: seq<Share>, rows: map<string, Instance>, column: Column) {
    exists top :: TopOf(top, ValuesIn(rows, column), HoldersIn(rows, column), LISTED_VALUES) &&
                  shares == Known(top, HoldersIn(rows, column))
  }

  ghost predicate AllBreakdowns(b: Breakdowns, rows: map<string, Instance>) {
    && BreakdownOf(b.platforms, rows, Platform) && BreakdownOf(b.versions, rows, Version)
    && BreakdownOf(b.channels, rows, Channel) && BreakdownOf(b.adapters, rows, Adapter)
  }

  ghost predicate Lists(shares: seq<Share>, name: string) {
    exists i :: 0 <= i < |shares| && shares[i].name == name
  }

  ghost predicate Counted(share: Share, top: seq<string>, count: string -> int) {
    share.name in top && share.name != UNKNOWN && share.count == count(share.name)
  }

  lemma {:induction false} KnownShares(top: seq<string>, count: string -> int)
    ensures forall i :: 0 <= i < |Known(top, count)| ==> Counted(Known(top, count)[i], top, count)
    decreases |top|
  {
    if top != [] {
      var before, last := top[..|top| - 1], top[|top| - 1];
      var shorter := Known(before, count);
      KnownShares(before, count);
      assert last in top && forall name :: name in before ==> name in top;
      forall share | share in shorter ensures Counted(share, top, count) {
        assert Counted(share, before, count);
      }
      assert last != UNKNOWN ==> Counted(Share(last, count(last)), top, count);
    }
  }

  /** The known names in the order of the list; only the unknown one is dropped. */
  lemma {:induction false} KnownOrder(top: seq<string>, count: string -> int)
    requires Descending(top, count)
    ensures var r := Known(top, count);
      && (forall i, j :: 0 <= i < j < |r| ==> r[i].name != r[j].name && r[i].count >= r[j].count)
      && |r| == |top| - (if UNKNOWN in top then 1 else 0)
    decreases |top|
  {
    if top != [] {
      var before, name := top[..|top| - 1], top[|top| - 1];
      KnownOrder(before, count);
      KnownShares(before, count);
      forall i | 0 <= i < |Known(before, count)|
        ensures Known(before, count)[i].name != name && Known(before, count)[i].count >= count(name)
      {
        assert Counted(Known(before, count)[i], before, count);
        var k :| 0 <= k < |before| && before[k] == Known(before, count)[i].name;
      }
      assert UNKNOWN in top <==> UNKNOWN in before || UNKNOWN == name;
      assert name !in before;
    }
  }

  lemma {:induction false} KnownLists(top: seq<string>, count: string -> int, name: string)
    requires name in top && name != UNKNOWN
    ensures Lists(Known(top, count), name)
    decreases |top|
  {
    var before, last := top[..|top| - 1], top[|top| - 1];
    var r, shorter := Known(top, count), Known(before, count);
    if name == last {
      assert r[|shorter|].name == name;
    } else {
      KnownLists(before, count, name);
      var i :| 0 <= i < |shorter| && shorter[i].name == name;
      assert r[i].name == name;
    }
  }

  function Members(top: seq<string>): set<string> {
    set x | x in top
  }

  lemma {:induction false} MembersSize(top: seq<string>, key: string -> int)
    requires Descending(top, key)
    ensures |Members(top)| == |top|
    decreases |top|
  {
    if top == [] {
      assert Members(top) == {};
    } else {
      var before, last := top[..|top| - 1], top[|top| - 1];
      MembersSize(before, key);
      assert last !in before;
      assert top == before + [last];
      assert Members(top) == Members(before) + {last};
    }
  }

  lemma SubsetSize(a: set<string>, b: set<string>)
    requires a <= b
    ensures |a| <= |b|
  {
    assert b == a + (b - a);
  }

  lemma TopSize(top: seq<string>, items: set<string>, key: string -> int, k: nat)
    requires TopOf(top, items, key, k)
    ensures |top| == Min(k, |items|)
  {
    MembersSize(top, key);
    assert Members(top) <= items;
    SubsetSize(Members(top), items);
    if |top| < k { assert Members(top) == items; }
  }

  /** The items besides `x` with a larger key, and with a key at least as large. */
  function Above(items: set<string>, key: string -> int, x: string): set<string> {
    set y | y in items && key(y) > key(x)
  }

  function AtLeast(items: set<string>, key: string -> int, x: string): set<string> {
    set y | y in items && y != x && key(y) >= key(x)
  }

  /** With k items above it an item is not among the first k; with less than k at least
      as large it is. */
  lemma AmongTop(top: seq<string>, items: set<string>, key: string -> int, k: nat, x: string)
    requires TopOf(top, items, key, k) && x in items
    ensures |Above(items, key, x)| >= k ==> x !in top
    ensures |AtLeast(items, key, x)| < k ==> x in top
  {
    MembersSize(top, key);
    if x in top {
      forall y | y in Above(items, key, x) ensures y in Members(top) {
        var i :| 0 <= i < |top| && top[i] == x;
      }
      SubsetSize(Above(items, key, x) + {x}, Members(top));
    } else {
      forall y | y in Members(top) ensures y in AtLeast(items, key, x) {
        var i :| 0 <= i < |top| && top[i] == y;
      }
      SubsetSize(Members(top), AtLeast(items, key, x));
    }
  }

  /** The report counts the holders of each listed value, the largest counts first and
      no value twice. Listed are the known ones among the eight most common values, so
      the unknown one takes a place when it is among them; and it is when less than
      eight known values have at least as many holders, and not when eight have more. */
  lemma BreakdownSays(shares: seq<Share>, rows: map<string, Instance>, column: Column) returns (top: seq<string>)
    requires BreakdownOf(shares, rows, column)
    ensures var holders, values := HoldersIn(rows, column), ValuesIn(rows, column);
      && TopOf(top, values, holders, LISTED_VALUES) && |top| == Min(LISTED_VALUES, |values|)
      && |shares| == |top| - (if UNKNOWN in top then 1 else 0)
      && (forall name :: name in values && name != UNKNOWN ==> (Lists(shares, name) <==> name in top))
      && (UNKNOWN in values && |AtLeast(values, holders, UNKNOWN)| < LISTED_VALUES ==> UNKNOWN in top)
      && (|Above(values, holders, UNKNOWN)| >= LISTED_VALUES ==> UNKNOWN !in top)
    ensures var holders := HoldersIn(rows, column);
      && (forall i :: 0 <= i < |shares| ==>
            && shares[i].name in ValuesIn(rows, column) && shares[i].name != UNKNOWN
            && shares[i].count == holders(shares[i].name))
      && (forall i, j :: 0 <= i < j < |shares| ==>
            shares[i].name != shares[j].name && shares[i].count >= shares[j].count)
      && (forall name :: name in ValuesIn(rows, column) && name != UNKNOWN && !Lists(shares, name) ==>
            && |shares| >= LISTED_VALUES - 1
            && forall i :: 0 <= i < |shares| ==> shares[i].count >= holders(name))
  {
    var holders, values := HoldersIn(rows, column), ValuesIn(rows, column);
    top :| TopOf(top, values, holders, LISTED_VALUES) && shares == Known(top, holders);
    TopSize(top, values, holders, LISTED_VALUES);
    if UNKNOWN in values { AmongTop(top, values, holders, LISTED_VALUES, UNKNOWN); }
    KnownSays(shares, top, values, holders);
    KnownMissing(shares, top, values, holders);
  }

  lemma KnownSays(shares: seq<Share>, top: seq<string>, values: set<string>, key: string -> int)
    requires TopOf(top, values, key, LISTED_VALUES) && shares == Known(top, key)
    ensures |shares| == |top| - (if UNKNOWN in top then 1 else 0)
    ensures forall i :: 0 <= i < |shares| ==>
      shares[i].name in values && shares[i].name != UNKNOWN && shares[i].count == key(shares[i].name)
    ensures forall i, j :: 0 <= i < j < |shares| ==>
      shares[i].name != shares[j].name && shares[i].count >= shares[j].count
  {
    KnownShares(top, key);
    forall i | 0 <= i < |shares|
      ensures shares[i].name in values && shares[i].name != UNKNOWN && shares[i].count == key(shares[i].name)
    {
      assert Counted(shares[i], top, key);
    }
    KnownOrder(top, key);
  }

  lemma KnownMissing(shares: seq<Share>, top: seq<string>, values: set<string>, key: string -> int)
    requires TopOf(top, values, key, LISTED_VALUES) && shares == Known(top, key)
    ensures forall name :: name in values && name != UNKNOWN ==> (Lists(shares, name) <==> name in top)
    ensures forall name :: name in values && name != UNKNOWN && !Lists(shares, name) ==>
      && |shares| >= LISTED_VALUES - 1
      && forall i :: 0 <= i < |shares| ==> shares[i].count >= key(name)
  {
    KnownSays(shares, top, values, key);
    forall name | name in values && name != UNKNOWN ensures Lists(shares, name) <==> name in top {
      ListedInTop(shares, top, key, name);
    }
    forall name, i | name in values && name !in top && 0 <= i < |shares| ensures shares[i].count >= key(name) {
      KnownShares(top, key);
      assert Counted(shares[i], top, key);
      var k :| 0 <= k < |top| && top[k] == shares[i].name;
    }
  }

  lemma ListedInTop(shares: seq<Share>, top: seq<string>, key: string -> int, name: string)
    requires shares == Known(top, key) && name != UNKNOWN
    ensures Lists(shares, name) <==> name in top
  {
    KnownShares(top, key);
    if name in top { KnownLists(top, key, name); }
    if i :| 0 <= i < |shares| && shares[i].name == name { assert Counted(shares[i], top, key); }
  }

  /** The eight most common known values are listed, or all of them if there are fewer,
      exactly when there are fewer or the unknown one takes no place. */
  lemma EightListed(shares: seq<Share>, rows: map<string, Instance>, column: Column) returns (top: seq<string>)
    requires BreakdownOf(shares, rows, column)
    ensures TopOf(top, ValuesIn(rows, column), HoldersIn(rows, column), LISTED_VALUES)
    ensures var known := ValuesIn(rows, column) - {UNKNOWN};
      |shares| == Min(LISTED_VALUES, |known|) <==> |known| < LISTED_VALUES || UNKNOWN !in top
  {
    top := BreakdownSays(shares, rows, column);
    KnownListed(top, ValuesIn(rows, column), HoldersIn(rows, column));
  }

  lemma KnownListed(top: seq<string>, values: set<string>, key: string -> int)
    requires TopOf(top, values, key, LISTED_VALUES) && |top| == Min(LISTED_VALUES, |values|)
    ensures var listed := |top| - (if UNKNOWN in top then 1 else 0);
      var known := |values - {UNKNOWN}|;
      listed == Min(LISTED_VALUES, known) <==> known < LISTED_VALUES || UNKNOWN !in top
  {
    if UNKNOWN in values {
      assert values == (values - {UNKNOWN}) + {UNKNOWN};
      if |values| <= LISTED_VALUES { AllListed(top, values, key, LISTED_VALUES); }
    } else {
      assert values - {UNKNOWN} == values;
    }
  }

  lemma AllListed(top: seq<string>, items: set<string>, key: string -> int, k: nat)
    requires TopOf(top, items, key, k) && |items| <= k
    ensures forall x :: x in items ==> x in top
  {
    MembersSize(top, key);
    if x :| x in items && x !in top { SubsetSize(Members(top) + {x}, items); }
  }

  lemma {:induction false} ImageSize(ids: set<string>, day: int, kind: Kind)
    ensures |set id | id in ids :: Activity(day, id, kind)| == |ids|
    decreases ids
  {
    if ids != {} {
      var id :| id in ids;
      var rest := ids - {id};
      ImageSize(rest, day, kind);
      assert (set x | x in ids :: Activity(day, x, kind)) ==
             (set x | x in rest :: Activity(day, x, kind)) + {Activity(day, id, kind)};
    }
  }

  /** The daily rows are events of the history, and all of them from day `from` on. */
  ghost predicate DailyOf(daily: set<Activity>, history: seq<Event>, from: int) {
    && (forall r :: r in daily ==> r.id in OnDay(history, r.kind, r.day))
    && (forall e :: e in history && DayOf(e.time) >= from ==> Activity(DayOf(e.time), e.id, e.kind) in daily)
  }

  lemma DailyAfter(daily: set<Activity>, history: seq<Event>, from: int, e: Event, cutoff: int)
    requires DailyOf(daily, history, from)
    ensures var added := daily + {Activity(DayOf(e.time), e.id, e.kind)};
      DailyOf((set r | r in added && !(r.day < cutoff)), history + [e], Max(from, cutoff))
  {
    var longer := history + [e];
    forall k, d, id | id in OnDay(history, k, d) ensures id in OnDay(longer, k, d) {
      var f :| f in history && f.kind == k && DayOf(f.time) == d && f.id == id;
      assert f in longer;
    }
    assert e in longer;
  }

  class Store {
    var instances: map<string, Instance>
    var daily: set<Activity>
    ghost var history: seq<Event>
    /** The latest day the clock showed while an event was recorded. */
    ghost var clock: int

    /** The tables say what the history says; of the last 180 days, all of it. */
    ghost predicate Valid()
      reads this
    {
      && (forall id :: Lookup(instances, id) == RowOf(history, id))
      && DailyOf(daily, history, clock - KEPT_DAYS)
    }

    constructor (ghost today: int)
      ensures Valid() && history == [] && clock == today
    {
      instances, daily, history, clock := map[], {}, [], today;
    }

    /** The first statement of `record`. */
    method Upsert(e: Event)
      requires forall id :: Lookup(instances, id) == RowOf(history, id)
      modifies this`instances
      ensures forall id :: Lookup(instances, id) == RowOf(history + [e], id)
    {
      var updated := instances[e.id := Upserted(Lookup(instances, e.id), e)];
      forall id ensures Lookup(updated, id) == RowOf(history + [e], id) {
        RowAfter(history, e, id);
      }
      instances := updated;
    }

    /** `record`, on the day the clock shows while the event is recorded. */
    method Record(e: Event, today: int)
      requires Valid()
      modifies this
      ensures Valid() && history == old(history) + [e]
      ensures clock == Max(old(clock), today)
    {
      DailyAfter(daily, history, clock - KEPT_DAYS, e, today - KEPT_DAYS);
      Upsert(e);
      daily := daily + {Activity(DayOf(e.time), e.id, e.kind)};
      var cutoff := today - KEPT_DAYS;
      daily := set r | r in daily && !(r.day < cutoff);
      history := history + [e];
      clock := Max(clock, today);
    }

    /** `summary`. */
    method Report(now: int) returns (summary: Summary)
      requires Valid()
      ensures summary.total == |set e | e in history :: e.id|
      ensures summary.installed24h == |Reported(history, Install, now - DAY)|
      ensures summary.active24h == |Reported(history, Active, now - DAY)|
      ensures summary.active7d == |Reported(history, Active, now - 7 * DAY)|
      ensures |summary.trend| == TREND_DAYS
      ensures forall i :: 0 <= i < TREND_DAYS ==> summary.trend[i].day == DayOf(now) - (TREND_DAYS - 1) + i
      ensures forall i :: 0 <= i < TREND_DAYS && summary.trend[i].day >= clock - KEPT_DAYS ==>
        && summary.trend[i].installs == |OnDay(history, Install, summary.trend[i].day)|
        && summary.trend[i].active == |OnDay(history, Active, summary.trend[i].day)|
      ensures AllBreakdowns(summary.breakdowns, RowsOf(history))
      ensures TopOf(summary.recent, set e | e in history :: e.id, LastSeenIn(RowsOf(history)), LISTED_INSTALLATIONS)
    {
      KnownIds();
      RowsAreKnown();
      var installed, active := CountRows(now - DAY);
      var _, weekly := CountRows(now - 7 * DAY);
      var platforms := Breakdown(instances, Platform);
      var versions := Breakdown(instances, Version);
      var channels := Breakdown(instances, Channel);
      var adapters := Breakdown(instances, Adapter);
      var trend := DailyTrend(DayOf(now));
      var recent := Largest(instances.Keys, LastSeenIn(instances), LISTED_INSTALLATIONS);
      var breakdowns := Breakdowns(platforms, versions, channels, adapters);
      summary := Summary(|instances|, installed, active, weekly, trend, breakdowns, recent);
    }

    /** The installations with an installation, and with an activity, since a time. */
    method CountRows(since: int) returns (installs: nat, actives: nat)
      requires Valid()
      ensures installs == |Reported(history, Install, since)| && actives == |Reported(history, Active, since)|
    {
      CountedRows(since);
      var installed := set id | id in instances && Counts(instances[id].lastInstall, since);
      var active := set id | id in instances && Counts(instances[id].lastActive, since);
      return |installed|, |active|;
    }

    lemma CountedRows(since: int)
      requires Valid()
      ensures (set id | id in instances && Counts(instances[id].lastInstall, since)) ==
              Reported(history, Install, since)
      ensures (set id | id in instances && Counts(instances[id].lastActive, since)) ==
              Reported(history, Active, since)
    {
      KnownIds();
      forall id ensures id in instances && Counts(instances[id].lastInstall, since) <==>
                        id in Reported(history, Install, since) {
        assert Lookup(instances, id) == RowOf(history, id);
        InReported(history, id, Install, since);
      }
      forall id ensures id in instances && Counts(instances[id].lastActive, since) <==>
                        id in Reported(history, Active, since) {
        assert Lookup(instances, id) == RowOf(history, id);
        InReported(history, id, Active, since);
      }
    }

    lemma KnownIds()
      requires Valid()
      ensures instances.Keys == set e | e in history :: e.id
    {
      forall id ensures id in instances <==> exists e :: e in history && e.id == id {
        assert Lookup(instances, id) == RowOf(history, id);
        FirstAndLast(history, Of(id));
        LastWithFound(history, Of(id));
      }
    }

    lemma RowsAreKnown()
      requires Valid()
      ensures instances == RowsOf(history)
    {
      KnownIds();
      RowsAre(instances, history);
    }

    /** The loop of `summary` over the last days, oldest first. */
    method DailyTrend(today: int) returns (trend: seq<Trend>)
      requires Valid()
      ensures |trend| == TREND_DAYS
      ensures forall i :: 0 <= i < TREND_DAYS ==> trend[i].day == today - (TREND_DAYS - 1) + i
      ensures forall i :: 0 <= i < TREND_DAYS && trend[i].day >= clock - KEPT_DAYS ==>
        && trend[i].installs == |OnDay(history, Install, trend[i].day)|
        && trend[i].active == |OnDay(history, Active, trend[i].day)|
    {
      trend := [];
      for offset := TREND_DAYS downto 0
        invariant |trend| == TREND_DAYS - offset
        invariant forall i :: 0 <= i < |trend| ==> trend[i].day == today - (TREND_DAYS - 1) + i
        invariant forall i :: 0 <= i < |trend| && trend[i].day >= clock - KEPT_DAYS ==>
          && trend[i].installs == |OnDay(history, Install, trend[i].day)|
          && trend[i].active == |OnDay(history, Active, trend[i].day)|
      {
        var day := today - offset;
        if day >= clock - KEPT_DAYS {
          RowsAreDay(daily, history, clock - KEPT_DAYS, day, Install);
          RowsAreDay(daily, history, clock - KEPT_DAYS, day, Active);
        }
        trend := trend + [Trend(day, |Rows(daily, day, Install)|, |Rows(daily, day, Active)|)];
      }
    }
  }

  /** One breakdown of `summary`. */
  method Breakdown(rows: map<string, Instance>, column: Column) returns (shares: seq<Share>)
    ensures BreakdownOf(shares, rows, column)
  {
    var holders := HoldersIn(rows, column);
    var top := Largest(ValuesIn(rows, column), holders, LISTED_VALUES);
    shares := [];
    for i := 0 to |top|
      invariant shares == Known(top[..i], holders)
    {
      assert top[..i + 1][..i] == top[..i];
      if top[i] != UNKNOWN { shares := shares + [Share(top[i], holders(top[i]))]; }
    }
    assert top[..|top|] == top;
  }

  /** SELECT COUNT(*) ... GROUP BY day, event, for one group. */
  function Rows(daily: set<Activity>, day: int, kind: Kind): set<Activity> {
    set r | r in daily && r.day == day && r.kind == kind
  }

  lemma RowsAreDay(daily: set<Activity>, history: seq<Event>, from: int, day: int, kind: Kind)
    requires DailyOf(daily, history, from) && day >= from
    ensures |Rows(daily, day, kind)| == |OnDay(history, kind, day)|
  {
    var ids := OnDay(history, kind, day);
    assert Rows(daily, day, kind) == set id | id in ids :: Activity(day, id, kind);
    ImageSize(ids, day, kind);
  }
}
