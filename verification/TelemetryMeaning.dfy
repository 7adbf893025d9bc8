/** What the telemetry tables and the report say, told from the recorded events alone. */
module TelemetryMeaning {
  import opened Numbers
  import opened Options
  import opened TelemetryStore

  // ----- events by their places in the history

  ghost predicate FirstOf(history: seq<Event>, id: string, i: int) {
    0 <= i < |history| && history[i].id == id && forall j :: 0 <= j < i ==> history[j].id != id
  }

  ghost predicate LastOf(history: seq<Event>, id: string, i: int) {
    0 <= i < |history| && history[i].id == id && forall j :: i < j < |history| ==> history[j].id != id
  }

  ghost predicate LastOfKind(history: seq<Event>, id: string, kind: Kind, i: int) {
    && 0 <= i < |history| && history[i].id == id && history[i].kind == kind
    && forall j :: i < j < |history| ==> !(history[j].id == id && history[j].kind == kind)
  }

  /** The last event of the installation that names a channel. */
  ghost predicate LastChannel(history: seq<Event>, id: string, i: int) {
    && 0 <= i < |history| && history[i].id == id && history[i].channel != "unknown"
    && forall j :: i < j < |history| ==> !(history[j].id == id && history[j].channel != "unknown")
  }

  ghost predicate LastAdapter(history: seq<Event>, id: string, i: int) {
    && 0 <= i < |history| && history[i].id == id && history[i].adapter != "unknown"
    && forall j :: i < j < |history| ==> !(history[j].id == id && history[j].adapter != "unknown")
  }

  ghost predicate LastAt(history: seq<Event>, p: Event -> bool, i: int) {
    0 <= i < |history| && p(history[i]) && forall j :: i < j < |history| ==> !p(history[j])
  }

  /** `LastWith` finds the last event with the property. */
  lemma {:induction false} LastWithIs(history: seq<Event>, p: Event -> bool) returns (i: int)
    ensures if i < 0 then LastWith(history, p) == None && forall e :: e in history ==> !p(e)
            else LastAt(history, p, i) && LastWith(history, p) == Some(history[i])
    ensures forall k :: LastAt(history, p, k) ==> k == i
    decreases |history|
  {
    i := -1;
    if history != [] {
      var n := |history| - 1;
      assert history == history[..n] + [history[n]];
      if p(history[n]) { i := n; } else { i := LastWithIs(history[..n], p); }
      forall k | LastAt(history, p, k) ensures k == i {
        if !p(history[n]) { assert LastAt(history[..n], p, k); }
      }
    }
  }

  lemma {:induction false} FirstWithIs(history: seq<Event>, id: string, i: int)
    requires FirstOf(history, id, i)
    ensures FirstWith(history, Of(id)) == Some(history[i])
    decreases |history|
  {
    if i > 0 {
      assert forall j :: 0 <= j < i ==> history[j].id != id;
      assert FirstOf(history[1..], id, i - 1);
      FirstWithIs(history[1..], id, i - 1);
    }
  }

  // ----- rows

  /** There is a row for every installation that was ever heard of. */
  lemma RowExists(history: seq<Event>, id: string)
    ensures RowOf(history, id).Some? <==> exists i :: LastOf(history, id, i)
  {
    var i := LastWithIs(history, Of(id));
    FirstAndLast(history, Of(id));
    if k :| LastOf(history, id, k) { assert LastAt(history, Of(id), k); }
    if i >= 0 { assert LastOf(history, id, i); }
  }

  /** When it was first seen is the time of its first event; its last time and details are
      those of its last event. */
  lemma RowMeans(history: seq<Event>, id: string, row: Instance)
    requires RowOf(history, id) == Some(row)
    ensures forall i :: FirstOf(history, id, i) ==> row.firstSeen == history[i].time
    ensures forall i :: LastOf(history, id, i) ==>
      && row.lastSeen == history[i].time && row.platform == history[i].platform
      && row.architecture == history[i].architecture && row.version == history[i].version
  {
    forall i | FirstOf(history, id, i) ensures row.firstSeen == history[i].time { FirstWithIs(history, id, i); }
    var l := LastWithIs(history, Of(id));
    forall i | LastOf(history, id, i) ensures LastAt(history, Of(id), i) { }
  }

  /** Its last installation and activity are its last events of the kind, and its channel
      and adapter the last ones an event has named. */
  lemma RowKeeps(history: seq<Event>, id: string, row: Instance)
    requires RowOf(history, id) == Some(row)
    ensures forall i :: LastOfKind(history, id, Install, i) ==> row.lastInstall == Some(history[i].time)
    ensures (forall i :: !LastOfKind(history, id, Install, i)) ==> row.lastInstall == None
    ensures forall i :: LastOfKind(history, id, Active, i) ==> row.lastActive == Some(history[i].time)
    ensures (forall i :: !LastOfKind(history, id, Active, i)) ==> row.lastActive == None
    ensures forall i :: LastChannel(history, id, i) ==> row.channel == history[i].channel
    ensures (forall i :: !LastChannel(history, id, i)) ==> row.channel == "unknown"
    ensures forall i :: LastAdapter(history, id, i) ==> row.adapter == history[i].adapter
    ensures (forall i :: !LastAdapter(history, id, i)) ==> row.adapter == "unknown"
  {
    KindMeans(history, id, Install);
    KindMeans(history, id, Active);
    ChannelMeans(history, id);
    AdapterMeans(history, id);
  }

  lemma KindMeans(history: seq<Event>, id: string, kind: Kind)
    ensures forall i :: LastOfKind(history, id, kind, i) ==>
      LastWith(history, Doing(id, kind)) == Some(history[i])
    ensures (forall i :: !LastOfKind(history, id, kind, i)) ==> LastWith(history, Doing(id, kind)) == None
  {
    var l := LastWithIs(history, Doing(id, kind));
    forall i ensures LastOfKind(history, id, kind, i) <==> LastAt(history, Doing(id, kind), i) { }
  }

  lemma ChannelMeans(history: seq<Event>, id: string)
    ensures forall i :: LastChannel(history, id, i) ==> LastWith(history, WithChannel(id)) == Some(history[i])
    ensures (forall i :: !LastChannel(history, id, i)) ==> LastWith(history, WithChannel(id)) == None
  {
    var l := LastWithIs(history, WithChannel(id));
    forall i ensures LastChannel(history, id, i) <==> LastAt(history, WithChannel(id), i) { }
  }

  lemma AdapterMeans(history: seq<Event>, id: string)
    ensures forall i :: LastAdapter(history, id, i) ==> LastWith(history, WithAdapter(id)) == Some(history[i])
    ensures (forall i :: !LastAdapter(history, id, i)) ==> LastWith(history, WithAdapter(id)) == None
  {
    var l := LastWithIs(history, WithAdapter(id));
    forall i ensures LastAdapter(history, id, i) <==> LastAt(history, WithAdapter(id), i) { }
  }

  // ----- the report

  function Ids(history: seq<Event>): set<string> {
    set e | e in history :: e.id
  }

  /** What the events say about an installation in a column. */
  ghost predicate Shows(history: seq<Event>, column: Column, id: string, name: string) {
    match column
    case Platform => exists i :: LastOf(history, id, i) && history[i].platform == name
    case Version => exists i :: LastOf(history, id, i) && history[i].version == name
    case Channel => exists i :: LastChannel(history, id, i) && history[i].channel == name
    case Adapter => exists i :: LastAdapter(history, id, i) && history[i].adapter == name
  }

  lemma ShowsValue(history: seq<Event>, column: Column, id: string, name: string)
    requires name != "unknown"
    ensures id in RowsOf(history) && Value(RowsOf(history)[id], column) == name <==>
            id in Ids(history) && Shows(history, column, id, name)
  {
    RowExists(history, id);
    if RowOf(history, id).Some? {
      var row := RowOf(history, id).value;
      RowMeans(history, id, row);
      RowKeeps(history, id, row);
      var i :| LastOf(history, id, i);
      assert history[i] in history;
    }
    if i :| LastChannel(history, id, i) { HasLast(history, id, i); }
    if i :| LastAdapter(history, id, i) { HasLast(history, id, i); }
  }

  lemma HasLast(history: seq<Event>, id: string, i: int)
    requires 0 <= i < |history| && history[i].id == id
    ensures exists l :: LastOf(history, id, l)
  {
    var l := LastWithIs(history, Of(id));
    assert history[i] in history && Of(id)(history[i]);
    assert LastOf(history, id, l);
  }

  /** The installations whose events show the value. */
  ghost function Showing(history: seq<Event>, column: Column, name: string): set<string> {
    set id | id in Ids(history) && Shows(history, column, id, name)
  }

  lemma HoldersShow(history: seq<Event>, column: Column, name: string)
    requires name != "unknown"
    ensures HoldersIn(RowsOf(history), column)(name) == |Showing(history, column, name)|
  {
    var rows := RowsOf(history);
    var holders := set id | id in rows && Value(rows[id], column) == name;
    forall id ensures id in holders <==> id in Showing(history, column, name) {
      ShowsValue(history, column, id, name);
    }
    assert holders == Showing(history, column, name);
  }

  /** A breakdown counts, for every value it lists, the installations whose events show it:
      platform and version of the last event, the last channel and adapter named. */
  lemma SharesMean(history: seq<Event>, shares: seq<Share>, column: Column, k: nat)
    requires BreakdownOf(shares, RowsOf(history), column) && k < |shares|
    ensures shares[k].name != "unknown"
    ensures shares[k].count == |Showing(history, column, shares[k].name)|
  {
    var top := BreakdownSays(shares, RowsOf(history), column);
    HoldersShow(history, column, shares[k].name);
  }

  /** The list of recent installations is ordered by their last events, and lists none
      whose last event is older than that of one it leaves out. */
  lemma RecentMeans(history: seq<Event>, recent: seq<string>, a: nat, i: int, id: string, j: int)
    requires TopOf(recent, Ids(history), LastSeenIn(RowsOf(history)), LISTED_INSTALLATIONS)
    requires a < |recent| && LastOf(history, recent[a], i) && LastOf(history, id, j)
    requires id in recent[a + 1..] || id !in recent
    ensures history[i].time >= history[j].time && |recent| == Min(20, |Ids(history)|)
  {
    TopSize(recent, Ids(history), LastSeenIn(RowsOf(history)), LISTED_INSTALLATIONS);
    SeenLast(history, recent[a], i);
    SeenLast(history, id, j);
    if id in recent {
      var b :| a + 1 <= b < |recent| && recent[b] == id;
    } else {
      assert id in Ids(history) by { assert history[j] in history; }
    }
  }

  lemma SeenLast(history: seq<Event>, id: string, i: int)
    requires LastOf(history, id, i)
    ensures LastSeenIn(RowsOf(history))(id) == history[i].time
  {
    RowExists(history, id);
    RowMeans(history, id, RowOf(history, id).value);
    assert history[i] in history;
  }

  /** An installation is counted on a day exactly when it has an event of the kind between
      the day's first second and the next day's. */
  lemma OnDayMeans(history: seq<Event>, kind: Kind, day: int, id: string)
    ensures id in OnDay(history, kind, day) <==>
      exists e :: e in history && e.kind == kind && e.id == id && 86_400 * day <= e.time < 86_400 * (day + 1)
  {
    forall e: Event ensures DayOf(e.time) == day <==> 86_400 * day <= e.time < 86_400 * (day + 1) { }
  }
}
