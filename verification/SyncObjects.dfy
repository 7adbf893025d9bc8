/** The encrypted sync objects of the web server: append-only storage per tenant,
    with a counter cached for every device. */
module SyncObjects {
  import opened Numbers
  import opened Options

  /** One pushed row, a stored object, and what is known about a device. */
  datatype Row = Row(key: string, payload: string, device: string)
  datatype Stored = Stored(payload: string, device: string, createdAt: int)
  datatype Device = Device(name: string, version: string, count: nat, lastSeen: int)
  datatype Stats = Stats(objects: nat, devices: nat, active: nat, lastSeen: Option<int>)

  /** Times are microseconds since 1970. */
  const DAY := 86_400_000_000

  /** A primary key: the tenant, and the object's key or the device's name. */
  type Id = (string, string)
  type Objects = map<Id, Stored>
  type Devices = map<Id, Device>

  // ----- SQL counts

  function TenantObjects(objects: Objects, tenant: string): set<Id> {
    set k | k in objects && k.0 == tenant
  }

  function DeviceObjects(objects: Objects, tenant: string, device: string): set<Id> {
    set k | k in objects && k.0 == tenant && objects[k].device == device
  }

  function TenantDevices(devices: Devices, tenant: string): set<Id> {
    set k | k in devices && k.0 == tenant
  }

  // ----- the specification of a push

  /** INSERT OR IGNORE. */
  function Insert(objects: Objects, tenant: string, row: Row, now: int): Objects {
    if (tenant, row.key) in objects then objects
    else objects[(tenant, row.key) := Stored(row.payload, row.device, now)]
  }

  function InsertAll(objects: Objects, tenant: string, rows: seq<Row>, now: int): Objects {
    if rows == [] then objects
    else Insert(InsertAll(objects, tenant, rows[..|rows| - 1], now), tenant, rows[|rows| - 1], now)
  }

  /** The row of a device that was seen at `now`; new devices have no name yet. */
  function Seen(devices: Devices, k: Id, now: int): Device {
    if k in devices then devices[k].(lastSeen := now) else Device("", "", 0, now)
  }

  /** The devices once the rows are inserted, before their counters are refreshed. */
  ghost predicate Touched(before: Devices, after: Devices, tenant: string, rows: seq<Row>, now: int) {
    && after.Keys == before.Keys + Ids(tenant, rows)
    && (forall k :: k in after ==> after[k] == if k in Ids(tenant, rows) then Seen(before, k, now) else before[k])
  }

  /** The devices after a push: those of the batch are seen, and their counters
      count their objects; all others stay. */
  function PushedDevices(before: Devices, objects: Objects, tenant: string, rows: seq<Row>, now: int): Devices {
    map k | k in before.Keys + Ids(tenant, rows) ::
      if k in Ids(tenant, rows)
      then Seen(before, k, now).(count := |DeviceObjects(objects, tenant, k.1)|) else before[k]
  }

  /** The devices with the counters of `ids` refreshed. */
  ghost predicate Refreshed(before: Devices, after: Devices, objects: Objects, tenant: string, ids: set<Id>) {
    && after.Keys == before.Keys
    && (forall k :: k in after ==>
          after[k] == if k in ids then before[k].(count := |DeviceObjects(objects, tenant, k.1)|) else before[k])
  }

  function Ids(tenant: string, rows: seq<Row>): set<Id> {
    set r | r in rows :: (tenant, r.device)
  }

  class SyncStore {
    var objects: Objects
    var devices: Devices

    constructor ()
      ensures objects == map[] && devices == map[]
    {
      objects, devices := map[], map[];
    }

    /** The body of the first loop of `add_sync_objects`. */
    method AddRow(tenant: string, row: Row, now: int) returns (inserted: bool)
      modifies this
      ensures objects == Insert(old(objects), tenant, row, now) && inserted == ((tenant, row.key) !in old(objects))
      ensures devices == old(devices)[(tenant, row.device) := Seen(old(devices), (tenant, row.device), now)]
    {
      inserted := (tenant, row.key) !in objects;
      if inserted { objects := objects[(tenant, row.key) := Stored(row.payload, row.device, now)]; }
      var id := (tenant, row.device);
      if id in devices {
        devices := devices[id := devices[id].(lastSeen := now)];
      } else {
        devices := devices[id := Device("", "", 0, now)];
      }
    }

    /** The first loop of `add_sync_objects`. */
    method AddRows(tenant: string, rows: seq<Row>, now: int) returns (accepted: nat, existing: nat, ids: set<Id>)
      modifies this
      ensures objects == InsertAll(old(objects), tenant, rows, now) && ids == Ids(tenant, rows)
      ensures Touched(old(devices), devices, tenant, rows, now)
      ensures accepted + existing == |rows|
      ensures accepted == |TenantObjects(objects, tenant)| - |TenantObjects(old(objects), tenant)|
    {
      accepted, existing, ids := 0, 0, {};
      for i := 0 to |rows|
        invariant Added(old(objects), old(devices), objects, devices, tenant, rows[..i], now, ids, accepted)
        invariant accepted + existing == i
      {
        AddedStep(old(objects), old(devices), objects, devices, tenant, rows, i, now, ids, accepted);
        ids := ids + {(tenant, rows[i].device)};
        var inserted := AddRow(tenant, rows[i], now);
        if inserted { accepted := accepted + 1; } else { existing := existing + 1; }
      }
      assert rows[..|rows|] == rows;
    }

    /** `add_sync_objects`. */
    method AddSyncObjects(tenant: string, rows: seq<Row>, now: int) returns (accepted: nat, existing: nat)
      modifies this
      ensures objects == InsertAll(old(objects), tenant, rows, now)
      ensures devices == PushedDevices(old(devices), objects, tenant, rows, now)
      ensures accepted + existing == |rows|
      ensures accepted == |TenantObjects(objects, tenant)| - |TenantObjects(old(objects), tenant)|
    {
      var ids: set<Id>;
      accepted, existing, ids := AddRows(tenant, rows, now);
      ghost var touched := devices;
      RefreshCounts(tenant, ids);
      RefreshedTouched(old(devices), touched, devices, objects, tenant, rows, now);
    }

    /** The second loop of `add_sync_objects`. */
    method RefreshCounts(tenant: string, ids: set<Id>)
      requires ids <= devices.Keys
      modifies this`devices
      ensures Refreshed(old(devices), devices, objects, tenant, ids)
    {
      var rest := ids;
      while rest != {}
        invariant rest <= ids && Refreshed(old(devices), devices, objects, tenant, ids - rest)
        decreases rest
      {
        var id :| id in rest;
        rest := rest - {id};
        assert ids - rest == (ids - rest - {id}) + {id};
        devices := devices[id := devices[id].(count := |DeviceObjects(objects, tenant, id.1)|)];
      }
      assert ids - rest == ids;
    }

    /** `sync_stats`, from the rows of both tables. */
    method SyncStats(tenant: string, now: int) returns (stats: Stats)
      ensures stats.objects == |TenantObjects(objects, tenant)| && stats.devices == |TenantDevices(devices, tenant)|
      ensures stats.active == |set k | k in TenantDevices(devices, tenant) && devices[k].lastSeen >= now - DAY|
      ensures stats.lastSeen.None? <==> stats.devices == 0
      ensures stats.lastSeen.Some? ==>
        && (exists k :: k in TenantDevices(devices, tenant) && devices[k].lastSeen == stats.lastSeen.value)
        && (forall k :: k in TenantDevices(devices, tenant) ==> devices[k].lastSeen <= stats.lastSeen.value)
    {
      var ids := TenantDevices(devices, tenant);
      var activeAfter := now - DAY;
      var active := set k | k in ids && devices[k].lastSeen >= activeAfter;
      stats := Stats(|TenantObjects(objects, tenant)|, |ids|, |active|, None);
      if ids != {} {
        LatestExists(devices, ids);
        var latest :| latest in ids && forall k :: k in ids ==> devices[k].lastSeen <= devices[latest].lastSeen;
        stats := stats.(lastSeen := Some(devices[latest].lastSeen));
      }
    }

    /** `touch_sync_device`: a heartbeat with what the client reports. */
    method TouchSyncDevice(tenant: string, device: string, name: string, version: string, count: int, now: int)
      modifies this`devices
      ensures devices == Heard(old(devices), (tenant, device), name, version, count, now)
      ensures devices[(tenant, device)] == Device(name, version, if count < 0 then 0 else count, now)
      ensures devices - {(tenant, device)} == old(devices) - {(tenant, device)}
    {
      devices := devices[(tenant, device) := Device(name, version, if count > 0 then count else 0, now)];
    }
  }

  lemma RefreshedTouched(before: Devices, touched: Devices, after: Devices, objects: Objects, tenant: string,
                         rows: seq<Row>, now: int)
    requires Touched(before, touched, tenant, rows, now)
    requires Refreshed(touched, after, objects, tenant, Ids(tenant, rows))
    ensures after == PushedDevices(before, objects, tenant, rows, now)
  {
  }

  lemma {:induction false} LatestExists(devices: Devices, ids: set<Id>)
    requires ids != {} && forall k :: k in ids ==> k in devices
    ensures exists latest :: latest in ids && forall k :: k in ids ==> devices[k].lastSeen <= devices[latest].lastSeen
    decreases ids
  {
    var id :| id in ids;
    var rest := ids - {id};
    if rest == {} {
      assert ids == {id};
    } else {
      LatestExists(devices, rest);
      var l :| l in rest && forall k :: k in rest ==> devices[k].lastSeen <= devices[l].lastSeen;
      var best := if devices[id].lastSeen > devices[l].lastSeen then id else l;
      assert forall k :: k in ids ==> k == id || k in rest;
      assert best in ids && forall k :: k in ids ==> devices[k].lastSeen <= devices[best].lastSeen;
    }
  }

  /** What the first loop has done after some rows. */
  ghost predicate Added(objects0: Objects, devices0: Devices, objects: Objects, devices: Devices,
                        tenant: string, rows: seq<Row>, now: int, ids: set<Id>, accepted: nat) {
    && objects == InsertAll(objects0, tenant, rows, now)
    && Touched(devices0, devices, tenant, rows, now)
    && ids == Ids(tenant, rows)
    && |TenantObjects(objects, tenant)| == |TenantObjects(objects0, tenant)| + accepted
  }

  lemma AddedStep(objects0: Objects, devices0: Devices, objects: Objects, devices: Devices,
                  tenant: string, rows: seq<Row>, i: nat, now: int, ids: set<Id>, accepted: nat)
    requires i < |rows| && Added(objects0, devices0, objects, devices, tenant, rows[..i], now, ids, accepted)
    ensures var k := (tenant, rows[i].device);
      Added(objects0, devices0, Insert(objects, tenant, rows[i], now), devices[k := Seen(devices, k, now)],
            tenant, rows[..i + 1], now, ids + {k},
            accepted + if (tenant, rows[i].key) in objects then 0 else 1)
  {
    OneMoreRow(objects0, objects, tenant, rows, i, now);
    TouchedStep(devices0, devices, tenant, rows, i, now);
  }

  lemma TouchedStep(before: Devices, devices: Devices, tenant: string, rows: seq<Row>, i: nat, now: int)
    requires i < |rows| && Touched(before, devices, tenant, rows[..i], now)
    ensures var k := (tenant, rows[i].device);
      && Touched(before, devices[k := Seen(devices, k, now)], tenant, rows[..i + 1], now)
      && Ids(tenant, rows[..i + 1]) == Ids(tenant, rows[..i]) + {k}
  {
    assert rows[..i + 1] == rows[..i] + [rows[i]];
    assert rows[i] in rows[..i + 1];
  }

  lemma OneMoreRow(before: Objects, objects: Objects, tenant: string, rows: seq<Row>, i: nat, now: int)
    requires i < |rows| && objects == InsertAll(before, tenant, rows[..i], now)
    ensures Insert(objects, tenant, rows[i], now) == InsertAll(before, tenant, rows[..i + 1], now)
    ensures |TenantObjects(Insert(objects, tenant, rows[i], now), tenant)| ==
      |TenantObjects(objects, tenant)| + (if (tenant, rows[i].key) in objects then 0 else 1)
  {
    assert rows[..i + 1][..i] == rows[..i];
    var k := (tenant, rows[i].key);
    if k !in objects {
      assert TenantObjects(Insert(objects, tenant, rows[i], now), tenant) == TenantObjects(objects, tenant) + {k};
    }
  }

  /** The device of the tenant has a row in the batch. */
  ghost predicate TakesPart(tenant: string, rows: seq<Row>, k: Id) {
    k.0 == tenant && exists i :: 0 <= i < |rows| && rows[i].device == k.1
  }

  /** What a push leaves of the devices: those of the batch are there, were seen now, keep
      their name and version, empty for new ones, and count their own objects; all others
      are as before. */
  lemma PushMeans(before: Devices, objects: Objects, tenant: string, rows: seq<Row>, now: int, k: Id)
    ensures var after := PushedDevices(before, objects, tenant, rows, now);
      && (k in after <==> k in before || TakesPart(tenant, rows, k))
      && (TakesPart(tenant, rows, k) ==>
            && after[k].lastSeen == now
            && after[k].name == (if k in before then before[k].name else "")
            && after[k].version == (if k in before then before[k].version else "")
            && after[k].count == |set o | o in objects && o.0 == k.0 && objects[o].device == k.1|)
      && (k in before && !TakesPart(tenant, rows, k) ==> after[k] == before[k])
  {
    assert k in Ids(tenant, rows) <==> TakesPart(tenant, rows, k);
    assert DeviceObjects(objects, k.0, k.1) == set o | o in objects && o.0 == k.0 && objects[o].device == k.1;
  }

  // ----- what pushing keeps

  /** What insertion means, whatever the order: old objects stay as they are, new ones
      belong to the tenant and come from a row, and every row's key is stored. */
  ghost predicate Adds(before: Objects, after: Objects, tenant: string, rows: seq<Row>) {
    && (forall k :: k in before ==> k in after && after[k] == before[k])
    && (forall k :: k in after && k !in before ==> k.0 == tenant && From(rows, k.1, after[k]))
    && (forall r :: r in rows ==> (tenant, r.key) in after)
  }

  predicate From(rows: seq<Row>, key: string, stored: Stored) {
    exists r :: r in rows && r.key == key && r.payload == stored.payload && r.device == stored.device
  }

  lemma AddsThen(a: Objects, b: Objects, c: Objects, tenant: string, rows: seq<Row>, more: seq<Row>)
    requires Adds(a, b, tenant, rows) && Adds(b, c, tenant, more)
    ensures Adds(a, c, tenant, rows + more)
  {
    forall k | k in c && k !in a ensures From(rows + more, k.1, c[k]) {
      if k in b {
        var r :| r in rows && r.key == k.1 && r.payload == b[k].payload && r.device == b[k].device;
        assert r in rows + more;
      } else {
        var r :| r in more && r.key == k.1 && r.payload == c[k].payload && r.device == c[k].device;
        assert r in rows + more;
      }
    }
  }

  lemma {:induction false} InsertAllAdds(objects: Objects, tenant: string, rows: seq<Row>, now: int)
    ensures Adds(objects, InsertAll(objects, tenant, rows, now), tenant, rows)
    decreases |rows|
  {
    if rows != [] {
      var before, row := rows[..|rows| - 1], rows[|rows| - 1];
      var m := InsertAll(objects, tenant, before, now);
      InsertAllAdds(objects, tenant, before, now);
      assert row in [row];
      assert Adds(m, Insert(m, tenant, row, now), tenant, [row]);
      AddsThen(objects, m, Insert(m, tenant, row, now), tenant, before, [row]);
      assert before + [row] == rows;
    }
  }

  /** Among rows of one batch with the same new key the first one is stored. */
  lemma {:induction false} FirstRowWins(objects: Objects, tenant: string, rows: seq<Row>, now: int, i: nat)
    requires i < |rows| && (tenant, rows[i].key) !in objects
    requires forall j :: 0 <= j < i ==> rows[j].key != rows[i].key
    ensures var after := InsertAll(objects, tenant, rows, now);
      (tenant, rows[i].key) in after && after[(tenant, rows[i].key)] == Stored(rows[i].payload, rows[i].device, now)
    decreases |rows|
  {
    var before := rows[..|rows| - 1];
    InsertAllAdds(objects, tenant, before, now);
    if i < |rows| - 1 {
      FirstRowWins(objects, tenant, before, now, i);
    } else {
      assert forall r :: r in before ==> r.key != rows[i].key;
    }
  }

  /** The device's counter is there and right. */
  predicate ExactAt(objects: Objects, devices: Devices, k: Id) {
    k in devices && devices[k].count == |DeviceObjects(objects, k.0, k.1)|
  }

  /** Every counter is right, and every object's device has one. */
  ghost predicate Exact(objects: Objects, devices: Devices) {
    && (forall k :: k in devices ==> ExactAt(objects, devices, k))
    && (forall k :: k in objects ==> (k.0, objects[k].device) in devices)
  }

  lemma OthersObjects(before: Objects, after: Objects, tenant: string, rows: seq<Row>, k: Id)
    requires Adds(before, after, tenant, rows) && k !in Ids(tenant, rows)
    ensures DeviceObjects(after, k.0, k.1) == DeviceObjects(before, k.0, k.1)
  {
    forall o ensures o in DeviceObjects(after, k.0, k.1) <==> o in DeviceObjects(before, k.0, k.1) {
      if o in after && o !in before { NewRowDevice(before, after, tenant, rows, o); }
    }
  }

  lemma NewRowDevice(before: Objects, after: Objects, tenant: string, rows: seq<Row>, o: Id)
    requires Adds(before, after, tenant, rows) && o in after && o !in before
    ensures o.0 == tenant && (tenant, after[o].device) in Ids(tenant, rows)
  {
    var r :| r in rows && r.key == o.1 && r.payload == after[o].payload && r.device == after[o].device;
    assert (tenant, r.device) in Ids(tenant, rows);
  }

  /** After a push a counter is right if and only if its device took part in it or it
      was right before: a push repairs what a heartbeat reported. */
  lemma PushRepairs(objects: Objects, devices: Devices, tenant: string, rows: seq<Row>, now: int, k: Id)
    ensures var after := InsertAll(objects, tenant, rows, now);
      ExactAt(after, PushedDevices(devices, after, tenant, rows, now), k) <==>
      k in Ids(tenant, rows) || ExactAt(objects, devices, k)
  {
    InsertAllAdds(objects, tenant, rows, now);
    if k !in Ids(tenant, rows) {
      OthersObjects(objects, InsertAll(objects, tenant, rows, now), tenant, rows, k);
    }
  }

  /** The devices after a heartbeat of device `k`. */
  function Heard(devices: Devices, k: Id, name: string, version: string, count: int, now: int): Devices {
    devices[k := Device(name, version, Max(0, count), now)]
  }

  /** After a heartbeat the device's counter is right if and only if the reported count,
      taken as zero when negative, is the number of its objects; every other counter is
      as right as before; and after a push of the tenant the counter is right if and only
      if the device took part in it or had reported the right number. */
  lemma HeartbeatIsRepaired(objects: Objects, devices: Devices, k: Id, name: string, version: string, count: int,
                            heard: int, rows: seq<Row>, now: int)
    ensures var after := Heard(devices, k, name, version, count, heard);
      && (ExactAt(objects, after, k) <==> Max(0, count) == |DeviceObjects(objects, k.0, k.1)|)
      && (forall other :: other != k ==> (ExactAt(objects, after, other) <==> ExactAt(objects, devices, other)))
      && var pushed := InsertAll(objects, k.0, rows, now);
         (ExactAt(pushed, PushedDevices(after, pushed, k.0, rows, now), k) <==>
          k in Ids(k.0, rows) || Max(0, count) == |DeviceObjects(objects, k.0, k.1)|)
  {
    PushRepairs(objects, Heard(devices, k, name, version, count, heard), k.0, rows, now, k);
  }

  lemma ObjectsHaveDevices(objects: Objects, devices: Devices, tenant: string, rows: seq<Row>, now: int, o: Id)
    requires forall k :: k in objects ==> (k.0, objects[k].device) in devices
    ensures var after := InsertAll(objects, tenant, rows, now);
      o in after ==> (o.0, after[o].device) in PushedDevices(devices, after, tenant, rows, now)
  {
    var after := InsertAll(objects, tenant, rows, now);
    InsertAllAdds(objects, tenant, rows, now);
    if o in after && o !in objects {
      var r :| r in rows && r.key == o.1 && r.payload == after[o].payload && r.device == after[o].device;
      assert (tenant, r.device) in Ids(tenant, rows);
    }
  }

  lemma PushKeepsExact(objects: Objects, devices: Devices, tenant: string, rows: seq<Row>, now: int)
    requires Exact(objects, devices)
    ensures var after := InsertAll(objects, tenant, rows, now);
      Exact(after, PushedDevices(devices, after, tenant, rows, now))
  {
    var after := InsertAll(objects, tenant, rows, now);
    var pushed := PushedDevices(devices, after, tenant, rows, now);
    forall k | k in pushed ensures ExactAt(after, pushed, k) {
      PushRepairs(objects, devices, tenant, rows, now, k);
    }
    forall o | o in after ensures (o.0, after[o].device) in pushed {
      ObjectsHaveDevices(objects, devices, tenant, rows, now, o);
    }
  }

  // ----- runs

  datatype Batch = Batch(tenant: string, rows: seq<Row>, now: int)
  datatype State = State(objects: Objects, devices: Devices)

  function Push(s: State, b: Batch): State {
    var objects := InsertAll(s.objects, b.tenant, b.rows, b.now);
    State(objects, PushedDevices(s.devices, objects, b.tenant, b.rows, b.now))
  }

  function Run(s: State, batches: seq<Batch>): State {
    if batches == [] then s else Push(Run(s, batches[..|batches| - 1]), batches[|batches| - 1])
  }

  /** Over every run of pushes all counters stay right. */
  lemma {:induction false} PushesKeepCounters(s: State, batches: seq<Batch>)
    requires Exact(s.objects, s.devices)
    ensures var t := Run(s, batches); Exact(t.objects, t.devices)
    decreases |batches|
  {
    if batches != [] {
      var before, b := batches[..|batches| - 1], batches[|batches| - 1];
      PushesKeepCounters(s, before);
      var t := Run(s, before);
      PushKeepsExact(t.objects, t.devices, b.tenant, b.rows, b.now);
    }
  }

  /** The rows pushed for one tenant, in order. */
  function RowsFor(batches: seq<Batch>, tenant: string): seq<Row> {
    if batches == [] then []
    else
      var last := batches[|batches| - 1];
      RowsFor(batches[..|batches| - 1], tenant) + (if last.tenant == tenant then last.rows else [])
  }

  /** What a run means for every tenant, as `Adds` does for one push. */
  ghost predicate RunAdds(before: Objects, after: Objects, batches: seq<Batch>) {
    && (forall k :: k in before ==> k in after && after[k] == before[k])
    && (forall k :: k in after && k !in before ==> From(RowsFor(batches, k.0), k.1, after[k]))
    && (forall tenant, r :: r in RowsFor(batches, tenant) ==> (tenant, r.key) in after)
  }

  lemma RunAddsStep(a: Objects, b: Objects, c: Objects, before: seq<Batch>, last: Batch, batches: seq<Batch>)
    requires batches == before + [last] && RunAdds(a, b, before) && Adds(b, c, last.tenant, last.rows)
    ensures RunAdds(a, c, batches)
  {
    assert batches[..|batches| - 1] == before;
    forall k | k in c && k !in a ensures From(RowsFor(batches, k.0), k.1, c[k]) {
      var rows := RowsFor(before, k.0);
      if k in b {
        var r :| r in rows && r.key == k.1 && r.payload == b[k].payload && r.device == b[k].device;
        assert r in RowsFor(batches, k.0);
      } else {
        var r :| r in last.rows && r.key == k.1 && r.payload == c[k].payload && r.device == c[k].device;
        assert r in RowsFor(batches, k.0);
      }
    }
  }

  lemma {:induction false} RunIsAdds(s: State, batches: seq<Batch>)
    ensures RunAdds(s.objects, Run(s, batches).objects, batches)
    decreases |batches|
  {
    if batches != [] {
      var before, last := batches[..|batches| - 1], batches[|batches| - 1];
      RunIsAdds(s, before);
      var t := Run(s, before);
      InsertAllAdds(t.objects, last.tenant, last.rows, last.now);
      RunAddsStep(s.objects, t.objects, Push(t, last).objects, before, last, batches);
    }
  }

  /** Rows with the same key carry the same payload from the same device. */
  predicate Agreeing(rows: seq<Row>) {
    forall r, s :: r in rows && s in rows && r.key == s.key ==> r == s
  }

  /** What clients read back: key, payload and device, not the time of storing. */
  function Content(objects: Objects): map<Id, (string, string)> {
    map k | k in objects :: (objects[k].payload, objects[k].device)
  }

  /** Two runs push the same rows for every tenant. */
  ghost predicate SameRows(some: seq<Batch>, others: seq<Batch>) {
    forall tenant, r :: r in RowsFor(some, tenant) <==> r in RowsFor(others, tenant)
  }

  lemma SameKeys(m: Objects, x: Objects, y: Objects, some: seq<Batch>, others: seq<Batch>)
    requires RunAdds(m, x, some) && RunAdds(m, y, others) && SameRows(some, others)
    ensures x.Keys <= y.Keys
  {
    forall k | k in x && k !in m ensures k in y {
      var rows := RowsFor(some, k.0);
      var r :| r in rows && r.key == k.1 && r.payload == x[k].payload && r.device == x[k].device;
      assert r in RowsFor(others, k.0);
    }
  }

  lemma SameRow(rows: seq<Row>, others: seq<Row>, key: string, a: Stored, b: Stored)
    requires From(rows, key, a) && From(others, key, b)
    requires Agreeing(rows) && forall r :: r in rows <==> r in others
    ensures a.payload == b.payload && a.device == b.device
  {
    var r :| r in rows && r.key == key && r.payload == a.payload && r.device == a.device;
    var q :| q in others && q.key == key && q.payload == b.payload && q.device == b.device;
    assert q in rows;
  }

  lemma SameContent(m: Objects, x: Objects, y: Objects, some: seq<Batch>, others: seq<Batch>)
    requires RunAdds(m, x, some) && RunAdds(m, y, others) && SameRows(some, others)
    requires forall tenant :: Agreeing(RowsFor(some, tenant))
    ensures Content(x) == Content(y)
  {
    SameKeys(m, x, y, some, others);
    SameKeys(m, y, x, others, some);
    forall k | k in x && k !in m ensures x[k].payload == y[k].payload && x[k].device == y[k].device {
      SameRow(RowsFor(some, k.0), RowsFor(others, k.0), k.1, x[k], y[k]);
    }
    ContentByFields(x, y);
  }

  lemma ContentByFields(x: Objects, y: Objects)
    requires x.Keys == y.Keys && forall k :: k in x ==> x[k].payload == y[k].payload && x[k].device == y[k].device
    ensures Content(x) == Content(y)
  {
  }

  /** Pushes for any tenants that agree, within each tenant, on shared keys store the
      same objects in any order, in any division into batches and with any repetitions. */
  lemma AnyOrder(s: State, some: seq<Batch>, others: seq<Batch>)
    requires SameRows(some, others) && forall tenant :: Agreeing(RowsFor(some, tenant))
    ensures Content(Run(s, some).objects) == Content(Run(s, others).objects)
  {
    RunIsAdds(s, some);
    RunIsAdds(s, others);
    SameContent(s.objects, Run(s, some).objects, Run(s, others).objects, some, others);
  }

  // ----- the counters and the statistics

  /** The sum of the counters of these devices. */
  function CountSum(devices: Devices, ids: seq<Id>): nat
    requires forall k :: k in ids ==> k in devices
  {
    if ids == [] then 0 else CountSum(devices, ids[..|ids| - 1]) + devices[ids[|ids| - 1]].count
  }

  function ObjectsOf(objects: Objects, ids: seq<Id>): set<Id> {
    set k | k in objects && (k.0, objects[k].device) in ids
  }

  lemma {:induction false} SumIsObjects(objects: Objects, devices: Devices, ids: seq<Id>)
    requires Exact(objects, devices) && forall k :: k in ids ==> k in devices
    requires forall i, j :: 0 <= i < j < |ids| ==> ids[i] != ids[j]
    ensures CountSum(devices, ids) == |ObjectsOf(objects, ids)|
    decreases |ids|
  {
    if ids != [] {
      var before, id := ids[..|ids| - 1], ids[|ids| - 1];
      SumIsObjects(objects, devices, before);
      assert ExactAt(objects, devices, id);
      assert ids == before + [id];
      ObjectsOfSnoc(objects, before, id);
    }
  }

  lemma ObjectsOfSnoc(objects: Objects, ids: seq<Id>, id: Id)
    requires id !in ids
    ensures |ObjectsOf(objects, ids + [id])| == |ObjectsOf(objects, ids)| + |DeviceObjects(objects, id.0, id.1)|
  {
    assert ObjectsOf(objects, ids + [id]) == ObjectsOf(objects, ids) + DeviceObjects(objects, id.0, id.1);
  }

  /** The counters of a tenant's devices, listed once each in any order, add up to the
      number of its objects. */
  lemma CountersAddUp(objects: Objects, devices: Devices, tenant: string, ids: seq<Id>)
    requires Exact(objects, devices)
    requires (forall k :: k in ids <==> k in TenantDevices(devices, tenant))
    requires forall i, j :: 0 <= i < j < |ids| ==> ids[i] != ids[j]
    ensures CountSum(devices, ids) == |TenantObjects(objects, tenant)|
  {
    SumIsObjects(objects, devices, ids);
    assert ObjectsOf(objects, ids) == TenantObjects(objects, tenant);
  }
}
