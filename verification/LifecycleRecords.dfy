/** Evidence freshness and the installation state read from the lifecycle ledger. */
module LifecycleRecords {
  import opened Options

  const MICROS := 1_000_000
  const FUTURE_TOLERANCE := 5

  /** A recorded timestamp: absent or empty, not a date, or microseconds since 1970. */
  datatype Stamp = NoStamp | Invalid | At(micros: int)

  datatype Reason = InvalidTimestamp | FutureTimestamp

  datatype Freshness = Freshness(observed: bool, isFresh: bool, age: Option<int>, reason: Option<Reason>)

  /** `int(delta.total_seconds())`: whole seconds, truncated towards zero. */
  function WholeSeconds(micros: int): int {
    if micros >= 0 then micros / MICROS else -(-micros / MICROS)
  }

  /** `evidence_freshness`. */
  function Evidence(stamp: Stamp, now: int, ttl: int): Freshness {
    match stamp
    case NoStamp => Freshness(false, false, None, None)
    case Invalid => Freshness(true, false, None, Some(InvalidTimestamp))
    case At(micros) =>
      var age := WholeSeconds(now - micros);
      if age < -FUTURE_TOLERANCE then Freshness(true, false, Some(age), Some(FutureTimestamp))
      else
        var normalized := if age > 0 then age else 0;
        Freshness(true, normalized <= ttl, Some(normalized), None)
  }

  /** Fresh from six seconds before the observation up to a second after its time to
      live, both ends excluded; never with a negative time to live. */
  lemma FreshInterval(stamp: Stamp, now: int, ttl: int)
    ensures Evidence(stamp, now, ttl).isFresh <==>
      stamp.At? && ttl >= 0 && -6 * MICROS < now - stamp.micros < (ttl + 1) * MICROS
  {
    if stamp.At? { Truncation(now - stamp.micros, ttl); }
  }

  lemma Truncation(delta: int, ttl: int)
    ensures WholeSeconds(delta) >= -5 <==> delta > -6 * MICROS
    ensures ttl >= 0 ==> (WholeSeconds(delta) <= ttl <==> delta < (ttl + 1) * MICROS)
  {
  }

  // ----- the ledger

  datatype Action = Install | Verify | Doctor | Repair | Upgrade | Uninstall | Release
  datatype Status = Passed | Failed | Blocked

  datatype Record = Record(adapter: string, action: Action, status: Status, stamp: Stamp)

  datatype Installation =
    Installation(installed: bool, configured: bool, doctorPassed: bool, lastAction: Option<Action>, lastStamp: Stamp)

  /** The records an adapter's reader sees; an empty name reads them all. */
  function RecordsOf(ledger: seq<Record>, adapter: string): seq<Record> {
    if ledger == [] then []
    else (if adapter == "" || ledger[0].adapter == adapter then [ledger[0]] else []) + RecordsOf(ledger[1..], adapter)
  }

  /** The record installs: a passed installation, repair or upgrade. */
  predicate Installs(r: Record) {
    r.status == Passed && (r.action == Install || r.action == Repair || r.action == Upgrade)
  }

  predicate Removes(r: Record) {
    r.status == Passed && r.action == Uninstall
  }

  /** The record vouches for the doctor's findings. */
  predicate Vouches(r: Record) {
    r.status == Passed && (r.action == Doctor || r.action == Verify || r.action == Repair || r.action == Upgrade)
  }

  /** The record decides about them: it vouches, removes, or is a doctor that did not pass. */
  predicate Decides(r: Record) {
    Vouches(r) || Removes(r) || (r.action == Doctor && r.status != Passed)
  }

  /** Some record installs and no later one removes. */
  ghost predicate IsInstalled(rs: seq<Record>) {
    exists i :: 0 <= i < |rs| && Installs(rs[i]) && forall j :: i < j < |rs| ==> !Removes(rs[j])
  }

  /** `d` is the last deciding record. */
  ghost predicate LastDeciding(rs: seq<Record>, d: int) {
    0 <= d < |rs| && Decides(rs[d]) && forall j :: d < j < |rs| ==> !Decides(rs[j])
  }

  /** The last deciding record vouches and is fresh. */
  ghost predicate DoctorPassed(rs: seq<Record>, now: int, ttl: int) {
    exists d :: LastDeciding(rs, d) && Vouches(rs[d]) && Evidence(rs[d].stamp, now, ttl).isFresh
  }

  /** The local variables of the loop after some records. */
  ghost predicate Tracks(rs: seq<Record>, installed: bool, doctor: bool, stamp: Stamp) {
    && installed == IsInstalled(rs)
    && (doctor ==> exists d :: LastDeciding(rs, d) && Vouches(rs[d]) && rs[d].stamp == stamp)
    && (!doctor ==> forall d :: LastDeciding(rs, d) ==> !Vouches(rs[d]))
  }

  function StampAfter(r: Record, stamp: Stamp): Stamp {
    if Removes(r) then NoStamp else if Decides(r) then r.stamp else stamp
  }

  lemma TracksStep(a: seq<Record>, r: Record, b: seq<Record>, installed: bool, doctor: bool, stamp: Stamp)
    requires b == a + [r] && Tracks(a, installed, doctor, stamp)
    ensures Tracks(b, Installs(r) || (installed && !Removes(r)), Vouches(r) || (doctor && !Decides(r)),
                   StampAfter(r, stamp))
  {
    InstalledStep(a, r, b);
    DecidingStep(a, r, b);
    assert b[|a|] == r;
    if Vouches(r) {
      assert LastDeciding(b, |a|);
    } else if !Decides(r) && doctor {
      var d :| LastDeciding(a, d) && Vouches(a[d]) && a[d].stamp == stamp;
      assert LastDeciding(b, d) && b[d] == a[d];
    }
  }

  lemma TrackedDoctor(rs: seq<Record>, installed: bool, doctor: bool, stamp: Stamp, now: int, ttl: int)
    requires Tracks(rs, installed, doctor, stamp)
    ensures DoctorPassed(rs, now, ttl) <==> doctor && Evidence(stamp, now, ttl).isFresh
  {
    if doctor {
      var d :| LastDeciding(rs, d) && Vouches(rs[d]) && rs[d].stamp == stamp;
      OneLastDeciding(rs, d);
    }
  }

  /** What the loop of `adapter_installation_state` makes of one record. */
  method Consider(r: Record, installed0: bool, configured0: bool, doctor0: bool, stamp0: Stamp)
    returns (installed: bool, configured: bool, doctor: bool, stamp: Stamp)
    ensures installed <==> Installs(r) || (installed0 && !Removes(r))
    ensures configured <==> Installs(r) || (configured0 && !Removes(r))
    ensures doctor <==> Vouches(r) || (doctor0 && !Decides(r))
    ensures stamp == StampAfter(r, stamp0)
  {
    installed, configured, doctor, stamp := installed0, configured0, doctor0, stamp0;
    if r.status != Passed {
      if r.action == Doctor {
        doctor, stamp := false, r.stamp;
      }
      return;
    }
    if r.action == Install || r.action == Repair || r.action == Upgrade {
      installed, configured := true, true;
    }
    if r.action == Doctor || r.action == Verify || r.action == Repair || r.action == Upgrade {
      doctor, stamp := true, r.stamp;
    }
    if r.action == Uninstall {
      installed, configured, doctor, stamp := false, false, false, NoStamp;
    }
  }

  /** The loop of `adapter_installation_state`. */
  method Fold(rs: seq<Record>) returns (installed: bool, configured: bool, doctor: bool, stamp: Stamp)
    ensures installed == configured && Tracks(rs, installed, doctor, stamp)
  {
    installed, configured, doctor, stamp := false, false, false, NoStamp;
    for i := 0 to |rs|
      invariant installed == configured && Tracks(rs[..i], installed, doctor, stamp)
    {
      assert rs[..i + 1] == rs[..i] + [rs[i]];
      TracksStep(rs[..i], rs[i], rs[..i + 1], installed, doctor, stamp);
      installed, configured, doctor, stamp := Consider(rs[i], installed, configured, doctor, stamp);
    }
    assert rs[..|rs|] == rs;
  }

  /** `adapter_installation_state`. */
  method InstallationState(ledger: seq<Record>, adapter: string, now: int, ttl: int) returns (state: Installation)
    ensures var rs := RecordsOf(ledger, adapter);
      && state.installed == state.configured == IsInstalled(rs)
      && state.doctorPassed == DoctorPassed(rs, now, ttl)
      && (rs == [] ==> state.lastAction == None && state.lastStamp == NoStamp)
      && (rs != [] ==> state.lastAction == Some(rs[|rs| - 1].action) && state.lastStamp == rs[|rs| - 1].stamp)
  {
    var rs := RecordsOf(ledger, adapter);
    var installed, configured, doctorPassed, doctorStamp := Fold(rs);
    TrackedDoctor(rs, installed, doctorPassed, doctorStamp, now, ttl);
    if doctorPassed { doctorPassed := Evidence(doctorStamp, now, ttl).isFresh; }
    state := if rs == [] then Installation(installed, configured, doctorPassed, None, NoStamp)
      else Installation(installed, configured, doctorPassed, Some(rs[|rs| - 1].action), rs[|rs| - 1].stamp);
  }

  lemma OneLastDeciding(rs: seq<Record>, d: int)
    requires LastDeciding(rs, d)
    ensures forall e :: LastDeciding(rs, e) ==> e == d
  {
  }

  lemma InstalledStep(a: seq<Record>, r: Record, b: seq<Record>)
    requires b == a + [r]
    ensures IsInstalled(b) <==> Installs(r) || (IsInstalled(a) && !Removes(r))
  {
    assert forall j :: 0 <= j < |a| ==> a[j] == b[j];
    assert b[|a|] == r;
    if IsInstalled(a) && !Removes(r) {
      var k :| 0 <= k < |a| && Installs(a[k]) && forall j :: k < j < |a| ==> !Removes(a[j]);
      assert Installs(b[k]);
    }
    if IsInstalled(b) && !Installs(r) {
      var k :| 0 <= k < |b| && Installs(b[k]) && forall j :: k < j < |b| ==> !Removes(b[j]);
      assert Installs(a[k]);
    }
  }

  lemma DecidingStep(a: seq<Record>, r: Record, b: seq<Record>)
    requires b == a + [r]
    ensures Decides(r) ==> forall d :: LastDeciding(b, d) <==> d == |a|
    ensures !Decides(r) ==> forall d :: LastDeciding(b, d) <==> LastDeciding(a, d)
  {
    assert forall j :: 0 <= j < |a| ==> a[j] == b[j];
    assert b[|a|] == r;
  }

  // ----- what each record does

  lemma {:induction false} RecordsSnoc(ledger: seq<Record>, r: Record, adapter: string)
    ensures RecordsOf(ledger + [r], adapter) ==
      RecordsOf(ledger, adapter) + (if adapter == "" || r.adapter == adapter then [r] else [])
    decreases |ledger|
  {
    if ledger == [] {
      assert ledger + [r] == [r] && [r][1..] == [];
    } else {
      assert (ledger + [r])[1..] == ledger[1..] + [r];
      RecordsSnoc(ledger[1..], r, adapter);
    }
  }

  /** One more record in the ledger: a passed installation, repair or upgrade installs and
      a passed uninstallation removes; a passed doctor, verification, repair or upgrade
      vouches for as long as it is fresh, a passed uninstallation or a doctor that did not
      pass takes that back, and everything else leaves the state alone, as do records of
      other adapters. */
  lemma RecordMeans(ledger: seq<Record>, r: Record, adapter: string, now: int, ttl: int)
    ensures var before, after := RecordsOf(ledger, adapter), RecordsOf(ledger + [r], adapter);
      if adapter != "" && r.adapter != adapter then after == before
      else if r.status == Passed && r.action == Uninstall then !IsInstalled(after) && !DoctorPassed(after, now, ttl)
      else
        && (IsInstalled(after) <==>
              IsInstalled(before) ||
              (r.status == Passed && (r.action == Install || r.action == Repair || r.action == Upgrade)))
        && (DoctorPassed(after, now, ttl) <==>
              if r.status == Passed && r.action != Install && r.action != Release
              then Evidence(r.stamp, now, ttl).isFresh
              else DoctorPassed(before, now, ttl) && r.action != Doctor)
    ensures !IsInstalled([]) && !DoctorPassed([], now, ttl)
  {
    var before := RecordsOf(ledger, adapter);
    RecordsSnoc(ledger, r, adapter);
    if adapter == "" || r.adapter == adapter {
      InstalledStep(before, r, before + [r]);
      DoctorStep(before, r, before + [r], now, ttl);
    }
  }

  lemma DoctorStep(a: seq<Record>, r: Record, b: seq<Record>, now: int, ttl: int)
    requires b == a + [r]
    ensures DoctorPassed(b, now, ttl) <==>
      if Decides(r) then Vouches(r) && Evidence(r.stamp, now, ttl).isFresh else DoctorPassed(a, now, ttl)
  {
    DecidingStep(a, r, b);
    assert b[|a|] == r;
    if Decides(r) {
      assert LastDeciding(b, |a|);
    } else {
      assert forall d :: LastDeciding(a, d) ==> a[d] == b[d];
    }
  }
}
