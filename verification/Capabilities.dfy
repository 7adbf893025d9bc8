/** When an adapter is reported as verified, and for how long. */
module Capabilities {
  import opened Strings
  import opened LifecycleRecords
  import opened Numbers

  datatype Level = Verified | Other(name: string)

  datatype Blocker =
    | NotImplemented(limitation: string)
    | AdapterDisabled
    | LevelIs(level: Level)
    | VerificationStale
    | NotEffective
    | RuntimeMissing
    | RuntimeStale
    | ContextMissing
    | ContextStale

  /** What the ledgers, the manifest and the release control say; nothing in it
      depends on the time of asking. */
  datatype Facts = Facts(
    name: string,
    isWip: bool, limitations: seq<string>,
    disabled: bool,
    declaredLevel: Level,
    verificationPassed: bool, evidence: seq<string>, verifiedAt: Stamp, verificationTtl: int,
    runtimeRequired: bool, runtimeObserved: bool, runtimeAt: Stamp, runtimeTtl: int,
    contextInjected: bool, contextAt: Stamp, contextTtl: int)

  const QODER_WORK_PREFIXES :=
    ["context_effective=qoderwork_gui_agent_brain", "context_effective=qoderwork_gui_memory_candidates"]
  const DEFAULT_PREFIXES :=
    ["context_effective=transcript_agent_brain", "context_effective=model_observed_agent_brain",
     "context_effective=amh_mcp_tool_use", "transcript_agent_brain=", "amh_context_effective="]

  predicate AnyPrefix(entries: seq<string>, prefixes: seq<string>) {
    exists e, p :: e in entries && p in prefixes && StartsWith(e, p)
  }

  /** `_verification_is_effective`. */
  predicate Effective(f: Facts) {
    f.verificationPassed &&
    (if f.name == "qoder_work" then AnyPrefix(f.evidence, QODER_WORK_PREFIXES)
     else if f.name == "qoder" then AnyPrefix(f.evidence, DEFAULT_PREFIXES)
     else true)
  }

  /** The reasons against a ready adapter; of a missing and a stale observation only
      the first is named, and of the verification's own reasons only one. */
  predicate Blocks(f: Facts, effective: bool, now: int, b: Blocker) {
    match b
    case NotImplemented(_) => false
    case AdapterDisabled => f.disabled
    case LevelIs(level) => !f.verificationPassed && level == f.declaredLevel
    case VerificationStale => f.verificationPassed && !Evidence(f.verifiedAt, now, f.verificationTtl).isFresh
    case NotEffective =>
      f.verificationPassed && Evidence(f.verifiedAt, now, f.verificationTtl).isFresh && !effective
    case RuntimeMissing => f.runtimeRequired && !f.runtimeObserved
    case RuntimeStale =>
      f.runtimeRequired && f.runtimeObserved && !Evidence(f.runtimeAt, now, f.runtimeTtl).isFresh
    case ContextMissing => !f.contextInjected
    case ContextStale => f.contextInjected && !Evidence(f.contextAt, now, f.contextTtl).isFresh
  }

  /** The order of the reasons; no two reasons of one rank apply together. */
  function Rank(b: Blocker): nat {
    match b
    case AdapterDisabled => 0
    case LevelIs(_) => 1
    case VerificationStale => 1
    case NotEffective => 1
    case RuntimeMissing => 2
    case RuntimeStale => 2
    case ContextMissing => 3
    case ContextStale => 3
    case NotImplemented(_) => 4
  }

  /** The list holds the reasons below a rank, in the order of their ranks. */
  ghost predicate UpTo(f: Facts, effective: bool, now: int, blockers: seq<Blocker>, rank: nat) {
    && (forall b :: b in blockers <==> Blocks(f, effective, now, b) && Rank(b) < rank)
    && (forall i, j :: 0 <= i < j < |blockers| ==> Rank(blockers[i]) < Rank(blockers[j]))
  }

  lemma OneRank(f: Facts, effective: bool, now: int, blockers: seq<Blocker>, found: seq<Blocker>, rank: nat)
    requires UpTo(f, effective, now, blockers, rank) && |found| <= 1
    requires forall b :: b in found <==> Blocks(f, effective, now, b) && Rank(b) == rank
    ensures UpTo(f, effective, now, blockers + found, rank + 1)
  {
    forall b ensures b in blockers + found <==> Blocks(f, effective, now, b) && Rank(b) < rank + 1 {
      assert b in blockers + found <==> b in blockers || b in found;
    }
    forall i | 0 <= i < |blockers| ensures Rank(blockers[i]) < rank { assert blockers[i] in blockers; }
    if found != [] { assert found[0] in found; }
  }

  function Limits(limitations: seq<string>): (r: seq<Blocker>)
    ensures |r| == |limitations| && forall i :: 0 <= i < |r| ==> r[i] == NotImplemented(limitations[i])
  {
    seq(|limitations|, i requires 0 <= i < |limitations| => NotImplemented(limitations[i]))
  }

  /** The reason the verification itself gives. */
  method OfVerification(f: Facts, effective: bool, now: int, level: Level) returns (found: seq<Blocker>)
    requires effective ==> f.verificationPassed
    requires level == if effective then Verified else f.declaredLevel
    ensures |found| <= 1 && forall b :: b in found <==> Blocks(f, effective, now, b) && Rank(b) == 1
  {
    if !f.verificationPassed {
      found := [LevelIs(level)];
    } else if !Evidence(f.verifiedAt, now, f.verificationTtl).isFresh {
      found := [VerificationStale];
    } else if !effective {
      found := [NotEffective];
    } else if level != Verified {
      found := [LevelIs(level)];
    } else {
      found := [];
    }
  }

  method OfRuntime(f: Facts, ghost effective: bool, now: int) returns (found: seq<Blocker>)
    ensures |found| <= 1
    ensures forall b :: b in found <==> Blocks(f, effective, now, b) && Rank(b) == 2
  {
    if f.runtimeRequired && !f.runtimeObserved {
      found := [RuntimeMissing];
    } else if f.runtimeRequired && !Evidence(f.runtimeAt, now, f.runtimeTtl).isFresh {
      found := [RuntimeStale];
    } else {
      found := [];
    }
  }

  method OfContext(f: Facts, ghost effective: bool, now: int) returns (found: seq<Blocker>)
    ensures |found| <= 1
    ensures forall b :: b in found <==> Blocks(f, effective, now, b) && Rank(b) == 3
  {
    if !f.contextInjected {
      found := [ContextMissing];
    } else if !Evidence(f.contextAt, now, f.contextTtl).isFresh {
      found := [ContextStale];
    } else {
      found := [];
    }
  }

  /** No reason applies exactly when everything passes and is fresh. */
  lemma NoneOrSome(f: Facts, effective: bool, now: int, blockers: seq<Blocker>)
    requires UpTo(f, effective, now, blockers, 4) && !f.isWip && (effective ==> f.verificationPassed)
    ensures blockers == [] <==> Passes(f, effective) && FreshAt(f, now)
    ensures forall b :: b in blockers <==> Blocks(f, effective, now, b)
  {
    forall reason: Blocker | Blocks(f, effective, now, reason) ensures reason in blockers {
      assert Rank(reason) < 4;
    }
    if blockers == [] {
      assert !Blocks(f, effective, now, AdapterDisabled) && !Blocks(f, effective, now, LevelIs(f.declaredLevel));
      assert !Blocks(f, effective, now, VerificationStale) && !Blocks(f, effective, now, NotEffective);
      assert !Blocks(f, effective, now, RuntimeMissing) && !Blocks(f, effective, now, RuntimeStale);
      assert !Blocks(f, effective, now, ContextMissing) && !Blocks(f, effective, now, ContextStale);
    } else {
      assert blockers[0] in blockers;
    }
  }

  /** `_verification_blockers` as `capability_for_adapter` calls it. */
  method Blockers(f: Facts, effective: bool, now: int) returns (blockers: seq<Blocker>)
    requires effective ==> f.verificationPassed
    ensures blockers == [] <==> Passes(f, effective) && FreshAt(f, now)
    ensures !f.isWip ==> forall b :: b in blockers <==> Blocks(f, effective, now, b)
    ensures !f.isWip ==> forall i, j :: 0 <= i < j < |blockers| ==> Rank(blockers[i]) < Rank(blockers[j])
    ensures f.isWip && f.limitations == [] ==> blockers == [NotImplemented("install path not implemented")]
    ensures f.isWip && f.limitations != [] ==> blockers == Limits(f.limitations)
  {
    var level := if effective then Verified else f.declaredLevel;
    if f.isWip {
      if f.limitations == [] { return [NotImplemented("install path not implemented")]; }
      return Limits(f.limitations);
    }
    blockers := if f.disabled then [AdapterDisabled] else [];
    assert UpTo(f, effective, now, blockers, 1);
    var found := OfVerification(f, effective, now, level);
    OneRank(f, effective, now, blockers, found, 1);
    blockers := blockers + found;
    found := OfRuntime(f, effective, now);
    OneRank(f, effective, now, blockers, found, 2);
    blockers := blockers + found;
    found := OfContext(f, effective, now);
    OneRank(f, effective, now, blockers, found, 3);
    blockers := blockers + found;
    NoneOrSome(f, effective, now, blockers);
  }

  /** What has to hold apart from time. */
  predicate Passes(f: Facts, effective: bool) {
    && !f.isWip && !f.disabled && f.verificationPassed && effective
    && (f.runtimeRequired ==> f.runtimeObserved) && f.contextInjected
  }

  /** What has to be fresh. */
  predicate FreshAt(f: Facts, now: int) {
    && Evidence(f.verifiedAt, now, f.verificationTtl).isFresh
    && (f.runtimeRequired ==> Evidence(f.runtimeAt, now, f.runtimeTtl).isFresh)
    && Evidence(f.contextAt, now, f.contextTtl).isFresh
  }

  /** The verdict of `capability_for_adapter`. */
  method IsVerified(f: Facts, now: int) returns (verified: bool)
    ensures verified <==> VerifiedAt(f, now)
  {
    var effective := Effective(f);
    var blockers := Blockers(f, effective, now);
    verified := blockers == [];
  }

  predicate VerifiedAt(f: Facts, now: int) {
    Passes(f, Effective(f)) && FreshAt(f, now)
  }

  // ----- the times at which an adapter is verified

  function Opens(stamp: Stamp): int
    requires stamp.At?
  {
    stamp.micros - 6 * MICROS
  }

  function Closes(stamp: Stamp, ttl: int): int
    requires stamp.At?
  {
    stamp.micros + (ttl + 1) * MICROS
  }

  /** The observations the verdict needs carry dates and a time to live. */
  predicate Dated(f: Facts) {
    && f.verifiedAt.At? && f.verificationTtl >= 0 && f.contextAt.At? && f.contextTtl >= 0
    && (f.runtimeRequired ==> f.runtimeAt.At? && f.runtimeTtl >= 0)
  }

  function Start(f: Facts): int
    requires Dated(f)
  {
    var both := Max(Opens(f.verifiedAt), Opens(f.contextAt));
    if f.runtimeRequired then Max(both, Opens(f.runtimeAt)) else both
  }

  function End(f: Facts): int
    requires Dated(f)
  {
    var both := Min(Closes(f.verifiedAt, f.verificationTtl), Closes(f.contextAt, f.contextTtl));
    if f.runtimeRequired then Min(both, Closes(f.runtimeAt, f.runtimeTtl)) else both
  }

  /** The verified times are exactly an open interval, from the youngest observation
      (less the tolerance) to the first one that ages out. */
  lemma VerifiedInterval(f: Facts, now: int)
    ensures VerifiedAt(f, now) <==> Passes(f, Effective(f)) && Dated(f) && Start(f) < now < End(f)
  {
    FreshInterval(f.verifiedAt, now, f.verificationTtl);
    FreshInterval(f.contextAt, now, f.contextTtl);
    FreshInterval(f.runtimeAt, now, f.runtimeTtl);
  }

  /** Once verified no longer, never verified again without new evidence. */
  lemma NeverAgain(f: Facts, verified: int, lost: int, later: int)
    requires VerifiedAt(f, verified) && verified <= lost <= later && !VerifiedAt(f, lost)
    ensures !VerifiedAt(f, later)
  {
    VerifiedInterval(f, verified);
    VerifiedInterval(f, lost);
    VerifiedInterval(f, later);
  }

  // ----- the verdict spelled out

  /** The observation carries a date, and its age is between the tolerance and its time
      to live. */
  predicate InTime(stamp: Stamp, ttl: int, now: int) {
    stamp.At? && ttl >= 0 && -6_000_000 < now - stamp.micros < (ttl + 1) * 1_000_000
  }

  ghost predicate SomeStarts(entries: seq<string>, prefix: string) {
    exists e :: e in entries && StartsWith(e, prefix)
  }

  /** For the two GUI adapters a passed verification counts only with an observation of
      the right kind among its evidence. */
  ghost predicate Observed(name: string, evidence: seq<string>) {
    if name == "qoder_work" then
      SomeStarts(evidence, "context_effective=qoderwork_gui_agent_brain") ||
      SomeStarts(evidence, "context_effective=qoderwork_gui_memory_candidates")
    else if name == "qoder" then
      SomeStarts(evidence, "context_effective=transcript_agent_brain") ||
      SomeStarts(evidence, "context_effective=model_observed_agent_brain") ||
      SomeStarts(evidence, "context_effective=amh_mcp_tool_use") ||
      SomeStarts(evidence, "transcript_agent_brain=") || SomeStarts(evidence, "amh_context_effective=")
    else true
  }

  lemma QoderWorkObserved(entries: seq<string>)
    ensures AnyPrefix(entries, QODER_WORK_PREFIXES) <==>
      SomeStarts(entries, "context_effective=qoderwork_gui_agent_brain") ||
      SomeStarts(entries, "context_effective=qoderwork_gui_memory_candidates")
  {
    assert QODER_WORK_PREFIXES[0] in QODER_WORK_PREFIXES && QODER_WORK_PREFIXES[1] in QODER_WORK_PREFIXES;
  }

  lemma QoderObserved(entries: seq<string>)
    ensures AnyPrefix(entries, DEFAULT_PREFIXES) <==>
      SomeStarts(entries, "context_effective=transcript_agent_brain") ||
      SomeStarts(entries, "context_effective=model_observed_agent_brain") ||
      SomeStarts(entries, "context_effective=amh_mcp_tool_use") ||
      SomeStarts(entries, "transcript_agent_brain=") || SomeStarts(entries, "amh_context_effective=")
  {
    forall k | 0 <= k < |DEFAULT_PREFIXES| ensures DEFAULT_PREFIXES[k] in DEFAULT_PREFIXES { }
    if AnyPrefix(entries, DEFAULT_PREFIXES) {
      var e, p :| e in entries && p in DEFAULT_PREFIXES && StartsWith(e, p);
      assert SomeStarts(entries, p);
    }
    assert DEFAULT_PREFIXES[0] in DEFAULT_PREFIXES && DEFAULT_PREFIXES[1] in DEFAULT_PREFIXES;
    assert DEFAULT_PREFIXES[2] in DEFAULT_PREFIXES && DEFAULT_PREFIXES[3] in DEFAULT_PREFIXES;
    assert DEFAULT_PREFIXES[4] in DEFAULT_PREFIXES;
  }

  /** Everything the verdict depends on. */
  lemma VerdictMeans(f: Facts, now: int)
    ensures VerifiedAt(f, now) <==>
      && !f.isWip && !f.disabled
      && f.verificationPassed && Observed(f.name, f.evidence) && InTime(f.verifiedAt, f.verificationTtl, now)
      && (f.runtimeRequired ==> f.runtimeObserved && InTime(f.runtimeAt, f.runtimeTtl, now))
      && f.contextInjected && InTime(f.contextAt, f.contextTtl, now)
  {
    FreshInterval(f.verifiedAt, now, f.verificationTtl);
    FreshInterval(f.contextAt, now, f.contextTtl);
    FreshInterval(f.runtimeAt, now, f.runtimeTtl);
    QoderWorkObserved(f.evidence);
    QoderObserved(f.evidence);
  }
}
