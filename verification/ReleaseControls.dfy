/** Rollout stages per adapter, their ledger, and the decision a hook gets. */
module ReleaseControls {
  import opened Options

  datatype Stage = Shadow | Canary | Default | Disabled

  datatype Control = Control(stage: Stage, percent: int)

  /** What the file holds for an adapter: a control, or anything that is not one. */
  datatype Stored = Unreadable | Stored(stage: Stage, percent: int)

  /** A release record of the lifecycle ledger; `passed` or blocked. */
  datatype Record = Record(adapter: string, passed: bool, stage: Stage)

  datatype State = State(controls: map<string, Stored>, ledger: seq<Record>)

  datatype Request = Request(adapter: string, stage: Stage, percent: Option<int>)

  datatype Outcome =
    | Raised
    | Blocked(control: Control, previous: Option<Stage>)
    | Passed(control: Control, previous: Option<Stage>)

  datatype Decision = Enabled | InShadow | CanaryExcluded | IsDisabled

  /** `get_adapter_release_control`. */
  function Current(controls: map<string, Stored>, adapter: string): Option<Control> {
    if adapter in controls && controls[adapter].Stored? && 0 <= controls[adapter].percent <= 100
    then Some(Control(controls[adapter].stage, controls[adapter].percent)) else None
  }

  function StageOf(control: Option<Control>): Option<Stage> {
    if control.Some? then Some(control.value.stage) else None
  }

  /** `_ALLOWED_TRANSITIONS`. */
  predicate Allowed(previous: Option<Stage>, stage: Stage) {
    match previous
    case None => stage == Shadow || stage == Disabled
    case Some(Shadow) => stage == Shadow || stage == Canary || stage == Disabled
    case Some(Canary) => true
    case Some(Default) => stage == Shadow || stage == Default || stage == Disabled
    case Some(Disabled) => stage == Shadow || stage == Disabled
  }

  /** `_cohort_percent`; None is the ValueError. */
  function CohortPercent(stage: Stage, requested: Option<int>): Option<int> {
    match stage
    case Default => Some(100)
    case Shadow => Some(0)
    case Disabled => Some(0)
    case Canary =>
      var value := if requested.Some? then requested.value else 10;
      if 1 <= value <= 100 then Some(value) else None
  }

  /** `set_adapter_release`: an invalid percentage raises before anything is checked
      or written, a transition that is not allowed only leaves a ledger record. */
  function Outcomes(s: State, r: Request): Outcome {
    var previous, percent := Current(s.controls, r.adapter), CohortPercent(r.stage, r.percent);
    if percent.None? then Raised
    else
      var control := Control(r.stage, percent.value);
      if !Allowed(StageOf(previous), r.stage)
      then Blocked(if previous.Some? then previous.value else control, StageOf(previous))
      else Passed(control, StageOf(previous))
  }

  function Next(s: State, r: Request): State {
    match Outcomes(s, r)
    case Raised => s
    case Blocked(_, _) => s.(ledger := s.ledger + [Record(r.adapter, false, r.stage)])
    case Passed(control, _) =>
      State(s.controls[r.adapter := Stored(control.stage, control.percent)],
            s.ledger + [Record(r.adapter, true, r.stage)])
  }

  class ReleaseStore {
    var controls: map<string, Stored>
    var ledger: seq<Record>

    constructor ()
      ensures controls == map[] && ledger == []
    {
      controls, ledger := map[], [];
    }

    function Now(): State
      reads this
    {
      State(controls, ledger)
    }

    /** `set_adapter_release`. */
    method SetRelease(r: Request) returns (outcome: Outcome)
      modifies this
      ensures Now() == Next(old(Now()), r) && outcome == Outcomes(old(Now()), r)
    {
      var previous := Current(controls, r.adapter);
      var percent := CohortPercent(r.stage, r.percent);
      if percent.None? { return Raised; }
      var control := Control(r.stage, percent.value);
      if !Allowed(StageOf(previous), r.stage) {
        ledger := ledger + [Record(r.adapter, false, r.stage)];
        return Blocked(if previous.Some? then previous.value else control, StageOf(previous));
      }
      controls := controls[r.adapter := Stored(control.stage, control.percent)];
      ledger := ledger + [Record(r.adapter, true, r.stage)];
      return Passed(control, StageOf(previous));
    }
  }

  // ----- runs

  function Run(s: State, requests: seq<Request>): State {
    if requests == [] then s else Next(Run(s, requests[..|requests| - 1]), requests[|requests| - 1])
  }

  /** The stages that passed for one adapter, in order. */
  function Stages(ledger: seq<Record>, adapter: string): seq<Stage> {
    if ledger == [] then []
    else
      var last := ledger[|ledger| - 1];
      Stages(ledger[..|ledger| - 1], adapter) + (if last.adapter == adapter && last.passed then [last.stage] else [])
  }

  function LastStage(stages: seq<Stage>): Option<Stage> {
    if stages == [] then None else Some(stages[|stages| - 1])
  }

  /** Every stage is an allowed step from the one before. */
  ghost predicate Path(stages: seq<Stage>) {
    forall k :: 0 <= k < |stages| ==> Allowed(LastStage(stages[..k]), stages[k])
  }

  predicate PercentFits(control: Control) {
    match control.stage
    case Shadow => control.percent == 0
    case Disabled => control.percent == 0
    case Canary => 1 <= control.percent <= 100
    case Default => control.percent == 100
  }

  /** The file and the ledger agree on an adapter: the stored stage is the last that
      passed, it came about by allowed steps, and its percentage fits it. */
  ghost predicate Agrees(s: State, adapter: string) {
    var stages := Stages(s.ledger, adapter);
    && StageOf(Current(s.controls, adapter)) == LastStage(stages)
    && Path(stages)
    && (Current(s.controls, adapter).Some? ==> PercentFits(Current(s.controls, adapter).value))
  }

  lemma StagesSnoc(ledger: seq<Record>, r: Record, adapter: string)
    ensures Stages(ledger + [r], adapter) ==
      Stages(ledger, adapter) + (if r.adapter == adapter && r.passed then [r.stage] else [])
  {
    assert (ledger + [r])[..|ledger|] == ledger;
  }

  lemma PathSnoc(stages: seq<Stage>, stage: Stage)
    requires Path(stages) && Allowed(LastStage(stages), stage)
    ensures Path(stages + [stage])
  {
    var longer := stages + [stage];
    forall k | 0 <= k < |longer| ensures Allowed(LastStage(longer[..k]), longer[k]) {
      if k < |stages| { assert longer[..k] == stages[..k]; } else { assert longer[..k] == stages; }
    }
  }

  /** A call that does not pass changes no control, and no call another adapter's. */
  lemma NextControls(s: State, r: Request, adapter: string)
    ensures !Outcomes(s, r).Passed? ==> Next(s, r).controls == s.controls
    ensures adapter != r.adapter ==>
      && Current(Next(s, r).controls, adapter) == Current(s.controls, adapter)
      && Stages(Next(s, r).ledger, adapter) == Stages(s.ledger, adapter)
  {
    match Outcomes(s, r)
    case Raised =>
    case Blocked(_, _) => StagesSnoc(s.ledger, Record(r.adapter, false, r.stage), adapter);
    case Passed(_, _) => StagesSnoc(s.ledger, Record(r.adapter, true, r.stage), adapter);
  }

  /** What a call for the adapter itself does to its control and its passed stages. */
  lemma NextOwn(s: State, r: Request)
    ensures var t := Next(s, r);
      match Outcomes(s, r)
      case Passed(control, previous) =>
        && Current(t.controls, r.adapter) == Some(control) && PercentFits(control) && control.stage == r.stage
        && Allowed(StageOf(Current(s.controls, r.adapter)), r.stage)
        && Stages(t.ledger, r.adapter) == Stages(s.ledger, r.adapter) + [r.stage]
      case _ =>
        && Current(t.controls, r.adapter) == Current(s.controls, r.adapter)
        && Stages(t.ledger, r.adapter) == Stages(s.ledger, r.adapter)
  {
    match Outcomes(s, r)
    case Raised =>
    case Blocked(_, _) => StagesSnoc(s.ledger, Record(r.adapter, false, r.stage), r.adapter);
    case Passed(_, _) => StagesSnoc(s.ledger, Record(r.adapter, true, r.stage), r.adapter);
  }

  /** One call keeps the agreement for every adapter. */
  lemma NextAgrees(s: State, r: Request, adapter: string)
    requires Agrees(s, adapter)
    ensures Agrees(Next(s, r), adapter)
  {
    if adapter != r.adapter {
      NextControls(s, r, adapter);
    } else {
      NextOwn(s, r);
      if Outcomes(s, r).Passed? { PathSnoc(Stages(s.ledger, adapter), r.stage); }
    }
  }

  /** On every run from a state where they agree, file and ledger keep agreeing. */
  lemma {:induction false} RunAgrees(s: State, requests: seq<Request>, adapter: string)
    requires Agrees(s, adapter)
    ensures Agrees(Run(s, requests), adapter)
    decreases |requests|
  {
    if requests != [] {
      RunAgrees(s, requests[..|requests| - 1], adapter);
      NextAgrees(Run(s, requests[..|requests| - 1]), requests[|requests| - 1], adapter);
    }
  }

  /** Requests for other adapters never move this one. */
  lemma {:induction false} OthersNeverMove(s: State, requests: seq<Request>, adapter: string)
    requires forall r :: r in requests ==> r.adapter != adapter
    ensures Current(Run(s, requests).controls, adapter) == Current(s.controls, adapter)
    ensures Stages(Run(s, requests).ledger, adapter) == Stages(s.ledger, adapter)
    decreases |requests|
  {
    if requests != [] {
      OthersNeverMove(s, requests[..|requests| - 1], adapter);
      NextControls(Run(s, requests[..|requests| - 1]), requests[|requests| - 1], adapter);
    }
  }

  /** On a path of allowed steps a default stage follows a canary, with only default
      stages in between. */
  lemma {:induction false} DefaultAfterCanary(stages: seq<Stage>, k: nat)
    requires Path(stages) && k < |stages| && stages[k] == Default
    ensures exists j :: 0 <= j < k && stages[j] == Canary && forall i :: j < i <= k ==> stages[i] == Default
  {
    assert Allowed(LastStage(stages[..k]), stages[k]);
    if stages[k - 1] == Canary {
      assert forall i :: k - 1 < i <= k ==> stages[i] == Default;
    } else {
      DefaultAfterCanary(stages, k - 1);
      var j :| 0 <= j < k - 1 && stages[j] == Canary && forall i :: j < i <= k - 1 ==> stages[i] == Default;
      assert forall i :: j < i <= k ==> stages[i] == Default;
    }
  }

  lemma {:induction false} CanaryAfterShadow(stages: seq<Stage>, k: nat)
    requires Path(stages) && k < |stages| && stages[k] == Canary
    ensures exists j :: 0 <= j < k && stages[j] == Shadow && forall i :: j < i <= k ==> stages[i] == Canary
  {
    assert Allowed(LastStage(stages[..k]), stages[k]);
    if stages[k - 1] == Shadow {
      assert forall i :: k - 1 < i <= k ==> stages[i] == Canary;
    } else {
      CanaryAfterShadow(stages, k - 1);
      var j :| 0 <= j < k - 1 && stages[j] == Shadow && forall i :: j < i <= k - 1 ==> stages[i] == Canary;
      assert forall i :: j < i <= k ==> stages[i] == Canary;
    }
  }

  /** On every run from a state where file and ledger agree, every canary comes after a
      shadow stage with only canaries in between. */
  lemma NoCanaryWithoutShadow(s: State, requests: seq<Request>, adapter: string)
    requires Agrees(s, adapter)
    ensures var stages := Stages(Run(s, requests).ledger, adapter);
      forall k :: 0 <= k < |stages| && stages[k] == Canary ==>
        exists j :: 0 <= j < k && stages[j] == Shadow && forall i :: j < i <= k ==> stages[i] == Canary
  {
    RunAgrees(s, requests, adapter);
    var stages := Stages(Run(s, requests).ledger, adapter);
    forall k | 0 <= k < |stages| && stages[k] == Canary
      ensures exists j :: 0 <= j < k && stages[j] == Shadow && forall i :: j < i <= k ==> stages[i] == Canary
    {
      CanaryAfterShadow(stages, k);
    }
  }

  /** On every run from a state where file and ledger agree - the empty store is one -
      no adapter is rolled out by default that was not a canary since it was last in
      shadow, disabled or unset. */
  lemma NoDefaultWithoutCanary(s: State, requests: seq<Request>, adapter: string)
    requires Agrees(s, adapter)
    ensures var t := Run(s, requests);
      var stages := Stages(t.ledger, adapter);
      && StageOf(Current(t.controls, adapter)) == LastStage(stages)
      && (Current(t.controls, adapter).Some? ==> PercentFits(Current(t.controls, adapter).value))
      && (forall k :: 0 <= k < |stages| && stages[k] == Default ==>
            exists j :: 0 <= j < k && stages[j] == Canary && forall i :: j < i <= k ==> stages[i] == Default)
    ensures Agrees(State(map[], []), adapter)
  {
    RunAgrees(s, requests, adapter);
    var stages := Stages(Run(s, requests).ledger, adapter);
    forall k | 0 <= k < |stages| && stages[k] == Default
      ensures exists j :: 0 <= j < k && stages[j] == Canary && forall i :: j < i <= k ==> stages[i] == Default
    {
      DefaultAfterCanary(stages, k);
    }
  }

  // ----- the decision of a hook

  /** `_bucket`, over the number the digest's first bytes spell. */
  function Bucket(digest: string -> nat, adapter: string, session: string): (b: nat)
    ensures b < 100
  {
    digest(adapter + ":" + session) % 100
  }

  /** `adapter_release_decision`; an absent session is the empty one. */
  function Decide(digest: string -> nat, control: Option<Control>, adapter: string, session: string): Decision {
    if control.None? || control.value.stage == Default then Enabled
    else if control.value.stage == Disabled then IsDisabled
    else if control.value.stage == Shadow then InShadow
    else if session == "" then CanaryExcluded
    else if Bucket(digest, adapter, session) < control.value.percent then Enabled else CanaryExcluded
  }

  /** Nothing stored for the adapter, or nothing that reads as a control. */
  predicate Uncontrolled(controls: map<string, Stored>, adapter: string) {
    adapter !in controls || controls[adapter].Unreadable? || !(0 <= controls[adapter].percent <= 100)
  }

  /** Which sessions are enabled, and what the others are told, read from the file. */
  lemma DecideMeans(controls: map<string, Stored>, digest: string -> nat, adapter: string, session: string)
    ensures var decision := Decide(digest, Current(controls, adapter), adapter, session);
      if Uncontrolled(controls, adapter) then decision == Enabled
      else
        var stored := controls[adapter];
        && (decision == Enabled <==>
              stored.stage == Default ||
              (stored.stage == Canary && session != "" && digest(adapter + ":" + session) % 100 < stored.percent))
        && (decision == InShadow <==> stored.stage == Shadow)
        && (decision == IsDisabled <==> stored.stage == Disabled)
  {
  }

  /** The percentage asked for is no canary percentage. */
  predicate BadPercent(r: Request) {
    r.stage == Canary && r.percent.Some? && !(1 <= r.percent.value <= 100)
  }

  /** The request asks for a stage that the stored one allows. */
  predicate InOrder(controls: map<string, Stored>, r: Request) {
    || r.stage == Shadow || r.stage == Disabled
    || (!Uncontrolled(controls, r.adapter) &&
        if r.stage == Canary then controls[r.adapter].stage == Shadow || controls[r.adapter].stage == Canary
        else controls[r.adapter].stage == Canary || controls[r.adapter].stage == Default)
  }

  /** What every request does: it raises for a bad percentage and then changes nothing;
      out of order it leaves a record only; otherwise it stores the stage, with the
      percentage that belongs to it, and leaves a record. */
  lemma StepMeans(s: State, r: Request)
    ensures var outcome, t := Outcomes(s, r), Next(s, r);
      if BadPercent(r) then outcome == Raised && t == s
      else if !InOrder(s.controls, r) then
        outcome.Blocked? && t.controls == s.controls && t.ledger == s.ledger + [Record(r.adapter, false, r.stage)]
      else
        && outcome.Passed? && outcome.control.stage == r.stage
        && (outcome.previous.None? <==> Uncontrolled(s.controls, r.adapter))
        && (outcome.previous.Some? ==> outcome.previous.value == s.controls[r.adapter].stage)
        && outcome.control.percent == (if r.stage == Default then 100 else if r.stage != Canary then 0
                                       else if r.percent.Some? then r.percent.value else 10)
        && t.controls == s.controls[r.adapter := Stored(outcome.control.stage, outcome.control.percent)]
        && t.ledger == s.ledger + [Record(r.adapter, true, r.stage)]
  {
    var stage := StageOf(Current(s.controls, r.adapter));
    assert stage.None? <==> Uncontrolled(s.controls, r.adapter);
    assert Allowed(stage, r.stage) <==> InOrder(s.controls, r);
  }

  predicate PassesAt(s: State, requests: seq<Request>, adapter: string, k: nat)
    requires k < |requests|
  {
    requests[k].adapter == adapter && Outcomes(Run(s, requests[..k]), requests[k]).Passed?
  }

  /** From some point of the run on, no request for the adapter passes. */
  ghost predicate NonePasses(s: State, requests: seq<Request>, adapter: string, from: nat) {
    forall k: nat :: from <= k < |requests| ==> !PassesAt(s, requests, adapter, k)
  }

  lemma {:induction false} UnchangedSince(s: State, requests: seq<Request>, adapter: string, from: nat)
    requires from <= |requests| && NonePasses(s, requests, adapter, from)
    ensures Current(Run(s, requests).controls, adapter) == Current(Run(s, requests[..from]).controls, adapter)
    decreases |requests|
  {
    var n := |requests| - 1;
    if from == |requests| {
      assert requests[..from] == requests;
    } else {
      var before := requests[..n];
      forall k: nat | from <= k < n ensures !PassesAt(s, before, adapter, k) {
        assert before[..k] == requests[..k] && !PassesAt(s, requests, adapter, k);
      }
      UnchangedSince(s, before, adapter, from);
      assert before[..from] == requests[..from] && !PassesAt(s, requests, adapter, n);
      NextControls(Run(s, before), requests[n], adapter);
    }
  }

  /** What a request decides for a session, until another one passes. */
  function Grants(r: Request, digest: string -> nat, session: string): Decision {
    match r.stage
    case Default => Enabled
    case Shadow => InShadow
    case Disabled => IsDisabled
    case Canary =>
      if session != "" && digest(r.adapter + ":" + session) % 100 < (if r.percent.Some? then r.percent.value else 10)
      then Enabled else CanaryExcluded
  }

  /** After any run a session gets what the last request that passed for the adapter
      decides, whatever was requested before, blocked, or asked for other adapters. */
  lemma DecidedByLast(s: State, requests: seq<Request>, k: nat, digest: string -> nat, adapter: string, session: string)
    requires k < |requests| && PassesAt(s, requests, adapter, k) && NonePasses(s, requests, adapter, k + 1)
    ensures Decide(digest, Current(Run(s, requests).controls, adapter), adapter, session) ==
            Grants(requests[k], digest, session)
  {
    UnchangedSince(s, requests, adapter, k + 1);
    assert requests[..k + 1][..k] == requests[..k];
    StepMeans(Run(s, requests[..k]), requests[k]);
    NextOwn(Run(s, requests[..k]), requests[k]);
  }

  /** Until one passes it stays with what the file held before the run. */
  lemma DecidedBefore(s: State, requests: seq<Request>, digest: string -> nat, adapter: string, session: string)
    requires NonePasses(s, requests, adapter, 0)
    ensures Decide(digest, Current(Run(s, requests).controls, adapter), adapter, session) ==
            Decide(digest, Current(s.controls, adapter), adapter, session)
  {
    UnchangedSince(s, requests, adapter, 0);
  }

  /** A canary passes nowhere on the run. */
  ghost predicate NoCanaryPasses(s: State, requests: seq<Request>, adapter: string) {
    forall k: nat :: k < |requests| && requests[k].stage == Canary ==> !PassesAt(s, requests, adapter, k)
  }

  /** The adapter is in shadow or disabled. */
  predicate HeldBack(s: State, adapter: string) {
    var control := Current(s.controls, adapter);
    control.Some? && (control.value.stage == Shadow || control.value.stage == Disabled)
  }

  lemma {:induction false} StaysHeldBack(s: State, requests: seq<Request>, adapter: string)
    requires HeldBack(s, adapter) && NoCanaryPasses(s, requests, adapter)
    ensures HeldBack(Run(s, requests), adapter)
    decreases |requests|
  {
    if requests != [] {
      var n := |requests| - 1;
      var before, last := requests[..n], requests[n];
      forall k: nat | k < n && before[k].stage == Canary ensures !PassesAt(s, before, adapter, k) {
        assert before[..k] == requests[..k] && !PassesAt(s, requests, adapter, k);
      }
      assert last.stage == Canary ==> !PassesAt(s, requests, adapter, n);
      StaysHeldBack(s, before, adapter);
      var t := Run(s, before);
      if last.adapter != adapter { NextControls(t, last, adapter); } else { NextOwn(t, last); }
    }
  }

  /** Shadowing always passes, and from then on no session gets the adapter on any run
      on which no canary passes, whatever else is requested. */
  lemma ShadowHolds(s: State, adapter: string, percent: Option<int>, requests: seq<Request>,
                    digest: string -> nat, session: string)
    requires NoCanaryPasses(Next(s, Request(adapter, Shadow, percent)), requests, adapter)
    ensures var shadowed := Next(s, Request(adapter, Shadow, percent));
      var decision := Decide(digest, Current(Run(shadowed, requests).controls, adapter), adapter, session);
      && Outcomes(s, Request(adapter, Shadow, percent)).Passed?
      && (decision == InShadow || decision == IsDisabled)
      && Decide(digest, Current(shadowed.controls, adapter), adapter, session) == InShadow
  {
    StaysHeldBack(Next(s, Request(adapter, Shadow, percent)), requests, adapter);
  }

  /** The rollout goes forward: from canary to a canary that is not smaller or to
      default, from default to default. */
  predicate Forward(before: Option<Control>, after: Option<Control>) {
    before == after ||
    (before.Some? && after.Some? && (before.value.stage == Canary || before.value.stage == Default) &&
     (after.value.stage == Default ||
      (before.value.stage == Canary && after.value.stage == Canary && before.value.percent <= after.value.percent)))
  }

  ghost predicate OnlyForward(s: State, requests: seq<Request>, adapter: string) {
    forall k :: 0 <= k < |requests| ==>
      Forward(Current(Run(s, requests[..k]).controls, adapter), Current(Run(s, requests[..k + 1]).controls, adapter))
  }

  /** A session that is enabled stays enabled while the rollout only goes forward. */
  lemma {:induction false} SessionStaysEnabled(s: State, requests: seq<Request>, digest: string -> nat,
                                               adapter: string, session: string)
    requires OnlyForward(s, requests, adapter)
    requires Decide(digest, Current(s.controls, adapter), adapter, session) == Enabled
    ensures Decide(digest, Current(Run(s, requests).controls, adapter), adapter, session) == Enabled
    decreases |requests|
  {
    if requests != [] {
      var n := |requests| - 1;
      var before := requests[..n];
      forall k | 0 <= k < n
        ensures Forward(Current(Run(s, before[..k]).controls, adapter),
                        Current(Run(s, before[..k + 1]).controls, adapter))
      {
        assert before[..k] == requests[..k] && before[..k + 1] == requests[..k + 1];
      }
      SessionStaysEnabled(s, before, digest, adapter, session);
      assert requests[..n + 1] == requests;
      assert Forward(Current(Run(s, requests[..n]).controls, adapter),
                     Current(Run(s, requests[..n + 1]).controls, adapter));
    }
  }

  /** Whether a passed request goes forward can be told before the call. */
  lemma ForwardRequest(s: State, r: Request)
    requires Outcomes(s, r).Passed?
    ensures var before, after := Current(s.controls, r.adapter), Current(Next(s, r).controls, r.adapter);
      Forward(before, after) <==>
      before.Some? &&
      match before.value.stage
      case Canary =>
        r.stage == Default || (r.stage == Canary && before.value.percent <= CohortPercent(Canary, r.percent).value)
      case Default => r.stage == Default
      case _ => r.stage == before.value.stage && before.value.percent == 0
  {
  }

  // ----- the kill switch

  /** No request of the run puts the adapter into shadow. */
  predicate NeverToShadow(requests: seq<Request>, adapter: string) {
    forall r :: r in requests ==> !(r.adapter == adapter && r.stage == Shadow)
  }

  lemma StaysDisabled(s: State, r: Request, adapter: string)
    requires StageOf(Current(s.controls, adapter)) == Some(Disabled)
    requires !(r.adapter == adapter && r.stage == Shadow)
    ensures StageOf(Current(Next(s, r).controls, adapter)) == Some(Disabled)
  {
    if r.adapter != adapter { NextControls(s, r, adapter); } else { NextOwn(s, r); }
  }

  /** Disabling passes in every state, whatever is stored and requested with it, and
      from then on no session gets the adapter in any run that does not first put it
      back into shadow, which always passes too. */
  lemma KillSwitch(s: State, adapter: string, percent: Option<int>, requests: seq<Request>,
                   digest: string -> nat, session: string)
    requires NeverToShadow(requests, adapter)
    ensures var killed := Next(s, Request(adapter, Disabled, percent));
      && Outcomes(s, Request(adapter, Disabled, percent)).Passed?
      && Decide(digest, Current(Run(killed, requests).controls, adapter), adapter, session) == IsDisabled
      && Outcomes(Run(killed, requests), Request(adapter, Shadow, percent)).Passed?
  {
    StoppedRun(Next(s, Request(adapter, Disabled, percent)), requests, adapter);
  }

  lemma {:induction false} StoppedRun(s: State, requests: seq<Request>, adapter: string)
    requires StageOf(Current(s.controls, adapter)) == Some(Disabled) && NeverToShadow(requests, adapter)
    ensures StageOf(Current(Run(s, requests).controls, adapter)) == Some(Disabled)
    decreases |requests|
  {
    if requests != [] {
      var before := requests[..|requests| - 1];
      StoppedRun(s, before, adapter);
      StaysDisabled(Run(s, before), requests[|requests| - 1], adapter);
    }
  }
}
