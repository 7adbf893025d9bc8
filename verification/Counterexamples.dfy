/** Inputs on which properties one might expect of the editors fail. The results that
    say exactly when they hold stand beside the editors. */
module Counterexamples {
  import opened Options
  import opened Strings
  import opened Stripping
  import opened SentinelText
  import opened Shlex
  import opened HookCommands
  import opened HookTables
  import opened CodexEvent
  import opened CodexTable
  import opened CodexHookTrust
  import opened CodexInstall
  import opened Sequences
  import AgentsBlock
  import AwarenessBlock
  import CodexRunners
  import ManagedHooks
  import TelemetryStore
  import TextLines
  import TrustText

  // ----- hooks

  const STOP_SCRIPT := Script("/srv/hub" + CURRENT_DIR, "stop.sh")

  lemma StopScriptInHub()
    ensures STOP_SCRIPT.InHub()
  {
    assert EndsWith(CURRENT_DIR, CURRENT_DIR);
    EndsWithExtend(CURRENT_DIR, "/srv/hub", CURRENT_DIR);
  }

  const STOP_JOB := CodexJob(STOP_SCRIPT, "")
  const STOP_REGISTRATION := Registration("Stop", STOP_JOB)

  lemma StopRegistration()
    ensures STOP_JOB.Valid() && WellFormed(STOP_JOB.owned, [STOP_REGISTRATION])
  {
    StopScriptInHub();
    CodexJobIsValid(STOP_SCRIPT, "");
  }

  /** An entry of another tool whose handler list is empty. */
  const EMPTY_ENTRY := Entry(Some("Bash"), HookList([]), "")

  lemma EmptyEntryInstalls(job: Job)
    requires job.matcher == ""
    ensures InstallEvent([EMPTY_ENTRY], job).Done? && !ForeignOnly(EMPTY_ENTRY, job)
  {
    assert !Matches(EMPTY_ENTRY, "");
    assert FirstMatch([EMPTY_ENTRY], "") == 1;
    assert WithTarget([EMPTY_ENTRY], "")[1] == NewEntry("");
  }

  /** An entry with an empty handler list is lost between an installation and the
      uninstallation that follows. */
  lemma EmptyListIsLost()
    ensures InstallEvent([EMPTY_ENTRY], STOP_JOB).Done?
    ensures var r := UninstallEvent(InstallEvent([EMPTY_ENTRY], STOP_JOB).entries, STOP_JOB.owned);
      !(r.Done? && r.entries == [EMPTY_ENTRY])
  {
    StopRegistration();
    EmptyEntryInstalls(STOP_JOB);
    assert !AllForeignOnly([EMPTY_ENTRY], STOP_JOB) by { assert [EMPTY_ENTRY][0] == EMPTY_ENTRY; }
    UninstallUndoesInstall([EMPTY_ENTRY], STOP_JOB);
  }

  lemma EmptyListIsLostFromTable()
    ensures var table := map["Stop" := [EMPTY_ENTRY]];
      var installed := InstallTable(table, [STOP_REGISTRATION]);
      && installed.TableDone?
      && var r := UninstallTable(installed.table, STOP_JOB.owned, Events([STOP_REGISTRATION]));
         !(r.TableDone? && r.table == Restored(table, Events([STOP_REGISTRATION])))
  {
    StopRegistration();
    EmptyEntryInstalls(STOP_JOB);
    NotRestored(map["Stop" := [EMPTY_ENTRY]], STOP_REGISTRATION);
  }

  lemma NotRestored(table: Table, reg: Registration)
    requires WellFormed(reg.job.owned, [reg]) && InstallEvent(EntriesOf(table, reg.event), reg.job).Done?
    requires EntriesOf(table, reg.event) == [EMPTY_ENTRY] && !ForeignOnly(EMPTY_ENTRY, reg.job)
    ensures var installed := InstallTable(table, [reg]);
      && installed.TableDone?
      && var r := UninstallTable(installed.table, reg.job.owned, Events([reg]));
         !(r.TableDone? && r.table == Restored(table, Events([reg])))
  {
    var regs := [reg];
    InstallCrashes(table, regs);
    assert !AllForeignOnly(EntriesOf(table, regs[0].event), regs[0].job) by {
      assert [EMPTY_ENTRY][0] == EMPTY_ENTRY;
    }
    UninstallUndoesInstallTable(table, reg.job.owned, regs);
  }

  /** The hub's own handler, written without a type. */
  function Untyped(): Handler {
    Handler(None, Some(STOP_JOB.command), Some(HOOK_TIMEOUT), None, false, None, "")
  }

  const UNTYPED_ENTRIES := [Entry(None, HookList([Untyped()]), "")]
  const UNTYPED_TABLE: Table := map["Stop" := UNTYPED_ENTRIES]

  lemma UntypedIsReused()
    ensures InstallTable(UNTYPED_TABLE, [STOP_REGISTRATION]).TableDone?
    ensures !EventReusesCommand(UNTYPED_TABLE, STOP_REGISTRATION)
  {
    StopRegistration();
    assert EntriesOf(UNTYPED_TABLE, "Stop") == UNTYPED_ENTRIES;
    KindIsKept(UNTYPED_TABLE, STOP_REGISTRATION, Untyped());
  }

  /** A handler that runs the script, alone in its event, is reused whatever its type. */
  lemma KindIsKept(table: Table, reg: Registration, h: Handler)
    requires Passes(h, reg.job.runs) && !IsCommand(h) && reg.job.matcher == ""
    requires EntriesOf(table, reg.event) == [Entry(None, HookList([h]), "")]
    ensures InstallTable(table, [reg]).TableDone? && !EventReusesCommand(table, reg)
  {
    var es, hs := EntriesOf(table, reg.event), [h];
    assert Matches(es[0], "") && Handlers(es[0]) == hs && FirstMatch(es, "") == 0;
    assert hs[0] == h && FirstRun(hs, reg.job.runs) == 0;
    InstallCrashes(table, [reg]);
  }

  lemma UntypedFails(c: Context, r: Installation)
    requires c.owned == STOP_JOB.owned && PlainContext(c) && Supported([STOP_REGISTRATION])
    requires Installs(c, [STOP_REGISTRATION], UNTYPED_TABLE, "", r)
    ensures EventMismatches(c, TrustText.Read(r.text), STOP_REGISTRATION, EntriesOf(r.table, "Stop")) != []
  {
    StopRegistration();
    UntypedIsReused();
    EmptyTextIsWellFormed();
    InstallPassesTrustCheck(c, [STOP_REGISTRATION], UNTYPED_TABLE, "", r);
    assert !EventReusesCommand(UNTYPED_TABLE, [STOP_REGISTRATION][0]);
    OneRegistration(c, TrustText.Read(r.text), r.table, STOP_REGISTRATION);
  }

  lemma OneRegistration(c: Context, state: map<string, string>, table: Table, reg: Registration)
    requires Supported([reg]) && Label(reg.event).Some?
    ensures Mismatches(c, state, table, [reg]) == EventMismatches(c, state, reg, EntriesOf(table, reg.event))
  {
    assert [reg][1..] == [];
  }

  lemma EmptyTextIsWellFormed()
    ensures TrustText.WellFormed("")
  {
    assert TextLines.Lines("") == [""];
  }

  const CODEX_JSON := "/hooks.json"

  function SomeDigest(): Identity -> string {
    (id: Identity) => "h0"
  }

  lemma StopContext()
    ensures PlainContext(Context(CODEX_JSON, STOP_JOB.owned, {}, SomeDigest()))
  {
    assert '"' !in CODEX_JSON && TextLines.OneLine(CODEX_JSON);
    assert TrustText.Quotable("h0");
  }

  lemma StopIsSupported()
    ensures Label("Stop").Some? && Supported([STOP_REGISTRATION])
  {
    assert EVENT_LABELS[9] == ("Stop", "stop");
    LabelFound(EVENT_LABELS, 9);
  }

  lemma {:induction false} LabelFound(labels: seq<(string, string)>, i: nat)
    requires i < |labels|
    ensures Lookup(labels, labels[i].0).Some?
    decreases |labels|
  {
    if i > 0 { LabelFound(labels[1..], i - 1); }
  }

  /** A run of the installer over an empty config.toml and a hub handler without a
      type: the trust check still complains about the event. */
  method UntypedStaysUntrusted() returns (mismatches: seq<string>)
    ensures mismatches != []
  {
    var home := new CodexHome(UNTYPED_TABLE, "", CODEX_JSON, SomeDigest());
    var r := InstallUntyped(home);
    var state := TrustText.TrustedHashes(home.config);
    var c := Context(CODEX_JSON, STOP_JOB.owned, {}, SomeDigest());
    StopContext();
    StopIsSupported();
    UntypedFails(c, r);
    var fault;
    fault, mismatches := MismatchesOfEvent(c, state, STOP_REGISTRATION, EntriesOf(home.hooks, "Stop"));
  }

  method InstallUntyped(home: CodexHome) returns (ghost r: Installation)
    requires home.hooks == UNTYPED_TABLE && home.config == ""
    modifies home
    ensures Installs(Context(home.json, STOP_JOB.owned, {}, home.digest), [STOP_REGISTRATION], UNTYPED_TABLE, "", r)
    ensures home.hooks == r.table && home.config == r.text
  {
    StopRegistration();
    UntypedIsReused();
    var fault, changed;
    fault, changed, r := home.Install(STOP_JOB.owned, [STOP_REGISTRATION]);
  }

  // ----- a script outside hub checkouts

  const FAR_SCRIPT := Script("/srv", "stop.sh")

  lemma NoTail(t: string, tail: string)
    requires t != "" && tail != "" && (|t| < |tail| || t[|t| - 1] != tail[|tail| - 1])
    ensures !EndsWith(t, tail)
  {
    assert |tail| <= |t| ==> t[|t| - |tail|..][|tail| - 1] == t[|t| - 1];
  }

  /** A hub tail ends like the script's name and is longer than this path. */
  lemma NoHubTail(t: string, dir: string)
    requires t != "" && |dir| >= |LEGACY_DIR| && (t[|t| - 1] != 'h' || |t| < 13)
    ensures !EndsWith(t, dir + "/" + "stop.sh")
  {
    var tail := dir + "/" + "stop.sh";
    assert tail[|tail| - 1] == "stop.sh"[6] == 'h' && |tail| >= 13;
    NoTail(t, tail);
  }

  lemma FarTokens(command: string)
    requires command == AdapterHookCommand("codex", FAR_SCRIPT.Path())
    ensures forall t :: t in Tokens(command) ==> t != "" && (t[|t| - 1] != 'h' || |t| < 13)
  {
    HookCommandTokens("codex", FAR_SCRIPT.Path());
    assert "${PATH:+:$PATH}"[14] == '}' && "codex"[4] == 'x';
    assert PATH_PREFIX[|PATH_PREFIX| - 1] == '}';
    assert (ADAPTER_VARIABLE + "codex")[|ADAPTER_VARIABLE + "codex"| - 1] == 'x';
    assert |FAR_SCRIPT.Path()| == 12;
  }

  lemma NotHubCommand(command: string)
    requires forall t :: t in Tokens(command) ==> t != "" && (t[|t| - 1] != 'h' || |t| < 13)
    ensures !RunsHubScript("stop.sh")(command)
  {
    forall t | t in Tokens(command)
      ensures !EndsWith(t, CURRENT_DIR + "/" + "stop.sh") && !EndsWith(t, LEGACY_DIR + "/" + "stop.sh")
    {
      NoHubTail(t, CURRENT_DIR);
      NoHubTail(t, LEGACY_DIR);
    }
  }

  /** The installer's own command for a script outside hub checkouts runs the script,
      and is not recognised as a hub command. */
  lemma FarCommand(command: string)
    requires command == AdapterHookCommand("codex", FAR_SCRIPT.Path())
    ensures RunsScript(FAR_SCRIPT)(command) && !RunsHubScript("stop.sh")(command)
  {
    CanonicalCommand("codex", FAR_SCRIPT);
    FarTokens(command);
    NotHubCommand(command);
  }

  /** The canonical handler twice in one entry. */
  function Doubled(job: Job): seq<Entry> {
    [Entry(None, HookList([NewHandler(job.command), NewHandler(job.command)]), "")]
  }

  /** Outside hub checkouts an installation leaves a second handler that runs the script. */
  lemma DoubledStaysDoubled()
    ensures var job := CodexJob(FAR_SCRIPT, "");
      && InstallEvent(Doubled(job), job).Done?
      && CodexRunners.Runners(InstallEvent(Doubled(job), job).entries, job.runs) == 2
  {
    var job := CodexJob(FAR_SCRIPT, "");
    FarCommand(job.command);
    DoubledRunners(job);
  }

  lemma DoubledRunners(job: Job)
    requires job.matcher == "" && job.runs(job.command) && !job.named(job.command)
    ensures InstallEvent(Doubled(job), job).Done?
    ensures CodexRunners.Runners(InstallEvent(Doubled(job), job).entries, job.runs) == 2
  {
    var es, h := Doubled(job), NewHandler(job.command);
    var hs := [h, h];
    assert Matches(es[0], "") && FirstMatch(es, "") == 0 && Handlers(es[0]) == hs;
    assert hs[1..] == [h] && hs[1..][1..] == [] && es[1..] == [];
    assert CodexRunners.RunnersIn([h], job.runs) == 1 && CodexRunners.RunnersIn(hs, job.runs) == 2;
    assert CodexRunners.TargetHandlers(es, job) == hs && CodexRunners.HiddenOutside(es, job, 0) == 0;
    CodexRunners.RunnersLeft(es, job);
  }

  // ----- the telemetry report

  /** An installation last heard of on second 0 was active in the last day, but the
      report does not count it. */
  lemma SecondZeroIsLost()
    ensures var e := TelemetryStore.Event("a", TelemetryStore.Active, "linux", "x86", "1", "pip", "codex", 0);
      && TelemetryStore.Ordered([e])
      && "a" in TelemetryStore.Since([e], TelemetryStore.Active, 0 - TelemetryStore.DAY)
      && "a" !in TelemetryStore.Reported([e], TelemetryStore.Active, 0 - TelemetryStore.DAY)
  {
    var e := TelemetryStore.Event("a", TelemetryStore.Active, "linux", "x86", "1", "pip", "codex", 0);
    assert TelemetryStore.LastWith([e], TelemetryStore.Doing("a", TelemetryStore.Active)) == Some(e);
    assert e in [e];
    TelemetryStore.CountsSince([e], TelemetryStore.Active, 0 - TelemetryStore.DAY, "a");
  }

  function Reporting(platform: string): TelemetryStore.Instance {
    TelemetryStore.Instance(1, 1, None, Some(1), platform, "x86", "1", "pip", "codex")
  }

  /** Each of the first installations on a platform of its own, the others on an
      unknown one. */
  function Platforms(own: set<string>, others: set<string>): map<string, TelemetryStore.Instance> {
    map id | id in own + others :: Reporting(if id in own then id else TelemetryStore.UNKNOWN)
  }

  lemma PlatformValues(own: set<string>, others: set<string>)
    requires own !! others && others != {}
    ensures TelemetryStore.ValuesIn(Platforms(own, others), TelemetryStore.Platform) == own + {TelemetryStore.UNKNOWN}
  {
    var rows := Platforms(own, others);
    var some :| some in others;
    assert TelemetryStore.Value(rows[some], TelemetryStore.Platform) == TelemetryStore.UNKNOWN;
    forall name | name in own ensures name in TelemetryStore.ValuesIn(rows, TelemetryStore.Platform) {
      assert TelemetryStore.Value(rows[name], TelemetryStore.Platform) == name;
    }
  }

  lemma PlatformHolders(own: set<string>, others: set<string>, name: string)
    requires own !! others && TelemetryStore.UNKNOWN !in own && name in own
    ensures var holders := TelemetryStore.HoldersIn(Platforms(own, others), TelemetryStore.Platform);
      holders(name) == 1 && holders(TelemetryStore.UNKNOWN) == |others|
  {
    var rows, p := Platforms(own, others), TelemetryStore.Platform;
    assert (set id | id in rows && TelemetryStore.Value(rows[id], p) == name) == {name};
    assert (set id | id in rows && TelemetryStore.Value(rows[id], p) == TelemetryStore.UNKNOWN) == others;
  }

  lemma OneTooFew(shares: seq<TelemetryStore.Share>, own: set<string>, others: set<string>)
    requires own !! others && TelemetryStore.UNKNOWN !in own && |own| == 8 && |others| == 2
    requires TelemetryStore.BreakdownOf(shares, Platforms(own, others), TelemetryStore.Platform)
    ensures |shares| == 7
  {
    var rows := Platforms(own, others);
    var holders := TelemetryStore.HoldersIn(rows, TelemetryStore.Platform);
    var values := TelemetryStore.ValuesIn(rows, TelemetryStore.Platform);
    PlatformValues(own, others);
    var top := TelemetryStore.BreakdownSays(shares, rows, TelemetryStore.Platform);
    forall name | name in own ensures holders(name) < holders(TelemetryStore.UNKNOWN) {
      PlatformHolders(own, others, name);
    }
    assert TelemetryStore.AtLeast(values, holders, TelemetryStore.UNKNOWN) == {};
  }

  const FOUR := {"a", "b", "c", "d"}
  const FOUR_MORE := {"e", "f", "g", "h"}

  lemma EightNames()
    ensures |FOUR + FOUR_MORE| == 8
    ensures forall name :: name in FOUR + FOUR_MORE ==> |name| == 1 && name[0] <= 'h'
  {
    FourNames();
    assert FOUR !! FOUR_MORE;
  }

  lemma FourNames()
    ensures |FOUR| == 4 && forall name :: name in FOUR ==> |name| == 1 && name[0] <= 'd'
    ensures |FOUR_MORE| == 4 && forall name :: name in FOUR_MORE ==> |name| == 1 && 'd' < name[0] <= 'h'
  {
  }

  /** With eight known platforms of one installation each and two installations on an
      unknown one, the report lists seven. */
  lemma SevenListed(shares: seq<TelemetryStore.Share>)
    requires TelemetryStore.BreakdownOf(shares, Platforms(FOUR + FOUR_MORE, {"u", "v"}), TelemetryStore.Platform)
    ensures |FOUR + FOUR_MORE| == 8 && TelemetryStore.UNKNOWN !in FOUR + FOUR_MORE
    ensures |shares| == 7
  {
    EightNames();
    SevenOf(shares, FOUR + FOUR_MORE);
  }

  lemma SevenOf(shares: seq<TelemetryStore.Share>, own: set<string>)
    requires |own| == 8 && forall name :: name in own ==> |name| == 1 && name[0] <= 'h'
    requires TelemetryStore.BreakdownOf(shares, Platforms(own, {"u", "v"}), TelemetryStore.Platform)
    ensures |shares| == 7 && TelemetryStore.UNKNOWN !in own
  {
    OtherNames(own);
    OneTooFew(shares, own, {"u", "v"});
  }

  lemma OtherNames(own: set<string>)
    requires forall name :: name in own ==> |name| == 1 && name[0] <= 'h'
    ensures own !! {"u", "v"} && |{"u", "v"}| == 2 && TelemetryStore.UNKNOWN !in own
  {
    assert "u"[0] != "v"[0] && "u"[0] > 'h' && "v"[0] > 'h';
    assert |TelemetryStore.UNKNOWN| == 7;
  }

  // ----- blocks

  /** The smallest blocks between the marks. */
  const AWARENESS_BLOCK := (AWARENESS.begin + "\n") + AWARENESS.end
  const AGENTS_BLOCK := (AGENTS.begin + "\n") + AGENTS.end

  lemma SmallestBlock(m: Sentinel)
    requires m.Valid() && !Contains(m.begin + "\n", m.end)
    ensures IsBlock(m, (m.begin + "\n") + m.end) && RStrip((m.begin + "\n") + m.end) == (m.begin + "\n") + m.end
  {
    var head := m.begin + "\n";
    assert head[|head| - 1..] == "\n";
    BlockOfLines(m, head);
    EndsWithMark(head, m.end);
  }

  lemma EndsWithMark(head: string, mark: string)
    requires mark != "" && !IsSpace(mark[|mark| - 1])
    ensures RStrip(head + mark) == head + mark
  {
    assert (head + mark)[|head + mark| - 1] == mark[|mark| - 1];
  }

  /** A closing mark that differs from the opening one, and whose first character the
      opening one does not repeat, does not occur in it. */
  lemma NoClosingMark(m: Sentinel, k: nat)
    requires m.Valid() && k < |m.begin| && k < |m.end| && m.begin[k] != m.end[k]
    requires m.end[0] !in m.begin[1..]
    ensures !Contains(m.begin + "\n", m.end)
  {
    var head := m.begin + "\n";
    forall j | 0 <= j ensures !OccursAt(head, m.end, j) {
      if j == 0 {
        assert |m.end| <= |head| ==> head[0..|m.end|][k] == m.begin[k];
      } else if j + |m.end| <= |head| {
        assert head[j..j + |m.end|][0] == head[j];
        if j < |m.begin| { assert head[j] == m.begin[1..][j - 1]; }
      }
    }
    FindNone(head, m.end, 0);
  }

  lemma AwarenessBlockIsBlock()
    ensures AWARENESS.Valid() && IsBlock(AWARENESS, AWARENESS_BLOCK)
  {
    SentinelsAreValid();
    NoClosingMark(AWARENESS, 5);
    SmallestBlock(AWARENESS);
  }

  /** A file that starts with a line break and user text before its block: prepending
      twice is not prepending once. */
  lemma PrependedTwiceDiffers()
    ensures var content := "\nx\n" + (AWARENESS_BLOCK + "");
      var once := AwarenessBlock.Installed(AWARENESS, content, AWARENESS_BLOCK, AwarenessBlock.Prepend);
      AwarenessBlock.Installed(AWARENESS, once, AWARENESS_BLOCK, AwarenessBlock.Prepend) != once
  {
    AwarenessBlockIsBlock();
    PrependedBehindBreak(AWARENESS, AWARENESS_BLOCK);
  }

  lemma PrependedBehindBreak(m: Sentinel, block: string)
    requires m.Valid() && IsBlock(m, block) && |m.begin| > 3
    ensures var content := "\nx\n" + (block + "");
      var once := AwarenessBlock.Installed(m, content, block, AwarenessBlock.Prepend);
      AwarenessBlock.Installed(m, once, block, AwarenessBlock.Prepend) != once
  {
    var pre := "\nx\n";
    FindNone(pre, m.begin, 0);
    StartsWithConcat(block, "", m.begin);
    BeginAtBlock(m, pre, block + "");
    EndOfBlock(m, pre, block, "");
    Slices(pre, block, "");
    UserTextAround(m, pre + (block + ""), |pre|, |pre| + |block|, pre, "");
    KeptText();
    AwarenessBlock.PrependTwice(m, pre + (block + ""), block);
  }

  lemma UserTextAround(m: Sentinel, t: string, start: nat, end: nat, pre: string, post: string)
    requires Find(t, m.begin, 0) == start && start <= end <= |t| && BlockEnd(m, t, start) == end
    requires t[..start] == pre && t[end..] == post
    ensures AwarenessBlock.UserText(m, t) == AwarenessBlock.Preserved(pre, post)
  {
  }

  lemma KeptText()
    ensures AwarenessBlock.Preserved("\nx\n", "") == "\nx" && !StripsToNothing("\nx")
  {
    NotBlankEnd("\nx", 'x');
    RStripNewlinesIs("\nx", "\n");
    assert "\nx" + "\n" == "\nx\n";
  }

  lemma NotBlankEnd(s: string, c: char)
    requires s != "" && s[|s| - 1] == c && !IsSpace(c)
    ensures !StripsToNothing(s)
  {
  }

  /** A block without a line break behind it, put into an empty file: the second
      installation adds the line break. */
  lemma UpsertedTwiceDiffers()
    ensures var once := AgentsBlock.Upsert(AGENTS, "", AGENTS_BLOCK);
      AgentsBlock.Upsert(AGENTS, once, AGENTS_BLOCK) != once
  {
    SentinelsAreValid();
    NoClosingMark(AGENTS, 5);
    SmallestBlock(AGENTS);
    UpsertedIntoEmpty(AGENTS, AGENTS_BLOCK);
  }

  lemma UpsertedIntoEmpty(m: Sentinel, block: string)
    requires m.Valid() && IsBlock(m, block) && RStrip(block) == block
    ensures var once := AgentsBlock.Upsert(m, "", block);
      AgentsBlock.Upsert(m, once, block) != once
  {
    FindNone("", m.begin, 0);
    assert AgentsBlock.Padding(block) == "";
    AgentsBlock.UpsertTwice(m, "", block);
  }

  // ----- the reconciler

  lemma TrueIsUnmanaged(names: set<string>)
    ensures !ManagedHooks.OwnsCanonical(ManagedHooks.Owner(names), "true")
  {
    OneToken("true");
    forall name ensures !ReferencesHubScript("true", name) {
      var c, l := CURRENT_DIR + "/" + name, LEGACY_DIR + "/" + name;
      assert |c| > 4 && |l| > 4;
    }
  }

  lemma OneToken(word: string)
    requires Plain(word) && word != ""
    ensures Tokens(word) == [word]
  {
    assert word + "" == word && [word[0]] + word[1..] == word;
    assert word[1..] + "" == word[1..];
    SplitPlain(word[1..], "", [word[0]]);
  }

  /** A command that runs no managed script: every reconciliation adds an entry. */
  lemma ReconciledTwiceDiffers(names: set<string>)
    ensures var own := ManagedHooks.Owner(names);
      var once := ManagedHooks.Reconciled([], "true", own, false);
      ManagedHooks.Reconciled(once, "true", own, false) != once
  {
    TrueIsUnmanaged(names);
    ManagedHooks.ReconcileTwice([], "true", ManagedHooks.Owner(names), false);
  }
}
