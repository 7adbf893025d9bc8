# Agent Memory Hub: verified model

A Dafny model of the parts of Agent Memory Hub that edit other programs' files
or keep bounded state, with proofs of what they promise. `dafny verify
dfyconfig.toml` checks the whole project.

What is modelled, file by file:

- **Hook tables** (`HookCommands`, `HookTables`, `CodexEvent`, `CodexTable`,
  `CodexHooks`, `CodexShape`, `CodexRunners`): the nested event / entries /
  handlers table of `hooks.json`, shared with other tools. Commands are read with
  a full model of `shlex.split` and written with `shlex.quote` (`Shlex`), so "the
  command runs this script" is a fact about characters, not an assumption;
  `CommandMeaning` says of every spelling what it reads as. `CodexEvent` says
  what one installation makes of an event; `CodexHooks` holds the loops and
  in-place edits and proves them equal to it; `CodexShape` tells the result entry
  by entry and what an uninstallation keeps; `CodexRunners` counts what still
  runs the script afterwards. What the editors ask of a command - does it run this
  script, a hub script of this name, does it lie in this directory - is three
  tests in a `Job`; the results hold for any tests that agree with each other
  (`Job.Valid`), and `CodexTable.RegistrationsAreWellFormed` shows that the tests
  of a hub checkout do.
- **Managed handlers and doctors** (`ManagedHooks`, `ManagedShape`,
  `CodexHookDiagnostics`, `AwarenessDoctor`): the reconciler of the other
  adapters, and the checks that diagnose a table or a file, used as independent
  specifications of the editors.
- **Trust** (`TrustText`, `TrustKeeps`, `CodexHookTrust`, `TrustMeaning`,
  `CodexInstall`): the `[hooks.state]` sections of `config.toml`, which record a
  hash per handler position, which lines are read and which stay, and a whole
  installation over both files.
- **Managed blocks** (`SentinelText`, `AwarenessBlock`, `AgentsBlock`,
  `BlockEdits`, `McpSection`, `McpKeeps`): blocks between sentinels and one TOML
  section, edited by substring search and by summing line lengths; `BlockEdits`
  and `McpKeeps` say what every edit makes of the text around.
- **Bounded stores** (`StateStoreCache`, `SyncObjects`, `RateLimiters`,
  `TelemetryStore`, `TelemetryMeaning`): each is a class with a ghost history, and
  its methods are proved to answer from the history.
- **Rollout and evidence** (`ReleaseControls`, `LifecycleRecords`,
  `Capabilities`): ledger folds, staged transitions, truth that expires.
- **Benchmark arithmetic** (`RelevanceMetrics`, `BalancedQueries`).
- **Counterexamples** (`Counterexamples`): concrete inputs on which a natural
  expectation of the editors fails.

`Strings`, `Stripping`, `TextLines`, `Sequences`, `Numbers` and `Options` hold
what these share.

An edit is specified by a function, which its method equals and which the
theorems about repeating and undoing it are about. What the function itself
must give is stated beside it over characters, lines, places in a list and
counts, without the function: `CodexShape.InstallInto`,
`CodexShape.UninstallKeepsForeign`, `TrustKeeps.UpsertAppends`,
`TrustKeeps.UpsertReplaces`, `McpKeeps.UpsertAround`, `BlockEdits.RemoveBetween`,
`ManagedShape.ReconcileInPlace`, `CommandMeaning.SpelledTokens`,
`ReleaseControls.DecidedByLast`, `RateLimiters.DecisionMeans` and
`TelemetryMeaning.RowMeans` are of this kind.

## What turned out not to hold

The code is modelled as it is. Where a natural expectation fails, the exact
condition is proved, and for the editors and the report an input on which it fails:

- After `install_hooks` with a trust refresh, `hub_hook_trust_mismatches` is
  empty exactly when every handler the installer reused had type `command`:
  `update_hook_command` corrects command and timeout but not the type
  (`CodexInstall.InstallPassesTrustCheck`). A hub handler written without a type
  keeps its mismatch (`Counterexamples.UntypedStaysUntrusted`).
- Uninstalling gives back the table from before an installation exactly when
  the event held foreign configuration only, without empty handler lists:
  uninstall and pruning drop entries whose list is empty
  (`CodexEvent.UninstallUndoesInstall`, `CodexTable.UninstallUndoesInstallTable`).
  An entry with an empty list is lost (`Counterexamples.EmptyListIsLost`,
  `EmptyListIsLostFromTable`).
- Prepending the awareness block twice differs from once exactly when the
  preserved user text is not blank and starts with a line break; from the third
  time on nothing changes (`AwarenessBlock.PrependTwice`; in terms of the file
  before, `AwarenessBlock.UnstableWhen`). A line
  break and a word before the block are such a text
  (`Counterexamples.PrependedTwiceDiffers`).
- `upsert_block` twice differs from once exactly when there was no block before
  and the new block brings no line break after its closing mark
  (`AgentsBlock.UpsertTwice`). Such a block in an empty file changes twice
  (`Counterexamples.UpsertedTwiceDiffers`); the block the adapter renders brings one.
- `reconcile_managed_hub_hook_event` is stable exactly when the expected command
  is itself recognised as managed (`ManagedHooks.ReconcileTwice`). With the
  command `true` every call adds an entry (`Counterexamples.ReconciledTwiceDiffers`).
- An installation leaves one handler that runs the script in a hub checkout.
  Outside one, the pruning does not recognise the installer's own command, and as
  many are left as `CodexRunners.RunnersLeft` says: of a doubled handler both
  (`Counterexamples.DoubledStaysDoubled`).
- NDCG is at most 1 for every relevant set exactly when the first k results hold
  no repetition or k is negative (`RelevanceMetrics.NeverAboveOne`), and recall
  raises exactly for `k = 0` with something to find.
- The two rate limiters agree on a trace exactly when the limit is positive or
  the trace is empty: a limit that is not positive switches one off and closes
  the other (`RateLimiters.ServeBoth`).
- A section header is found again by the reader of the trust text exactly when
  its key can stand between quotes (`TrustText.HeaderReadable`).
- The telemetry report counts all installations with an event in a period exactly
  when the period starts after second 0 of the epoch or no installation was last
  heard of on it (`TelemetryStore.ReportedIsSince`). One that was is not counted
  (`Counterexamples.SecondZeroIsLost`).
- A breakdown lists the eight most common known values, or all of fewer, exactly
  when there are fewer than eight or the unknown value is not among the eight most
  common (`TelemetryStore.EightListed`); when it is among them
  `TelemetryStore.BreakdownSays` tells by counting. Of eight known platforms behind
  an unknown one seven are listed (`Counterexamples.SevenListed`).

## Assumptions

- Hook scripts lie in a directory that ends in `/agent_runtime_kit/hooks`, and a
  script's name is not empty and has no blank, quote, backslash or `/`
  (`Script.InHub`, `Shlex.Plain`), as in every checkout. Duplicates are recognised
  by that directory marker.
- Digests of different hook identities differ (`CollisionFree`), only where
  "no new hash" or "settles" is stated; trust following a handler needs no such
  assumption.
- TOML headers of trust sections are unique (TOML v1.0.0, section "Table"); a
  managed block holds its closing mark only at its end; `\n` is the only line
  break; white space is that of `str.isspace` below code point 128.
- Clocks do not go back between calls of one limiter; of a telemetry store only
  where "some event since then" is stated (`TelemetryStore.ReportedIsSince`).

## Model

| member | source | states |
|---|---|---|
| Shlex.QuoteRoundTrip | agent_brain/agent_integrations/hook_config.py:262-269 | Splitting a quoted word gives exactly that word back, for every string. |
| Shlex.HookCommandTokens | agent_brain/agent_integrations/hook_config.py:251-270 | The command line built for an adapter and a script splits into three words, the last being the script path. |
| Shlex.PlainTailIsTokenTail | agent_brain/agent_integrations/hook_config.py:311-315 | A command that ends in a tail without quoting characters has a token with that tail, however the rest is quoted, broken quoting included. |
| CommandMeaning.SpelledTokens | agent_brain/agent_integrations/hook_config.py:311-313 | A command of words spelled with bare characters, backslashes, single and double quotes, with any blanks between them, splits into the values of those words. |
| CommandMeaning.BrokenTokens | agent_brain/agent_integrations/hook_config.py:314-315 | A command whose last word has an open quotation or a last backslash is read by its blanks alone. |
| CommandMeaning.FieldsAre | agent_brain/agent_integrations/hook_config.py:315-315 | Read by its blanks, a text gives exactly its parts between them. |
| CommandMeaning.EveryCommand | agent_brain/agent_integrations/hook_config.py:311-315 | Every string is such a command of words or such a broken one, so these results say what any command splits into. |
| CommandMeaning.QuoteMeans | agent_brain/agent_integrations/hook_config.py:262-269 | A word of safe characters is written as it is, every other one, the empty one included, between single quotes. |
| CommandMeaning.EscapeMeans | agent_brain/agent_integrations/hook_config.py:262-269 | Between them only single quotes are spelled differently, each as a closed quotation, a quoted quote and a new quotation. |
| HookCommands.AliasEndsInHub | agent_brain/agent_integrations/hook_config.py:273-296 | The current and the legacy path of a hub script both end in a hub directory marker and the script name, also when the marker occurs earlier in the path. |
| HookCommands.ScriptIsHubScript | agent_brain/agent_integrations/hook_config.py:74-81 | Every command that runs this checkout's script is also recognised as a hub script of that name from any checkout. |
| HookCommands.CanonicalCommand | agent_brain/agent_integrations/hook_config.py:251-308 | The command an installer writes runs its script, belongs to its hooks directory and is recognised as a hub script. |
| CommandMeaning.AliasesMean | agent_brain/agent_integrations/hook_config.py:273-296 | A path stands for itself and for the path whose first current hooks directory is written the old way, and for no other. |
| CommandMeaning.RunsExactly | agent_brain/agent_integrations/hook_config.py:299-302 | A hook command runs a script if and only if its path is the script's, in the current or the old layout. |
| CommandMeaning.BelongsExactly | agent_brain/agent_integrations/hook_config.py:305-308 | A hook command belongs to a hooks directory if and only if its path starts with it, in one of the two layouts. |
| CommandMeaning.NamesExactly | agent_brain/agent_integrations/hook_config.py:74-81 | A hook command is recognised by a script name if and only if its path ends in a hooks directory of either layout and that name. |
| CodexEvent.CodexJobIsValid | agent_brain/agent_integrations/codex_hooks.py:37-39 | What the Codex installer sets up for a script in a hub checkout passes the installer's own ownership tests, and whatever runs the script passes the test by name. |
| CodexTable.RegistrationsAreWellFormed | agent_brain/agent_integrations/codex.py:68-76 | The registrations of a hub checkout, one per event, meet what all results about tables ask for. |
| CodexEvent.InstallSettles | agent_brain/agent_integrations/codex_hooks.py:36-67 | Whatever an event held, after installing, the first entry with the matcher starts with the canonical handler and no other handler of the event runs a hub script of that name. |
| CodexEvent.SettledIsFixed | agent_brain/agent_integrations/codex_hooks.py:36-67 | Such a state is a fixed point of the installer, which then reports no change. |
| CodexEvent.InstallEventIdempotent | agent_brain/agent_integrations/codex_hooks.py:36-67 | Installing an event twice is installing it once, and the reported flag is true exactly when the entries changed. |
| CodexEvent.SettledHasOne | agent_brain/agent_integrations/codex_hooks.py:145-146 | A settled event has exactly one handler for the script, counted over all checkouts. |
| CodexEvent.InstallKeepsForeign | agent_brain/agent_integrations/hook_config.py:168-222 | All handlers of other tools survive an installation in order, with their entry's matcher and other keys, and untouchable entries as they are. |
| CodexShape.ForeignMeans | agent_brain/agent_integrations/hook_config.py:186-210 | What is kept as foreign is exactly every entry that is no object or holds no list, and every handler without such a command together with its entry's matcher and other keys. |
| CodexShape.InstallInto | agent_brain/agent_integrations/codex_hooks.py:36-67 | The exact entries after an installation: the first entry with the matcher holds the kept or new handler in front of its handlers that run no hub script of the name, and the others are cleaned if anything is to be pruned and otherwise stay. |
| CodexShape.InstallBehind | agent_brain/agent_integrations/codex_hooks.py:43-47 | Without an entry for the matcher a new one with the new handler comes behind all others. |
| CodexShape.InstallEventCrashes | agent_brain/agent_integrations/codex_hooks.py:48-60 | Installing an event raises exactly when the first entry with the matcher holds no list, or a value in it that is no object. |
| CodexEvent.RoundTripForeignOnly | agent_brain/agent_integrations/codex_hooks.py:106-132 | On an event with foreign configuration only, uninstalling after installing restores every entry. |
| CodexEvent.UninstallUndoesInstall | agent_brain/agent_integrations/codex_hooks.py:81-132 | Uninstalling after installing restores the event if and only if it held foreign configuration only. |
| CodexShape.UninstallKeepsForeign | agent_brain/agent_integrations/codex_hooks.py:106-132 | Uninstalling any event that does not raise leaves no handler of the directory, every foreign handler in order, in its own entry and with its metadata, untouchable entries whole, and an entry exactly where something foreign is; the flag is exact. |
| CodexShape.UninstallEventCrashes | agent_brain/agent_integrations/hook_config.py:52-61 | Uninstalling an event raises exactly at a value that is no object and has only handlers of the directory before it in its list. |
| CodexTable.InstallCrashes | agent_brain/agent_integrations/codex_hooks.py:36-67 | Installing a table raises exactly when one of its events makes an editor read a value that is not an object. |
| CodexTable.InstallEachEvent | agent_brain/agent_integrations/codex_hooks.py:36-67 | Every registered event gets the result of its own step and every other event is untouched. |
| CodexTable.InstallSettlesTable | agent_brain/agent_integrations/codex_hooks.py:25-78 | After installing a table every registered event is settled. |
| CodexTable.InstallTwice | agent_brain/agent_integrations/codex_hooks.py:25-78 | A second installation changes nothing and says so, and the first says "changed" exactly when the table changed. |
| CodexTable.InstallLeavesOneHandler | agent_brain/agent_integrations/codex_hooks.py:36-67 | After installing, every registered event has exactly one hub handler for its script and all its foreign configuration in order. |
| CodexTable.UninstallEachEvent | agent_brain/agent_integrations/codex_hooks.py:93-103 | Uninstalling any list of events, repetitions included, strips each named event by itself, leaves the others, and raises exactly when one of them does. |
| CodexTable.UninstallReportsChange | agent_brain/agent_integrations/codex_hooks.py:93-103 | Uninstall reports a change exactly when the table changed. |
| CodexTable.UninstallUndoesInstallTable | agent_brain/agent_integrations/codex_hooks.py:25-103 | Uninstalling after installing gives the table back, absent events becoming empty lists, if and only if the registered events held foreign configuration only. |
| CodexShape.UninstallKeepsForeignTable | agent_brain/agent_integrations/codex_hooks.py:81-103 | The same for any table and list of events: each named event keeps what is foreign, every other stays as it is, and it raises exactly when a named event does. |
| CodexRunners.RunnersLeft | agent_brain/agent_integrations/hook_config.py:194-222 | After an installation of any event the script is run by one handler, plus the unrecognised ones of other entries, plus the further ones of the target entry where the installer's command is not recognised as a hub script; so by one alone in a hub checkout. |
| Counterexamples.DoubledStaysDoubled | agent_brain/agent_integrations/hook_config.py:194-222 | Of the installer's own handler, standing twice in one entry, both are left by an installation of a script outside hub checkouts. |
| Counterexamples.EmptyListIsLost | agent_brain/agent_integrations/codex_hooks.py:106-132 | An entry of another tool with an empty handler list is gone after an installation and an uninstallation. |
| Counterexamples.EmptyListIsLostFromTable | agent_brain/agent_integrations/codex_hooks.py:25-103 | The same for a table with that entry under a registered event. |
| CodexHooks.MatchingEntry | agent_brain/agent_integrations/codex_hooks.py:135-142 | The search finds the first entry with the matcher, or none. |
| CodexHooks.HookScriptPresent | agent_brain/agent_integrations/hook_config.py:64-71 | The scan finds whether a handler runs the script, and raises exactly when a value that is not an object stands before the first that does. |
| CodexHooks.UpdateHookCommand | agent_brain/agent_integrations/hook_config.py:225-248 | The loop brings exactly the handlers that run the script to the canonical command and timeout, drops their legacy timeout, and reports whether any changed. |
| CodexHooks.MoveScriptHookFirst | agent_brain/agent_integrations/codex_hooks.py:149-164 | The first handler that runs the script moves to the front and the others keep their order. |
| CodexHooks.PruneHandlers | agent_brain/agent_integrations/hook_config.py:194-210 | The inner loop keeps the first current handler of the entry to keep and every handler that runs no hub script of the name. |
| CodexHooks.PlaceHandler | agent_brain/agent_integrations/codex_hooks.py:48-64 | Updating or inserting and then moving gives the target entry's handlers of the specification, with an exact change flag. |
| CodexHooks.HookBelongsTo | agent_brain/agent_integrations/hook_config.py:52-61 | True exactly for a list that is not empty and lies wholly in the directory; raises at a value that is not an object if all before it belong. |
| CodexHooks.EntryList.Install | agent_brain/agent_integrations/codex_hooks.py:36-67 | The loop body edits an event's list in place into the specified one and reports the exact change. |
| CodexHooks.EntryList.PruneDuplicates | agent_brain/agent_integrations/hook_config.py:168-222 | Pruning in place equals the specified pruning; entries with an empty list go only when something else changed. |
| CodexHooks.EntryList.RemoveOwned | agent_brain/agent_integrations/codex_hooks.py:106-132 | Removing a hooks directory's handlers from an event gives the specified entries, with the comparison that follows. |
| CodexHooks.HookFile.InstallHooks | agent_brain/agent_integrations/codex_hooks.py:25-70 | The loop over events leaves the specified table, writes only when something changed, and leaves the file alone on an error. |
| CodexHooks.HookFile.UninstallHooks | agent_brain/agent_integrations/codex_hooks.py:81-103 | The loop over events leaves the specified table and leaves the file alone on an error. |
| CodexHookDiagnostics.DiagnoseHooks | agent_brain/agent_integrations/codex_hook_diagnostics.py:45-61 | The doctor's loop appends each event to exactly the lists its four predicates call for, in order. |
| CodexHookDiagnostics.AllFindingsMean | agent_brain/agent_integrations/codex_hook_diagnostics.py:45-61 | The lists name, in order, exactly the events without the script, with the script only outside the first matching entry, with it there behind another handler, and with an old timeout on a handler that runs it. |
| CodexHookDiagnostics.SettledIsHealthy | agent_brain/agent_integrations/codex_hook_diagnostics.py:144-208 | None of the four structural checks complains about a settled event. |
| CodexHookDiagnostics.InstalledIsHealthy | agent_brain/agent_integrations/codex_hook_diagnostics.py:45-98 | After an installation from any table the doctor finds nothing missing, shadowed, not first or with a legacy timeout. |
| TrustText.TrustedHashes | agent_brain/agent_integrations/codex_hook_trust.py:163-172 | The reading loop computes the map from section keys to trusted hashes, for headers and hashes that stand on one line each. |
| TrustKeeps.HeaderMeans | agent_brain/agent_integrations/codex_hook_trust.py:48-48 | A line is read as a key's header exactly when it is spelled as one: bracket, name, key without quotes between quotes, bracket and blanks, for writing also with a blank before the key. |
| TrustKeeps.HashMeans | agent_brain/agent_integrations/codex_hook_trust.py:49-49 | A hash is read from a line exactly when it assigns it, with blanks around the equals sign and behind the quotes. |
| TrustKeeps.ReadMeans | agent_brain/agent_integrations/codex_hook_trust.py:163-172 | Reading gives for a key exactly the first hash assigned in the last of its sections that assigns one before the next bracket. |
| TrustText.HeaderReadable | agent_brain/agent_integrations/codex_hook_trust.py:48-49 | For a key on one line, the header line written for it is read back as that key if and only if the key is not empty and has no double quote. |
| TrustText.UpsertShape | agent_brain/agent_integrations/codex_hook_trust.py:239-240 | Updating an existing section keeps all lines before it and all lines from the next section on, and puts the new block in between. |
| TrustKeeps.UpsertAppends | agent_brain/agent_integrations/codex_hook_trust.py:229-238 | Without a header of the key the whole text stays as it is, and behind it come only a line break, the state-table line where it is missing and a blank line, and then the section. |
| TrustKeeps.UpsertReplaces | agent_brain/agent_integrations/codex_hook_trust.py:239-261 | Otherwise the section of the first header with a blank, or of the first plain one if there is none, is replaced up to the next bracket, and all other lines stay. |
| TrustKeeps.UpsertAllKeepsOutside | agent_brain/agent_integrations/codex_hook_trust.py:225-241 | After any list of updates every line outside the updated keys' sections is there in order; what is added outside them is empty lines and the state-table line. |
| TrustText.UpsertReads | agent_brain/agent_integrations/codex_hook_trust.py:225-261 | Writing one hash sets exactly that key of what is read back, whether its section existed or was appended, and keeps headers unique. |
| TrustText.UpsertAllReads | agent_brain/agent_integrations/codex_hook_trust.py:225-241 | Reading back after any list of updates gives the old map overridden by the updates in order. |
| CodexHookTrust.KeyInjective | agent_brain/agent_integrations/codex_hook_trust.py:52-58 | Different positions never share a state key, decimal indices included. |
| TrustMeaning.KeySpells | agent_brain/agent_integrations/codex_hook_trust.py:52-58 | A state key is the file, the event's label and the numbers of entry and handler in decimal notation, with colons between. |
| TrustMeaning.OneIdentity | agent_brain/agent_integrations/codex_hook_trust.py:61-94 | Two handlers of an event share a hash input if and only if command, async flag and status message agree and matcher and timeout make no difference to Codex: no matcher for two events, empty as absent, 600 seconds as absent, at least one second. |
| TrustMeaning.EventsApart | agent_brain/agent_integrations/codex_hook_trust.py:81-84 | Handlers of different events never do. |
| CodexHookTrust.TrustUpdates | agent_brain/agent_integrations/codex_hook_trust.py:126-160 | The nested loops compute exactly the wanted positions with their hashes: hub handlers, and command handlers whose hash was trusted before. |
| CodexHookTrust.TrustFollows | agent_brain/agent_integrations/codex_hook_trust.py:97-160 | Once the updates are written, a handler is trusted at its position if and only if it is a hub handler or its hash was trusted at some position before. |
| CodexHookTrust.NoNewHash | agent_brain/agent_integrations/codex_hook_trust.py:152-159 | Writing the updates makes no foreign hash trusted that was not. |
| CodexHookTrust.UpdatesSettle | agent_brain/agent_integrations/codex_hook_trust.py:113-117 | Computing the updates again afterwards finds everything current. |
| CodexHookTrust.MismatchesOfEvent | agent_brain/agent_integrations/codex_hook_trust.py:189-221 | The loop over an event's entries reports the event once for every wrong hash and once when no handler is found; for an event without a label it raises exactly when a handler is found. |
| TrustMeaning.MismatchesMean | agent_brain/agent_integrations/codex_hook_trust.py:175-222 | The check names exactly the registered events that have no command handler for the script in an entry with the matcher, or one whose key does not hold its present hash. |
| CodexHookTrust.InstalledEventTrust | agent_brain/agent_integrations/codex_hook_trust.py:175-222 | After an installation the trust check of one event passes if and only if the handler that was reused, if any, has type command. |
| CodexHookTrust.InstalledIsTrusted | agent_brain/agent_integrations/codex_hook_trust.py:175-222 | The same for all registered events together. |
| CodexInstall.UpsertTrustedHashes | agent_brain/agent_integrations/codex_hook_trust.py:225-241 | The loop over the sorted updates computes the text of the specification. |
| CodexInstall.RefreshReads | agent_brain/agent_integrations/codex_hook_trust.py:97-123 | After a refresh the trusted hashes are the old ones overridden by the updates, whether the text was written or left alone. |
| CodexInstall.RefreshKeepsOutside | agent_brain/agent_integrations/codex_hook_trust.py:97-123 | A refresh keeps every line of config.toml outside the sections of the updated keys, in order. |
| CodexInstall.InstallKeepsOutside | agent_brain/agent_integrations/codex_hooks.py:69-78 | So does a whole installation. |
| CodexInstall.InstallKeepsTrust | agent_brain/agent_integrations/codex_hooks.py:69-78 | After one installation over both files, a handler is trusted at its possibly shifted position if and only if it is a hub handler or its hash was trusted before. |
| CodexInstall.InstallsTwice | agent_brain/agent_integrations/codex_hooks.py:25-78 | The second of two installations changes neither the table nor the trust text and reports so. |
| CodexInstall.InstallPassesTrustCheck | agent_brain/agent_integrations/codex_hook_trust.py:175-222 | After an installation from any state the trust check is empty if and only if every reused handler was a command handler. |
| Counterexamples.UntypedStaysUntrusted | agent_brain/agent_integrations/codex_hook_trust.py:175-222 | After an installation over an empty config.toml and a hub handler without a type the trust check still reports its event. |
| CodexInstall.CodexHome.SyncTrust | agent_brain/agent_integrations/codex_hook_trust.py:97-123 | The refresh computes the updates of the present table, leaves the text alone when all are current, and otherwise writes them; the flag is exact. |
| CodexInstall.CodexHome.Install | agent_brain/agent_integrations/codex_hooks.py:25-78 | The whole installation is the table step followed by the refresh; an error while editing leaves both files as they were. |
| ManagedHooks.ManagedEntries.StripManaged | agent_brain/agent_integrations/hook_config.py:84-118 | The nested loops return the entries without owned handlers, their number, and the slot of the first. |
| ManagedHooks.ManagedEntries.RemoveManaged | agent_brain/agent_integrations/hook_config.py:121-133 | Removal leaves the stripped entries and returns how many handlers went. |
| ManagedHooks.ManagedEntries.Reconcile | agent_brain/agent_integrations/hook_config.py:136-165 | Raises exactly for a script that is not managed, leaving the list alone; otherwise the list becomes the specified one and the flag says whether it differs. |
| ManagedHooks.StripKeepsForeign | agent_brain/agent_integrations/hook_config.py:84-118 | Stripping keeps all foreign configuration in order with its metadata. |
| ManagedShape.ManagedMeans | agent_brain/agent_integrations/hook_config.py:74-104 | A handler is managed exactly when it is an object and some word of its command ends in a hooks directory of either layout and one of the names. |
| ManagedShape.ForeignItemsMean | agent_brain/agent_integrations/hook_config.py:93-118 | What is kept as foreign is exactly every entry without handlers and every other handler together with its entry's matcher and other keys. |
| ManagedShape.StripShape | agent_brain/agent_integrations/hook_config.py:84-133 | Removal leaves no managed handler and every foreign one, in order and in its own entry; an entry goes exactly when it held managed handlers only, and the number returned is the number of handlers lost. |
| ManagedHooks.ReconcileConverges | agent_brain/agent_integrations/hook_config.py:136-165 | One call leaves exactly one managed handler and all foreign configuration in order; removing afterwards equals removing before, and the slot stays. |
| ManagedShape.ReconcileInFront | agent_brain/agent_integrations/hook_config.py:153-161 | Placed first, the canonical entry, spelled out, stands before the stripped entries. |
| ManagedShape.ReconcileInPlace | agent_brain/agent_integrations/hook_config.py:157-161 | Otherwise it takes the place of the first entry that held a managed handler, behind everything that stood before it. |
| ManagedShape.ReconcileBehind | agent_brain/agent_integrations/hook_config.py:157-161 | With no managed handler it comes behind all entries, and they stay as they are. |
| ManagedShape.OwnedOrNot | agent_brain/agent_integrations/hook_config.py:93-111 | Every event has no managed handler, or is divided at the first entry with one. |
| ManagedHooks.ReconcileTwice | agent_brain/agent_integrations/hook_config.py:136-165 | A second call changes nothing if and only if the expected command is recognised as managed. |
| Counterexamples.ReconciledTwiceDiffers | agent_brain/agent_integrations/hook_config.py:136-165 | For the command `true`, whatever names are managed, the second call changes the event again. |
| ManagedHooks.DiagnoseEvent | agent_brain/agent_integrations/qoder_diagnostics.py:56-86 | The doctor's loops collect an event's managed commands in order and name the first problem. |
| ManagedShape.ProblemCount | agent_brain/agent_integrations/qoder_diagnostics.py:62-79 | For any event the doctor complains about the number of managed handlers, wherever they stand, exactly when it is not one, and names it. |
| ManagedShape.ProblemOfOne | agent_brain/agent_integrations/qoder_diagnostics.py:80-86 | Of the only one it says exactly whether it runs another script, then whether its command differs, and else nothing. |
| ManagedHooks.ReconciledIsHealthy | agent_brain/agent_integrations/qoder_diagnostics.py:54-94 | After reconciling with a command that runs a managed hub script, the doctor finds no problem, whatever the event held. |
| ManagedHooks.DoctorCounts | agent_brain/agent_integrations/qoder_diagnostics.py:62-79 | The doctor complains about the number of handlers exactly when removal would not remove exactly one. |
| SentinelText.BeginAtBlock | agent_brain/agent_integrations/awareness.py:96-98 | No earlier opening mark can arise across the line break in front of a new block, so the search finds the block. |
| SentinelText.EndOfBlock | agent_brain/agent_integrations/awareness.py:202-206 | The end found for a block is the end of that block, whatever follows it. |
| SentinelText.BlockOfLines | agent_brain/agent_integrations/awareness.py:81-82 | A block whose closing mark stands on its own line holds that mark only at its end. |
| SentinelText.SentinelsAreValid | agent_brain/agent_integrations/codex_config.py:23-24 | The marks of both editors meet what the results ask of marks. |
| BlockEdits.MarkedOrNot | agent_brain/agent_integrations/awareness.py:202-206 | Every text has no opening mark, or is divided into the text before the first one, the block up to the first closing mark or the end, and the rest. |
| AwarenessBlock.InstructionFile.Install | agent_brain/agent_integrations/awareness.py:85-129 | The file ends with the specified text, the flag is exact where a block was there, and user text is backed up exactly when it is overwritten. |
| AwarenessBlock.InstructionFile.Uninstall | agent_brain/agent_integrations/awareness.py:132-152 | The file keeps the specified text or is removed when that is blank, with the flag and the backup that go with it. |
| BlockEdits.AppendOver | agent_brain/agent_integrations/awareness.py:106-110 | Installing at the end over a block exchanges the block and leaves both sides, character for character. |
| BlockEdits.AppendBehind | agent_brain/agent_integrations/awareness.py:121-128 | Without a block it comes behind the whole text and one empty line. |
| BlockEdits.PrependOver | agent_brain/agent_integrations/awareness.py:209-218 | Installing at the front puts the block first and behind it the user's text from both sides, unless that is blank. |
| BlockEdits.PrependBefore | agent_brain/agent_integrations/awareness.py:114-119 | The same for a file without a block. |
| BlockEdits.RemoveBetween | agent_brain/agent_integrations/awareness.py:142-152 | Removing a block leaves the text before it without its last line breaks and the text behind it without its first ones, with one line break between exactly when both are there; it is blank exactly when both sides are. |
| BlockEdits.AroundKeeps | agent_brain/agent_integrations/awareness.py:144-146 | What is dropped on each side is line breaks only, and the result starts with the one side and ends with the other. |
| BlockEdits.NothingToRemove | agent_brain/agent_integrations/awareness.py:137-141 | A text without a block stays as it is. |
| BlockEdits.UserContentAround | agent_brain/agent_integrations/awareness.py:142-151 | There is something to back up exactly when one of the sides is not blank. |
| BlockEdits.UserContentAlone | agent_brain/agent_integrations/awareness.py:137-141 | Without a block, exactly when the text is not blank. |
| AwarenessBlock.AppendTwice | agent_brain/agent_integrations/awareness.py:85-129 | Appending or updating in place twice equals once, for every text. |
| AwarenessBlock.PrependTwice | agent_brain/agent_integrations/awareness.py:103-109 | Prepending twice differs from once if and only if the preserved text is not blank and starts with a line break; a third time never differs. |
| Counterexamples.PrependedTwiceDiffers | agent_brain/agent_integrations/awareness.py:85-129 | With a line break, a word and a line break before the block, prepending twice is not prepending once. |
| AwarenessBlock.UnstableWhen | agent_brain/agent_integrations/awareness.py:209-218 | That is the case exactly when a block is there, the text before it starts with a line break and is not only line breaks, and the text around the block is not blank. |
| AwarenessBlock.RemoveAppended | agent_brain/agent_integrations/awareness.py:132-152 | Removing an appended block gives the user's text back without its final line breaks. |
| AwarenessBlock.RemovePrepended | agent_brain/agent_integrations/awareness.py:132-152 | Removing a prepended block gives the user's text back without outer line breaks and final blanks, ended by one line break. |
| AwarenessBlock.RemoveUpdated | agent_brain/agent_integrations/awareness.py:132-152 | Removing after an update in place equals removing before it. |
| AwarenessDoctor.Diagnose | agent_brain/agent_integrations/awareness.py:155-199 | The check names the first thing wrong: no file, a mark missing, the block not first, or the required texts the found block lacks, in order. |
| BlockEdits.VerdictMeans | agent_brain/agent_integrations/awareness.py:163-184 | A missing file, a missing mark, and a block that something other than blanks precedes are reported exactly for such files. |
| BlockEdits.HealthyMeans | agent_brain/agent_integrations/awareness.py:185-199 | A complete block is healthy exactly when every required text occurs in it, and otherwise exactly the others are named. |
| BlockEdits.MissingInOrder | agent_brain/agent_integrations/awareness.py:187-187 | They are named in the order in which they are required. |
| AwarenessDoctor.AppendedVerdict | agent_brain/agent_integrations/awareness.py:155-199 | After an installation at the end, whatever the file held, the check sees exactly the new block and can only miss texts that block lacks. |
| AwarenessDoctor.PrependedVerdict | agent_brain/agent_integrations/awareness.py:178-199 | After an installation at the front, whatever the file held, the check that the block comes first passes as well. |
| AgentsBlock.AgentsFile.Install | agent_brain/agent_integrations/codex_agents.py:25-32 | The file ends with the specified text and is written exactly when that differs. |
| AgentsBlock.AgentsFile.Uninstall | agent_brain/agent_integrations/codex_agents.py:35-43 | The file ends with the specified text and stays, and the flag is exact. |
| BlockEdits.UpsertOver | agent_brain/agent_integrations/codex_config.py:136-141 | `upsert_block` over a block exchanges it and puts what follows on a new line; both sides stay. |
| BlockEdits.UpsertBehind | agent_brain/agent_integrations/codex_config.py:130-135 | Without a block it comes behind the whole text and one empty line. |
| BlockEdits.RemoveOver | agent_brain/agent_integrations/codex_config.py:144-153 | `remove_block` leaves the text before without its final blanks, ended by a line break unless blank, and the text behind the block's line. |
| BlockEdits.NothingToRemoveThere | agent_brain/agent_integrations/codex_config.py:145-146 | A text without a block stays as it is. |
| BlockEdits.RenderedHolds | agent_brain/agent_integrations/codex_agents.py:14-22 | The rendered block holds the source and the whole guidance up to final blanks between its marks. |
| AgentsBlock.UpsertTwice | agent_brain/agent_integrations/codex_config.py:127-141 | Twice equals once if and only if a block was there or the block brings a line break after its closing mark; from the second time on nothing changes. |
| Counterexamples.UpsertedTwiceDiffers | agent_brain/agent_integrations/codex_config.py:127-141 | A block that ends with its closing mark, put into an empty file, changes the file a second time. |
| AgentsBlock.RemoveAfterUpsert | agent_brain/agent_integrations/codex_config.py:127-153 | Removing after an upsert equals removing before it where a block was there, and otherwise restores the text up to its final blanks. |
| AgentsBlock.RenderedBlock | agent_brain/agent_integrations/codex_agents.py:14-22 | The rendered block is a block with one line break behind it, unless its text holds the closing mark. |
| AgentsBlock.RenderedRoundTrip | agent_brain/agent_integrations/codex_agents.py:14-43 | Installing the rendered block is stable and removing it restores the text up to final blanks, ended by a line break. |
| McpSection.SectionBounds | agent_brain/agent_integrations/codex_config.py:93-114 | The offsets the two loops sum up are the text lengths before the header's line and before the next section's line. |
| McpSection.UpsertTwice | agent_brain/agent_integrations/codex_config.py:51-66 | Writing the section twice equals once, for every text. |
| McpSection.UpsertKeepsOutside | agent_brain/agent_integrations/codex_config.py:51-66 | With a section or without one, after writing, the section holds exactly the new lines, and the text before it and the text after it are, up to their final blanks, character for character those of the file before. |
| McpKeeps.HeaderLineMeans | agent_brain/agent_integrations/codex_config.py:99-99 | A line opens the section exactly when it is the header between blanks. |
| McpKeeps.OpensMeans | agent_brain/agent_integrations/codex_config.py:110-110 | A line ends it exactly when its first character that is no blank is a bracket. |
| McpKeeps.UpsertAround | agent_brain/agent_integrations/codex_config.py:51-66 | For a text of lines without the header, the header, lines that no bracket starts, and a rest that a bracket starts, the section is exactly the middle, and the new text is what stood before, the new section and the whole rest, up to final blanks. |
| McpKeeps.UpsertBehind | agent_brain/agent_integrations/codex_config.py:53-57 | A text without the header keeps all its characters up to final blanks, and the section comes behind an empty line. |
| McpKeeps.DividedOrNot | agent_brain/agent_integrations/codex_config.py:93-114 | Every text is one or the other. |
| McpSection.McpBlockIsSection | agent_brain/agent_integrations/codex_config.py:47-48 | What the adapter writes for a command path on one line is such a section. |
| McpKeeps.McpBlockLines | agent_brain/agent_integrations/codex_config.py:47-48 | It is the line of the header and the line of the command. |
| StateStoreCache.RecencyMeaning | web/state_store.py:451-463 | The recency list of a history holds exactly the requested keys, once each, ordered by their last request. |
| StateStoreCache.Requested | web/state_store.py:454-462 | The most recent n keys after a request follow from the most recent n before it: bounding the cache loses nothing. |
| StateStoreCache.Cache.PopOldest | web/state_store.py:436-439 | Removing the oldest entry closes exactly its store. |
| StateStoreCache.Cache.GetStateStore | web/state_store.py:451-463 | On every run the cached keys are the most recent distinct ones in recency order, a store is open exactly while it is cached, and the returned store is open and cached. |
| StateStoreCache.Cache.Clear | web/state_store.py:423-448 | Clearing closes every store ever created and starts a new history. |
| SyncObjects.SyncStore.AddSyncObjects | web/state_store.py:157-205 | The loops insert the rows that are new, count accepted plus existing as all rows and accepted as the growth of the tenant's objects, and refresh the counters of exactly the devices in the batch. |
| SyncObjects.SyncStore.SyncStats | web/state_store.py:278-300 | The statistics are the counts over the tenant's rows, the devices seen in the last 24 hours, and the latest time any of its devices was seen. |
| SyncObjects.HeartbeatIsRepaired | web/state_store.py:230-258 | After a heartbeat the device's counter is right if and only if the reported count, below zero taken as zero, is the number of its objects, and every other counter is as right as before; after the next push it is right if and only if the device took part or it was right. |
| SyncObjects.SyncStore.TouchSyncDevice | web/state_store.py:230-258 | A heartbeat sets what the device reports, counts below zero taken as zero, and the time, and touches no other device. |
| SyncObjects.PushMeans | web/state_store.py:184-203 | After a push every device of the batch was seen now, keeps its name and version, empty for a new one, and counts its own objects; all others are as before. |
| SyncObjects.InsertAllAdds | web/state_store.py:166-183 | Insertion changes no stored object and no other tenant, adds only rows of the batch, and leaves every row's key stored. |
| SyncObjects.FirstRowWins | web/state_store.py:168-183 | Among rows of a batch with the same new key the first is stored. |
| SyncObjects.PushRepairs | web/state_store.py:191-203 | After a push a counter is right if and only if its device took part or it was right before. |
| SyncObjects.PushesKeepCounters | web/state_store.py:157-205 | Over every run of pushes every device's counter equals the number of its objects. |
| SyncObjects.AnyOrder | web/state_store.py:157-205 | Pushes of any tenants, interleaved at will, that agree on shared keys of a tenant store the same objects in any order, division into batches and repetition. |
| SyncObjects.CountersAddUp | web/state_store.py:278-300 | The counters of a tenant's devices add up to the number of objects the statistics report. |
| RateLimiters.MinuteLimiter.Allow | deploy/telemetry_server.py:237-255 | Accepts exactly when fewer than `limit` of all hits ever accepted for the address are younger than 60 seconds; popping and garbage collection change no decision, and after an accepted hit at most 10,000 addresses are stored or only those accepted in the last minute. |
| RateLimiters.RateLimitMiddleware.Handle | web/app.py:71-91 | The same for the list form, with a limit that is not positive switching it off; at most 10,001 addresses are stored, or besides the caller only those accepted in the last minute. |
| RateLimiters.RateLimitMiddleware.Prune | web/app.py:61-69 | Exactly the addresses without an accepted hit in the last minute leave; the others keep their hits, and no later decision changes. |
| RateLimiters.ServeMinute | deploy/telemetry_server.py:231-255 | On every ordered trace the deque form decides each request by the full history. |
| RateLimiters.ServeWeb | web/app.py:61-91 | On every ordered trace the list form decides each request by the full history when it is switched on, and accepts all when it is not. |
| RateLimiters.ServeBoth | deploy/telemetry_server.py:231-255 | Both forms decide a trace the same if and only if the limit is positive or the trace is empty. |
| RateLimiters.AtMostLimit | deploy/telemetry_server.py:237-255 | No window of 60 seconds, wherever it starts, holds more than `limit` accepted hits of one address. |
| RateLimiters.DecisionMeans | deploy/telemetry_server.py:237-255 | Told from a trace and its earlier decisions alone: a request is accepted if and only if fewer than `limit` requests of its address were accepted less than 60 seconds before. |
| TelemetryStore.RowAfter | deploy/telemetry_server.py:81-116 | The upsert of an event turns every row into what the longer history says: first and last time, last installation and activity, last known channel and adapter. |
| TelemetryMeaning.RowExists | deploy/telemetry_server.py:81-116 | There is a row exactly for every installation with an event. |
| TelemetryMeaning.RowMeans | deploy/telemetry_server.py:88-95 | It was first seen at its first event; its last time, platform, architecture and version are those of its last event. |
| TelemetryMeaning.RowKeeps | deploy/telemetry_server.py:90-102 | Its last installation and activity are its last events of the kind, and its channel and adapter the last ones an event has named. |
| TelemetryStore.ReportedIsSince | deploy/telemetry_server.py:143-151 | With a clock that does not go back, the installations counted for a period are those with an event of that kind in it, if and only if the period starts after second 0 or none of them was last heard of on it. |
| TelemetryStore.CountsSince | deploy/telemetry_server.py:143-151 | With such a clock one installation counts for a period exactly when the history holds an event of that kind in it and its last one is not of second 0. |
| Counterexamples.SecondZeroIsLost | deploy/telemetry_server.py:143-145 | An installation whose only event fell on second 0 was active in the day around it and is not counted. |
| TelemetryStore.Store.Record | deploy/telemetry_server.py:75-122 | After recording any event, both tables again say what the history says, of the last 180 days all of it. |
| TelemetryStore.Store.Report | deploy/telemetry_server.py:124-210 | The counts of the last day and week, the total, the 14-day trend, the four breakdowns and the 20 most recent installations are those of the full history; the purge is invisible. |
| TelemetryStore.BreakdownSays | deploy/telemetry_server.py:152-155 | A breakdown lists exactly the known ones among the eight most common values, largest first, with their numbers of installations; the unknown value takes a place when it is among them, which it is when less than eight known values have at least as many installations, and not when eight have more. |
| TelemetryMeaning.SharesMean | deploy/telemetry_server.py:152-155 | Every value a breakdown lists comes with the number of installations whose events show it in that column. |
| TelemetryMeaning.RecentMeans | deploy/telemetry_server.py:171-171 | The recent installations are ordered by their last events, are 20 or all, and none left out was heard of later than one listed. |
| TelemetryStore.EightListed | deploy/telemetry_server.py:178-186 | As many known values are listed as there are, up to eight, if and only if there are fewer than eight or the unknown value is not among the eight most common. |
| Counterexamples.SevenListed | deploy/telemetry_server.py:178-186 | Of eight known platforms behind a more common unknown one seven are listed. |
| TelemetryStore.Store.DailyTrend | deploy/telemetry_server.py:159-169 | The loop lists 14 consecutive days, oldest first, each with its counts. |
| TelemetryMeaning.OnDayMeans | deploy/telemetry_server.py:79-79 | An installation counts for a day exactly with an event of the kind from the day's first second to before the next day's. |
| ReleaseControls.ReleaseStore.SetRelease | agent_brain/agent_integrations/release_controls.py:81-156 | The call has the specified outcome and state: an invalid percentage raises before the transition is checked, a transition that is not allowed only leaves a record. |
| ReleaseControls.NextControls | agent_brain/agent_integrations/release_controls.py:107-128 | A call that does not pass changes no control, and no call moves another adapter. |
| ReleaseControls.NextOwn | agent_brain/agent_integrations/release_controls.py:123-150 | A passed call stores the requested stage with a percentage that fits it, by an allowed step, and records it; others leave control and passed stages alone. |
| ReleaseControls.StepMeans | agent_brain/agent_integrations/release_controls.py:81-156 | For every stored state and request: a percentage outside 1 to 100 for a canary raises and changes nothing, a stage the stored one does not lead to leaves a record only, and every other request stores stage and percentage and leaves a record. |
| ReleaseControls.RunAgrees | agent_brain/agent_integrations/release_controls.py:81-156 | On every run the stored stage stays the last that passed in the ledger, reached by allowed steps, with a fitting percentage. |
| ReleaseControls.OthersNeverMove | agent_brain/agent_integrations/release_controls.py:123-134 | Requests for other adapters leave an adapter's control and history as they are. |
| ReleaseControls.NoDefaultWithoutCanary | agent_brain/agent_integrations/release_controls.py:24-30 | On every run from any state in which file and ledger agree, the empty one included, each default stage has a canary since the adapter was last in shadow, disabled or unset. |
| ReleaseControls.NoCanaryWithoutShadow | agent_brain/agent_integrations/release_controls.py:24-30 | On every such run each canary stage comes after a shadow stage with only canaries in between. |
| ReleaseControls.KillSwitch | agent_brain/agent_integrations/release_controls.py:24-30 | Disabling passes in every state; afterwards no session gets the adapter over any run in which it is not first returned to shadow, which always passes. |
| ReleaseControls.DecideMeans | agent_brain/agent_integrations/release_controls.py:159-180 | A session is enabled exactly without a readable control, by default, or as a named session of a canary whose bucket is below the percentage; shadow and disabled are answered exactly for these stages. |
| ReleaseControls.DecidedByLast | agent_brain/agent_integrations/release_controls.py:81-180 | After any run a session gets exactly what the last request that passed for the adapter decides. |
| ReleaseControls.DecidedBefore | agent_brain/agent_integrations/release_controls.py:81-180 | Until one passes it gets what the file decided before the run. |
| ReleaseControls.ShadowHolds | agent_brain/agent_integrations/release_controls.py:24-30 | Shadowing passes in every state; afterwards no session gets the adapter over any run on which no canary passes. |
| ReleaseControls.SessionStaysEnabled | agent_brain/agent_integrations/release_controls.py:159-180 | A session that is enabled stays enabled over every run in which the rollout only goes forward. |
| ReleaseControls.ForwardRequest | agent_brain/agent_integrations/release_controls.py:209-222 | Whether a passed request goes forward follows from the stored control and the request. |
| LifecycleRecords.FreshInterval | agent_brain/agent_integrations/lifecycle_records.py:205-251 | Evidence is fresh if and only if it carries a date, its time to live is not negative and -6 s < age < ttl + 1 s. |
| LifecycleRecords.InstallationState | agent_brain/agent_integrations/lifecycle_records.py:299-346 | Installed and configured mean that some passed install, repair or upgrade has no later passed uninstall; the doctor passed if the last deciding record vouches and is fresh. |
| LifecycleRecords.RecordMeans | agent_brain/agent_integrations/lifecycle_records.py:299-346 | What one more record of each action and status does to both answers; records of other adapters do nothing. |
| Capabilities.Blockers | agent_brain/agent_integrations/capabilities.py:217-255 | The list holds exactly the reasons that apply, in the order of their kinds, for an unfinished adapter its limitations or the default text, and is empty if and only if everything required passes and is fresh. |
| Capabilities.IsVerified | agent_brain/agent_integrations/capabilities.py:112-134 | The verdict is true exactly when nothing stands against it apart from time and all needed evidence is fresh. |
| Capabilities.VerdictMeans | agent_brain/agent_integrations/capabilities.py:93-134 | Everything the verdict depends on, spelled out: implemented, not disabled, verified in time, for the two Qoder adapters with an observation among the evidence that has one of their prefixes, a runtime observation in time if required, and an injected context in time. |
| Capabilities.VerifiedInterval | agent_brain/agent_integrations/capabilities.py:93-134 | With fixed ledgers the times at which an adapter is verified are exactly one open interval. |
| Capabilities.NeverAgain | agent_brain/agent_integrations/capabilities.py:93-134 | Once the verdict is lost by ageing it never comes back without new evidence. |
| RelevanceMetrics.NdcgAtK | benchmarks/benchmark_relevance.py:114-123 | The loops compute the discounted gain over the ideal one, 0 without an ideal. |
| RelevanceMetrics.GainMeans | benchmarks/benchmark_relevance.py:115-119 | Every hit gains the discount of its place, whatever else is hit. |
| RelevanceMetrics.IdealMeans | benchmarks/benchmark_relevance.py:120-122 | No hits gain nothing, and the ideal is the gain of nothing but hits. |
| RelevanceMetrics.ReciprocalRank | benchmarks/benchmark_relevance.py:93-97 | The search returns the inverse rank of the first relevant result and 0 exactly without one. |
| RelevanceMetrics.PrecisionAndRecall | benchmarks/benchmark_relevance.py:100-111 | Without repetitions both are fractions, or not positive for a negative k, and count the same hits; recall raises exactly for k = 0 with something to find. |
| RelevanceMetrics.HitRatios | benchmarks/benchmark_relevance.py:100-111 | For a positive k precision is the number of relevant items in the first k places over k, and recall the same number over how many there could be, or 1 with nothing to find. |
| RelevanceMetrics.Rearrangement | benchmarks/benchmark_relevance.py:115-120 | Hits gain at most what as many hits in front gain, and exactly that if and only if they are in front. |
| RelevanceMetrics.NdcgBounds | benchmarks/benchmark_relevance.py:114-123 | Without repetitions NDCG lies in [0, 1] and is 1 if and only if k is positive, something is relevant and the first min(relevant, k) positions are all hits. |
| RelevanceMetrics.NeverAboveOne | benchmarks/benchmark_relevance.py:114-123 | NDCG is at most 1 for every relevant set if and only if the first k results hold no repetition or k is negative. |
| BalancedQueries.Select | benchmarks/benchmark_relevance.py:308-335 | Selects min(target, total) queries, a prefix of every bucket in order, round after round in the order of the buckets, and fairly: no bucket gave more than one more than a bucket that still has queries. |
| BalancedQueries.NonEmptyMeans | benchmarks/benchmark_relevance.py:314-314 | The buckets with queries keep their order, and only empty ones go. |
| BalancedQueries.Pass | benchmarks/benchmark_relevance.py:322-333 | One pass gives at most one query per bucket, stops at the target, and makes no progress exactly when all buckets are exhausted. |

## Left out

- Files, SQLite, HTTP, locks and threads: reading and writing are the identity and each locked method is one step; temporary files, modes and timestamps of backups are not modelled.
- SHA-256 and canonical JSON: the hash of a hook is a function of its identity, the bucket of a session one of its name.
- JSON values of a kind the code does not expect in `matcher`, `command`, `timeout` and at event level: fields are typed; entries and handlers that are not objects and `hooks` values that are not lists are modelled.
- TrustText.TrustedHashes: headers, hashes and keys that the regular expressions match across several lines are not read; line breaks other than `\n` are ordinary characters.
- TrustText.HeaderReadable: a key with a line break, which the pattern reads back across lines, is not covered.
- The order in which trust updates are written: the code sorts them; the results hold for every order.
- `prune_duplicate_hub_hook_handlers` without an entry to keep, and commands with extra environment or the fixed path prefix: other adapters use them.
- `remove_mcp_block`: it rests on a TOML library.
- Deleting single keys from the store cache (`pop`, `__delitem__`): nothing in the program calls them; stores are objects with an open flag.
- SyncObjects.SyncStore.SyncStats: times are numbers instead of ISO strings.
- TelemetryStore.Store.Report: validation of payloads, hashing of identifiers and formatting are left out; a day is a number, and ties in the lists of the most common and the most recent are broken in any way.
- Release reasons and timestamps: reading a stored reason back can differ from what was stored.
- LifecycleRecords.FreshInterval: ages are exact microseconds; the rounding of `total_seconds` to a float is not modelled.
- Capabilities.IsVerified: states, manifests and memory boundaries of the report are left out.
- RelevanceMetrics.NdcgAtK: real arithmetic with any positive, strictly falling discount instead of floats and base-2 logarithms.
- RelevanceMetrics.PrecisionAndRecall: holds of the exact values; products of float quotients may differ by rounding.
- RelevanceMetrics.Rearrangement: holds of the exact values; float sums may differ by rounding.
- RelevanceMetrics.NdcgBounds: holds of the exact values; a float quotient may miss 1 by rounding.
- RelevanceMetrics.NeverAboveOne: holds of the exact values, as above.
- BalancedQueries.Select: buckets are a list instead of a dictionary, which keeps insertion order in the same way.
- Other adapters, dashboards, report generators, the retrieval pipeline and the native sync hub.
