# Verification model of FCB

FCB ships code patches to installed Flutter apps. On the device an *updater* downloads a patch, checks it, installs it
beside the release, hands it to the runtime at the next launch, and falls back when the app keeps crashing. A patch is
either a *bytecode module* for an interpreter or a *binary diff* against an earlier native artifact. This project models
the parts of that system whose correctness is hard to see from reading one function, and proves what they promise.

`dafny verify dfyconfig.toml` checks everything.

- **The updater state machine** (`State`, `StateInvariant`, `CurrentPatch`, `CrashFallback`, `Reports`, `Updater`, `Installs`). The persisted state and every
  operation on it; an inductive invariant of every run; bounded and exact crash fallback; which patch is blamed;
  finality of the bad list; what pruning keeps, and exactly when the current patch stays installed;
  exactly which patches install, and what a success or failure report does from then on.
- **Binary diffs and patch chains** (`BinaryDiff`, `DiskRuns`, `Chain`). The prefix/suffix diff rebuilds its target and inserts as
  few bytes as any cut can. A chain of published diffs of any length rebuilds every target on the device although at
  most two artifacts are kept. `DiskRuns` shows that runs of the file-level updater are runs of the state machine.
- **Rollback events** (`EventLog`, `EventDelivery`). A bounded log, posting that may stop midway, draining; each event is
  followed by its position, so that equal events are told apart.
- **Single-flight update check** (`SingleFlight`, `SingleFlightProgress`). A transition system over any number of threads
  and keys: mutex, condition variable, slot, flight map.
- **Resumable download** (`Decimal`, `Fetch`, `Download`, `ResumeSafety`). The retry loop, and the `.part` and
  `.progress` files with a crash possible at every write.
- **The bytecode container** (`Text`, `Utf8`, `Bytecode`, `Codec`, `CodecLaws`, `CodecBytes`, `Container`, `BinaryIo`). Reader
  and writer of three format versions, their round trips in both directions, prefix-freedom, and the bytes themselves.
- **The bytecode verifier and the AOT gate** (`Verifier`, `Machine`, `AotGate`). The two-pass verifier decides a declarative
  notion of well-formedness. An abstract machine that runs the raw bytes never gets stuck on accepted code, and every
  function on which it cannot get stuck is accepted; the linear scan for call targets sees exactly
  the verified instructions.

Operations that change state in place are methods of classes (`UpdaterDisk.Updater`, `Download.Downloads`,
`BinaryIo.BinaryReader`, `BinaryIo.BinaryWriter`, `AotGate.PatchReport`), and loops are loops. Each is proved equal to a
function of the state before; the theorems are about those functions.

## What turned out to be false

- *The current patch is always installed.* Pruning does not protect a patch that runs but has not reported success, so
  two installs during its first run delete its files, and its success report then makes it current
  (`CurrentNeedNotBeInstalled`). `InstallDropsIff` says exactly what one install deletes, and `Evicts` restates it as a
  test before the install. `CurrentInstalledIffNothingEvicted` gives the exact condition over whole runs: the current patch
  is installed throughout if and only if no install evicts a running patch that goes on to report success without being
  installed again. `WellTimedRunsKeepCurrentInstalled` is the special case of runs that install nothing in between.
- *A download never panics.* A resumed download that meets four server errors and then its first 416 on the last attempt
  leaves the retry loop without an error to report. `PanicsIff` shows that this is the only case, `PanicHappens` that it
  occurs.
- *Two calls repair any download.* RFC 9110 lets a server answer a range with only some of the bytes asked for (section
  15.3.7), and the client never looks at `Content-Range`, so a call that continued with a piece fails and leaves the rest to
  the next one (`TwoCallsNeedNotSuffice`). `UndisturbedCallIff` says when one call succeeds, `EnoughCallsSuffice` bounds
  their number, and `DripCallsIff` shows that the bound is reached.
- *A patch that the server offers can be downloaded.* A body above 64 MiB is refused, so a payload above that size can
  never be fetched from scratch (`FreshDownloadIff`, `LargePayloadFails`).
- *No event is lost.* Draining without a callback throws the log away. `LostIffDiscarded`: an event is lost if and only if
  some drain without a callback found it in the log undelivered; `SecondResetIsLost` is such a run.
- *A follower always returns.* If the leader's request panics, its flight stays in the map and everyone who joins it
  waits for ever (`PanicStrandsTheRequest`; `PanicStrandsAFollower` is such a run).

## Model

| member | source | states |
|---|---|---|
| UpdaterState.FindPatch | crates/fcb_core/src/state.rs:243-247 | finds an entry exactly when the number is installed, and then an entry of that number |
| UpdaterState.SortOrders | crates/fcb_core/src/state.rs:185 | sorting a duplicate-free list by patch number makes it strictly ascending (that it is a permutation is the function's own contract) |
| UpdaterState.SelectionPrefers | crates/fcb_core/src/state.rs:388-403 | the pending patch is preferred, then the current one, then the last known good, each only if installed and not bad; none is selected exactly when none of them will do |
| StateInvariant.InvInitially | crates/fcb_core/src/state.rs:81-113 | a fresh state satisfies the invariant, and an older-schema state does after migration exactly when its own fields agree with each other |
| StateInvariant.PruneRetains | crates/fcb_core/src/state.rs:186-207 | what the prune loop leaves: no protected entry goes, the lowest numbers go first, never below two, and beyond two only protected ones stay |
| StateInvariant.InstallRetains | crates/fcb_core/src/state.rs:128-209 | from any duplicate-free state an install leaves an ordered list with the new, current and last-known-good entries and at most three in all, at most two when current is last known good |
| StateInvariant.InstallDropsIff | crates/fcb_core/src/state.rs:174-207 | exactly which installed patch an install drops |
| StateInvariant.InstallKeepsInv | crates/fcb_core/src/state.rs:128-209 | an install keeps the invariant |
| StateInvariant.LaunchKeepsInv | crates/fcb_core/src/state.rs:211-264 | a launch keeps the invariant, whether it condemns a patch, falls back or counts another attempt |
| StateInvariant.RunKeepsInv | crates/fcb_core/src/state.rs:128-309 | over every run: current is last known good or 0, last known good is not bad, a pending patch is installed, attempts stay below 3 and are positive only while the launch they count awaits its report and would be selected again, the list is ordered with at most two entries |
| StateInvariant.BadListOnlyGrows | crates/fcb_core/src/state.rs:369-386 | without losing the state file a bad patch stays bad through every run |
| StateInvariant.BadIsFinal | crates/fcb_core/src/state.rs:211-309 | once bad, a patch is never handed out again by launch or ready and never becomes current or last known good, even if reinstalled |
| StateInvariant.ReadyIffPendingAndNotBad | crates/fcb_core/src/state.rs:266-279 | in every reachable state the ready patch is the pending one, unless that is bad |
| Reports.FailureCondemns | crates/fcb_core/src/state.rs:300-309 | a reported failure adds exactly that patch to the bad list, takes exactly it from pending, current and last known good with the fallback, and changes nothing else but the launch record |
| Reports.FailureIsFinal | crates/fcb_core/src/state.rs:211-309 | over every run without a loss of the state file, a patch reported to have failed is bad from then on, never current or last known good, and never handed out |
| Reports.SuccessSettles | crates/fcb_core/src/state.rs:281-298 | an accepted report makes the launched patch current and last known good and forgets the pending one: nothing is ready, and the next launch hands out that patch if its files are there |
| UpdaterState.SuccessRefusals | crates/fcb_core/src/state.rs:281-291 | the three refusals of a success report, each exactly when it applies, leave the state alone |
| UpdaterState.MarkPatchBadCondemns | crates/fcb_core/src/state.rs:369-386 | condemning a patch removes it, and nothing else, from every role |
| CurrentPatch.CurrentInstalledIffReportsInstalled | crates/fcb_core/src/state.rs:128-309 | over every run, the current patch is installed throughout if and only if each accepted success report finds its launched patch installed |
| CurrentPatch.EvictsIff | crates/fcb_core/src/state.rs:174-207 | a test before an install tells exactly whether it leaves the running patch its files |
| CurrentPatch.CurrentInstalledIffNothingEvicted | crates/fcb_core/src/state.rs:128-309 | over every run, the current patch is installed throughout if and only if no install evicts a running patch that reports success later without being installed again |
| CurrentPatch.CurrentNeedNotBeInstalled | crates/fcb_core/src/state.rs:186-298 | counterexample family: two installs during an unreported first run leave a current patch without files |
| CurrentPatch.WellTimedRunsKeepCurrentInstalled | crates/fcb_core/src/state.rs:128-309 | when no install falls between a launch and its success report, a positive current patch is installed throughout the run |
| CrashFallback.LaunchFollowsSchedule | crates/fcb_core/src/state.rs:211-264 | one launch hands out the head of the schedule and leaves the tail |
| CrashFallback.LaunchesFollowSchedule | crates/fcb_core/src/state.rs:211-264 | from every reachable state, consecutive launches hand out exactly the schedule and then the baseline for ever |
| CrashFallback.ScheduleIsShort | crates/fcb_core/src/state.rs:211-264 | the schedule has at most four launches and never the same patch three times in a row |
| CrashFallback.LaunchCondemns | crates/fcb_core/src/state.rs:211-240 | a launch condemns at most the first choice, reports it once with three attempts, and removes it from the choices |
| CrashFallback.ExhaustionCondemnsEveryChoice | crates/fcb_core/src/state.rs:211-264 | when the baseline is reached, every choice has been marked bad and reported, in order |
| CrashFallback.RunCountsStreak | crates/fcb_core/src/state.rs:174-309 | after any run the attempt counter says how often the last launched patch was handed out since the last install or report |
| CrashFallback.BlamesExactlyTheRepeatedPatch | crates/fcb_core/src/state.rs:211-264 | a launch condemns a patch if and only if the last two launches both handed it out with no install, report or reset since |
| UpdaterDisk.Updater.AppendRollbackEvent | crates/fcb_core/src/state.rs:333-352 | appends to the log and keeps the newest fifty |
| UpdaterDisk.Updater.LoadState | crates/fcb_core/src/state.rs:81-113 | returns the migrated state, or the default when the file is missing or unreadable; an unreadable file is moved away and recorded |
| UpdaterDisk.Updater.MarkBad | crates/fcb_core/src/state.rs:369-386 | the in-place updates, in order, give the specified state |
| UpdaterDisk.Updater.LaunchPatch | crates/fcb_core/src/state.rs:211-264 | result, log and saved state of a launch; nothing is written when nothing changed |
| UpdaterDisk.Updater.Ready | crates/fcb_core/src/state.rs:266-279 | the pending patch unless it is bad or not installed; changes nothing but a corrupt file |
| UpdaterDisk.Updater.MarkSuccess | crates/fcb_core/src/state.rs:281-298 | the three refusals and the new state of an accepted report |
| UpdaterDisk.Updater.MarkFailure | crates/fcb_core/src/state.rs:300-309 | condemns the patch, records the failure and saves the state; a corrupt file is moved away first |
| UpdaterDisk.Updater.SelectDiffBase | crates/fcb_core/src/state.rs:470-499 | the backward scan finds the newest installed artifact with the expected hash, else the checked baseline |
| UpdaterDisk.Updater.SnapshotReplaceChainedDiff | crates/fcb_core/src/state.rs:434-467 | base selection, application and output hash check, with every error |
| UpdaterDisk.Updater.PruneInstalled | crates/fcb_core/src/state.rs:186-207 | the loop computes the specified list and deletes the directory of each dropped entry |
| UpdaterDisk.FindsBaseIff | crates/fcb_core/src/state.rs:470-499 | a base is chosen exactly when it is the newest installed artifact with the hash, or a baseline with the hash and no such artifact exists |
| UpdaterDisk.YieldsIff | crates/fcb_core/src/state.rs:434-467 | a diff yields an artifact exactly when its base has the announced hash, the diff turns it into the artifact, and that has the announced hash |
| UpdaterDisk.InstallsIff | crates/fcb_core/src/state.rs:128-173 | a patch installs if and only if its signature and payload hash are right, backend, kind and fields match, a bytecode payload has a good envelope, and a diff yields an artifact |
| UpdaterDisk.RefusedInstallChangesNothing | crates/fcb_core/src/state.rs:128-209 | a refused install changes neither the loaded state nor any artifact |
| UpdaterDisk.Updater.InstallPayloadWithBaseline | crates/fcb_core/src/state.rs:128-209 | reports no error exactly for installable patches, changes neither state nor artifacts otherwise, and leaves the specified disk: state, log and artifacts |
| Installs.InstalledIsLaunchedNext | crates/fcb_core/src/state.rs:128-264 | after a successful install the next launch hands out that patch with the manifest's backend and artifact flag, unless its number is bad |
| BinaryDiff.CreateSimpleDiff | crates/fcb_core/src/diff.rs:20-47 | the cut rebuilds the target, and no other cut the decoder would accept for this pair inserts fewer bytes |
| BinaryDiff.NoCutIsShorter | crates/fcb_core/src/diff.rs:20-35 | where both loops stop, every other prefix/suffix pair that rebuilds the target inserts at least as many bytes |
| BinaryDiff.ApplySimpleDiff | crates/fcb_core/src/diff.rs:70-96 | the checks in order and the output built from its three pieces |
| BinaryDiff.SimpleRoundTrip | crates/fcb_core/src/diff.rs:20-96 | for all byte strings, creating and applying a simple diff gives the target back |
| BinaryDiff.AppliesIff | crates/fcb_core/src/diff.rs:55-96 | the dispatcher yields an output exactly for the two named algorithms: what the bsdiff library yields, or a cut of this base that rebuilds it with both announced hashes |
| BinaryDiff.BsdiffTurns | crates/fcb_core/src/diff.rs:55-68 | with a bsdiff that round-trips, its patches turn base into target under the dispatcher |
| DiskRuns.InstallRefines | crates/fcb_core/src/state.rs:128-209 | a successful install moves the loaded state as the state machine's install |
| DiskRuns.LaunchRefines | crates/fcb_core/src/state.rs:211-264 | a launch on files moves the loaded state as the state machine's launch |
| DiskRuns.CallLogs | crates/fcb_core/src/state.rs:81-113 | every call logs exactly what it owes: a reset when it moved an unreadable file away, a crash report when a launch condemned a patch |
| DiskRuns.RunLogs | crates/fcb_core/src/state.rs:81-264 | over every run on files the log is the latest fifty of what was there and what the resets and condemnations owed |
| DiskRuns.RunRefines | crates/fcb_core/src/state.rs:81-309 | every run on files, with refused installs and corrupted files, is a run of the state machine |
| Chain.Publish | cli/src/main.rs:769-790 | whatever its cache holds, the command line publishes a patch that turns the base it names into the target, with the right hashes; an older publisher with the prefix/suffix diff did too |
| Chain.FindsBase | crates/fcb_core/src/state.rs:470-499 | among artifacts of one chain the search returns the target whose hash was asked for |
| Chain.NextDeliverySucceeds | cli/src/main.rs:1181-1210 | whichever base the publisher's cache made it choose, the next patch applies and yields its target |
| Chain.PruneFiles | crates/fcb_core/src/state.rs:202-206 | pruning deletes the files of the dropped entries and no others |
| Chain.DeliveryHolds | crates/fcb_core/src/state.rs:128-209 | after a delivery each installed entry has the artifact it is numbered for and only entries have files |
| Chain.ChainRebuildsEveryTarget | crates/fcb_core/src/state.rs:128-499 | for chains of any length, with launches and reports in between, every delivery succeeds and leaves exactly its target |
| Chain.AtMostTwoArtifacts | crates/fcb_core/src/state.rs:186-207 | although at most two artifacts are on disk, the newest target among them |
| EventLog.LogIsLatestSinceClear | crates/fcb_core/src/state.rs:333-352 | after any interleaving the log is the last at most fifty events appended since it was last cleared |
| EventLog.TrackingErases | updater/src/lib.rs:611-636 | following the positions of events through the calls describes the real log, posts and callbacks |
| EventLog.InLogIff | crates/fcb_core/src/state.rs:333-352 | an event is in the log exactly when it is among the last fifty and was appended since the last clear |
| EventLog.DeliveredInOrder | updater/src/lib.rs:955-984 | a flush posts oldest first up to the first refusal, each event once, and clears only when all went out; a drain hands over everything |
| EventLog.EventsAreConserved | updater/src/lib.rs:955-984 | every single event appended was posted or handed over, evicted by fifty newer ones, is still in the log, or was discarded by a drain without a callback |
| EventLog.LostIffDiscarded | updater/src/lib.rs:611-636 | over every run, an event is nowhere to be found if and only if some drain without a callback found it in the log undelivered |
| EventLog.SecondResetIsLost | updater/src/lib.rs:611-636 | a run that loses an event although an equal one was delivered |
| EventDelivery.FlushRollbackEvents | updater/src/lib.rs:955-984 | posts in order up to the first refusal and clears only when all were accepted |
| EventDelivery.DrainRollbackEvents | updater/src/lib.rs:611-636 | hands every event over, clears the log and returns the count |
| SingleFlight.InitInv | updater/src/lib.rs:861-862 | the empty map satisfies the invariant |
| SingleFlight.StepKeepsInv | updater/src/lib.rs:861-909 | every atomic step of every thread keeps the invariant tying map, slots, mutex holders and program counters |
| SingleFlight.RunKeepsInv | updater/src/lib.rs:861-909 | so does every run, with any number of callers, keys, panics and spurious wake-ups |
| SingleFlight.AtMostOneRequestPerKey | updater/src/lib.rs:880-881 | at most one request per key is running |
| SingleFlight.LeaderRemovesItsOwnFlight | updater/src/lib.rs:890-894 | the removing leader deletes the one map entry that holds the flight it inserted |
| SingleFlight.AnswerComesFromOneRequest | updater/src/lib.rs:880-894 | a leader's result is what its one request in the run returned |
| SingleFlight.CallersKeepTheirRequests | updater/src/lib.rs:861-879 | in every run each caller's request is the one it called with |
| SingleFlight.EveryCallerGetsItsOwnAnswer | updater/src/lib.rs:861-909 | every caller that returns, leader or follower, returns the outcome of one request, made by a caller with the very same request |
| SingleFlight.FollowerReturnsTheLeadersResult | updater/src/lib.rs:898-908 | in every run a follower that returns, returns what the one request of its flight's leader returned, and both called with the same request |
| SingleFlightProgress.NoLostWakeUp | updater/src/lib.rs:882-908 | a follower asleep on a filled slot still has its notification coming |
| SingleFlightProgress.SomeStepIsEnabled | updater/src/lib.rs:861-909 | while a thread is neither finished nor behind a panicked leader some step is enabled |
| SingleFlightProgress.QuiescentStates | updater/src/lib.rs:861-909 | where no step is enabled everyone has finished or waits for a panicked leader; without panics everyone returned and the map is empty |
| SingleFlightProgress.PanicStrandsTheRequest | updater/src/lib.rs:880-908 | after a leader's panic its flight stays in the map for good, later callers join it and none of them returns |
| SingleFlightProgress.PanicStrandsAFollower | updater/src/lib.rs:880-908 | such a run: one caller leads and panics, the other sleeps behind it |
| SingleFlightProgress.StepMeasure | updater/src/lib.rs:861-909 | every step lowers the measure, except a new caller and a spurious wake-up, which raise it by a constant |
| SingleFlightProgress.RunsAreBounded | updater/src/lib.rs:861-909 | a run's length is bounded by its callers and spurious wake-ups |
| Decimal.ParseRoundTrip | updater/src/lib.rs:1180-1188 | the recorded length reads back |
| Decimal.ParsesIff | updater/src/lib.rs:1187-1190 | a text reads as a number exactly when it is that number's digits below 2^64, perhaps after a plus sign, inside white space |
| Fetch.ReadBodyWithCancel | crates/fcb_core/src/server_api.rs:430-451 | the read loop computes the specified result, chunk by chunk, for every cancellation pattern |
| Fetch.DownloadBytesFromWithCancel | crates/fcb_core/src/server_api.rs:254-319 | so does the retry loop with its 416 fallback, for every server |
| Fetch.PanicsIff | crates/fcb_core/src/server_api.rs:280-318 | the exact condition under which the loop ends without an error to report |
| Fetch.PanicHappens | crates/fcb_core/src/server_api.rs:280-318 | for every offset to resume from there is a server that makes it happen |
| Fetch.FirstAnswerDecides | crates/fcb_core/src/server_api.rs:263-319 | the first answer that is neither a transport error nor a status of 500 or more decides, if it is among the first five, whatever failed before it; the fifth decides in any case |
| Fetch.ReadIff | crates/fcb_core/src/server_api.rs:430-451 | a body is read exactly when no poll finds it cancelled, it does not break off and it is within 64 MiB, and then all of it |
| Fetch.ReadIsPrefix | crates/fcb_core/src/server_api.rs:430-451 | a successful read is a prefix of what the body carries |
| Fetch.ReadsWholeBodyIffSmall | crates/fcb_core/src/server_api.rs:430-451 | an undisturbed read returns the whole body if and only if it is within 64 MiB, and otherwise fails |
| Fetch.FetchIsContiguous | crates/fcb_core/src/server_api.rs:263-319 | against a server that sends contiguous bytes, what is fetched continues the payload at the offset or is a beginning of it |
| Fetch.ConformingFetch | crates/fcb_core/src/server_api.rs:263-319 | against a server conforming to RFC 9110 one download yields the payload or a non-empty beginning of its missing rest, all of it when ranges are served whole |
| Download.Downloads.PrepareOffset | updater/src/lib.rs:1185-1199 | returns the smaller of recorded and actual length and truncates `.part` to it |
| Download.Downloads.WritePart | updater/src/lib.rs:1218-1226 | passes through every prefix of the new contents, starting from an empty file |
| Download.Downloads.AppendPart | updater/src/lib.rs:1170-1173 | passes through the old contents followed by every prefix of the new bytes |
| Download.Downloads.DownloadResumablePayload | updater/src/lib.rs:1160-1183 | the files pass through exactly the specified states and end in the last one |
| Download.Downloads.DownloadPatchFiles | updater/src/lib.rs:1131-1158 | the same for a whole call, with hash check and rename |
| ResumeSafety.KeptIsResumed | updater/src/lib.rs:1185-1199 | a call continues from the bytes on record and drops the others |
| ResumeSafety.StaleBytesAreDropped | updater/src/lib.rs:1185-1199 | with the length of a prefix on record, also inside white space, the offset is that length and `.part` is cut to the prefix |
| ResumeSafety.NothingIsDropped | updater/src/lib.rs:1185-1199 | with no number on record, or one that is not smaller, the offset is the whole length and nothing is cut |
| ResumeSafety.CallIsSafe | updater/src/lib.rs:1131-1199 | wherever a call is interrupted, the bytes kept for resuming are the payload's and a renamed file has the announced hash |
| ResumeSafety.NoWrongByteIsKept | updater/src/lib.rs:1131-1226 | the same through any number of calls, failures, cancellations and crashes |
| ResumeSafety.ResumeGrows | updater/src/lib.rs:1160-1183 | an undisturbed download stores the payload, or what was kept continued by the piece received, and records the length |
| ResumeSafety.UndisturbedCallIff | updater/src/lib.rs:1131-1158 | an undisturbed call succeeds if and only if the server did not continue the file, or the bytes kept were right and it sent all the rest; a failed call leaves strictly more bytes, as right or wrong as before |
| ResumeSafety.EnoughCallsSuffice | updater/src/lib.rs:1131-1199 | from arbitrary contents of `.part` and `.progress`, against any conforming servers, one call per missing byte and one more if the bytes kept are wrong put the payload in place |
| ResumeSafety.OneCallAfterACrash | updater/src/lib.rs:1131-1199 | one undisturbed call repairs a right prefix on record with any stale bytes after it, when the range is sent to its end |
| ResumeSafety.DisturbedCallFails | updater/src/lib.rs:1142-1152 | a call that is cancelled or has no manifest fails and leaves the payload file alone |
| ResumeSafety.DripCallsIff | updater/src/lib.rs:1131-1199 | against a conforming server that sends one byte of a range, calls succeed if and only if their number reaches that bound |
| ResumeSafety.TwoCallsNeedNotSuffice | updater/src/lib.rs:1166-1173 | so two undisturbed calls can fail, even from a correct `.part` |
| ResumeSafety.TwoCallsSuffice | updater/src/lib.rs:1131-1199 | when the first server sends ranges to their end, at most two undisturbed calls put the payload in place |
| ResumeSafety.FreshDownloadIff | crates/fcb_core/src/server_api.rs:430-451 | a fresh undisturbed download succeeds if and only if the payload is within 64 MiB |
| ResumeSafety.LargePayloadFails | crates/fcb_core/src/server_api.rs:430-451 | there is a payload, a hash and a conforming server for which it fails |
| Text.FindMarkerIsFirst | crates/fcb_core/src/bytecode.rs:690-694 | the marker search returns the first occurrence |
| Text.SplitUndoesJoin | crates/fcb_core/src/bytecode.rs:698-701 | splitting comma-free pieces joined by commas gives the pieces back |
| Text.JoinUndoesSplit | crates/fcb_core/src/bytecode.rs:698-701 | the pieces of any text hold no comma and join to the text |
| Utf8.ValidIffEncoded | crates/fcb_core/src/bytecode.rs:793-797 | a byte string is text if and only if it encodes Unicode scalar values as section 3 of RFC 3629 says |
| Utf8.BlankIff | crates/fcb_core/src/bytecode.rs:376-378 | a text is blank if and only if every character it encodes is white space |
| Bytecode.FromByteInvertsToByte | crates/fcb_core/src/bytecode.rs:18-98 | a byte decodes to an opcode if and only if it is that opcode's discriminant |
| Codec.BigEndianRoundTrip | crates/fcb_core/src/bytecode.rs:704-714 | a fixed-width integer in range reads back |
| Codec.BigEndianCanonical | crates/fcb_core/src/bytecode.rs:775-803 | every byte string is the encoding of the integer it reads as |
| CodecLaws.ConstantRoundTrip | crates/fcb_core/src/bytecode.rs:722-743 | every encodable constant reads back, leaving what follows |
| CodecLaws.ConstantCanonical | crates/fcb_core/src/bytecode.rs:799-812 | whatever reads as a constant is the encoding of that constant |
| CodecLaws.FunctionRoundTrip | crates/fcb_core/src/bytecode.rs:245-300 | in each format version an encodable function reads back |
| CodecLaws.FunctionCanonical | crates/fcb_core/src/bytecode.rs:245-300 | whatever reads as a function is encodable, and is its encoding |
| CodecLaws.ModuleRoundTrip | crates/fcb_core/src/bytecode.rs:239-354 | an encoded module followed by anything reads as the module and leaves what follows |
| CodecLaws.ModuleCanonical | crates/fcb_core/src/bytecode.rs:239-305 | the reader consumes exactly the encoding of what it returns |
| CodecLaws.ParseIgnoresWhatFollows | crates/fcb_core/src/bytecode.rs:745-832 | the result depends only on the bytes consumed |
| CodecLaws.ReadBinaryIsPrefixFree | crates/fcb_core/src/bytecode.rs:239-305 | no proper extension of a readable binary is readable |
| CodecLaws.ReadBinaryIsCanonical | crates/fcb_core/src/bytecode.rs:239-305 | a readable binary is the encoding, in its own version, of the module it reads as |
| CodecBytes.SmallestIsEncoded | crates/fcb_core/src/bytecode.rs:239-354 | the smallest module's bytes in each version, and that they are accepted |
| CodecBytes.OneOfEachIsEncoded | crates/fcb_core/src/bytecode.rs:312-354 | the bytes of a function with a constant of every kind, a source map and debug locals, field by field |
| CodecBytes.Tags | crates/fcb_core/src/bytecode.rs:321-336 | the byte for each return convention and each kind of function |
| BinaryIo.BinaryReader.Bytes | crates/fcb_core/src/bytecode.rs:814-825 | advances past the bytes it returns or fails as truncated |
| BinaryIo.BinaryReader.Constant | crates/fcb_core/src/bytecode.rs:799-812 | the cursor-based reader agrees with the parser on value, error and what is left |
| BinaryIo.BinaryReader.Function | crates/fcb_core/src/bytecode.rs:246-299 | the same for a function with all its loops |
| BinaryIo.ReadModule | crates/fcb_core/src/bytecode.rs:239-305 | the same for a whole binary |
| BinaryIo.ReadSlice | crates/fcb_core/src/bytecode.rs:209-231 | dispatch on the magic, reading and validation agree with the specification |
| BinaryIo.BinaryWriter.Number | crates/fcb_core/src/bytecode.rs:704-714 | appends the big-endian number, and fails exactly when it does not fit its width |
| BinaryIo.BinaryWriter.Constant | crates/fcb_core/src/bytecode.rs:722-743 | appends the constant's encoding, and fails exactly when a string does not fit |
| BinaryIo.BinaryWriter.Function | crates/fcb_core/src/bytecode.rs:320-352 | appends the function's version-3 encoding, and fails exactly when something does not fit its width or the return convention is unknown |
| BinaryIo.ToBinaryVec | crates/fcb_core/src/bytecode.rs:312-356 | the writer's result, or why there is none |
| Container.CheckEnvelopeOf | crates/fcb_core/src/bytecode.rs:380-436 | the checks on one function accept exactly the envelope rules |
| Container.ValidateEnvelope | crates/fcb_core/src/bytecode.rs:367-439 | version range, at least one function, every function's rules, distinct names |
| Container.Validate | crates/fcb_core/src/bytecode.rs:358-364 | accepts exactly the modules with a good envelope whose functions all verify |
| Container.EnvelopeIff | crates/fcb_core/src/bytecode.rs:367-439 | the envelope rules: versions 1 to 3, functions with different names, and in each a visible name, a known convention, room for its parameters, code, and entries that stay inside |
| Container.SliceIsReadIff | crates/fcb_core/src/bytecode.rs:209-231 | bytes with the magic are read as a binary and all others as JSON, and exactly the valid modules are accepted |
| Container.WriteThenRead | crates/fcb_core/src/bytecode.rs:209-356 | whenever writing succeeds, reading the bytes gives the module at the current version |
| Container.ReadThenWrite | crates/fcb_core/src/bytecode.rs:209-356 | re-encoding an accepted version-3 binary gives the same bytes |
| Container.Upgrade | crates/fcb_core/src/bytecode.rs:239-356 | every accepted binary re-encodes, to a version-3 binary with the same functions; version 1 and 2 functions are synchronous and version 1 has no debug locals |
| Container.AcceptedBinariesArePrefixFree | crates/fcb_core/src/bytecode.rs:227-305 | in every accepted version no proper extension of an accepted binary is accepted |
| Container.SmallestModule | crates/fcb_core/src/bytecode.rs:209-356 | in each of the three versions a concrete module has a binary that is accepted, so the theorems on accepted binaries are about something |
| Verifier.CheckOperands | crates/fcb_core/src/bytecode.rs:545-625 | accepts an instruction exactly when every index it uses exists with the right kind and named arguments fit |
| Verifier.CheckTargets | crates/fcb_core/src/bytecode.rs:632-681 | accepts an instruction exactly when its targets are instruction starts and handlers lie strictly between instruction and end; an error is one the function has |
| Verifier.ValidateBytecode | crates/fcb_core/src/bytecode.rs:521-684 | both passes decide acceptance, reads in the second pass never fail, and an error names a defect that is there |
| Verifier.RejectedIffBlamed | crates/fcb_core/src/bytecode.rs:521-684 | a function has a defect that an error can name, at an instruction start or where the division into instructions stops, if and only if it is rejected |
| Verifier.SegmentationIsUnique | crates/fcb_core/src/bytecode.rs:527-681 | code has at most one division into instructions |
| Verifier.StartsAreCuts | crates/fcb_core/src/bytecode.rs:527-529 | the collected starts are the starts of the segmentation |
| Verifier.SecondPassVisitsCuts | crates/fcb_core/src/bytecode.rs:632-681 | the second pass visits exactly the instructions of the segmentation |
| Verifier.AcceptsIffWellFormed | crates/fcb_core/src/bytecode.rs:521-684 | acceptance is equivalent to having a segmentation that meets the declarative rules, and it is unique |
| Verifier.PathsAreSound | crates/fcb_core/src/bytecode.rs:521-684 | on well-formed code every path stays on instruction starts until the end, with every operand in range |
| Verifier.AcceptedPathsAreSound | crates/fcb_core/src/bytecode.rs:521-684 | the same for whatever the verifier accepts |
| Machine.NamesThisManyIff | crates/fcb_core/src/bytecode.rs:690-702 | the named-argument count is the number of non-empty pieces between commas after the first marker |
| Machine.PerformsIff | crates/fcb_core/src/bytecode.rs:530-625 | an instruction run from its bytes gets stuck on a frame of the declared sizes exactly when the first pass objects to it |
| Machine.AcceptedNeverStuck | crates/fcb_core/src/bytecode.rs:521-684 | on accepted code every execution, wherever it branches, can read every argument, local, constant and name it needs until it reaches the end |
| Machine.AcceptsIffRunnable | crates/fcb_core/src/bytecode.rs:521-684 | and nothing else is rejected: code with room for its arguments that divides into instructions which run and branches which land is accepted |
| AotGate.BelowIff | crates/fcb_core/src/bytecode.rs:463 | the order of the listing: a proper prefix first, or the smaller byte at the first difference |
| AotGate.InsertListsTheLargerSet | crates/fcb_core/src/bytecode.rs:475 | inserting into the ordered set keeps it ordered and adds exactly the new string |
| AotGate.AscendingListingIsUnique | crates/fcb_core/src/bytecode.rs:481 | the returned vector is determined by which targets there are |
| AotGate.ScanFunction | crates/fcb_core/src/bytecode.rs:465-479 | the scan of one function adds what it names, in order and without duplicates, and stops at an unknown opcode |
| AotGate.TargetsFor | crates/fcb_core/src/bytecode.rs:462-482 | the ascending listing of the targets in all functions |
| AotGate.MissingAotTargets | crates/fcb_core/src/bytecode.rs:488-493 | the ascending listing of the targets that are not present |
| AotGate.ScanSeesTheCuts | crates/fcb_core/src/bytecode.rs:462-482 | on segmented code the scan collects exactly the strings named at instruction starts, never a byte inside an operand |
| AotGate.CallsNameStrings | crates/fcb_core/src/bytecode.rs:545-625 | a call by name in verified code, recognised by its byte, has a string target, so the scan cannot pass over one |
| AotGate.GateIsExact | crates/fcb_core/src/bytecode.rs:448-493 | on a validated module nothing is missing if and only if every static or original call in every function has its target in the set |
| AotGate.GatedCallsAreResolved | crates/fcb_core/src/bytecode.rs:448-493 | wherever control can get to in a gated module, a call by name finds its entry point |
| AotGate.GateCallOriginalAotPresence | cli/src/main.rs:825-855 | without a list of entry points the gate passes; with one it passes exactly the modules whose calls are all resolved, and otherwise adds one rejection per missing target |

## Left out

- Clocks, timestamps, sleeping and jitter: an event carries no time, and a retry happens at once.
- HTTP, sockets, redirects: a server is any function from the attempt and the requested offset to a reply. `download_bytes_from_with_cancel` on a local path is a plain read and is not modelled.
- I/O errors of the file system, directory creation and `fsync`: a crash keeps what was written in order. Failing to delete `.progress` after the rename is not modelled.
- Install is not crash-atomic in the code (directories go before the state is saved); the model has no crash inside an install.
- SHA-256, JSON, base64, Ed25519, bsdiff and zstd are parameters. What a theorem needs of them is in its `requires`: a JSON or bsdiff round trip, no collision within one chain, a hash that identifies the payload.
- The text of error messages.
- The launch status string is a datatype; a state file with any other status string is not modelled.
- The log file with lines that do not parse as events: reading it then fails as a whole.
- Manifest download and parsing: a flag says whether it succeeded. The bytecode check inside an install is a parameter there, as it is modelled in full in `Container`.
- The snapshot_replace backend is modelled as enabled; without that feature such patches are refused.
- Machine integers in `apply_simple_diff`: `prefix_len + suffix_len` is unbounded here, whereas a diff with huge lengths would overflow `usize`.
- BinaryDiff.BsdiffTurns: says only what follows from the assumed law, because the bsdiff algorithm is a library.
- SingleFlight.StepKeepsInv: the code is one function over shared memory; it is modelled as a transition system and not as imperative Dafny. A region under the map's mutex is one step, and a poisoned mutex is entered as the code does.
- ResumeSafety.EnoughCallsSuffice: for payloads within 64 MiB, beyond which no fresh download succeeds (FreshDownloadIff).
- StateInvariant.InvInitially: an older state file whose fields contradict each other (a bad current patch, a pending patch that is not installed, more than two entries) is outside the invariant, because the theorems on runs are about states an updater leaves behind.
- UpdaterDisk.Updater.InstallPayloadWithBaseline: does not model the copies of manifest and payload in the patch directory, which the operations of the state machine never read back, nor I/O errors and partial writes.
- Container.ValidateEnvelope: which envelope rule is reported first is only message text in the code, where all of them are the same error.
- Doubles are 64-bit patterns; the model does not compare them as numbers.
- The C interface, the runtime configuration, the `fcb_*` status functions, cancellation flags other than as polled, `to_vec`, `from_slice_envelope`, the constant pool, the linker, build comparison, the command-line flow around the gate and the Go server: plumbing, library calls or single-pass checks that would only add easy members.
