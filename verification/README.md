# Verified kernels of the node core

Ryu's node core (`apps/core`) is mostly host plumbing around a few dense kernels. This
project models those kernels in Dafny and proves what each is for: protocols whose safety
must hold over every interleaving, text transformations on UTF-8, a backup that must come
back byte for byte, and arbitration and naming that must not depend on accident.

Run `dafny verify dfyconfig.toml` to check everything.

| file | models |
|---|---|
| `Text.dfy`, `Utf8.dfy`, `Order.dfy` | leftmost search and replacement, UTF-8 as in section 3 of RFC 3629 with lossy decoding, string order and ordered maps |
| `AcpRuntime.dfy` | the admission gate: a counting gate whose limit changes while tasks wait |
| `BackgroundProcesses.dfy`, `BackgroundRegistry.dfy`, `BackgroundReplies.dfy` | the process registry: per-owner and global caps, ageing, eviction, one-shot stop requests, and what every call answers |
| `ComposioHost.dfy`, `ComposioRuns.dfy` | the delivery checkpoint: crashes and retries over weakly held locks and a durable run store, with the resumes, rejections, acknowledgements and runs by id that write the same store, and what it guarantees about a run |
| `MonitorsClient.dfy` | the reconcile of the job store toward the monitor list |
| `Elements.dfy`, `NestedElements.dfy`, `Entities.dfy`, `DocumentParse.dfy`, `DocumentText.dfy` | HTML reduction, truncation and decoding |
| `Crash.dfy` | home-path scrubbing |
| `Sse.dfy` | the two chunked line readers |
| `ArchivePaths.dfy`, `DataTree.dfy`, `DataExport.dfy`, `DataImport.dfy`, `DataAcceptance.dfy`, `DataRoundTrip.dfy`, `DataCopy.dfy` | the data folder: export, two-pass import and what it accepts, round trip, profile copy |
| `HistoryWalk.dfy`, `HistoryList.dfy` | the depth-capped stack walk and the windowed thread listing |
| `Lsp.dfy`, `LspArbitration.dfy`, `LspManifests.dfy`, `LspDocument.dfy` | first-registration-wins arbitration of language servers, in the manifests' own fields too, and the document it emits |
| `Needle2.dfy` | tool aliases and their decoding |
| `ToolPolicy.dfy` | the tool-effect and connection-action classifiers |

Code that works step by step is a method or a class method with loops and invariants,
proved equal to a specification function; the lemmas then prove what that function means.
The two concurrent protocols are state machines over atomic steps, and each critical
section of the code is a class method proved to take exactly one such step. Strings are
sequences of Unicode scalar values; where the code indexes bytes the model does too, and
`Utf8` proves that the two views agree. Clocks, parsers, free space, the sidecar's answers
and the order in which a hash map or a directory yields its entries are parameters or
nondeterministic.

## Where the code does less than its promise

Each item names the lemma that says exactly when the promise holds, and where that is a
separate one, the lemma with an input on which it does not.

- Scrubbing removes every occurrence of the home path exactly for homes without `~`
  (`Crash.ScrubGuarantee`); a scrubbed event mentions home nowhere exactly when the texts
  that `scrub_event` leaves alone never did: the message, the other fields of the event, and
  all of its exceptions but their values and the two paths of their frames
  (`Crash.ScrubbedEventIsCleanIff`).
- Chunked reading is exact exactly when no chunk boundary falls inside a character
  (`Sse.ChunkedTextIsExactIff`); a cut character is lost (`Sse.CutCharacterIsLost`).
- Script bodies are meant to be dropped: scripts are removed first, styles after them. An
  opening `script` tag is left exactly when some segment that the second removal keeps holds
  it, or ends in a proper part of it that the later ones complete
  (`NestedElements.ReducedHasTagIff`); from `<scr<script></script>ipt>x</script>` and
  `<scr<style></style>ipt>x</script>` the reduced text is the script body
  (`NestedElements.ScriptBodyIsOutput`).
- A successful `upsert` of a running process is visible afterwards exactly when the two
  clock readings of the call are within its retention
  (`BackgroundProcesses.RunningUpsertIsPresent`, `BackgroundProcesses.SlowUpsertVanishes`).
  One of a finished process is lost at once exactly when its id is new and its owner's 128
  records all run, or 512 other records run (`BackgroundProcesses.FinishedUpsertIsAbsentIff`,
  `BackgroundProcesses.FullOwnerLosesFinished`).
- The delivery checkpoint covers deliveries only. Four other writers take none of its locks:
  `resume_run`, `fail_run` and `ack_gate`, which save a copy of what they loaded, and every
  other call of the executor by a run id. A status that deliveries left settled stays so
  exactly as long as none of them saves another status or runs the id
  (`ComposioRuns.SettledIsFinalIff`); a finished run whose id nobody else has loaded is only
  ever reopened by a run by its id (`ComposioRuns.FinishedIsFinalIff`,
  `ComposioRuns.FinishedRunsAgain`). A delivery's execution is the only one of its run
  exactly when no outside execution is open (`ComposioRuns.OnlyExecutionIff`,
  `ComposioRuns.RetryDuringResume`). An executor is handed the run its delivery was let
  through to, unless one of them saved it in between
  (`ComposioRuns.HandedOver`, `ComposioRuns.RejectedRunStarts`). A run id keeps its workflow
  and hashes exactly as long as no run by the id for another workflow saves
  (`ComposioRuns.IdentityStaysIff`, `ComposioRuns.AnotherDeliveryTakesTheRun`). An
  acknowledgement can undo a rejection (`ComposioRuns.AckUndoesRejection`).
- The monitor pass leaves one job per monitor exactly when no listed monitor already had a
  second job under an id that no row owns (`MonitorsClient.ReconcileConverges`,
  `MonitorsClient.SecondJobStays`).
- The thread list is the newest 200 eligible threads exactly when the window of 400 holds
  200 of them or all of them (`HistoryList.WindowIsEnoughIff`); 400 newer files that are not
  eligible hide the one that is (`HistoryList.WindowHidesAThread`).
- An import refuses duplicate members by the spelling of their names. Two members are
  accepted for one destination exactly when their names differ and their normal spellings do
  not (`DataAcceptance.DuplicateIsMissedIff`), as `a` and `./a`; the later one then wins
  (`DataAcceptance.AliasOverwrites`). A successful import restores every file exactly when
  files of one normal spelling have one content (`DataAcceptance.AllRestoredIff`).
- Write access is meant not to remove records. A name is classed as a delete exactly when it
  has a delete word and a mutation word and is no preview (`ToolPolicy.DeleteByNameIff`);
  `clear_history` has the delete word `clear` and passes even a read-only connection
  (`ToolPolicy.ClearHistoryIsARead`).

## Model

| member | source | states |
|---|---|---|
| `AcpRuntime.AutoLimitIsGreatestAffordable` | apps/core/src/acp_runtime.rs:130-149 | the automatic limit is the greatest number up to 8 for which half the cores and 4 GiB each suffice, and never below 1 |
| `AcpRuntime.AppliedLimit` | apps/core/src/acp_runtime.rs:156-184 | settings can move the limit anywhere in 1..32 and nowhere else; an unusable request falls back to the automatic limit |
| `AcpRuntime.SanitizedMeans` | apps/core/src/acp_runtime.rs:156-177 | what settings become: the idle time between a minute and a day, a number of agents between 1 and 32 or none, awake unless told otherwise; the default is what empty settings give |
| `AcpRuntime.OnlyANotificationWakes` | apps/core/src/acp_runtime.rs:318-331 | a waiting task is woken by a notification since its present future was made, and by nothing else |
| `AcpRuntime.StepKeepsInv` | apps/core/src/acp_runtime.rs:84-91 | every atomic step of every task keeps the gate's invariant |
| `AcpRuntime.NoLostWakeup` | apps/core/src/acp_runtime.rs:318-331 | in every reachable state a task parked without a notification sees a full gate or someone still owes a notification; at quiescence it waits only while a live permit exists |
| `AcpRuntime.ActiveCountsPermits` | apps/core/src/acp_runtime.rs:84-91 | `active` is the number of live permits and at most 32, so the saturating decrement never saturates; a grant stays within the limit its acquirer read |
| `AcpRuntime.WaiterCanBeAdmitted` | apps/core/src/acp_runtime.rs:318-331 | from every state of the invariant, permit drops and owed notifications suffice to admit any given waiting task |
| `AcpRuntime.Runtime.ReadEffectiveLimit` | apps/core/src/acp_runtime.rs:287-316 | reading the limit is one step of the protocol |
| `AcpRuntime.Runtime.TakePermit` | apps/core/src/acp_runtime.rs:318-331 | the critical section of `acquire` is one step: it grants exactly when there is room under the limit read |
| `AcpRuntime.Runtime.DropPermit` | apps/core/src/acp_runtime.rs:84-91 | dropping a permit is one step, after which the dropper owes a notification |
| `AcpRuntime.Runtime.ApplyConfig` | apps/core/src/acp_runtime.rs:179-184 | changing the configuration is one step, after which the changer owes a notification |
| `AcpRuntime.Runtime.AcquireRound` | apps/core/src/acp_runtime.rs:318-331 | a round of the loop that nobody interrupts grants exactly when fewer permits than the limit are out, and else leaves the task waiting |
| `AcpRuntime.Runtime.Drop` | apps/core/src/acp_runtime.rs:82-91 | a drop that nobody interrupts takes one permit back and wakes every waiting task |
| `BackgroundProcesses.PrunedIsBounded` | apps/core/src/background_processes.rs:125-149 | after pruning at most 512 records remain or every record is running |
| `BackgroundProcesses.UpsertKeepsInv` | apps/core/src/background_processes.rs:173-214 | a rejected upsert leaves the map exactly as it was; an accepted one keeps every owner within 128 records |
| `BackgroundProcesses.RunningUpsertIsPresent` | apps/core/src/background_processes.rs:173-214 | a running process is stored by a successful upsert exactly when the call's two clock readings are within its retention |
| `BackgroundProcesses.SlowUpsertVanishes` | apps/core/src/background_processes.rs:173-214 | into an empty registry, a running process whose call takes longer than its retention is not stored although the call succeeds |
| `BackgroundProcesses.FinishedUpsertIsAbsentIff` | apps/core/src/background_processes.rs:125-214 | a successful upsert of a finished process that is the newest record is absent afterwards if and only if its id is new and its owner already has 128 records, all running, or at least 512 other records are running and fresh |
| `BackgroundProcesses.FullOwnerLosesFinished` | apps/core/src/background_processes.rs:151-214 | with any 128 running records of one owner, a successful upsert of a new finished process of that owner leaves the registry as it was |
| `BackgroundProcesses.OtherOwnersCannotTouch` | apps/core/src/background_processes.rs:173-294 | no call of another owner changes a record it leaves in place |
| `BackgroundProcesses.PendingSurvives` | apps/core/src/background_processes.rs:181-199 | a pending stop request survives every call until it is taken or its record is removed |
| `BackgroundProcesses.TakeConserves` | apps/core/src/background_processes.rs:277-294 | a take delivers a pending request exactly once, however often its id is repeated |
| `BackgroundProcesses.RunConserves` | apps/core/src/background_processes.rs:251-294 | over every run, deliveries plus what is pending never exceed successful requests plus what was pending |
| `BackgroundProcesses.PruningCallsBoundTheTotal` | apps/core/src/background_processes.rs:125-249 | every successful upsert and every list leaves at most 512 records, or running ones only |
| `BackgroundProcesses.ReachableRegistry` | apps/core/src/background_processes.rs:173-294 | over every run from the empty registry each owner has at most 128 records, no id is stopped more often than asked, and after each successful upsert or list at most 512 records are left or all of them run |
| `BackgroundReplies.PruningForgets` | apps/core/src/background_processes.rs:125-149 | pruning drops a record that is stale by its own retention, and any other only if it has finished, the fresh ones are over 512, and no finished one that stays is older |
| `BackgroundReplies.ListAnswers` | apps/core/src/background_processes.rs:226-249 | a list holds exactly the caller's own records, of the producer and running as asked, by start time and then by id in code point order |
| `BackgroundReplies.ListLeaves` | apps/core/src/background_processes.rs:226-249 | a list changes nothing but the elapsed time of the caller's running records, and forgets only what pruning forgets |
| `BackgroundReplies.ReleaseAnswers` | apps/core/src/background_processes.rs:216-224 | succeeds exactly on the caller's own record, and removes only that |
| `BackgroundReplies.StopAnswers` | apps/core/src/background_processes.rs:251-275 | succeeds exactly for a running process of the caller under the id without surrounding white space, and marks that record in no other field |
| `BackgroundReplies.TakeAnswers` | apps/core/src/background_processes.rs:277-294 | hands out the caller's pending requests among the ids, each once, in the order the ids name them first, with their reasons, and clears exactly those |
| `BackgroundReplies.UpsertAnswers` | apps/core/src/background_processes.rs:92-214 | refused exactly when a text is malformed, the id is another owner's, or it is a new running process of an owner with 128 running records; otherwise answered with the process and its refreshed elapsed time |
| `BackgroundReplies.UpsertLeaves` | apps/core/src/background_processes.rs:125-214 | another record goes only if it is stale, or has finished while its owner has 128 records or the registry 512 |
| `BackgroundRegistry.Registry.PruneLocked` | apps/core/src/background_processes.rs:125-149 | drops aged records, then evicts the oldest finished ones down to the cap, none newer than one it keeps |
| `BackgroundRegistry.Registry.TrimOwnerToLimit` | apps/core/src/background_processes.rs:151-171 | evicts only finished records of that owner, oldest first, down to its cap |
| `BackgroundRegistry.Registry.Upsert` | apps/core/src/background_processes.rs:173-214 | validates, refuses another owner's id, keeps the stop reason, trims, undoes a record that does not fit, prunes |
| `BackgroundRegistry.Registry.Release` | apps/core/src/background_processes.rs:216-224 | removes the record exactly when it is the caller's |
| `BackgroundRegistry.Registry.List` | apps/core/src/background_processes.rs:226-249 | returns exactly the caller's matching records, refreshed, in display order |
| `BackgroundRegistry.Registry.RequestStop` | apps/core/src/background_processes.rs:251-275 | marks the caller's running stoppable process, and fails otherwise without a change |
| `BackgroundRegistry.Registry.TakeStopRequests` | apps/core/src/background_processes.rs:277-294 | hands out and clears the caller's pending requests among the ids |
| `ComposioHost.StepKeepsInv` | apps/core/src/composio_host.rs:101-197 | every atomic step of deliveries and of the four writers outside the lock, a crash included, keeps the protocol's invariant |
| `ComposioHost.MutualExclusion` | apps/core/src/composio_host.rs:101-116 | live locks for one run id are the same mutex and at most one delivery executes it at any time |
| `ComposioHost.WaitsForItsOwnRun` | apps/core/src/composio_host.rs:101-131 | a delivery waits exactly for the deliveries of its own run id that are past the lock |
| `ComposioHost.GetLockDropsDeadLocks` | apps/core/src/composio_host.rs:107-116 | after the call every filed lock is in use |
| `ComposioHost.OkComesFrom` | apps/core/src/composio_host.rs:153-196 | only the locked decision and the last match answer `Ok` |
| `ComposioRuns.DecisionIff` | apps/core/src/composio_host.rs:153-186 | a delivery is answered `Ok` exactly when its run is stored for its workflow and payload as Completed or AwaitingInput, goes on to the executor exactly when nothing is stored or its own run is Running with both hashes matching, and fails otherwise; only a new checkpoint is stored |
| `ComposioRuns.OutcomeIff` | apps/core/src/composio_host.rs:191-196 | a delivery that executed is answered `Ok` exactly when its executor left the run Completed or AwaitingInput |
| `ComposioRuns.RedeliveryIsAnswered` | apps/core/src/composio_host.rs:149-161 | once deliveries left a run Completed or AwaitingInput, every redelivery, through any crashes, is answered `Ok` without a change and never starts an executor, while nobody outside saves another status or runs the id |
| `ComposioRuns.RedeliveryAfterCrash` | apps/core/src/composio_host.rs:149-161 | deliver, settle, crash, redeliver: the second delivery returns `Ok` and the store is unchanged |
| `ComposioRuns.OnlyExecutionIff` | apps/core/src/workflow/executor.rs:215-398 | a delivery's execution of a run is the only one, resumes and runs by id included, if and only if every call of the executor that they made for the run has returned or died since |
| `ComposioRuns.HandedOver` | apps/core/src/composio_host.rs:153-190 | a delivery is let through only to a run stored as Running with its own workflow and hashes; when it starts, the stored run is that one or the last that was saved outside since, and the executor works for the delivery's workflow and hashes if and only if that run has them |
| `ComposioRuns.RejectedRunStarts` | apps/core/src/workflow/executor.rs:291-302 | a rejection between the checkpoint and the executor: the delivery starts on a run stored as Failed |
| `ComposioRuns.SettledIsFinalIff` | apps/core/src/composio_host.rs:160-168 | a run that deliveries left as Completed, AwaitingInput or Failed keeps that status and reaches no executor, through all retries and crashes, if and only if nobody outside saves another status or runs it by its id |
| `ComposioRuns.FinishedIsFinalIff` | apps/core/src/workflow/executor.rs:215-398 | a run stored as Completed or Failed, which nobody executes or has loaded to save, stays so and reaches no executor if and only if nobody runs it by its id |
| `ComposioRuns.FinishedRunsAgain` | apps/core/src/workflow/executor.rs:384-398 | a run by its id executes any stored run again and can save any status over it |
| `ComposioRuns.AckUndoesRejection` | apps/core/src/workflow/notify_user.rs:486-503 | an acknowledgement that loaded the run before a rejection saves it as awaiting input again |
| `ComposioRuns.RetryDuringResume` | apps/core/src/workflow/executor.rs:230-285 | from every store without the run: deliver, suspend, resume, retry, and the run is executing twice |
| `ComposioRuns.IdentityStaysIff` | apps/core/src/workflow/executor.rs:384-392 | a stored run keeps its workflow and hashes, whoever saves it, if and only if no run by its id for another workflow saves |
| `ComposioRuns.AllExecutionsAgree` | apps/core/src/composio_host.rs:149-190 | all deliveries of one run id that are let through are of one request, if nobody ran the id before the first and no run by the id for another workflow saves between them |
| `ComposioRuns.AnotherDeliveryTakesTheRun` | apps/core/src/server/mod.rs:49366-49388 | after such a save a different delivery with the same run id is executed too |
| `ComposioRuns.OkIsDurable` | apps/core/src/composio_host.rs:160-197 | while deliveries alone have saved the run, `Ok` is returned only when it is stored as Completed or AwaitingInput for the same workflow and payload; that stays true if and only if nobody outside saves another status or runs it by its id |
| `ComposioHost.Host.ConnectRunLock` | apps/core/src/composio_host.rs:101-116 | drops dead locks, then returns the live lock of the run id or files a new one: one protocol step |
| `ComposioHost.Host.CheckCheckpoint` | apps/core/src/composio_host.rs:153-186 | the locked prefix decides from the stored run and saves a checkpoint when there is none: one protocol step |
| `ComposioHost.Host.JudgeOutcome` | apps/core/src/composio_host.rs:191-196 | the final match on the returned run: one protocol step |
| `MonitorsClient.ListedMonitorHasItsJob` | apps/core/src/monitors_client.rs:198-225 | after a pass a listed monitor's job has the last duplicate's name, schedule and enabled flag, its creation time and its history |
| `MonitorsClient.ConfigurationAndPast` | apps/core/src/monitors_client.rs:181-225 | field by field: the last row configures the job, a duration as a period and anything else as a cron expression, five minutes without one; an existing job keeps its creation time, last run, outcome and history, a new one starts empty |
| `MonitorsClient.OtherJobs` | apps/core/src/monitors_client.rs:266-274 | a job under another id survives unchanged unless its monitor is no longer listed, and then it is removed |
| `MonitorsClient.JobsOfAMonitor` | apps/core/src/monitors_client.rs:231-274 | the jobs of one monitor after a pass, from any store |
| `MonitorsClient.ReconcileConverges` | apps/core/src/monitors_client.rs:231-274 | exactly one job per listed monitor if and only if no listed monitor had a second job under an id no row owns |
| `MonitorsClient.SecondJobStays` | apps/core/src/monitors_client.rs:231-274 | a monitor job under an id of its own, as `create_job` makes, is left beside the one the pass writes |
| `MonitorsClient.CanonicalConverges` | apps/core/src/monitors_client.rs:231-274 | from every store whose monitor jobs carry their canonical id the pass converges, and the store stays canonical |
| `MonitorsClient.ReconcileIsIdempotent` | apps/core/src/monitors_client.rs:198-274 | a second pass over the same list changes nothing but the update times |
| `MonitorsClient.JobStore.SyncBackingJob` | apps/core/src/monitors_client.rs:198-225 | creates or updates the job of one row, keeping an existing job's past |
| `MonitorsClient.JobStore.SweepOrphans` | apps/core/src/monitors_client.rs:266-274 | removes exactly the monitor jobs whose monitor was not seen |
| `MonitorsClient.JobStore.ReconcileJobs` | apps/core/src/monitors_client.rs:231-274 | a failed fetch changes nothing; a reachable list, even empty, is synced and swept |
| `Elements.DropElement` | apps/core/src/document_parse.rs:422-444 | terminates, slices only at character boundaries, and yields the recursive removal of the element |
| `Elements.KeptSegmentsHaveNoTag` | apps/core/src/document_parse.rs:422-444 | the result is the concatenation of segments none of which holds the opening tag in any letter case |
| `NestedElements.ContainedIff` | apps/core/src/document_parse.rs:422-444 | pieces put together hold a pattern if and only if one of them does, or one of them ends in a proper part of it that the later ones complete |
| `NestedElements.DroppedHasTagIff` | apps/core/src/document_parse.rs:422-444 | the result of dropping an element holds its opening tag, in any letter case, if and only if some kept segment ends in a proper part of it that the later ones complete |
| `NestedElements.ReducedHasTagIff` | apps/core/src/document_parse.rs:383-385 | after both removals an opening `script` tag is left if and only if a segment kept by the second holds it or they make it, and an opening `style` tag if and only if they make it |
| `NestedElements.NestedElementSurvives` | apps/core/src/document_parse.rs:422-444 | removing an empty element from inside an opening tag, of its own name or another, leaves the outer element whole, for every position and body |
| `NestedElements.ScriptBodyIsOutput` | apps/core/src/document_parse.rs:377-419 | for a script with an empty script or style inside its opening tag the reduced text is the script's body |
| `Elements.StripTags` | apps/core/src/document_parse.rs:386-399 | the character loop computes the recursive tag stripping |
| `Elements.StrippedHasNoLess` | apps/core/src/document_parse.rs:386-399 | the text before entity decoding contains no `<` |
| `Elements.StrippedTag` | apps/core/src/document_parse.rs:386-399 | a tag becomes one newline and an unclosed one swallows the rest |
| `Entities.InTurnIsOnce` | apps/core/src/document_parse.rs:401-408 | in any order in which no decoded character occurs in a later name, replacing in turn is one left-to-right decode |
| `Entities.EntitiesDecodeOnce` | apps/core/src/document_parse.rs:401-408 | the six replacements with `&amp;` last decode every string in one pass |
| `Entities.EachEntity` | apps/core/src/document_parse.rs:401-408 | the six entities and what each stands for |
| `Entities.AmpersandMustBeLast` | apps/core/src/document_parse.rs:401-408 | with `&amp;` first an input is decoded twice |
| `DocumentParse.CollapseBlankLines` | apps/core/src/document_parse.rs:410-418 | the output is the trimmed lines at an increasing sequence of positions; a line is left out exactly when it and the one before it are blank |
| `DocumentParse.StripHtml` | apps/core/src/document_parse.rs:377-419 | the reduced text's trimmed lines, in order, but for exactly those that repeat a blank line, trimmed as a whole |
| `DocumentText.LinesSpellTheText` | apps/core/src/document_parse.rs:411 | the lines of a text with their ends are the text; a carriage return belongs to the end only before a newline |
| `DocumentText.DecodeTextIff` | apps/core/src/document_parse.rs:1351-1411 | refused exactly when there is no byte-order mark and a NUL stands in the first 8192 bytes or more than a tenth of the characters of an invalid text are replaced; otherwise read as what the mark or its absence says, with a note exactly when it was not UTF-8 |
| `DocumentParse.TruncateMarkdown` | apps/core/src/document_parse.rs:448-457 | the longest whole-character prefix within the cap, wasting at most 3 bytes of it when cut |
| `DocumentParse.ReplacementRatio` | apps/core/src/document_parse.rs:1398-1411 | counts the characters and the replacement characters among them |
| `DocumentParse.Utf16RoundTrip` | apps/core/src/document_parse.rs:1418-1438 | lossy UTF-16 decoding undoes UTF-16 encoding |
| `DocumentParse.Utf16TextDecodes` | apps/core/src/document_parse.rs:1351-1438 | text stored as UTF-16 with a byte-order mark, in either byte order, reads back exactly |
| `DocumentParse.Utf8TextDecodes` | apps/core/src/document_parse.rs:1351-1389 | UTF-8 text reads back exactly unless the sniff window holds a NUL, and then it is refused |
| `Crash.ScrubGuarantee` | apps/core/src/crash.rs:74-79 | the scrubbed string never contains home, for all strings, if and only if home has no `~` |
| `Crash.ScrubIdempotence` | apps/core/src/crash.rs:74-79 | scrubbing is idempotent if and only if home has no `~` or is `~` |
| `Crash.ScrubKeepsTheRest` | apps/core/src/crash.rs:74-79 | scrubbing only swaps the separators: the text between occurrences of home is untouched |
| `Crash.WithoutHomeUnchanged` | apps/core/src/crash.rs:74-79 | without a home, or with an empty one, an exception is unchanged |
| `Crash.ScrubOnBytes` | apps/core/src/crash.rs:74-79 | replacing on UTF-8 bytes is replacing on characters |
| `Crash.Event.ScrubEvent` | apps/core/src/crash.rs:129-145 | rewrites every exception value and every frame path in place |
| `Crash.ScrubbedExceptionIsClean` | apps/core/src/crash.rs:129-145 | afterwards no exception value and no frame path mentions home |
| `Crash.ScrubbedEventIsCleanIff` | apps/core/src/crash.rs:129-145 | afterwards the event mentions home nowhere if and only if the message and all the other texts that scrubbing leaves alone lack it |
| `Sse.StreamActivity` | apps/core/src/meetings_client.rs:281-305 | records the payloads of the complete lines of the whole text and buffers exactly what follows the last newline |
| `Sse.StreamChanges` | apps/core/src/dashboards_client.rs:499-524 | sends the same payloads in order, up to a closed receiver |
| `Sse.LinesOfText` | apps/core/src/meetings_client.rs:286-288 | the lines and the unfinished rest put together are the text |
| `Sse.LinesResume` | apps/core/src/meetings_client.rs:281-305 | splitting can be resumed from the unfinished line |
| `Sse.PayloadIff` | apps/core/src/meetings_client.rs:286-295 | a line carries a payload exactly when it is `data:` and more than white space, and the payload is that without the white space around it |
| `Sse.ChunkingIndependence` | apps/core/src/meetings_client.rs:281-305 | any two ways of cutting one stream into valid chunks read the same, namely the lines of the whole text |
| `Sse.ChunkedTextIsExactIff` | apps/core/src/dashboards_client.rs:499-505 | chunked decoding of valid text is exact if and only if every chunk is valid by itself |
| `Sse.CutCharacterIsLost` | apps/core/src/meetings_client.rs:281-286 | a stream on which a cut inside a character changes the payload |
| `Utf8.DecodeEncode` | apps/core/src/document_parse.rs:1368-1370 | decoding undoes encoding |
| `Utf8.EncodeDecode` | apps/core/src/document_parse.rs:1368-1370 | a valid byte sequence is the encoding of exactly what it decodes to |
| `Utf8.FindInBytes` | apps/core/src/document_parse.rs:422-444 | searching bytes finds the encoded position of the first character match |
| `Utf8.BoundaryNearby` | apps/core/src/document_parse.rs:448-457 | a character boundary lies at most 3 bytes before any position |
| `ArchivePaths.MemberNameRoundTrip` | apps/core/src/data_path.rs:638-646 | a valid path's member name is read back, enclosed, as that path |
| `ArchivePaths.MemberNamesAreDistinct` | apps/core/src/data_path.rs:638-646 | distinct valid paths get distinct member names |
| `ArchivePaths.EnclosedIff` | apps/core/src/data_path.rs:704-709 | a name is enclosed exactly when it has no NUL, is not absolute and no first part of it climbs above its start |
| `ArchivePaths.DownAndUp` | apps/core/src/data_path.rs:704-718 | going down and up again leads nowhere, and above the start there is nothing |
| `DataTree.FilesAreLookups` | apps/core/src/data_path.rs:630-656 | a walk under a denylist saves a file exactly when the tree has it and no name on its path is skipped, byte for byte |
| `DataTree.PathsAreDistinct` | apps/core/src/data_path.rs:630-656 | the walk saves no path twice |
| `DataTree.PathsAreAntichain` | apps/core/src/data_path.rs:630-656 | no saved path is above another |
| `DataExport.ZipDir` | apps/core/src/data_path.rs:630-656 | appends exactly the walk's files, in order, and adds their sizes to `written` |
| `DataExport.ExportZip` | apps/core/src/data_path.rs:586-628 | the archive holds the backup's files and `written` is their total size |
| `DataExport.BackupIsExact` | apps/core/src/data_path.rs:180-184 | archived are exactly the regular files with no excluded name anywhere on their path, each once |
| `DataImport.FolderNames` | apps/core/src/data_path.rs:722 | a member is a folder exactly when its name ends in a slash of either kind |
| `DataImport.PathContainsSymlink` | apps/core/src/data_path.rs:658-677 | true exactly when a link is on the way or a file stands where a folder is needed |
| `DataImport.Destination.FirstPass` | apps/core/src/data_path.rs:694-737 | refuses unsafe, repeated, linked and oversized members and totals the rest, without a change |
| `DataAcceptance.FirstPassAcceptsIff` | apps/core/src/data_path.rs:694-737 | any archive is accepted if and only if every name is enclosed and the members not excluded have distinct recorded names, are not blocked, are folders or at most 4 GiB, and total at most 2^64 - 1; the plan is that total |
| `DataAcceptance.AfterExtraction` | apps/core/src/data_path.rs:761-806 | what is at every path after any archive has been extracted: the last file for it, else what was there, else a folder if a member needs one, else nothing |
| `DataAcceptance.EveryNameHasAnAlias` | apps/core/src/data_path.rs:704-718 | `./` before any enclosed name gives another recorded name for the same path |
| `DataAcceptance.AliasOverwrites` | apps/core/src/data_path.rs:694-806 | an import accepts a file under its name and an alias, and leaves the later content |
| `DataAcceptance.DuplicateIsMissedIff` | apps/core/src/data_path.rs:694-737 | two members, each acceptable, are accepted together for one destination if and only if their recorded names differ and their normal spellings agree |
| `DataAcceptance.RestoredIff` | apps/core/src/data_path.rs:684-806 | after a successful import of any archive a file's content is at its destination if and only if no later file resolves there or the last that does has that content |
| `DataAcceptance.AllRestoredIff` | apps/core/src/data_path.rs:684-806 | a successful import restores every file if and only if files whose names have one normal spelling have one content |
| `DataAcceptance.NormalNamesAreDistinct` | apps/core/src/data_path.rs:694-737 | members of an accepted archive that are spelled normally never share a destination |
| `DataImport.Destination.SecondPass` | apps/core/src/data_path.rs:761-806 | extracts member by member, stopping at the first that cannot be written |
| `DataImport.Destination.ImportZip` | apps/core/src/data_path.rs:684-806 | a refusal before extraction leaves the destination exactly as it was |
| `DataRoundTrip.RestoreSucceeds` | apps/core/src/data_path.rs:684-806 | importing an export succeeds if and only if it is within the limits and the destination has room for every path |
| `DataRoundTrip.ExportThenImport` | apps/core/src/data_path.rs:586-806 | every kept file is back byte for byte, everything else in the destination is untouched, and only the needed folders are added |
| `DataRoundTrip.RestoreIntoEmpty` | apps/core/src/data_path.rs:586-806 | into an empty destination the restored files are exactly the tree's regular files with no excluded name on their path |
| `DataRoundTrip.ImportWritesNoExcludedName` | apps/core/src/data_path.rs:768-770 | extracting any archive never creates or changes a file with an excluded name |
| `DataCopy.Copier.CopyTree` | apps/core/src/data_path.rs:196-220 | copies the whole tree and adds the files' sizes to `copied` |
| `DataCopy.Copier.CopyTreeFiltered` | apps/core/src/data_path.rs:265-291 | copies the tree without the excluded top-level entries and counts the bytes of the rest |
| `DataCopy.CopiedSizeMeans` | apps/core/src/data_path.rs:265-291 | the bytes counted are those of exactly the files that do not lie under an excluded top-level entry |
| `DataCopy.ProfileCopyIsExact` | apps/core/src/data_path.rs:245-291 | a profile copy into an empty folder holds exactly the source's files and folders but for the excluded top-level entries; the same names deeper down travel |
| `HistoryWalk.CodexRolloutFiles` | apps/core/src/native_history.rs:487-517 | the stack walk terminates on every directory graph and yields the recursive walk in order |
| `HistoryWalk.RolloutFilesAreExact` | apps/core/src/native_history.rs:479-517 | found are exactly the `rollout-*.jsonl` files that at most 8 descents, none through a link, lead to |
| `HistoryWalk.RolloutNames` | apps/core/src/native_history.rs:504-512 | a rollout's name is `rollout-`, anything, and `.jsonl` |
| `HistoryWalk.WalkIsDistinct` | apps/core/src/native_history.rs:487-517 | each of them once |
| `HistoryList.Materialize` | apps/core/src/native_history.rs:293-324 | the parsed, non-empty threads of the newest 400 candidates, in order |
| `HistoryList.ListThreads` | apps/core/src/native_history.rs:158-172 | the newest 200 of the window's threads that pass the filter |
| `HistoryList.ListedIsSound` | apps/core/src/native_history.rs:158-172 | newest first, at most 200, each the thread of an eligible candidate of the window |
| `HistoryList.EligibleStamps` | apps/core/src/native_history.rs:302-321 | an eligible candidate's thread keeps its id and time, holds messages, passes the filter, and falls back to the file stem as session id |
| `HistoryList.EligibleIff` | apps/core/src/native_history.rs:293-321 | a candidate is eligible exactly when its file parses, holds a message and was recorded in the directory asked for; its thread has the transcript's title, directory, branch, count and session id, or the file stem |
| `HistoryList.OmittedIsNoNewer` | apps/core/src/native_history.rs:293-324 | every eligible candidate that is missing, in the window or not, is no newer than any thread listed |
| `HistoryList.SortThenParse` | apps/core/src/native_history.rs:293-324 | parsing and filtering commute with the stable sort |
| `HistoryList.WindowIsEnoughIff` | apps/core/src/native_history.rs:450-475 | the list is the newest 200 of all eligible threads if and only if the window holds 200 of them or all of them |
| `HistoryList.WindowHidesAThread` | apps/core/src/native_history.rs:293-324 | 400 newer candidates that are not eligible leave the list empty although an eligible one exists |
| `Lsp.ClaimExtensions` | apps/core/src/lsp.rs:215-229 | a server claims exactly the extensions nobody owns and each other one gets a skip naming its owner |
| `Lsp.ResolveLspServers` | apps/core/src/lsp.rs:154-259 | the nested loops compute the fold over the declarations in registration order |
| `LspArbitration.OwnerIsLeast` | apps/core/src/lsp.rs:154-259 | an extension is owned by the least (plugin id, server name) among the enabled, permitted, valid, stdio declarations that claim it |
| `LspManifests.OwnerInTheManifests` | apps/core/src/lsp.rs:154-259 | a server is started for an extension exactly when a permitted, enabled manifest declares it, complete, over stdio and with the extension, and it comes first by plugin id and server name, in code point order, among all such |
| `LspManifests.SkippedWithReason` | apps/core/src/lsp.rs:175-213 | a declaration that may own nothing is skipped under its key for the first of: no permission, incomplete, not stdio |
| `Order.LessIsPrecedes` | apps/core/src/lsp.rs:167 | the order is code point order: a proper prefix first, else the first difference decides |
| `LspArbitration.ServedAsDeclared` | apps/core/src/lsp.rs:244-254 | what is served is a declaration, narrowed to the extensions it owns |
| `LspArbitration.ServersDependOnEligible` | apps/core/src/lsp.rs:154-259 | the servers depend on the set of eligible declarations and on nothing else |
| `LspArbitration.PermutationInvariance` | apps/core/src/lsp.rs:158-167 | the whole result is the same for every permutation of manifests with distinct ids |
| `LspArbitration.DeletingIneligible` | apps/core/src/lsp.rs:179-213 | deleting an unpermitted, invalid or non-stdio declaration leaves the servers unchanged |
| `LspArbitration.DeclarationIsAccountedFor` | apps/core/src/lsp.rs:154-259 | every declaration of an enabled plugin is served or has a skip under its key, with the reason when it may claim nothing |
| `LspArbitration.LostExtensionIsAccountedFor` | apps/core/src/lsp.rs:216-229 | every extension an eligible declaration loses has a skip naming the server that owns it |
| `LspArbitration.ServersAreDistinct` | apps/core/src/lsp.rs:86-91 | the servers come in (plugin id, server name) order, no two the same |
| `LspDocument.ToWireDocument` | apps/core/src/lsp.rs:115-124 | the document maps each key to the last server with it |
| `LspDocument.KeysAreInjective` | crates/core/kernel-contracts/src/manifest.rs:333-390 | a key determines its plugin id and its server name for every two ids that the manifest validation accepts, flat or scoped |
| `LspDocument.DocumentKeepsEveryServer` | apps/core/src/lsp.rs:68-124 | for every list of validated manifests the document holds every server's configuration under its key and nothing else |
| `Needle2.FunctionName` | apps/core/src/needle2.rs:286-304 | computes the candidate's name from its id and index |
| `Needle2.NamesAreWellFormed` | apps/core/src/needle2.rs:286-304 | names are lower-case letters, digits and underscores, and at most 47 long if and only if the index has at most 41 digits |
| `Needle2.StemCarriesTheId` | apps/core/src/needle2.rs:286-304 | the stem starts a text whose letters and digits are the id's, in order and lower case, and is all of it when there is room |
| `Needle2.NormalizedMeans` | apps/core/src/needle2.rs:286-297 | letters and digits stay, in lower case, and every run of other bytes becomes one underscore, in order |
| `Needle2.NameIsCutIff` | apps/core/src/needle2.rs:297-304 | a name is cut exactly when it would be longer than 47, and then it is 47 long while the index leaves room |
| `Needle2.NamesAreDistinct` | apps/core/src/needle2.rs:286-304 | candidates at different indexes never share a name, whatever their ids |
| `Needle2.AliasesDecode` | apps/core/src/needle2.rs:222-230 | the alias map decodes every candidate's name to that candidate |
| `Needle2.OnlyNamesDecode` | apps/core/src/needle2.rs:222-230 | and decodes nothing else |
| `Needle2.SelectedIds` | apps/core/src/needle2.rs:306-328 | an error exactly when some call names no candidate; otherwise the called ids, each once |
| `Needle2.FirstsInOrder` | apps/core/src/needle2.rs:306-328 | the selection has no duplicates and follows the order of first calls |
| `Needle2.CallsSelectCandidates` | apps/core/src/needle2.rs:175-237 | calling candidates by the names they were given selects exactly those candidates |
| `ToolPolicy.TokensOfLower` | apps/core/src/agent_execution.rs:48-52 | tokenising commutes with lowering the case |
| `ToolPolicy.PreviewIff` | apps/core/src/agent_execution.rs:59-117 | a name is a preview if and only if its mutation words, if any, are a single one next to the first preview word |
| `ToolPolicy.EffectIff` | apps/core/src/agent_execution.rs:119-173 | without a preview, a mutation word anywhere makes a name mutating, external exactly with a word of the external list; without one a read word makes it a read and anything else is unknown |
| `ToolPolicy.DestructiveHintAdmitsIff` | apps/core/src/agent_execution.rs:179-247 | a destructive hint admits what is refused without it, at an agent or a connection, if and only if the tool is otherwise unknown and the gate admits every known tool; never at a draft, trial or read-only agent |
| `ToolPolicy.TwoMutationsAreNeverReadOnly` | apps/core/src/agent_execution.rs:65-141 | a name with two mutation words, in any case, is never read-only and never unknown |
| `ToolPolicy.TwoMutationsAreBlocked` | apps/core/src/agent_execution.rs:213-247 | neither a trial nor a read-only agent can run it |
| `ToolPolicy.ClassifiersCohere` | apps/core/src/connection_policy.rs:29-77 | for every name, annotation and method the action is a read exactly when the effect is read-only and unknown exactly when the effect is |
| `ToolPolicy.DeclaredMethodIff` | apps/core/src/connection_policy.rs:29-45 | for every tool and annotation a declared method alone decides: delete exactly for DELETE, or POST, PUT, PATCH with a delete word; external exactly for POST, mutating exactly for PUT, PATCH, DELETE |
| `ToolPolicy.DeclaredDeleteIsRefused` | apps/core/src/connection_policy.rs:29-45 | a declared DELETE is admitted by full access, or by risk when approved, and by nothing else |
| `ToolPolicy.CeilingsAreNested` | crates/core/vault/src/lib.rs:270-280 | each level admits more than the one before, by exactly the writes and then the deletes; risk is read-only until approved and full then |
| `ToolPolicy.DenialIff` | apps/core/src/agent_execution.rs:213-247 | a draft is refused always, then an unknown action, then for a trial or read-only agent any action but a read |
| `ToolPolicy.SettingTheTargetIsAChange` | apps/core/src/agent_execution.rs:40-48 | changing the active target is a change whatever its name holds |
| `ToolPolicy.GatesCohere` | apps/core/src/agent_execution.rs:213-247 | a trial or read-only agent may run exactly what a read-only connection admits, any other non-draft agent exactly what a full one admits |
| `ToolPolicy.SharedDeleteWordDeletes` | apps/core/src/connection_policy.rs:94-111 | a word on both lists, in any case, makes a tool a delete by name unless it is a preview, and a write connection refuses it |
| `ToolPolicy.DeleteByNameIff` | apps/core/src/connection_policy.rs:66-111 | a name is classed as a delete if and only if it has a delete word and a mutation word, in any case, and is no preview |
| `ToolPolicy.ReadByNameIff` | apps/core/src/connection_policy.rs:66-77 | a name is classed as a read, delete words or not, if and only if it is a preview or has a read word and no mutation word |
| `ToolPolicy.ShippedExternalIff` | apps/core/src/agent_execution.rs:119-173 | with the shipped lists a name that is no preview is external if and only if it has a word of the external list |
| `ToolPolicy.ClearHistoryIsARead` | apps/core/src/connection_policy.rs:66-111 | with the shipped lists `clear_history` has a delete word, is classed as a read and passes a read-only connection |

## Left out

- Network, process and operating-system code: HTTP clients and handlers, sidecar wake and spawn, the keychain, the native selector library, SQLite stores, boot order.
- Poisoned-mutex branches, log lines and progress emission.
- Floating point: `decode_text` compares a ratio of doubles with 0.10; the model uses the integer test ten times the replacements above the total.
- `AcpRuntime`: that a `Notified` future receives every `notify_waiters` from its creation on is taken from the runtime's documentation; fairness of the scheduler is not modelled, so admission of a waiter is shown possible from every state rather than inevitable.
- `ComposioHost`, `ComposioRuns`: a run is its workflow, its two hashes and its status; a stored run is readable, run files are deleted or replaced by nothing but `save_run`, and what an executor does between two saves is not modelled. Acknowledgements also exclude each other; the model lets them interleave.
- `BackgroundProcesses`: identifiers and reasons are validated as text; the caller lookup (`owner_for_caller`) is an input.
- `MonitorsClient`: writes and deletes of job files are assumed to succeed (the code ignores their errors), a monitor id is assumed to be usable as a file name, the files that do not parse as jobs are not in the store, and the order of `list_jobs` is not modelled.
- `DocumentParse`: extension and MIME tables, hashing and the parse provider protocol, which would only add easy members.
- `ArchivePaths`, `DataExport`: POSIX paths with UTF-8 names; the round trip is for names without a backslash, which the exporter rewrites to a slash.
- `DataImport`: the archive is trusted about member sizes; temporary files, synchronisation, the update of the data-folder pointer and failures of the disk itself are not modelled. An import checks only the basename of a member, so nothing is claimed about excluded folders on the path for archives that were not made by the export.
- `DataExport.ExportZip`: does not model the checks on the output path or the atomic replacement of the output file.
- `DataCopy`: copying into a folder in which nothing is in the way, as `copy_profile` and the HTTP route check; the command-line `migrate` does not check it, and what a copy does on a conflict is not modelled.
- `HistoryList`: the two-level scan of the Claude store, transcript parsing and `read_thread`; a transcript's title arrives already resolved.
- `Lsp`: the skip messages are reasons rather than sentences; `normalized_extensions`, `validate` on other fields and the tier of a manifest are inputs.
- `Needle2`: the schema's description and parameter properties.
- `ToolPolicy`: composed ids of one provider and the stored spelling of access levels are left out.
- Small state machines that would only add easy members: scheduled wipe, node-token rotation, exec approval, memory policy, entitlement, governance overlays, configuration file names, agent selection.
