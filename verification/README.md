# Verified models of the document capture, refresh, log, date, rate, scale and iXBRL code

This project models the parts of the repository where several steps, callers or representations have
to agree, and proves that they do. `dafny verify dfyconfig.toml` checks everything.

**Report documents** (`src-tauri/src/report_documents_capture.rs`). A captured document lives twice: as a
database row and as files. `DocumentRows` holds the row, the files that bear the document's name, the guarded
row writes and the publishing primitive; `CaptureSteps` cuts the locked body of a capture into atomic steps;
`CaptureSystem` interleaves any number of callers over any number of documents, with panics, crashes of the
process, new documents and edits from outside at any point. `CaptureWitnesses` builds the runs that go wrong
without the lock or with outside help, `CaptureStamps` says exactly when a container stamp can come to be wrong,
`CaptureProgress` that every capture ends. `CaptureSolo` is the meaning of one call left alone, `CaptureEnds`
what it leaves of row and files, and `DocumentLibrary` is the code in its own imperative form, each method
proved to end where that meaning ends.
`DocLocks` is the lock table, `StoredPaths` the reason why documents cannot share files.

**Containers** (`report_documents_container.rs`). `Containers` sniffs bytes, `ContainerRouting` turns a stamp
or a name into a routing answer, `ContainerHeal` is the startup self-heal.

**Client refresh** (`useAttentionController.ts`, `useActivityController.ts`). `AttentionProtocol` and
`CoalescedProtocol` are the protocols as state machines in which every synchronous block is one step;
`AttentionController` and `CoalescedResource` are the refs and state updated in place, each method proved to
be its step, and whole runs of them to be runs of the protocol.

**Logs** (`logging.rs`): `LogFiles`, `LogWriter`. **Dates** (`signal_dates.rs`): `CalendarDates`,
`DateScanner`, `DateScannerFacts`, `DateGrammar`, `DateLabels`, `DateWindows`. **Exchange rates** (`fx.rs`):
`FxRates`. **Chart axes** (`chartScale.ts`): `NiceScale` over `PowersOfTen`. **Inline XBRL** (`esef_ixbrl.py`):
`IxbrlText`, `IxbrlNumbers`, `IxbrlGrouping`, `IxbrlFacts`.

`Options`, `Texts` and `PowersOfTen` hold what several of these modules share.

Input from outside is given: a fetch is some bytes or an error, each file operation and each storage call
may fail, a caller's choices (temporary name, what `hard_link` and `rename` do on the file system) are open.

## Where the code and its comments differ

- Resetting a row to pending clears its path only: hash, size and container stamp stay
  (`src-tauri/src/storage/report_documents/status.rs:255-282`). `CaptureSteps` follows the code. The exit of
  `publish_no_clobber` that answers false is still unreachable while nobody edits the files, because a row
  without a path never verifies. With edits it can be taken, leaving the row failed, if and only if the row is a
  failed one that some file could verify (`CaptureWitnesses.SuccessCanLeaveFailedIff`).
- A failed container stamp is said to leave the column NULL for the self-heal
  (`src-tauri/src/report_documents_capture.rs:428-430`). That is so for one call if and only if the stamp write
  worked or the column was NULL or right before (`CaptureStamps.StampAfterStoreIff`). Over any run of any callers
  a document can end verified with a wrong stamp if and only if it bears one at the start and does not both verify
  and bear the right one (`CaptureStamps.WrongStampReachableIff`); a row restored without a hash and then stamped is
  such a document. The self-heal looks at NULL only and never repairs it (`ContainerHeal.RoutesByBytesIff`).
- `link_or_rename` says the row guard keeps the row consistent with whichever bytes landed (513-518). It is the
  lock that does (`CaptureWitnesses.WithoutTheLockRowAndFileDisagree`, for every working primitive).
- `docs/contracts.md:1623` promises log entries newest first. The reader keeps the tail of a newest-FILE-first list
  with each file in writing order. The order holds if and only if no file contributes two lines
  (`LogFiles.NewestFirstIff`), and the newest line itself is there if and only if the limit exceeds the number of
  rotated lines (`LogFiles.NewestIsReadBackIff`).
- The 80-byte window can cut an ISO date to another valid day. Behind any label and any 71 bytes without a digit
  it does so exactly when the day has two significant digits (`DateWindows.WindowCutsIsoDates`), and that day is the
  answer (`DateWindows.WrongDayIsTheAnswer`). In general the date found is the first one of the whole text exactly
  when the window does not split its last number; a day-first date is never changed into another
  (`DateWindows.FirstDateOfCut`).
- `loading` of the activity panel does not imply a request in flight (`CoalescedProtocol.LoadingCanStick`). A read
  leaves it stuck if and only if its answer is stale and no tick came since the last disabling
  (`CoalescedProtocol.LoadingSticksIff`).
- A number transformation does not undo every grouping by white space: `strip` removes any white space at the ends,
  but inside a number only five characters are dropped (`scripts/realdata/esef-v2/esef_ixbrl.py:112`), so that a
  narrow or thin space is refused. A grouped number is read back if and only if all white space inside it is among
  the five (`IxbrlGrouping.GroupingIsUndoneIff`, `IxbrlGrouping.OtherSpaceIsRefused`).

## Model

| member | source | states |
|---|---|---|
| CaptureSystem.RowsAgreeWithFiles | src-tauri/src/report_documents_capture.rs:86-151 | in every state of every interleaving, with panics and crashes anywhere, the file a fetched row with a hash names is there and holds exactly the bytes of that hash and size, if nobody outside edited the document's files; for refusing link, refusing rename and replacing rename alike |
| CaptureSystem.NextKeepsInv | src-tauri/src/report_documents_capture.rs:161-345 | every single step of any caller, crash, panic, registration or outside edit keeps the invariant over all documents and callers |
| CaptureSystem.RunKeepsInv | src-tauri/src/report_documents_capture.rs:86-345 | the invariant holds at the end of every run from any state that satisfies it |
| CaptureSystem.SuccessIsVerified | src-tauri/src/report_documents_capture.rs:109-141 | a call that reports success leaves a fetched row whose file has the row's hash and size, from any earlier crash residue or outside edit, unless the files were edited from outside during the call |
| CaptureSystem.SuccessUnderEdits | src-tauri/src/report_documents_capture.rs:470-498 | even with outside edits during the call, success means a fetched row except at the one exit where the publish answered false, which needs such an edit and a failed row that some file could verify; the declined row write never happens under the lock |
| CaptureSystem.NeverDowngradedNeverRefetched | src-tauri/src/report_documents_capture.rs:78-85 | once a document is fetched and verified, even after earlier outside edits and repairs, all further steps, crashes and panics keep its identity and no later or waiting caller asks the network for it, until somebody edits its files |
| CaptureSystem.LaterCallersReturnThePublishedRow | src-tauri/src/report_documents_capture.rs:95-116 | every caller that waits at that moment or comes later, and succeeds, is handed the published row itself, all but its stamp unchanged; it can fail only by a storage error |
| CaptureSystem.RunKeepsPublished | src-tauri/src/report_documents_capture.rs:104-116 | the same along any run from any invariant state |
| CaptureSystem.CaptureIsIsolated | src-tauri/src/report_documents_capture.rs:6-17 | while a caller holds a document's lock, other callers' steps change neither that caller nor anything of the document |
| CaptureSystem.NoDeadlock | src-tauri/src/report_documents_capture.rs:100-102 | a caller that must wait waits for another one that can itself step on or leave |
| CaptureProgress.CapturesEnd | src-tauri/src/report_documents_capture.rs:86-345 | from any reachable state every run of the callers' own steps, in any interleaving, is bounded, and one that cannot go on has left no caller waiting or inside a capture |
| CaptureProgress.CapturesComplete | src-tauri/src/report_documents_capture.rs:86-345 | from any reachable state some such run serves every caller without a panic |
| CaptureSystem.StampsStayTruthful | src-tauri/src/report_documents_capture.rs:495-508 | from any state in the middle of captures, a document without a stamp or verified with a true one stays so along every run |
| CaptureStamps.StampAfterStoreIff | src-tauri/src/report_documents_capture.rs:485-510 | for any row and files: after a call that stored its download the stamp is absent or true if and only if its write worked or it was so before |
| CaptureStamps.WrongStampReachableIff | src-tauri/src/report_documents_capture.rs:426-430 | from any start, some run without outside edits leaves the document verified with the stamp of other bytes if and only if it is stamped now and does not both verify and bear the true stamp |
| CaptureSteps.StepKeepsFileFacts | src-tauri/src/report_documents_capture.rs:557-603 | what each program point knows about row and files is established by the step before it, for every behaviour of the file system |
| CaptureSteps.StepKeepsRowFacts | src-tauri/src/report_documents_capture.rs:176-226 | what each program point knows about the row alone, which no outside edit of files can break |
| CaptureSteps.StepKeepsAgreement | src-tauri/src/report_documents_capture.rs:431-511 | a row that agrees with the disk agrees after every step, also in the middle of a capture |
| CaptureSteps.StepKeepsPublishedIdentity | src-tauri/src/storage/report_documents/status.rs:83-282 | no guarded write changes a verified fetched row but for its stamp |
| DocumentRows.GuardsProtect | src-tauri/src/storage/report_documents/status.rs:134-282 | whoever calls when: a published identity is not marked failed, healed over or replaced by other bytes, and is reset only by a caller that saw this very identity |
| DocumentRows.MatchesIff | src-tauri/src/report_documents_capture.rs:235-252 | a row verifies exactly when the file it names, under a name that is not blank, holds the bytes of its hash and size |
| CaptureWitnesses.WithoutTheLockRowAndFileDisagree | src-tauri/src/report_documents_capture.rs:10-17 | the lock is necessary: without it, for any two different contents and any working primitive, two callers both report success and leave a fetched row whose hash is not its file's |
| CaptureWitnesses.AnOutsideRepairLeavesTheRowFailed | src-tauri/src/report_documents_capture.rs:580-587 | with the lock, for every failed row that some file could verify and every download, an outside repair during the call makes a reported success leave it failed |
| CaptureWitnesses.SuccessCanLeaveFailedIff | src-tauri/src/report_documents_capture.rs:472-478 | a reported success can leave a document failed, over all runs and edits, if and only if its row was such a one from the start |
| CaptureWitnesses.AFailedStampWriteLeavesAStaleStamp | src-tauri/src/report_documents_capture.rs:500-508 | for every stamped document that is not settled and any bytes of another container: a run with no outside edit ends in success with a verified file and the old, wrong stamp |
| CaptureSolo.StepsTerminate | src-tauri/src/report_documents_capture.rs:176-226 | every step of any caller lowers a rank, so that a capture ends after at most eighteen steps, its retry included |
| CaptureSolo.FetchedRowIsBelievedIffItVerifies | src-tauri/src/report_documents_capture.rs:181-208 | a fetched row is returned as it is exactly when its file verifies, otherwise it is reset and fetched; a row restored without a hash (`report_documents_restore.rs:192-198`) never verifies |
| CaptureSolo.HealthyCallStores | src-tauri/src/report_documents_capture.rs:589-600 | from any row and any residue, a call with an answer, working files and no storage error ends with the downloaded bytes stored and stamped, unless the document verified already |
| CaptureSolo.SoloKeepsFacts | src-tauri/src/report_documents_capture.rs:86-151 | a call left alone with its document keeps agreement and row facts to its end |
| CaptureEnds.CallLeaves | src-tauri/src/report_documents_capture.rs:104-151 | for any row, files and world: a stored download leaves its own path, type (none if empty), hash, size and stamp and no error; a verified document is left as it was or healed with its columns kept and its error gone; a failed fetch keeps all columns but status and error, and the path if the row was no longer verified; only the download's own two names ever change |
| DocumentLibrary.CapturePromises | src-tauri/src/report_documents_capture.rs:76-85 | success is fetched and verified with the reported path; a failed fetch leaves a failed row; agreement is kept; a healthy call stores its own download |
| DocumentLibrary.SmoothCallsDoNotErr | src-tauri/src/report_documents_capture.rs:255-258 | without storage errors a call never errs if its document is settled, its fetch fails, or its files work: it hands the document back, records the failure, or stores |
| DocumentLibrary.Library.ResolveBeforeFetch | src-tauri/src/report_documents_capture.rs:176-226 | ends exactly where the step machine ends; never changes files; never erases a verified identity published since an old snapshot; answers fetched just when the document was settled |
| DocumentLibrary.Library.PublishNoClobber | src-tauri/src/report_documents_capture.rs:557-603 | ends exactly where the step machine ends, for every behaviour of link and rename; the row is untouched |
| DocumentLibrary.Library.RecordFetched | src-tauri/src/report_documents_capture.rs:482-510 | the guarded row write and the stamp, ending exactly where the step machine ends; an accepted download leaves its own columns, content type included, and no error |
| DocumentLibrary.Library.StoreFetchedDocument | src-tauri/src/report_documents_capture.rs:431-511 | the whole store, ending exactly where the step machine ends, touching no other document; a stored download leaves its own columns, content type included, and no error |
| DocumentLibrary.Library.CaptureLocked | src-tauri/src/report_documents_capture.rs:104-150 | the locked body ends exactly where the step machine ends; it asks the network once, and not at all for a settled document |
| DocumentLibrary.Library.CaptureReportDocument | src-tauri/src/report_documents_capture.rs:86-151 | it leaves the document exactly as the step machine does and errs exactly when that does; every outcome leaves exactly the columns and files it should (a stored download its own, a healed row its old ones without the error); success means fetched, verified and the row's own path; no success means failed and no path; a healthy call always succeeds with its download |
| DocumentLibrary.Library.FetchReportDocument | src-tauri/src/report_documents_capture.rs:308-372 | it leaves the document exactly as the step machine does, every outcome with the columns and files it should, and is refused exactly when the capture fails or errs or its last read does; a delivered row is the stored one, fetched and verified; an error is transient exactly when the network was asked and failed at the network level, and a failed fetch leaves a failed row |
| DocumentLibrary.Library.CaptureListed | src-tauri/src/report_documents_capture.rs:275-293 | one turn of the batch ends, and leaves its document, exactly as the step machine does, with the columns and files of its outcome: fetched and verified, or failed, unless it errs; nothing else changes |
| DocumentLibrary.Library.FetchPendingAttachments | src-tauri/src/report_documents_capture.rs:255-298 | each listed document in turn ends exactly as its capture does, up to the first that errs, and all others stay as they were; the batch errs exactly when a turn does, never over a failed fetch; agreement is kept on either exit; without an error every listed document is fetched and verified or failed and the summary counts exactly the ones not settled before their turn |
| DocLocks.LockTable.LockDocument | src-tauri/src/report_documents_capture.rs:43-52 | the mutex of an id is created once and never replaced; different ids never share one |
| DocLocks.LockTable.LockAll | src-tauri/src/report_documents_capture.rs:33-52 | over any number of calls, two callers get the same mutex exactly when they name the same id |
| StoredPaths.PathsAreDisjoint | src-tauri/src/report_documents_capture.rs:439-456 | equal generated paths belong to the same document, the same extension and the same kind of file (published or temporary), for any companies and URLs |
| ContainerRouting.StampReadsBack | src-tauri/src/report_documents_container.rs:39-48 | a stored stamp is read back as its container, also with blanks around it |
| ContainerRouting.StampDecides | src-tauri/src/report_documents_container.rs:88-114 | a stamped document is routed as its stamp whatever its content type, path and URL say; packages and unknown bytes have no text format |
| ContainerRouting.NameDecidesOtherwise | src-tauri/src/report_documents_container.rs:55-97 | an unknown stamp counts as none; then only package names are refused a text format and nothing is ever taken for unknown |
| ContainerRouting.NameDecides | src-tauri/src/report_diff/extraction.rs:53-65 | without a stamp a document is markup exactly when its name ends in .html or .xhtml or its content type mentions html, and a package exactly when it is not and its name ends in .zip or .xbri; letter case never matters |
| Containers.DetectedContainer | src-tauri/src/fundamentals/extraction/container.rs:75-129 | the container of any bytes: a package by its first four bytes, else a PDF by a header anywhere in the first 1024 bytes, else XML or HTML by how the text opens behind any byte-order mark and white space, else unknown |
| ContainerHeal.SniffOne | src-tauri/src/report_documents_container.rs:171-184 | one turn of the loop heals its document or counts it as missing and keeps the account of all before |
| ContainerHeal.SniffMissingContainers | src-tauri/src/report_documents_container.rs:164-187 | scanned is stamped plus missing, the per-container counts are the sizes of the stamped sets and sum to stamped, every readable candidate carries the container of its bytes and nothing else changed; it fails exactly when a needed stamp write is refused, then leaving each document healed or as it was |
| ContainerHeal.SecondPassIsIdle | src-tauri/src/report_documents_container.rs:152-163 | a second pass on unchanged files changes nothing and scans exactly the documents that were missing |
| ContainerHeal.PassStampsExactly | src-tauri/src/report_documents_container.rs:164-187 | a pass changes exactly the fetched documents without a stamp whose file could be read, and of them the stamp alone, to the container of the file's bytes |
| ContainerHeal.RetryCatchesUp | src-tauri/src/report_documents_container.rs:159-161 | a later pass with fewer unreadable files ends where a single such pass would have |
| ContainerHeal.HealedRoutesByBytes | src-tauri/src/report_documents_container.rs:88-97 | a healed document routes by its bytes whatever its name and content type |
| ContainerHeal.RoutesByBytesIff | src-tauri/src/storage/report_documents.rs:505-525 | after a pass a readable fetched document routes by its bytes if and only if it had no stamp or a true one |
| ContainerHeal.HealEstablishesTruth | src-tauri/src/report_documents_container.rs:152-163 | the pass keeps agreement and true stamps and stamps every readable fetched document truly, with or without a hash; the ones a later capture can make wrong are exactly those without a hash |
| AttentionProtocol.EffectIdempotent | src/app/useAttentionController.ts:215-248 | marking or dismissing twice shows the same as once |
| AttentionProtocol.EffectsCommute | src/app/useAttentionController.ts:215-248 | any two optimistic changes show the same in either order |
| AttentionProtocol.MarkingMarks | src/app/useAttentionController.ts:215-236 | marking keeps every event in its place with its id and detail; exactly the marked ones become seen |
| AttentionProtocol.DismissingLeavesTheRest | src/app/useAttentionController.ts:244 | dismissing leaves exactly the events with another id, each as often as before and in their order |
| AttentionProtocol.CommitKeepsExpected | src/app/useAttentionController.ts:202-213 | a write that commits, in any order among those on their way, does not change what the backend will hold in the end |
| AttentionProtocol.RunKeepsInv | src/app/useAttentionController.ts:123-248 | the protocol's invariant holds after every run of user actions, commits, refusals, reads, answers and other clients' changes |
| AttentionProtocol.AlwaysInStep | src/app/useAttentionController.ts:166-212 | if only this client writes: a repairing read is running or scheduled, or the error is up, or the screen shows the backend with the outstanding writes applied |
| AttentionProtocol.Converges | src/app/useAttentionController.ts:123-197 | once nothing is outstanding and no read has failed since, screen and backend are equal |
| AttentionProtocol.NothingIsUndone | src/app/useAttentionController.ts:99-104 | every change whose write was not refused goes on showing, whatever answers arrive and whatever else others write |
| AttentionProtocol.AppliedAnswersAreRecent | src/app/useAttentionController.ts:140-183 | whenever an answer is applied, the run went through the step that sent its read, where every write issued by now had been issued and had settled; its data holds all of them that committed |
| AttentionProtocol.AppliedAnswerWasSentAfterAllWrites | src/app/useAttentionController.ts:147-183 | the same from any state in which a read is about to be sent, over any run up to its application: no change came in between |
| AttentionProtocol.ReflectsIsFixed | src/app/useAttentionController.ts:215-248 | a change shows exactly when applying it again would change nothing |
| AttentionProtocol.NoAnswerIsSuperseded | src/app/useAttentionController.ts:166-168 | never two reads at once, so that the branches for a newer request are dead code |
| AttentionProtocol.FinishingCosts | src/app/useAttentionController.ts:133-183 | every step that finishes what is under way, discarded answers and their re-fetches included, lowers a bound |
| AttentionProtocol.RepairEnds | src/app/useAttentionController.ts:133-213 | every run of such steps in any order is bounded, and one that cannot go on has left no write unsettled and no read running or scheduled |
| AttentionProtocol.RepairCompletes | src/app/useAttentionController.ts:133-213 | from every reachable state such a run to the end exists |
| AttentionController.Controller.RunEffectBody | src/app/useAttentionController.ts:123-132 | the effect body is its protocol step: one read at a time, a refresh in between is remembered |
| AttentionController.Controller.AwaitMutationChainAndSnapshot | src/app/useAttentionController.ts:147-158 | whatever changes arrive during each wait, each wait is for the chain as it then stands, the loop ends after the first wait without a change, and the sequence it answers counts exactly the writes of the chain that last wait began with |
| AttentionController.Controller.Act | src/app/useAttentionController.ts:202-248 | any number of changes in a row, each counted and chained once |
| AttentionController.Controller.Settle | src/app/useAttentionController.ts:133-139 | one follow-up for any number of refreshes that came in between |
| AttentionController.Controller.OnAnswer | src/app/useAttentionController.ts:164-183 | the response block is its protocol step |
| AttentionController.Controller.OnFailure | src/app/useAttentionController.ts:184-196 | a failed read keeps the events and raises the error |
| AttentionController.Controller.MarkOneSeen | src/app/useAttentionController.ts:215-224 | the optimistic change, its sequence number and its place in the chain in one step; exactly the events of that id become seen and nothing else of the list changes |
| AttentionController.Controller.MarkManySeen | src/app/useAttentionController.ts:226-239 | nothing for an empty list, otherwise the optimistic change, its sequence number and its place in the chain in one step; exactly the events of those ids become seen and nothing else of the list changes |
| AttentionController.Controller.DismissEvent | src/app/useAttentionController.ts:241-248 | the dismissal with its sequence number and its place in the chain in one step; exactly the events with another id are left, as often as before and in their order |
| AttentionController.Controller.Drive | src/app/useAttentionController.ts:123-248 | over every run of the protocol, whatever comes in whatever order, the controller's refs and state are the protocol's, so that all its promises hold of them |
| CoalescedProtocol.OneRequestAtATime | src/app/useActivityController.ts:77-107 | in every reachable state at most one request is out |
| CoalescedProtocol.TicksCoalesce | src/app/useActivityController.ts:95-106 | any number of ticks during a flight start nothing; its end starts exactly one request if some tick came since the last disabling and the panel is mounted, otherwise none |
| CoalescedProtocol.KeptIffNeverDisabled | src/app/useActivityController.ts:70-106 | the answer to any request out in any reachable state, follow-ups included, is kept exactly when the request was current there, the resource is mounted and was never disabled since, also across close and reopen |
| CoalescedProtocol.GenerationCountsDisablings | src/app/useActivityController.ts:70-75 | the generation counts the disablings of any run and a request keeps its own |
| CoalescedProtocol.DisablingsAreClosings | src/app/useActivityController.ts:67-75 | over any run the resource is disabled once for each time it was closed, when the effect runs, and never by a render that changes nothing |
| CoalescedProtocol.LoadingSticksIff | src/app/useActivityController.ts:87-106 | whatever ticks, renders and effects come while a request is out with `loading` set, it lands with `loading` left and no request out if and only if its answer is stale and no tick came since the last disabling |
| CoalescedProtocol.LoadingIsOnlySetByATick | src/app/useActivityController.ts:133-151 | with no request out nothing but a tick changes `loading`, and a tick leaves one out |
| CoalescedProtocol.LoadingCanStick | src/app/useActivityController.ts:87-93 | closing during the first read leaves `loading` set with no request out |
| CoalescedProtocol.HydratedIff | src/app/useActivityController.ts:133-143 | over any run the panel is hydrated exactly since the first successful answer that was kept |
| CoalescedProtocol.HydratedStaysQuiet | src/app/useActivityController.ts:146-151 | a hydrated panel that shows no loading never shows it again, whatever ticks, closings and answers come |
| CoalescedResource.Resource.Drive | src/app/useActivityController.ts:43-110 | over every run, from either first render, the refs are the protocol's and as many answers are handed on as it keeps |
| CoalescedResource.Resource.EnabledEffect | src/app/useActivityController.ts:70-75 | the effect on the refs is its protocol step |
| CoalescedResource.Resource.Run | src/app/useActivityController.ts:77-85 | `run` on the refs is its protocol step |
| CoalescedResource.Resource.Accept | src/app/useActivityController.ts:87-93 | the guard keeps an answer exactly when the protocol does |
| CoalescedResource.Resource.Finally | src/app/useActivityController.ts:95-106 | the settling block on the refs is its protocol step |
| LogFiles.RenameKeepsHistory | src-tauri/src/logging.rs:293-302 | moving a file to the next, free index changes nothing of the history |
| LogFiles.RemoveOldestDropsPrefix | src-tauri/src/logging.rs:288-291 | removing the oldest file drops exactly its lines, from the front |
| LogFiles.EntriesPermuteHistory | src-tauri/src/logging.rs:135-155 | everything read back is a permutation of the retained history |
| LogFiles.SizeCountsBytes | src-tauri/src/logging.rs:260-265 | the size a write looks at is the number of bytes in the file, newlines included |
| LogFiles.ClampIsNearest | src-tauri/src/logging.rs:132 | the limit of the reader is clamped to the nearest number from 1 to 1000 |
| LogFiles.NewestIsReadBackIff | src-tauri/src/logging.rs:157-160 | the newest line is read back if and only if the limit exceeds the number of lines in rotated files |
| LogFiles.NewestFirstIff | src-tauri/src/logging.rs:126-163 | what is read back is ordered newest first if and only if every file holds at most one line or the limit reaches no further than its last |
| LogWriter.RotatingLogWriter.constructor | src-tauri/src/logging.rs:250-256 | any directory will do, files above a lowered limit included; file count and byte limit are at least one |
| LogWriter.BoundedStaysBounded | src-tauri/src/logging.rs:266-268 | a directory that respects the limit goes on respecting it |
| LogWriter.RotatingLogWriter.Rename | src-tauri/src/logging.rs:296 | a rename never lands on an existing file and keeps the history |
| LogWriter.RotatingLogWriter.RemoveOldest | src-tauri/src/logging.rs:281-291 | what is left is a contiguous end of what was there |
| LogWriter.RotatingLogWriter.ShiftUp | src-tauri/src/logging.rs:293-302 | stopped anywhere, the renames lose and reorder nothing; done, every file is one index up and the current name is free |
| LogWriter.RotatingLogWriter.Rotate | src-tauri/src/logging.rs:279-305 | stopped after any number of file operations, the history is whole or lacks exactly the lines of the file at the highest index, no index at or above the file count is new, and every file fits the limit or was there before; done, every file is one index up |
| LogWriter.RotatingLogWriter.Append | src-tauri/src/logging.rs:270-277 | the line becomes the newest of the history and the current file fits |
| LogWriter.RotatingLogWriter.WriteLine | src-tauri/src/logging.rs:258-277 | it rotates exactly when the current file holds something and the line does not fit; written, the line stands behind the whole history, or behind all of it but the file at the highest index, and all other files are as they were or one index up; stopped anywhere, also before the append, nothing else is lost; the file written to is within the limit or holds one line |
| LogWriter.RotatingLogWriter.WriteRun | src-tauri/src/logging.rs:258-305 | from any directory, after any run of writes, each cut off anywhere, the files read from the highest index down are a contiguous end of what they held at first followed by exactly the lines whose write went through; with two files or more no end of that log is lost that leaves room in one file for any line whose write was cut off, so with none cut off everything that fits one file is kept; every file fits or was there before |
| LogWriter.RotatingLogWriter.ReadLogEntries | src-tauri/src/logging.rs:126-163 | exactly the last entries, as many as the clamped limit, of the newest-file-first list |
| CalendarDates.ValidatorUndoesPrinter | src-tauri/src/signal_dates.rs:209-234 | every printed date is validated to itself |
| CalendarDates.ValidateIsIdempotent | src-tauri/src/signal_dates.rs:209-219 | validating twice is validating once, and the result is always a printed calendar date |
| CalendarDates.ValidatesIff | src-tauri/src/signal_dates.rs:209-219 | a date is answered exactly for the texts that denote it: three numbers with one hyphen between them, plus signs, leading zeros and surrounding white space allowed |
| CalendarDates.MonthsFollowEachOther | src-tauri/src/signal_dates.rs:236-249 | each month of any year has as many days as lie between its first and the next one's by the closed formula of the Gregorian calendar |
| CalendarDates.StringOrderIsCalendarOrder | src-tauri/src/signal_dates.rs:221-234 | canonical dates compare as strings exactly as in the calendar, and are equal only if they are the same day |
| DateScanner.FirstDateIsFirst | src-tauri/src/signal_dates.rs:104-125 | the date found is the one at the first digit run that holds a date, and none is found only if no run holds one |
| DateScanner.TakeNumberLoop | src-tauri/src/signal_dates.rs:167-177 | the loop reads the number the specification reads: the whole run of one to four digits |
| DateScanner.SkipSpaces | src-tauri/src/signal_dates.rs:199-205 | the loop ends at the first character that is not white space |
| DateScanner.ParseFirstDate | src-tauri/src/signal_dates.rs:104-125 | the scanning loops find the first date of the specification |
| DateGrammar.DateIsReadIff | src-tauri/src/signal_dates.rs:129-165 | a date is read at a place up to an end exactly when it stands there as year, month, day, or as day, month, year in figures or with the month's Polish name, with separators and blanks where the layout has them |
| DateGrammar.NumericIsRead | src-tauri/src/signal_dates.rs:142-156 | wherever a day-first date in figures stands it is read as that day of that month of that year |
| DateGrammar.LongIsRead | src-tauri/src/signal_dates.rs:158-164 | wherever day, month name and year stand they are read as that date, "stycznia" as 1 up to "grudnia" as 12 |
| DateGrammar.FirstDateStands | src-tauri/src/signal_dates.rs:104-125 | the first date of a text is the first that stands in it in one of these layouts at the start of a digit run, and none is found exactly when none stands there |
| DateScannerFacts.ScannerUndoesPrinter | src-tauri/src/signal_dates.rs:129-140 | a printed date anywhere in a text, no digit behind it, is read back as itself and to its end |
| DateScannerFacts.CutChangesOnlyALastNumber | src-tauri/src/signal_dates.rs:129-165 | a date read from a text cut anywhere is the one in the whole text exactly when the cut does not split its last number; a day-first date is never changed into another |
| DateScannerFacts.DayFirstOfCut | src-tauri/src/signal_dates.rs:142-164 | if the cut splits the year of a day-first date, the whole text holds no date there at all |
| DateScannerFacts.IsoDateLosesItsLastDigit | src-tauri/src/signal_dates.rs:129-140 | an ISO date at the end of any text, cut before its last digit, is read as the day of its first digit exactly when the day has two significant digits, otherwise not at all |
| DateLabels.ClampWindow | src-tauri/src/signal_dates.rs:77-84 | the clamp ends at the last character boundary within 80 bytes, never before the start and at most three bytes back |
| DateLabels.Utf8LengthIsLeast | src-tauri/src/signal_dates.rs:77-84 | a character counts as many bytes as the shortest UTF-8 form that can hold its code point |
| DateLabels.FindDateForLabels | src-tauri/src/signal_dates.rs:69-100 | the answer is the date behind the smallest position over all non-overlapping occurrences of all labels whose window holds a date, or none if there is no such occurrence |
| DateLabels.AnswerIsUnique | src-tauri/src/signal_dates.rs:85-94 | that description allows one answer only |
| DateWindows.FirstDateOfCut | src-tauri/src/signal_dates.rs:104-125 | the first date of a text cut anywhere is the first of the whole text, in place and extent, exactly when the cut does not split its last number; no earlier date is ever missed |
| DateWindows.WindowDateIsTheFirstDateIff | src-tauri/src/signal_dates.rs:77-85 | the date found in the 80-byte window behind a label, with its place and extent there, is the first date of the text that follows the label exactly when the window does not split its last number |
| DateWindows.WindowCutsIsoDates | src-tauri/src/signal_dates.rs:75-95 | in any body, behind any label and 71 bytes without a digit, an ISO date is found as the day of its first digit exactly when its day has two significant digits, and not found otherwise |
| DateWindows.WrongDayIsTheAnswer | src-tauri/src/signal_dates.rs:69-100 | for such a body that wrong day is what the search answers |
| FxRates.PeriodAverageMid | src-tauri/src/fx.rs:76-89 | the loop computes sum over count of the rates in the window, rounded half to even, or nothing |
| FxRates.RoundsHalfEven | src-tauri/src/fx.rs:73-88 | the rounded quotient is the one integer nearest to the exact one, ties going to the even |
| FxRates.WindowIsCalendarWindow | src-tauri/src/fx.rs:80 | comparing canonical dates as strings selects exactly the days of the calendar window |
| FxRates.AverageWithinRange | src-tauri/src/fx.rs:76-89 | the rounded average never leaves the range of the mids it averages |
| FxRates.AverageIgnoresOrder | src-tauri/src/fx.rs:71-75 | any reordering of the rows gives the same sum, count and average |
| FxRates.WindowSplits | src-tauri/src/fx.rs:76-89 | sums and counts of two adjoining windows add up to those of the whole, so the mean is count-weighted |
| FxRates.LatestIsLatest | src-tauri/src/fx.rs:93-99 | the stock rate is of the latest date up to the end, and missing exactly when every row is later |
| FxRates.LatestIsTheLastOne | src-tauri/src/fx.rs:93-99 | of the rows of the latest date the last one is taken |
| FxRates.StockRateIgnoresOrderIff | src-tauri/src/fx.rs:93-99 | the stock rate is independent of row order if and only if all rows of the latest date carry one mid |
| FxRates.ConvertsIff | src-tauri/src/fx.rs:103-144 | a conversion succeeds exactly for PLN, in any case of letters, or when a usable rate exists |
| FxRates.ConvertedAmount | src-tauri/src/fx.rs:103-144 | a PLN amount comes back unchanged with mid 1; any other is multiplied by the mid of its basis: the last row of the latest date for a stock, the integer of units nearest to the mean for a flow |
| FxRates.PlnInAnyCase | src-tauri/src/fx.rs:131 | PLN is recognised in any case of its letters and nothing else is |
| NiceScale.FloorLog10 | src/ui/chartScale.ts:16 | the decade of a positive number: the power of ten at or below it and less than ten times below |
| NiceScale.NiceStepBounds | src/ui/chartScale.ts:15-20 | a step is at least what was asked for and less than twice that |
| NiceScale.NiceStepIsLeast | src/ui/chartScale.ts:15-20 | a step is 1, 2, 2.5 or 5 times a power of ten, and the least such number not below what was asked for |
| NiceScale.NiceScaleCovers | src/ui/chartScale.ts:31-39 | the axis covers the data with four to six increasing consecutive multiples of a step of a quarter to less than half of the span, from its minimum to its maximum, all inner ticks within the data |
| NiceScale.FlatScaleCovers | src/ui/chartScale.ts:24-30 | a flat or reversed series gets three evenly spaced ticks around its value, apart by the least nice number not below a tenth of the value or a millionth |
| NiceScale.RoundWithinIsComplete | src/ui/chartScale.ts:55-63 | the candidates within the data are exactly the numbers 1, 2 and 5 times a power of ten there; no decade is missing |
| NiceScale.NiceLogScale | src/ui/chartScale.ts:51-70 | two to six increasing ticks within the data: every one of the round prices, or every second, or every fourth and so on, the first of these that leaves at most six; the linear axis' inner ticks if there are fewer than three; the last fallback is dead code |
| NiceScale.LinearTicksWithin | src/ui/chartScale.ts:65-68 | the linear axis always has at least two ticks within the data |
| IxbrlText.CollectValueText | scripts/realdata/esef-v2/esef_ixbrl.py:101-109 | for any tree, the recursion yields what a reader of the document stream sees outside excluded elements: document order, all tails kept |
| IxbrlText.ContentIsBalanced | scripts/realdata/esef-v2/esef_ixbrl.py:101-109 | an element's content contributes its visible text exactly when it does not stand inside an exclusion, however deep |
| IxbrlText.ExcludedContentIsIrrelevant | scripts/realdata/esef-v2/esef_ixbrl.py:101-109 | replacing what stands in an excluded child changes nothing |
| IxbrlNumbers.RenderParses | scripts/realdata/esef-v2/esef_ixbrl.py:137-140 | the decimal print of any number, with any number of digits and decimals, parses to that number |
| IxbrlNumbers.LiteralParses | scripts/realdata/esef-v2/esef_ixbrl.py:137-140 | every literal with a sign or none, digits with at most one point and an exponent or none parses to its value |
| IxbrlNumbers.ParsedIsLiteral | scripts/realdata/esef-v2/esef_ixbrl.py:137-140 | and only those parse |
| IxbrlGrouping.DotGroupingIsUndoneIff | scripts/realdata/esef-v2/esef_ixbrl.py:115-140 | with any white space and commas put anywhere into a printed number, it is read back if and only if all white space inside it is among the five dropped, and refused otherwise |
| IxbrlGrouping.CommaGroupingIsUndoneIff | scripts/realdata/esef-v2/esef_ixbrl.py:131-132 | the same border for dots put into a number printed with a decimal comma |
| IxbrlGrouping.BlankGroupingIsUndoneIff | scripts/realdata/esef-v2/esef_ixbrl.py:133-134 | the same border without a format, where white space alone may group the digits |
| IxbrlGrouping.GroupingIsUndoneIff | scripts/realdata/esef-v2/esef_ixbrl.py:115-140 | the border for all numeric formats at once |
| IxbrlGrouping.OtherSpaceIsRefused | scripts/realdata/esef-v2/esef_ixbrl.py:128-140 | any other white space between any two characters of any printed number makes it unparsable |
| IxbrlGrouping.NoNumberIff | scripts/realdata/esef-v2/esef_ixbrl.py:122-136 | the formats for a printed zero read any text as 0; under every other one a text is an empty value exactly when it is at most one dash between blanks, and is refused unread exactly when it is not and the format is unknown |
| IxbrlGrouping.FormatName | scripts/realdata/esef-v2/esef_ixbrl.py:122 | a format is known by what stands behind its first colon |
| IxbrlNumbers.CommaFormatMirrorsDotFormat | scripts/realdata/esef-v2/esef_ixbrl.py:129-132 | for any text at all, the comma format reads it as the dot format reads it with both separators swapped, errors included |
| IxbrlFacts.ParseInstance | scripts/realdata/esef-v2/esef_ixbrl.py:247-310 | the occurrences are the facts of all usable elements in document order, with names, contexts, units, values and status |
| IxbrlFacts.ScaleIsReadIff | scripts/realdata/esef-v2/esef_ixbrl.py:262-266 | the scale is k exactly when the attribute is a numeral of k, signed or not, with blanks around it, or when there is none and k is 0 |
| IxbrlFacts.FactFollowsAttributes | scripts/realdata/esef-v2/esef_ixbrl.py:257-289 | for every fact: its scale is that of its attribute, 0 if that is no numeral; it is negative exactly for the sign "-"; it is resolved exactly when context, unit, prefix and scale can all be looked up |
| IxbrlFacts.FactIdentity | scripts/realdata/esef-v2/esef_ixbrl.py:268-308 | the concept is the bound namespace in braces and the name behind the first colon; entity, period, dimensions and unit are those its references name |
| IxbrlFacts.NilFactIsZero | scripts/realdata/esef-v2/esef_ixbrl.py:260-277 | a fact is nil exactly if its attribute says true in any case of letters; then it is 0 without text, else its text is the visible one |
| IxbrlFacts.ExpandedNamesAgreeIff | scripts/realdata/esef-v2/esef_ixbrl.py:69-94 | two bound names expand to the same text exactly when they have one namespace and one local name, whatever their prefixes |
| IxbrlFacts.SubtreeFactsAreKept | scripts/realdata/esef-v2/esef_ixbrl.py:234-235 | the facts of any subtree stand together and in order among the document's, also inside excluded content |
| IxbrlFacts.FactReadsBackIff | scripts/realdata/esef-v2/esef_ixbrl.py:277-289 | a fact whose visible text is any grouping of a printed number, signed or not, has that number times ten to its scale attribute, negated exactly for the sign attribute "-", as value and is ok exactly when context, unit, prefix and scale can be looked up, unless other white space stands inside: then it has no value and is not ok |

## Left out

- Hashes are idealised as injective; a hash never equals that of other bytes.
- File operations are atomic steps; directory fsync, I/O errors of single reads inside the verification of a file, and the sleep between two fetches of a batch are not modelled.
- HTTP, SQLite, Tauri and the React scheduler are not part of this model. `create_or_find_pending_report_document` appears only as new pending documents; the order of the pending list is given.
- `determine_extension` is any extension; `StoredPaths` uses that it is alphanumeric.
- Rows whose path is not one the capture code makes up belong to their own document only; two rows sharing such a file are not modelled.
- Timestamps of a row are left out, and the text of a failed fetch's error is one fixed text.
- `mark_metadata_only` has no caller in the program and is not a step.
- The startup self-heal is modelled alone, not interleaved with captures; the order of its candidates is left open.
- Library methods take registered documents only; the error for an unknown id is left out.
- AttentionProtocol.NothingIsUndone: other clients, and the applied part of a refused write, may change the backend's events in any way but one: they do not take a committed change of this client back.
- The summary's and view's data themselves are left out of the coalesced resource; which answers are handed on is in.
- Attention rules, fetched beside the events, and `useRef` identity of promises beyond their order in the chain are left out; a callback of `useCoalescedResource` that throws is left out.
- Log lines are whole values: a torn last line, JSON, redaction and the file names of entries are left out.
- DateLabels.FindDateForLabels: takes the lower-cased body; Unicode lower-casing is left out. Labels are constants and not empty; an empty one would not terminate.
- `is_alphabetic` is modelled for ASCII, Latin-1 and Latin Extended letters, which covers the month names.
- Exchange rates are exact multiples of a smallest unit; `Decimal` overflow and its 28-digit mantissa are left out.
- IEEE rounding, infinities and `toPrecision` of the chart axes are idealised to exact reals; only the four default intervals are modelled.
- `Decimal` literals beyond finite ASCII ones (`NaN`, `Infinity`, other scripts' digits), underscores and other scripts' digits in `scale`, and the 28-digit context rounding of a scaled value are left out.
- Contexts, units and namespaces of an instance are given as the tables their own passes make; those passes are not part of this model. IxbrlFacts.ExpandedNamesAgreeIff takes namespace names without a closing brace, which no URI contains.
- `report_documents_restore.rs` appears only as fetched rows without a hash.
