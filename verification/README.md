# CertLight, verified

A Dafny model of the stateful core of CertLight: what happens to a finding from the moment a collector reports
it until a human is notified, and the pieces around that path. `dafny verify dfyconfig.toml` checks everything.

## What is modelled

**The lifecycle of findings** (`Core`, `Stores`, `Reconcile`, `Web`). A scan hands its findings to
`Engine.Reconcile`, which lists the stored records of the module and target, inserts or refreshes a record for
every acceptable finding, lets the unreported records age, and resolves them at the module's threshold. The engine
is a class working on a store, which is either the in-memory map or the SQLite table with its conflict clause. The
writes of one reconcile form a *plan* that depends only on the listing taken at its start; the method is proved to
carry out a prefix of that plan, the whole of it unless an error stops it. Everything else about the lifecycle is
then proved about plans:

- `Meaning`, `Consequences`: one scan, fingerprint by fingerprint, without any order; frame, identity, times.
- `Lifecycle`: what a scan does to each kind of record in plain terms, and that a user's decision to suppress holds.
- `Runs`, `Alternation`, `Clock`: whole runs of scans (also cut short by errors) and user changes; what is announced
  adds up to what is stored, and alternates; times stay in order.
- `Dropped`: what a scan that fails half way does to the announcements, key by key.
- `History`: the store in closed form, as a function of the scan history.
- `Interleaving`, `Overlap`: scans and user changes that overlap, each reading once and writing record by record; when
  an announcement is still true, and when the stores still agree.
- `StoreRefinement`: the two stores compared, on serialised and on overlapping runs.

**The notification dispatcher** (`Dispatch`, `DispatchRuns`, `Closing`, `Sorting`). Batching, deduplication in a window,
early flush, one digest per module, the retry loop, the in-place sort, and what Close waits for. The class invariant ties
the pending map, the set of seen keys, the timer and the deliveries made to a ghost state; conservation is proved over all
runs.

`Severities` says what severities mean to digests and to acceptance, severity by severity.

**From the engine to the digests** (`Bridge`, `Windows`, `Totals`). The callback that turns the result of a scan into
events, the run of engine and dispatcher together, what a digest says against what the store holds at that moment, and
the totals over whole runs.

**The certificate collector** (`Collector`, `Grading`, `Countdown`). All the checks over the answers of the TLS library,
proved to meet what the engine relies on and graded check by check, and the life of one certificate through collector,
engine and notifications.

**The scheduler** (`Scheduler`, `Backoff`). A step system over every interleaving of sweep, add-time and scan-now
scans, slots, wait group and Stop; the backoff loop with 64-bit wrap-around; the gate of a module loop as a class.

**Identifiers and evidence** (`Positional`, `Ulid`, `EvidenceKeys`, `Sanitizer`, `Provenance`, `Delimited`). The ULID encoder
against positional notation, and the evidence sanitiser against the bounds its limits promise and, path by path, against
where everything in its output comes from.

## What the model relies on

- Fingerprints are their preimage: the hash is taken to be injective. `FingerprintIdentifies` and
  `FingerprintIdentifiesAnyTarget` state when the preimage is. Names of cipher suites and signature algorithms contain
  no '|'.
- A collector reports a fingerprint at most once per scan, only for the scanned target, and leaves the fields of the
  core alone (`CollectorOk`; `store/reconcile.go:46-64` never looks at what it has just inserted). `CollectMeetsContract`
  discharges this for the certificate collector, and `ScanExtendsRun` composes the two.
- A module keeps its threshold. Users change records that they see as not resolved, as the web page does
  (`web/static/index.html:259-260`); where the handler allows more, the model says what happens
  (`UserWriteCoherentExactly`, `UserChangeIsSilentExactly`).
- The clock, ids, entropy, the store's failures, the listing order, channel answers and the TLS library's answers are
  arbitrary inputs.

## Where the code is not what its documentation says

- The countdown is announced with steps at 30, 14, 7 and 1 days (`certlight/collector.go:9`). The code has no step at 14,
  and truncates to whole days: it starts below 31 days and steps below 8 and below 2 (`ExpiryLadder`).
- `Stop` "waits for in-flight scans" (`sched/scheduler.go:196`). It waits for exactly the loops and the scans that are not
  scan-now scans (`StopWaitsForExactly`, `ScanNowOutlivesStop`). Loops can come alive after it exactly when it returned
  before Start (`StopGuardsExactly`). An add-time scan can collect after it exactly when the context is not cancelled or
  a call was already past its check (`ScanAfterStopExactly`).
- Duplicates "collapse to the first occurrence" (`notify/notify.go:112`), and the last state is lost with them: a finding
  that opens, resolves and opens again in one window stands in both lists of one digest (`FlapConfuses`). A digest is
  unambiguous and right about a finding exactly when the window's events about it are of one kind and nothing about it
  that has not cancelled out is still to be enqueued (`DigestIsRightExactly`).
- An error half way through a reconcile discards the result, so transitions already written are never announced
  (`OpeningIsLost`). What is handed on about a finding is complete exactly when no failed scan inserted, reopened or
  resolved its record (`HeardExactly`).
- "Cross-goroutine safety is the engine's concern" (`store/store.go:26-27`), but the engine takes no lock. Overlapping first
  scans announce a finding twice and make the stores differ (`OverlapAnnouncesTwice`). An overlapping scan's announcement
  is true exactly when the record is as resolved, or unresolved, as when the scan listed it (`OverlapNoteExactly`), and a
  write leaves the stores equal exactly when id, check and first-seen agree (`StoresAgreeExactly`).
- Sanitising twice is not sanitising once for a list of strings below two maps (`StringListsAreNotStable`); for which
  evidence it is, `StableExactly` says exactly, and for which matchers on JSON-shaped evidence, `IdempotentExactly`.

## Model

| member | source | states |
|---|---|---|
| Core.FingerprintIdentifies | core/finding.go:135-138 | Without the delimiter in module, target and check, two fingerprint preimages are equal iff all four parts are equal |
| Core.FingerprintIdentifiesAnyTarget | core/finding.go:135-138 | The same for arbitrary targets, without the delimiter in module, check and discriminator |
| Core.AcceptedExactly | core/finding.go:102-118 | A finding is accepted iff all required texts are there and the severity is one of the five; the error names what is missing |
| Core.RankOrders | core/finding.go:26-43 | Critical is the most urgent severity and one outside the list the least |
| Core.EvidenceIsCapped | store/reconcile.go:113-132 | Evidence is kept iff its JSON form exists and has at most 64 KiB; otherwise the marker for its fault stands instead |
| Delimited.JoinInjective | store/memory.go:18 | A head without the separator, and the tail, can be read back from a joined key |
| Delimited.CollisionsExactly | notify/notify.go:122 | Two heads can be confused for some tails iff they are equal or one followed by the separator starts the other |
| Stores.MemStore.Upsert | store/memory.go:32-37 | The record replaces the record stored under its joined key, its predecessor or one it clashes with, and no other; without a clash it is the plain replacement |
| Stores.PlainModulesDoNotClash | store/memory.go:18 | Joined keys never clash as long as module names contain no NUL |
| Stores.MemStore.Get | store/memory.go:39-44 | Finds the record stored under the joined key, if any; without a clash the record of exactly this module and fingerprint |
| Stores.MemStore.ListByTarget | store/memory.go:20-30 | Returns each record of the module and target once and no others, in whatever order |
| Stores.SqliteStore.Upsert | store/sqlite.go:112-142 | On success the row is inserted or merged column by column as the conflict clause says; a duplicate id or a failing statement changes nothing |
| Stores.SqliteStore.Get | store/sqlite.go:98-110 | Finds the row of exactly this module and fingerprint, unless the query fails |
| Stores.SqliteStore.ListByTarget | store/sqlite.go:76-85 | Returns each row of the module and target once and no others, unless the query fails |
| Reconcile.Engine.Index | store/reconcile.go:31-34 | The index holds the last listed record per fingerprint |
| Reconcile.Engine.NextRecord | store/reconcile.go:46-85 | The record keeps key and identity of its predecessor, takes the report's texts, is seen now and not absent, is not resolved if it was, and is announced iff it was not unresolved before |
| Reconcile.Engine.ApplyReports | store/reconcile.go:36-86 | The first pass writes a prefix of its plan, all of it unless the id generator or the store fails; writes, openings and rejections are those of exactly the reports gone through |
| Reconcile.Engine.AgeAbsent | store/reconcile.go:88-108 | The second pass writes a prefix of its plan, all of it unless the store fails; a closure is listed even if its own write fails |
| Reconcile.Engine.Reconcile | store/reconcile.go:23-111 | Store and result after a reconcile: exactly the planned writes, their announcements and the rejections, and on an error exactly the part that was reached |
| Reconcile.RejectionsExactly | store/reconcile.go:38-42 | The rejected findings are the unacceptable ones, each as often as reported and in that order |
| Reconcile.ByFingerprintFinds | store/reconcile.go:31-34 | The index finds a fingerprint iff a listed record has it, and gives a listed record with it |
| Reconcile.NothingClosedEarly | store/reconcile.go:38-86 | No prefix of the first pass announces a closure |
| Reconcile.NothingOpenedLate | store/reconcile.go:88-108 | No prefix of the second pass announces an opening |
| Meaning.PlanUnique | store/reconcile.go:38-108 | No record is written twice in one reconcile |
| Meaning.PlanHonest | store/reconcile.go:60-104 | Every announcement of a reconcile is the truth: opened iff the record becomes unresolved, closed iff it becomes resolved, silent otherwise |
| Meaning.PlanKeys | store/reconcile.go:38-108 | Only reported fingerprints and unreported, unresolved, unsuppressed records of the target are written |
| Meaning.ReconcileMeans | store/reconcile.go:23-111 | The table after a reconcile, key by key: reported ones inserted or refreshed, the other live ones of the target aged by one scan, everything else untouched |
| Lifecycle.ReportedExactly | store/reconcile.go:46-85 | A reported record, field by field: new ones open, resolved ones open again, all others keep the status their user gave them |
| Lifecycle.UnreportedExactly | store/reconcile.go:88-108 | An unreported record of the target is unchanged iff it is resolved or suppressed; any other is absent once more, unchanged besides below the threshold and resolved now at it |
| Lifecycle.OthersExactly | store/reconcile.go:27-108 | Nothing else changes, also when the scan is cut short |
| Lifecycle.SuppressedIsLeftAlone | store/reconcile.go:92-97 | A scan, complete or cut short, keeps a suppressed record suppressed, says nothing about it, and does not touch it unless it reports it |
| Lifecycle.SuppressionHolds | store/reconcile.go:92-97 | Over every run, from the moment a user suppresses a record until a user changes it again, it is suppressed and nothing is announced about it |
| Consequences.AnnouncementsAreTheDifference | store/reconcile.go:63-104 | The lists a scan returns are exactly the difference between the table before and after, each finding once and as it now stands |
| Consequences.ReconcileFrame | store/reconcile.go:23-111 | A scan deletes nothing, keeps id, target, check, group and first-seen of every record, and changes nothing outside its module and target |
| Consequences.ReconcileKeepsTimes | store/reconcile.go:57-102 | Under a clock that does not run backwards a scan keeps first seen <= last seen <= resolved |
| Consequences.OrderDoesNotMatter | store/reconcile.go:27-108 | Permuting the reports or the store listing, whatever ids are generated, gives the same closures, and the same table and openings up to the ids of new records; with the same id per report the same altogether |
| Clock.CutScanMeans | store/reconcile.go:48-107 | A scan cut short by an error leaves each record either as it was or as the complete scan would have made it |
| Clock.TimesStayInOrder | store/reconcile.go:57-102 | In every table reachable by scans, errors and user changes, times are in order and a resolution time is present exactly on resolved records |
| Runs.ScanWritesOk | store/reconcile.go:23-111 | Also the writes of a scan that an error cut short are to distinct keys and truthfully announced |
| Runs.NotificationConservation | store/reconcile.go:46-104 | Over every run, openings minus closures noted by the writes is the number of unresolved records |
| Runs.UserChangeExactly | web/server.go:195-204 | A user change sets the status of one record, on either store, and nothing else |
| Dropped.HeardExactly | sched/scheduler.go:325-334 | For every run and key: what is handed on about the key is everything that happened to it, in order, iff no failed scan changed whether its record is unresolved |
| Dropped.HeardConserves | sched/scheduler.go:325-334 | If that holds of every key, what is handed on adds up to the number of unresolved records |
| Dropped.OpeningIsLost | store/reconcile.go:60-63 | A run with a first scan whose second write fails: one record is open and nothing has been handed on |
| Alternation.NotificationsAlternate | store/reconcile.go:46-104 | For each fingerprint, over every run, the notes strictly alternate opened, closed, opened, and the record is unresolved iff their number is odd |
| Alternation.UserChangeIsSilentExactly | web/server.go:188-204 | A user change needs no notification iff the record was not resolved; on a resolved one it reopens the problem silently and breaks the balance by one |
| History.StateIsRemembered | store/reconcile.go:36-108 | After any error-free scans of any modules and targets, every record is the closed form of the history: existence, streak, status, descriptive fields, id and all three times |
| Interleaving.UserWriteCoherentExactly | web/server.go:195-204 | The handler's write keeps a record coherent iff it was read as not resolved |
| Interleaving.PlanCoherent | store/reconcile.go:38-108 | A reconcile that started from coherent records writes only coherent records |
| Interleaving.AlwaysCoherent | store/reconcile.go:23-111 | In every state of every interleaving of overlapping reconciles, user changes and failures, on either store: resolved iff dated, streak below the threshold until resolved and equal to it from then on |
| Interleaving.WritesInARow | store/reconcile.go:38-107 | Each further write of an activity that is not interrupted adds its next planned write to the table |
| Interleaving.LeavingIsFinal | store/reconcile.go:45-111 | Once an activity has ended, by its last write or by an error, nothing more is written under its name |
| Interleaving.UninterruptedIsAStep | store/reconcile.go:23-111 | An activity that nothing interrupts leaves exactly the table of the corresponding step of a serialised run |
| Interleaving.IdsStayUnique | store/sqlite.go:40-57 | In every state of every interleaving the database's rows have different ids |
| Interleaving.EvidenceStaysSmall | store/reconcile.go:113-132 | In every state of every interleaving, on either store, no evidence above 64 KiB is stored |
| Interleaving.IdentityIsStable | store/sqlite.go:125-137 | Whatever overlaps, no record disappears, and in the database id, target, check and first-seen never change |
| Interleaving.OverlapAnnouncesTwice | sched/scheduler.go:158-164 | A run of two overlapping first scans in which both announce the finding and the stores end up with different ids and first-seen times |
| Overlap.NoteIsTrueExactly | store/reconcile.go:60-104 | A planned announcement is true of the table it is written to, whatever that has become, iff the record is as resolved or unresolved as when it was listed |
| Overlap.OverlapNoteExactly | store/reconcile.go:23-111 | In every interleaving, on either store, each write's announcement is what the write does iff everything written since the listing left that record's resolvedness alone |
| Overlap.SameRowExactly | store/sqlite.go:125-137 | Corresponding writes leave the same row in both stores iff id, check and first-seen agree with the row that was there |
| Overlap.StoresAgreeExactly | store/sqlite.go:125-137 | The same for every write of corresponding runs of the two stores; all other rows stay as they are |
| StoreRefinement.MergeIsReplace | store/sqlite.go:128-137 | The conflict clause equals whole-record replacement iff key, id, target, check and first-seen agree |
| StoreRefinement.BackendsAgree | store/memory.go:32-37 | With distinct reports and new ids, every serialised run, with errors and user changes, leaves the same table in both stores |
| StoreRefinement.BackendsAreTwins | store/sqlite.go:112-142 | Every interleaving the in-memory store goes through, the database goes through with the same moves until its primary key refuses a row; the stores then differ at most in id, check and first-seen |
| Web.Server.HandleFindingStatus | web/server.go:179-206 | Refuses other statuses, reports a missing record, otherwise changes the status of this record and nothing else |
| Dispatch.Dispatcher.constructor | notify/notify.go:66-108 | A new dispatcher is open and empty, has delivered nothing, and has a positive batch limit and retry count whatever it was given |
| Dispatch.Dispatcher.Enqueue | notify/notify.go:113-140 | Accepts the event unless it is too mild, a duplicate in this window or too late, and flushes the batch it fills; keeps the class invariant |
| Dispatch.Dispatcher.Flush | notify/notify.go:144-148 | Hands over the window as one batch, also when called by a stale timer; nothing stays pending and the timer is off |
| Dispatch.Dispatcher.Close | notify/notify.go:151-157 | Flushes and closes |
| Closing.CloseWaits | notify/notify.go:150-157 | However events, flushes and ends of deliveries interleave: once a Close has returned, every delivery ever due has ended, exactly as often as it was due, and none starts any more |
| Dispatch.Dispatcher.FlushLocked | notify/notify.go:168-206 | Each digest that is not empty goes to each channel exactly once more than before, and to nobody else |
| Dispatch.Dispatcher.Total | notify/notify.go:129-132 | The pending lists together hold exactly the events of the window |
| Dispatch.Dispatcher.BuildDigests | notify/notify.go:177-190 | One digest per module with events, each occurring once, and no other |
| Dispatch.BuildDigest | notify/notify.go:179-189 | Opened findings worst first, resolved ones in order, of this module's events |
| Dispatch.Deliveries | notify/notify.go:194-205 | Every digest that is not empty is handed to every channel once, empty ones to none |
| Dispatch.SendWithRetry | notify/notify.go:208-224 | At most the configured attempts, stops at the first success, reports the last error iff all attempts failed |
| DispatchRuns.RunKeepsInv | notify/notify.go:113-157 | In every run, windows and batches hold no two events with one key, no batch is empty or above the limit, and nothing is pending once closed |
| DispatchRuns.EveryAcceptedEventIsInOneBatch | notify/notify.go:113-157 | The accepted events are exactly those of the flushed batches, in order, followed by the window |
| DispatchRuns.NothingPendingAfterClose | notify/notify.go:151-157 | After Close everything accepted has been flushed, and whatever follows accepts nothing more |
| DispatchRuns.DigestContents | notify/notify.go:178-189 | A module's digest holds its opened findings, each as often as it occurs, worst first and stable, and its resolved findings in enqueue order |
| DispatchRuns.DispatcherConservation | notify/notify.go:113-206 | Over any run ending with Close, a finding is listed as opened (or resolved) for a module exactly as often as such an event was accepted |
| DispatchRuns.BatchesBearTheirTime | notify/notify.go:166-182 | In every run, batch i bears the time of the step of the run that flushed it |
| DispatchRuns.ClosedExactly | notify/notify.go:144-157 | The dispatcher is closed iff the run has a Close in it |
| DispatchRuns.DueForBatch | notify/notify.go:194-205 | A flushed batch makes one delivery per channel due for a module with an opening or a closure in it, and none for any other |
| Severities.DigestExactly | notify/notify.go:178-189 | A module's digest lists its critical openings, then the high, the medium, the low and all others, and its closures, each in enqueue order |
| Severities.TakenBySeverity | notify/notify.go:113-127 | An open dispatcher takes an opening that is not pending iff its severity is in the list from critical down to the configured minimum, and every closure that is not pending |
| DispatchRuns.KeyIsExact | notify/notify.go:122 | For modules without the delimiter, keys are equal iff kind, module and fingerprint are |
| DispatchRuns.KeyWithinModule | notify/notify.go:122 | Within one module, whatever its name, keys are equal iff kind and fingerprint are |
| DispatchRuns.ModulesCollideExactly | notify/notify.go:122 | For arbitrary module names, keys of two modules can coincide iff one name is the other or continues it with the delimiter |
| Sorting.SinkIntoPlace | notify/notify.go:246-248 | One finding moved down by swaps ends up where the stable order wants it |
| Sorting.SortBySeverity | notify/notify.go:243-250 | The in-place insertion sort leaves exactly the stable worst-first order |
| Sorting.WorstFirstIsStableSort | notify/notify.go:228-250 | That order is a permutation, non-increasing in rank, and keeps the order within each rank |
| Bridge.OnResult | notify/bridge.go:18-23 | All openings and then all closures of the scan are enqueued in order |
| Bridge.Callback.Invoke | notify/bridge.go:12-25 | The callback installed before is called first; every bound dispatcher goes through the scan's events once for each time it is bound, and no other object changes |
| Bridge.ToldOnce | notify/bridge.go:13-17 | A dispatcher bound once, at any depth of the chain, goes through all the events of a result once |
| Bridge.ToldNever | notify/bridge.go:13-17 | One bound nowhere goes through none |
| Bridge.ResultOrder | notify/bridge.go:18-23 | The events of a result: all its openings in order, then all its closures in order |
| Bridge.TakenExactly | notify/notify.go:113-140 | Of events with distinct keys, each is accepted iff the dispatcher is open, it is severe enough, and it is not pending or what was pending has been flushed before its turn |
| Bridge.DistinctEventsAreAccepted | notify/notify.go:113-140 | If none of them is pending, all that are severe enough are accepted |
| Bridge.ScanEventsDistinct | notify/bridge.go:18-23 | One scan never produces two events with the same key |
| Bridge.ScanReachesDispatcher | notify/bridge.go:14-24 | From table to dispatcher, whatever that is doing: every record that a scan made unresolved or resolved is offered exactly once, and accepted exactly under the conditions of the dispatcher |
| Windows.StepNotes | notify/bridge.go:18-23 | The events of a completed step say about a key exactly what the step did to it; a failed one has none |
| Windows.ListedIffNoted | notify/notify.go:178-189 | A digest lists a finding as opened iff an opening of it is in the batch, and as resolved iff a closure is |
| Windows.DigestIsRightExactly | notify/notify.go:110-127 | Over every run of scans, user changes, enqueued events and flushes: a digest lists a finding in exactly one list, the right one for the store at that moment, iff the window's events about it are of one kind and those still to be enqueued cancel out |
| Windows.FlapConfuses | notify/notify.go:122-127 | A run with one finding opened, resolved and opened again in one window: it is open in the store and stands in both lists of the digest |
| Totals.SpacedCounts | notify/bridge.go:14-24 | With a flush after every scan, the batches hold exactly as many openings and closures as were handed on |
| Totals.DigestsAddUp | notify/notify.go:168-206 | Then, over every run in which nothing is dropped or too mild, the openings listed in all digests minus the closures are the number of unresolved records |
| Collector.Collect | certlight/collector.go:102-130 | A failed connection is an error; otherwise all checks in order, with nothing the engine would reject and everything it relies on |
| Collector.CollectMeetsContract | certlight/collector.go:102-130 | Whatever the TLS library answers, every finding is accepted, belongs to the target, has a fingerprint of its own and leaves the core's fields alone |
| Collector.TargetOfFingerprint | core/finding.go:135-138 | The target, whatever it contains, can be read back from a fingerprint's preimage |
| Collector.ExpiryLadder | certlight/collector.go:164-197 | The expiry check as a function of time alone: never both findings, steps below 31, 8 and 2 days and at the end |
| Grading.CertificateGraded | certlight/collector.go:164-273 | For each check of the certificate, exactly when it is reported, with which severity and under which fingerprint |
| Grading.ConnectionGraded | certlight/collector.go:275-364 | The same for each check of the connection, the key, the signature and the legacy probe |
| Grading.TitlesCountDays | certlight/collector.go:165-191 | The titles name the whole days left, or passed |
| Grading.FindingsAreWorded | certlight/collector.go:196-273 | Each finding carries the evidence of its own check; titles of a name mismatch and of an untrusted chain |
| Grading.DecimalDenotes | certlight/collector.go:170 | The numeral in a title or fingerprint denotes the number |
| Countdown.ScanExtendsRun | sched/scheduler.go:320-328 | After any run, whatever the TLS library answers, the collector's findings make a scan that the engine can reconcile: the preconditions of the run theorems can always be met |
| Countdown.GradesReportsPhase | certlight/collector.go:164-197 | A scan reports the countdown iff it is running, the expiry iff it is over |
| Countdown.UrgencyNeverDrops | certlight/collector.go:164-197 | At a later time the finding about the certificate's end is at least as urgent and never goes back from expired to expiring |
| Countdown.CountdownIsStored | store/reconcile.go:88-108 | Over any run, the countdown record is absent, open or resolved according to the phases seen, and the expiry record exists and is open iff the certificate has expired |
| Countdown.CountdownIsAnnounced | store/reconcile.go:46-104 | Over any run, the countdown is announced at most once and closed only by the expiry, and the expiry is announced once |
| Countdown.CrossingIsOneScan | certlight/collector.go:165-176 | The scan that first sees the certificate expired closes the countdown, if there was one, and opens the expiry, both at once; no other scan does either |
| Scheduler.NextKeepsInv | sched/scheduler.go:140-336 | Every step keeps: slots taken are the scans collecting, the wait group counts loops and tracked scans |
| Scheduler.WorkersAreBounded | sched/scheduler.go:308-314 | In every reachable state at most Workers scans collect, and the slots taken are exactly theirs |
| Scheduler.AliveUntilCancelled | sched/scheduler.go:296-314 | From Start until a cancel every module's loop is alive, and only a scan-now scan can give up waiting for a slot |
| Scheduler.CancelledExactly | sched/scheduler.go:180-205 | Over every run, the context is over iff the parent cancelled it or a Stop was called after Start |
| Scheduler.EndsByItselfExactly | sched/scheduler.go:308-328 | A scan can end while nothing else moves iff it is not waiting, or a slot is free, or the context is over, or it is a scan-now scan |
| Scheduler.EveryAddScanWasChecked | sched/scheduler.go:158-164 | In every run, each add-time scan comes from one call that passed the check |
| Scheduler.StopWaitsForExactly | sched/scheduler.go:197-205 | Any waiting call of Stop can return iff no module loop is alive and every scan alive is a scan-now scan |
| Scheduler.StopGuardsExactly | sched/scheduler.go:197-205 | When any call of Stop returns, no loop and no sweep-launched scan is alive; some continuation brings one alive iff Start has not been called and there are modules |
| Scheduler.StopIsFinal | sched/scheduler.go:197-205 | Once any call of Stop has returned after Start, no loop and no sweep-launched scan is alive at any point of any continuation |
| Scheduler.StopBeforeStart | sched/scheduler.go:197-205 | A run in which Stop returns before Start and all loops are alive afterwards |
| Scheduler.ScanAfterStopExactly | sched/scheduler.go:158-164 | When any call of Stop returns, no add-time scan is alive; one can collect afterwards iff the context is not cancelled or an AddTarget call had passed its check and not yet launched |
| Scheduler.StopCanReturn | sched/scheduler.go:197-205 | From every state that keeps the invariant in which a Stop waits after a cancel, what it waits for can run to its end and it returns, without new scans and with every scan-now scan untouched |
| Scheduler.ScanNowOutlivesStop | sched/scheduler.go:219-228 | A run in which a Stop that came after Start has returned and a scan-now scan is still collecting |
| Backoff.BackoffFor | sched/scheduler.go:339-351 | The loop, on wrapping 64-bit durations, is repeated doubling with the cap |
| Backoff.BackoffClosedFormExactly | sched/scheduler.go:339-351 | The delay is base times a power of two, capped, for all failure counts iff no doubling overflows before the cap is reached |
| Backoff.BackoffClosedForm | sched/scheduler.go:339-351 | Below 2^62 nothing overflows, the closed form holds and more failures never mean a shorter delay |
| Backoff.TrailingExactly | sched/scheduler.go:274-287 | The failure count is the length of the longest run of failures the target's completions end in; successes and cancellations end it alike |
| Backoff.GateExactly | sched/scheduler.go:262-287 | The target's last completion decides: no failure, or its time plus the base doubled per earlier failure and capped has come |
| Backoff.Gate.MayLaunch | sched/scheduler.go:262-267 | A sweep launches iff the target never completed, did not fail last, or that time has come |
| Backoff.Gate.Complete | sched/scheduler.go:271-287 | After a failure, the attempt is the failure count and the delay the base times two to the attempts before, at most the maximum |
| Backoff.DeadHostProgress | sched/scheduler.go:261-289 | For a target that always fails and whose scans do not overlap, launches equal failures plus the one in flight, and gate and launches respect the sum of the delays |
| Backoff.RetriesAreSpaced | sched/scheduler.go:255-289 | The n-th retry of a dead host starts no earlier than the first attempt plus the sum of the first n capped doublings of the base |
| Positional.ValueOfDigits | store/ulid.go:36-46 | A number below the radix to the n is the value of its n digits |
| Positional.DigitsOfValue | store/ulid.go:36-46 | A sequence of digits is the digits of its value |
| Positional.LexIsNumeric | store/ulid.go:37 | Digit sequences of one length compare as their values do |
| Ulid.ShiftAcross | store/ulid.go:43-46 | One step of the two-word shift is a division by 32 of the 128-bit value |
| Ulid.OrIsPlus | store/ulid.go:45 | The two parts joined by the bitwise or have no bit in common |
| Ulid.EncodeCrockford | store/ulid.go:35-49 | The 26-step loop yields exactly the base-32 digits of the 128-bit value |
| Ulid.RoundTrip | store/ulid.go:35-49 | Decoding gives the 16 bytes back |
| Ulid.DecodedIsEncoding | store/ulid.go:35-49 | A text that decodes is the encoding of what it decodes to |
| Ulid.FirstCharacter | store/ulid.go:38-46 | The first character is at most '7' |
| Ulid.OrderPreserved | store/ulid.go:35-49 | Strings sort exactly as their bytes do |
| Ulid.NewULID | store/ulid.go:18-32 | An id iff the entropy source answers; it decodes to the 48-bit time in six big-endian bytes and then exactly the ten bytes of entropy |
| Ulid.IdOfIsEncoded | store/ulid.go:18-49 | Only one text is the id of a time and an entropy |
| Ulid.IdsDiffer | store/ulid.go:18-32 | Two ids are equal iff their 48-bit times and their entropies are |
| Ulid.AlphabetExactly | store/ulid.go:15 | The alphabet is the digits and the capital letters without I, L, O and U |
| Ulid.TimeOrder | store/ulid.go:18-32 | Whatever the entropy, an id of an earlier millisecond sorts strictly first |
| Ulid.FirstTenCharacters | store/ulid.go:20-27 | The first ten characters depend on the 48-bit time alone and determine it |
| EvidenceKeys.SelectKeys | internal/aiclient/evidence.go:55-68 | Filter, sort and cut leave exactly the surviving keys with fewer than 24 survivors before them, in order |
| EvidenceKeys.KeptAreTheSmallest | internal/aiclient/evidence.go:55-65 | As many survivors as fit, none secret-like, each before every survivor left out |
| EvidenceKeys.KeptAgain | internal/aiclient/evidence.go:55-65 | Selecting again changes nothing |
| EvidenceKeys.SecretExactly | internal/aiclient/evidence.go:129-137 | A key is dropped as secret-like iff it spells one of the seventeen markers, in whatever case |
| EvidenceKeys.LessExactly | internal/aiclient/evidence.go:62 | The order of keys is dictionary order |
| Sanitizer.SanitizeEvidence | internal/aiclient/evidence.go:47-49 | The recursive methods compute the specified tree on every input |
| Sanitizer.SanitizeMap | internal/aiclient/evidence.go:51-74 | Exactly the kept keys, each with its sanitised value |
| Sanitizer.SanitizeValue | internal/aiclient/evidence.go:76-127 | The sanitised value, for every shape of value at every depth; the recursion terminates |
| Sanitizer.SanitizedIsBounded | internal/aiclient/evidence.go:51-145 | For every input tree: no secret-like key, at most 24 keys, 12 items, 401 characters, and no container below the depth limit except a flat list of strings |
| Sanitizer.LeavesFit | internal/aiclient/evidence.go:16-21 | A bounded value has at most 24 to the power of the remaining depth leaves |
| Sanitizer.EvidenceIsBounded | internal/aiclient/evidence.go:47-49 | Whatever evidence goes in, the result is bounded at every level and has at most 24^3 values |
| Provenance.EveryPath | internal/aiclient/evidence.go:51-145 | For every input, depth and path: a path survives exactly through kept keys and the first twelve items above the limit, and what stands there is the same scalar, the text, its cut, or the marker that must stand for it |
| Provenance.EvidenceExactly | internal/aiclient/evidence.go:47-49 | The same for the evidence of a finding |
| Provenance.NoTextIsMadeUp | internal/aiclient/evidence.go:82-108 | Every text in the output is one of three markers or a text at the same path on which the matcher does not fire, whole up to 400 characters and cut there otherwise |
| Provenance.InstructionsAreMasked | internal/aiclient/evidence.go:207-214 | Wherever the matcher fires on a text that survives, the placeholder stands |
| Sanitizer.TwiceExactly | internal/aiclient/evidence.go:76-127 | For every value at every depth and every steady matcher, sanitising again changes nothing iff no list of strings survives at the depth limit and no marker in it is matched |
| Sanitizer.StableExactly | internal/aiclient/evidence.go:47-127 | The same for every evidence map, with the keys that survive |
| Sanitizer.SanitizedTwice | internal/aiclient/evidence.go:76-127 | On JSON-shaped values, sanitising again at the same depth changes nothing |
| Sanitizer.IdempotentExactly | internal/aiclient/evidence.go:47-127 | Sanitising twice equals sanitising once for all JSON-shaped evidence iff the matcher neither fires on the depth marker nor newly on cut text |
| Sanitizer.StringListsAreNotStable | internal/aiclient/evidence.go:101-110 | A list of strings below two maps survives the first pass and is replaced by the depth marker in the second |

## Left out

- Reconcile.Engine.Reconcile: evidence is its JSON size, or the fact that it has none; the JSON encoding itself is not modelled, nor is the encoding and decoding of evidence by the SQLite store.
- Dispatch.Dispatcher.Close: does not itself wait; the wait is a step of its own in `Closing`, because deliveries run concurrently. The pause between attempts and the context timeout are left out.
- Interleaving.IdentityIsStable: does not cover `PruneResolvedBefore` (store/sqlite.go:212-221), which deletes old resolved rows and which nothing in the repository calls outside its tests.
- Windows.DigestIsRightExactly: events of several results are enqueued in the order of the results; findings below the minimum severity and module names with the delimiter are excluded by its premise.
- Collector.Collect: takes the TLS library's answers (handshake, chain verification, host name match, insecure ciphers, legacy probe) as input; remediation texts are shortened to their first phrase and evidence is an input.
- Collector.ExpiryLadder: days are whole days of the exact difference; the code divides 64-bit floating-point hours, which agrees at every step of the ladder.
- Ulid.EncodeCrockford: words are numbers below 2^64 and the or is their sum, which `OrIsPlus` justifies on bit vectors.
- Sanitizer.SanitizeValue: numbers of all types are one kind of scalar; a nil map and an empty map are the same; strings are valid text, so a rune is a character.
- EvidenceKeys.SelectKeys: lower case is modelled for the characters whose lower case is ASCII, which is all the markers can notice.
- Scheduler.NextKeepsInv: intervals and jitter, the scan timeout, module registration, and target removal only decide when a step happens, so a step may happen at any time; panics in collectors are not modelled.
- Backoff.Gate.Complete: a cancelled scan counts as not failed and resets the count, as in the code.
- Text matching for instruction-like evidence is an arbitrary predicate (internal/aiclient/evidence.go:207-214).
- The listing of open and of all records, and the stored target lists: plain filters.
- Target validation, HTTP handlers other than the status change, the web page and command line flags.
- Notification channels, the HFS bridge, the AI client's requests, and licence verification: network and cryptographic library calls.
- The SQL engine, its migrations, and the conversion of times to UTC.
