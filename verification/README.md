# Verified model of gwsdb

gwsdb scans for reachable addresses, reports checks to a D1-backed service, and serves the pool of known-good
addresses to browsers that keep a delta-synchronised copy. This project models the four parts where that can go wrong
and proves what each of them is for.

**The check and pool store and its delta protocol.** `CheckRows`, `Store`, `Database` (the tables as a class, updated
statement by statement), `PoolView` (the SQL view that the maintained table replaced, as specification),
`PoolAgreement`, `PoolRuns`, `Pruning`, `Retries`, `PoolTheorem`, `Ingests`, `Replay`, `Writers`, `PoolHistory`,
`DeltaSync`, `Answers`, `Browser`, `Visits`, `Pages`, `CheckHistory`, `HistoryRequests`, `LateChecks`, `Hypotheses`,
`LateDelta`. Every `db.batch()` is one atomic step. "The pool at version v" is a recorded sequence, because every
visible write bumps the version in its own batch (`PoolHistory.BatchEvolves`). Readers are state machines that take one
database or cache read at a time while writers commit in between.

**The scanner.** `Filter`, `ScannerState` (what each critical section does, as a function), `Scanner` (the same on
fields), `RecheckStates` and `Flushes` (what the sections mean), `ScannerRuns` (all critical sections in any order),
`Heartbeat` and `LateReadings` (when a successful recheck may be suppressed), `Flusher` (tokens, ticker, retry timer,
backoff).

**Address text.** `Text`, `IpText`, `Canonical` (which text denotes which 128 bits, and section 4 of RFC 5952),
`SqlNormalizer` (the SQL normaliser), `Ranges` and `Prefixes` (CIDR ranges and longest-prefix match by text comparison),
`AddressBits` (the same in terms of the octets and words of the texts).

**DNS.** `DnsWire`, `DnsMessage` (names and messages of RFC 1035), `DnsResponse` (the bytes of any response and of any
name, and what they parse to), `ReverseNames` (the queried name, character by character), `Deframe` (TCP reassembly and
matching of answers).

Where the source updates fields, tables or buffers in loops, a class or method here does too, and its `ensures` equates
the result with a function of the old state; the lemmas are about those functions. What an operation does is stated
once more without them, from its input alone, in `Ingests`, `Answers`, `HistoryRequests`, `Visits`, `RecheckStates`,
`Flushes`, `AddressBits`, `DnsResponse` and `ReverseNames`.

## What the proofs rely on

The code does not defend these, so they are explicit hypotheses, and a lemma shows exactly when each matters:

- Checks of one IP arrive in increasing time, except those that store nothing. There is no MAX guard at
  src/store.ts:143-176 (ingests) or src/store.ts:936-982 (on-demand probes). `LateChecks` gives, for one ingest and one
  probe, of an IP inside or outside the pool, the exact condition under which the whole pool row still matches the view:
  `IngestNeedsOrder`, `EntryNeedsOrder`, `ProbeNeedsOrder`, `ProbeEntryNeedsOrder`. `LateProbeMisleads` is an input. A
  success and a failure of one IP with the same time break agreement too: `TiedOutcomes`.
- For the history version it is enough that each check is among the newest 300 of its IP when it is inserted
  (`CheckHistory.HistoryAnswersAreExact`); tables filled in order qualify (`CheckHistory.SortedAreRanked`).
  `LateChecks.VersionFallsBack` says exactly when a pruning makes a version fall back, `LateChecks.IdGivenBack` when the
  request of a probe does.
- One attempt of an ingest uses one cutoff, although the clock is read twice (src/store.ts:68 and src/store.ts:120):
  `Hypotheses.CutoffsMustAgree` is exact. From one attempt to the next the cutoff does not go back.
- An ingest that stopped is submitted again before another request writes. Then agreement survives
  (`Retries.RetriedKeeps`), and only `times_seen` counts once more for the IPs an attempt reached:
  `Replay.ReplayConverges` says for which, exactly.
- A delta that another tab has overtaken may bring back an evicted row (public/static/home.js:453):
  `Browser.DeliveryExact` is exact, `Hypotheses.LateDeltaRun` is a whole run of server and tabs in which it does.
- The scanner reads the clock before it takes the mutex (internal/scan/scanner.go:309 and 396), so readings come in any
  order. `ScannerRuns.NothingIsLost` needs nothing of them. The heartbeat theorems need each recorded result to fit when
  it is recorded (`Heartbeat.FitsResult`): no known failure of its IP is later, or the newest evidence is a success; and
  a success has no later success of its IP still waiting to be submitted. Readings that are in order for each IP,
  whatever the order across IPs, fit (`Heartbeat.OrderedReadingsFit`). `LateReadings` has the exact condition at each
  place that sets a state to ok: `SuppressedAfterScan`, `SuppressedAfterRecheck`, `SuppressedAfterSeed` (a snapshot row,
  or the pending success that overrides it) and `SuppressedAfterMerge`. `Filter.SuccessCovered` is the exact condition
  for the second half: when what a flush submits covers every success. `LateLockHidesRecovery`,
  `LateRecheckHidesRecovery`, `LateFailureMerges` and `LateSuccessIsSubmitted` are runs in which a recovery stays hidden.
- What the PTR results depend on beside the bytes received: the loop stops as soon as every query has a result, so they
  are independent of chunk boundaries if and only if the messages behind that point change none
  (`Deframe.ChunksDoNotMatterIff`). A resolver that answers each query once meets this (`Deframe.ChunksDoNotMatter`);
  `Deframe.RepeatedAnswersDependOnChunks` is an input that does not.
- The server's version never goes backwards.

Times are integers: milliseconds on the server, whose ISO text sorts like the instants, nanoseconds in the scanner, 0
for Go's zero time. functions/ingest.ts:98 turns a submitted time into a millisecond Date; `Filter.ToRow` keeps the
nanoseconds, so two checks of one IP within one millisecond, distinct here, tie on the server, where
`LateChecks.IngestNeedsOrder` and `LateChecks.TiedOutcomes` say what follows.

Where the code and its comments disagree the model follows the code: successful checks carry the reason `scan:ok` or
`recheck:ok` although internal/scan/scanner.go:436-439 says they keep an empty one; lengths 64 to 191 in a DNS name are
label lengths; getASN returns nothing when the longest match has expired, even if a shorter prefix is still fresh.

## Model

| member | source | states |
|---|---|---|
| CheckRows.CoalesceCheckRows | src/checkRows.ts:14-31 | the two loops compute the coalesced rows, in order of first occurrence |
| CheckRows.EntryIsNewest | src/checkRows.ts:16-24 | an IP is remembered iff it occurs; its entry is its newest row (last of equal times) and its newest success |
| CheckRows.CoalesceBatching | src/checkRows.ts:14-31 | coalesce(a ++ b) equals coalesce(coalesce(a) ++ b), order included |
| CheckRows.CoalesceIdempotent | src/store.ts:121-128 | coalescing coalesced rows changes nothing, as updatePoolBatch relies on |
| CheckRows.CoalescedRowsOf | src/checkRows.ts:25-29 | each IP yields one row, or a success followed by a failure not older than it |
| CheckRows.CoalescedMeans | src/checkRows.ts:14-31 | the rows returned for an IP are its newest success, unless that is its newest row, and its newest row |
| CheckRows.CoalescedInOrder | src/checkRows.ts:14-31 | they come in the order in which their IPs first occur in the input |
| Database.Database.InsertCheckRows | src/store.ts:66-90 | the chunked inserts leave the tables as inserting all rows in order under the failure gate does |
| Database.RegroupOfCoalesce | src/store.ts:121-129 | regrouping coalesced rows by IP rebuilds the newest row and newest success of every IP |
| Database.Database.UpdatePoolBatch | src/store.ts:118-179 | the chunked upserts and gated updates compute UpdatePool, whatever the number of IPs |
| Database.Database.PruneCheckHistory | src/store.ts:194-258 | deduplicating, chunking, deleting, recounting and evicting compute Prune |
| Database.Database.SavePTRBatch | src/store.ts:585-612 | the chunks of upserts and cursor updates compute PTRBatches |
| Database.PTRBatchesAt | src/store.ts:570-612 | whatever the chunking, an IP's last entry is cached and its pool row takes the entry's time and its batch's version; other IPs and all checks stay |
| Database.Database.SaveRecheckResult | src/store.ts:880-912 | a success, or a failure of a pool IP, is inserted unless its time is stored; any other failure is not |
| Database.Database.UpdatePoolForCheck | src/store.ts:926-982 | update by key, then insert a new reachable IP |
| Database.Database.HandleIngest | functions/ingest.ts:92-124 | coalesce, insert, update, then prune: the listed IPs on maintenance, or the touched IPs if no list was sent |
| Database.Database.HandleProbe | functions/check.ts:97-108 | record the probe, update the pool, prune the IP |
| Database.RowIPsOfCoalesce | functions/ingest.ts:104 | the touched IPs of a request are exactly the IPs of its rows |
| Ingests.IngestedSuccess | functions/ingest.ts:92-102 | after an in-order ingest of an IP that succeeded, on tables that agree with the view, its newest success and newest row stand behind its earlier rows, its pool row exists, and each column is read from those two rows of the request |
| Ingests.IngestedFailure | src/store.ts:165-176 | of an IP that only failed, with an open gate, the newest row is stored, and the pool row gets its time, the outcome and the new history_count and nothing else |
| Ingests.IngestedNothing | src/store.ts:38-56 | an IP that is gated out or not named keeps its rows and its pool row |
| Ingests.InOrderMeans | src/store.ts:38-56 | what the in-order condition asks: if the gate is open, the newest row and the newest success are newer than all stored rows, and the success is older than a later failure |
| Ingests.IngestedAndPruned | src/store.ts:194-258 | an ingest that prunes to its end leaves each listed pool IP its last 300 rows, evicts it iff none of them succeeded, and changes only history_count; other IPs keep everything |
| Ingests.ProbedAndPruned | functions/check.ts:97-108 | the same for the IP of a probe |
| Ingests.ProbeStores | src/store.ts:880-982 | a probe that succeeded or is of a pool IP is stored, reason included, unless its time is taken, and the pool row shows it column by column; any other probe, and any other IP, changes nothing |
| PoolView.NewestHasRowNumberOne | migrations/0001_init.sql:124-158 | the row the view's window function numbers 1 is the newest by (checked_at, id) |
| PoolView.OldestHasRowNumberOne | migrations/0001_init.sql:124-158 | the success that gives first_seen is the one numbered 1 in ascending order |
| PoolRuns.InsertedRows | src/store.ts:50-56 | in-order rows of an IP are appended behind its stored rows, all of them or, gated out, none |
| PoolRuns.PoolBatchesRow | src/store.ts:132-178 | batching is invisible: each IP's row is touched at most once, by its own entry |
| PoolAgreement.TouchSuccess | src/store.ts:137-164 | a recorded success keeps the row in agreement with the view, history_count included |
| PoolAgreement.TouchFailure | src/store.ts:165-176 | insert and update share one gate, so a failure keeps agreement whether admitted or gated out |
| PoolAgreement.DeleteKeepsNewest | src/store.ts:207-218 | the DELETE keeps exactly the newest min(n, 300) rows of a pruned IP and touches no other IP |
| Retries.RetriedKeeps | internal/scan/flush.go:171-206 | an ingest resubmitted until it completes keeps every IP in agreement, wherever its earlier attempts stopped, and adds no drift unless one of them reached the statement of a success |
| PoolTheorem.HandleKeepsAgreement | functions/ingest.ts:92-124 | every in-order request, resubmitted or not, crashed inside pruning or not, keeps the pool in agreement with the view |
| PoolTheorem.PoolMatchesView | migrations/0001_init.sql:124-158 | after any in-order run from empty tables, resubmitted ingests included, pool and view have the same IPs and agree in every column but first_seen and times_seen, which are never later and never smaller; history_count is exact |
| PoolTheorem.PoolEqualsView | src/store.ts:92-117 | an IP that pruning never cut, and whose successes no resubmission counted again, has exactly the view's row, in every column, whether or not requests crash inside pruning |
| PoolTheorem.CrashedRunsStayAccountable | src/store.ts:189-193 | even when requests crash inside pruning, at every boundary no IP with a success is missing, history_count is exact, the last check is the newest stored one, a row without success has a full history, and all others agree with the view in every column but the one-way drift of first_seen and times_seen |
| Pruning.PruneKeepsNewest | src/store.ts:194-258 | a pruned IP keeps its newest min(n, 300) rows and stays iff one is a success; all others are untouched |
| Pruning.CrashLeavesEvictable | src/store.ts:194-258 | after a crash at any step every pool IP has a success or history_count of at least 300, and the next pruning settles it |
| Replay.ReplayConverges | src/store.ts:38-56 | after an attempt that stopped anywhere a replay stores the same ip_checks, ids included, and the same pool rows up to revision and an exactly stated times_seen and history_count |
| Replay.InOrderReplayKeepsCount | src/store.ts:108-112 | with in-order arrival the replay's history_count is the clean one |
| Writers.RequestIsBatches | functions/ingest.ts:92-124 | every request, complete or crashed in pruning, is a sequence of the atomic batches that the reader proofs interleave, of at most 500 inserts, 400 upserts and 99 pruned IPs |
| Writers.SavesAreBatches | src/store.ts:585-612 | savePTRBatch is such a sequence too |
| Writers.RequestRuns | functions/api/pool/changes.ts:13-41 | the batches of any request, run among the readers, leave the tables the request leaves, and the readers where they were |
| Writers.HistoryWritesApply | functions/api/history.ts:18-60 | the same for the readers of the history |
| PoolHistory.BatchEvolves | src/store.ts:26-28 | every batch leaves what readers see unchanged or makes the next version of it, stamping each changed row and recording evictions |
| PoolHistory.OverlayGivesVersion | src/store.ts:489-508 | the changes since s laid over the pool at s are the pool at v, if nothing was evicted since s |
| DeltaSync.StepCoherent | functions/api/pool/changes.ts:13-41 | whatever step comes next, requests, caches and answers stay true of their versions |
| DeltaSync.AnswersAreExact | functions/api/pool/changes.ts:13-55 | in every interleaving a reset is answered only if since is above the version read or something was evicted after it; each delta, live or cached, is exactly the rows with since < revision <= v of the pool at v and completes the pool at since to it; each full answer is exactly the pool at its version |
| DeltaSync.ResetsAreEvictions | src/store.ts:239-256 | in every run the reset version any state carries is that of an eviction |
| Answers.AnswersShowTheTables | functions/api/pool/changes.ts:36-50 | every delta or full answer of every run shows the tables after some of its actions: exactly the rows changed since, or those of the family by the text of the address, each column of ip_pool and the host names under its own name |
| Answers.ChangesAreAnswered | functions/api/pool/changes.ts:13-55 | while nothing is written, a request is answered within four steps, whatever the other requests and caches: a delta iff reset_version <= since <= version, both ends included, otherwise a reset |
| Answers.PoolIsAnswered | functions/api/pool.ts:17-68 | /api/pool within three steps, with the whole family |
| Answers.EvictionIsReal | src/store.ts:229-256 | the evicting half of a prune makes a version, and a reset, iff an IP leaves the pool |
| Browser.RowStore.WriteFullCache | public/static/home.js:421-440 | keeps a newer snapshot, otherwise replaces rows and version |
| Browser.RowStore.ApplyChanges | public/static/home.js:442-463 | merges rows by revision and advances the version unless it is newer |
| Visits.FullIsTaken | public/static/home.js:421-440 | a full answer ends the tab and makes the copy the pool at its version, unless the copy is newer |
| Visits.DeltaIsTaken | public/static/home.js:442-463 | a delta not older than the copy ends the tab and makes the copy the pool at the delta's version |
| Visits.VisitCatchesUp | public/static/home.js:472-485 | from every state with right copies, with any requests, caches and other tabs, a visit while nothing is written leaves the copy equal to the pool of now and the tab done |
| Browser.TimelyDelta | public/static/home.js:449-455 | a delta no older than the copy turns it into the pool at the delta's version, across evictions |
| Browser.LateDelta | public/static/home.js:449-459 | a delta older than the copy leaves it right iff it names no IP the copy lacks |
| Browser.OneTabStaysInSync | public/static/home.js:472-485 | one tab, any interleaving, any evictions: the copy is the server's pool at the copy's version, which never decreases |
| Browser.TabsStayInSync | public/static/home.js:472-485 | the same for any number of tabs while nothing is evicted |
| Browser.DeliveryExact | public/static/home.js:453 | with several tabs and evictions, a delivered delta keeps the copy right iff it is no older or names no missing IP |
| Pages.PageIsNewestFirst | src/store.ts:799-818 | rows with distinct ids have exactly one page of the newest 300, whatever the order they were stored in |
| Pages.PageShowsNewest | src/store.ts:799-818 | that page is descending by (checked_at, id), has min(n, 300) rows, and every other row is behind them |
| Pages.DeleteKeepsPage | src/store.ts:207-218 | the DELETE changes no page of rows stored in any order |
| CheckHistory.AppendAdvances | src/store.ts:786-797 | an accepted insert of a check among the newest 300 of its IP makes its MAX(id) strictly larger, and changes no other IP's history |
| CheckHistory.DeleteAdvances | migrations/0018_ip_checks_no_autoincrement.sql:9-12 | pruning changes no IP's MAX(id) and no newest-300 page |
| CheckHistory.SameVersionSamePage | src/store.ts:786-789 | two states of any run of such inserts and of prunings with the same history version have the same newest 300 checks |
| CheckHistory.IdsAreFresh | migrations/0018_ip_checks_no_autoincrement.sql:9-12 | in such a run an assigned id exceeds every id any earlier state held |
| CheckHistory.HistoryAnswersAreExact | functions/api/history.ts:18-60 | in such a run every answered page, live or cached, is the newest 300 checks in every state with that version |
| HistoryRequests.HistoryIsAnswered | functions/api/history.ts:18-60 | while nothing is written, a request is answered within three steps: nothing new iff it has the largest id, otherwise the newest 300 checks, with a reset iff it is ahead |
| LateChecks.ProbeNeedsOrder | src/store.ts:936-954 | a probe of a pool IP leaves the whole row matching the view iff it is newer, or ties with the same outcome and, for a success, the same rtt; the last-check columns need only the outcome |
| LateChecks.ProbeEntryNeedsOrder | src/store.ts:955-982 | a successful probe of an IP outside the pool: iff it is newer than everything stored for the IP |
| LateChecks.IngestNeedsOrder | src/store.ts:143-176 | an ingest of a pool IP: iff it only failed and was gated out, or its latest result is newer and untied or ties with the same outcome, and its success, if any, is newer than the last check or the last success again |
| LateChecks.EntryNeedsOrder | src/store.ts:139-142 | the same for an IP that enters the pool, against the failures stored for it |
| LateChecks.LateProbeMisleads | src/store.ts:936-954 | an input: a late success hides a newer failure |
| LateChecks.TiedOutcomes | src/store.ts:40-56 | an ingest with a success and then a failure of an IP, newer than all stored, keeps agreement iff their times differ |
| LateChecks.VersionFallsBack | src/store.ts:194-218 | a pruning makes an IP's history version fall back iff it deletes rows of the IP and the row that came last is not among its newest 300 |
| LateChecks.IdGivenBack | src/store.ts:194-218 | the request of a probe makes the version fall back, and the id will be given out again, iff more than 300 rows of the IP are stored and at least 300 of them are newer |
| Hypotheses.CutoffsMustAgree | src/store.ts:68-120 | with two cutoffs, agreement survives a failure iff the last recorded failure is not between them |
| LateDelta.EvictionIsDue | src/store.ts:229-238 | saving the PTR entry of a row that waits for its eviction leaves the eviction due |
| LateDelta.LateDeltaRevives | public/static/home.js:453 | whenever a row waits for its eviction, two tabs, a PTR refresh and the eviction make a run that ends with an evicted row in the copy |
| Hypotheses.LateDeltaRun | public/static/home.js:453 | an input: such a run, around the second half of a prune of tables that agree with the view |
| Filter.FilterChecks | internal/ingest/filter.go:20-82 | the three loops compute the submitted checks |
| Filter.CollectResults | internal/scan/flush.go:144-151 | one result per IP that succeeded in the window |
| Filter.KeptOrigin | internal/ingest/filter.go:41-79 | every submitted check is a check of the window, about a known-good IP or one that succeeded in it |
| Filter.FailureSubmitted | internal/ingest/filter.go:71-78 | every failure of such an IP is submitted |
| Filter.SuccessCarries | internal/ingest/filter.go:24-53 | a submitted success carries the rtt of the first success of its IP in the window, the time of the last, and the last non-empty reason and detail |
| Filter.FailureCarries | internal/ingest/filter.go:71-78 | a submitted failure is a failure of the window in every field but rtt and mode |
| Filter.SuccessCovered | internal/ingest/filter.go:20-53 | for every success of an IP one at least as new is submitted iff the last success in the window is the newest |
| Filter.SuccessSubmitted | internal/ingest/filter.go:43-53 | for every success one at least as new is submitted |
| Filter.FilterThenCoalesce | internal/scan/flush.go:144-177 | filtering and then coalescing a chronological window equals, in (ip, ok, time), coalescing it restricted to admitted IPs |
| Scanner.Scanner.Record | internal/scan/scanner.go:300-321 | a scan is appended and updates a tracked state; a mixed result does nothing |
| RecheckStates.ScanIsRecorded | internal/scan/scanner.go:300-321 | the appended check field by field, the counter, and the state: a success sets it, a failure only an existing one |
| Scanner.Scanner.RecordRecheck | internal/scan/scanner.go:385-416 | a recheck is appended unless it is a success within the interval of the last one |
| RecheckStates.RecheckIsRecorded | internal/scan/scanner.go:385-416 | appended unless it succeeded, the IP was ok and its last success is less than 24 hours and one second old; the state afterwards |
| Scanner.Scanner.SeedRecheckStates | internal/scan/scanner.go:326-357 | snapshot rows seed or advance states, and the newest pending check overrides them |
| RecheckStates.SeedIsNewest | internal/scan/scanner.go:326-357 | a snapshot row leaves the state of its IP the newest of what it was, the row and the newest waiting check, and other IPs alone |
| RecheckStates.SeedInParts | internal/scan/scanner.go:326-357 | a snapshot is taken row by row |
| Scanner.Scanner.MergeSubmittedStates | internal/scan/scanner.go:363-381 | accepted checks advance states, and nothing stays in flight |
| Scanner.Scanner.Requeue | internal/scan/flush.go:245-251 | the window goes back in front of the buffer |
| RecheckStates.RequeueIsFirst | internal/scan/flush.go:124-131 | taking the buffer and putting it back is undone exactly, with what was appended meanwhile behind it |
| Scanner.Scanner.Flush | internal/scan/flush.go:124-206 | the whole flush: what it submits, when it fails, and every field afterwards |
| Flushes.FlushOutcome | internal/scan/flush.go:124-206 | when a flush succeeds and when it sends anything, from buffer, candidates, clocks, known-good set and reply alone |
| Flushes.NonemptyIsSent | internal/scan/flush.go:135-190 | a flush of a non-empty window that succeeds has sent something and got a reply |
| Flushes.FailuresAreSent | internal/scan/flush.go:171-180 | every failure of a known-good IP, or of one that succeeded in the window, is in the submission |
| Flushes.SuccessesAreSent | internal/scan/flush.go:144-180 | for every IP that succeeded a success with the time of its last one is in the submission |
| Flushes.SuccessesAreCovered | internal/scan/flush.go:144-180 | if the last success of an IP is its newest, one at least as new as each of them is in the submission |
| Flushes.OnlyTheWindowIsSent | internal/scan/flush.go:171-180 | nothing else is: each sent check comes from one of the window |
| Flushes.SentSuccessCarries | internal/scan/flush.go:144-180 | a sent success carries the rtt of the first success of its IP in the window and the last non-empty reason and detail |
| Flushes.SentCandidates | internal/scan/flush.go:208-228 | a submission asks for maintenance iff it is due, and lists exactly the earlier candidates and the IPs sent |
| Flushes.ReplyIsMerged | internal/scan/flush.go:184-203 | after a reply recheck states and candidates come from exactly the checks that were sent, the known-good set gains the IPs that succeeded, and nothing is buffered or in flight |
| Flushes.MaintenanceClock | internal/scan/flush.go:133-193 | maintenance is due again ten minutes after one that pruned and one minute after one that did not |
| ScannerState.FailedFlushRestores | internal/scan/flush.go:242-251 | a failed flush leaves buffer, counter, states and prune candidates as they were |
| ScannerState.CandidatesAreKept | internal/scan/flush.go:230-240 | a prune candidate is dropped only by a maintenance submit that listed it and was told pruneOk |
| ScannerRuns.NothingIsLost | internal/scan/flush.go:124-251 | in every reachable state, whatever the clock readings, flushed windows, window in flight and buffer are the append log in order, every probe is counted, and every accepted IP stays a candidate until such a submit |
| ScannerRuns.FlushIsTwoEvents | internal/scan/flush.go:124-206 | a flush that nothing interrupts is two events of the machine, with the same state, candidates and submission |
| ScannerRuns.ProbesAreEvents | internal/scan/scanner.go:300-416 | the other events of the machine are the sections of the workers and of the feeder |
| Heartbeat.SuppressionHidesNoRecovery | internal/scan/scanner.go:399-405 | a recheck success is suppressed only if the newest evidence is a success and one persisted or reported success is under 24h and 1s old, in every interleaving and every order of readings in which each recorded result fits |
| Heartbeat.TransitionsPersist | internal/scan/scanner.go:399-405 | failures, and successes whose newest evidence is a failure, are always appended, under the same condition |
| Heartbeat.OrderedReadingsFit | internal/scan/scanner.go:308-310 | readings in order IP by IP, in any order across IPs, meet that condition in every run |
| LateReadings.SuppressedAfterScan | internal/scan/scanner.go:309-316 | with any readings, suppression after a scanned success is right iff no known failure is later or the newest evidence was a success |
| LateReadings.SuppressedAfterRecheck | internal/scan/scanner.go:396-416 | the same iff for a successful recheck that is persisted |
| LateReadings.SuppressedAfterSeed | internal/scan/scanner.go:335-356 | a snapshot row that starts a state or is newer than it: the same iff; a pending success that overrides the row: right iff the newest evidence was a success |
| LateReadings.SuppressedAfterMerge | internal/scan/scanner.go:363-378 | accepted checks that turn a state to ok: right iff the newest evidence was a success before |
| LateReadings.LateLockHidesRecovery | internal/scan/scanner.go:308-321 | a run: a recheck failed at 5 enters before a scan that succeeded at 4, and the success at 6 is suppressed while the newest evidence is the failure |
| LateReadings.LateRecheckHidesRecovery | internal/scan/scanner.go:396-416 | the same run with scan and recheck exchanged |
| LateReadings.LateFailureMerges | internal/scan/scanner.go:363-378 | a run: an accepted success turns the state to ok while a later failure waits in the buffer, and the next success is suppressed |
| LateReadings.LateSuccessIsSubmitted | internal/ingest/filter.go:41-53 | a run: a success appended behind a newer one is what the flush submits, so the failure between them is the newest the server accepted, and the next success is suppressed |
| Flusher.RetryState.AfterFlush | internal/scan/flush.go:29-72 | each select case sets backoff, retry and wake as its outcome demands |
| Flusher.NoLostWakeup | internal/scan/flush.go:54-74 | with FlushSize checks buffered, a token is pending, a flush under way or a retry armed, and a waiting flusher can take a case that flushes |
| Flusher.RetryBookkeeping | internal/scan/flush.go:34-48 | retry armed iff wake disabled iff backoff > 0; after k failures backoff is min(FlushInterval * 2^(k-1), 1 minute) |
| Flusher.FlushSucceeds | internal/scan/flush.go:53-73 | a flush that succeeds, started by ticker, token or retry, leaves no check, no backoff and no retry |
| Flusher.FlushFails | internal/scan/flush.go:34-48 | one that fails keeps every check and arms a retry in FlushInterval doubled per earlier failure, one minute at most |
| Flusher.ProducersAndTicker | internal/scan/scanner.go:440-450 | an appended check is counted, FlushSize of them leave a token, and while a retry is armed the ticker does nothing |
| Flusher.RetryRecovers | internal/scan/flush.go:67-72 | a retry that succeeds returns to the calm state |
| IpText.ComputeExpandIPv6 | src/ipAddr.ts:15-38 | the splits, counts and group loop compute the expansion |
| IpText.ScanRuns | src/ipAddr.ts:51-66 | the left-to-right scan finds the leftmost of the longest runs |
| IpText.ComputeNormalizeIPAddress | src/ipAddr.ts:43-71 | the whole of normalizeIPAddress |
| Text.DigitTable | src/ipAddr.ts:49-50 | the sixteen hexadecimal digits, printed in lower case and read in both cases |
| Canonical.ExpandIsTheAddress | src/ipAddr.ts:15-38 | accepted are exactly the texts that denote an address (section 2.2 of RFC 4291, forms 1 and 2), and the answer is that address |
| Canonical.ExpansionsAgree | src/ipAddr.ts:13-38 | two texts expand alike iff they denote the same 128 bits |
| Canonical.NormalizeKeepsAddress | src/ipAddr.ts:43-71 | the result expands to what the input expands to |
| Canonical.NormalizeIdempotent | src/ipAddr.ts:43-71 | normalising twice is normalising once, on IPv4 and IPv6 text |
| Canonical.NormalizeIsCanonical | src/ipAddr.ts:40-71 | two IPv6 texts normalise alike iff they denote the same 128 bits |
| Canonical.NormalizeIsRecommended | src/ipAddr.ts:40-71 | exactly one text per address obeys sections 4.1, 4.2.1 to 4.2.3 and 4.3 of RFC 5952, and normalizeIPAddress returns it |
| AddressBits.NormalizeAccepts | src/ipAddr.ts:43-46 | accepted are exactly dotted texts, which stay as they are, and texts that denote an IPv6 address |
| SqlNormalizer.PartsAre | migrations/0011_normalize_ipv6.sql:12-50 | the SQL groups are the groups normalizeIPAddress prints |
| SqlNormalizer.ChosenPattern | migrations/0011_normalize_ipv6.sql:51-69 | the pattern tried longest first is that of the longest run |
| SqlNormalizer.ChosenPlace | migrations/0011_normalize_ipv6.sql:70-87 | its first occurrence is the leftmost longest run |
| SqlNormalizer.SqlAgrees | migrations/0011_normalize_ipv6.sql:10-88 | the SQL gives normalizeIPAddress's text for every string expandIPv6 accepts |
| Ranges.TextOrderIsNumeric | src/ipAddr.ts:73-84 | lowercase hexadecimal texts of one length sort like their numbers |
| Ranges.InBlock | src/ipAddr.ts:108-118 | between value with its host bits cleared and value with them set lie exactly the numbers that share the leading bits |
| Prefixes.ComputeIpToHex | src/ipAddr.ts:77-84 | the octet loop and the IPv6 expansion give one 32-digit format |
| AddressBits.OctetBits | src/ipAddr.ts:77-84 | bit 8 * (3 - i) + k of the point of a.b.c.d is bit k of its i-th octet |
| AddressBits.WordBits | src/ipAddr.ts:77-84 | bit 16 * (7 - i) + k of the point of an IPv6 text is bit k of the i-th word it denotes |
| AddressBits.PrefixIsValid | src/ipAddr.ts:99-107 | address/length is accepted iff the address is one and the length an integer from 0 to 32 or 128 |
| AddressBits.NoSlashNoPrefix | src/ipAddr.ts:99-101 | a text without a slash is no prefix |
| AddressBits.RangeHolds | src/ipAddr.ts:99-120 | an address is in the range of address/length iff the first length bits of octets or words are the same |
| Prefixes.InRangeIsPrefixMatch | src/ipAddr.ts:99-120 | an address lies in a range of its family by text comparison iff its first n bits are the prefix's |
| Prefixes.NestedOrDisjoint | src/ipAddr.ts:99-120 | ranges of one family are nested or disjoint |
| Prefixes.AsnCache.SaveASN | src/store.ts:742-773 | invalid prefixes are dropped, known ones keep their range columns; every row's range stays its prefix's |
| Prefixes.AsnCache.GetASN | src/store.ts:713-738 | answers with a longest match of the address's family if it is fresh, otherwise with nothing |
| AddressBits.AnswerIsLongestPrefix | src/store.ts:713-738 | an answer is a fresh stored prefix that covers the address with the most bits; there is none only if no prefix covers it or one with the most bits expired |
| AddressBits.NoAddressNoAnswer | src/store.ts:713-715 | a text that is no address gets no answer |
| AddressBits.SavedMeans | src/store.ts:742-773 | a valid prefix has the new information afterwards, stored before or not, an invalid one changes nothing, and other prefixes stay |
| Prefixes.LongestIsSmallest | src/store.ts:704-712 | the chosen row's range lies inside every stored range that contains the address |
| Prefixes.AnswerMatchesPrefix | src/store.ts:713-738 | an answer is fresh and its prefix's first bits are the address's |
| DnsWire.ReverseNibblesDotted | src/resolver.ts:28-32 | the loop prints the digits last first |
| ReverseNames.ReverseOfDotted | src/resolver.ts:39-43 | the octets as written, last first, and in-addr.arpa |
| ReverseNames.ReverseOfIPv6 | src/resolver.ts:28-46 | the 32 hexadecimal digits of the words the text denotes, last first, a dot behind each, and ip6.arpa |
| DnsWire.ComputeEncodeQName | src/dnsWire.ts:11-21 | the loops write each non-empty label behind its length, and a zero byte |
| DnsWire.ComputeSkipName | src/dnsWire.ts:50-59 | the loop finds the end of an encoded name |
| DnsWire.ComputeDecodeName | src/dnsWire.ts:66-88 | the loop terminates on any bytes and computes the labels and the next offset |
| DnsWire.ThrowsOnPointer22 | src/dnsWire.ts:77-78 | decodeName throws iff it would have to follow a 22nd pointer |
| DnsWire.NextIsSkip | src/dnsWire.ts:66-88 | whenever decodeName returns, its next is where skipName stops |
| DnsWire.PointerMeansTarget | src/dnsWire.ts:77-82 | a pointer stands for the name at its target, behind the labels before it (section 4.1.4 of RFC 1035) |
| DnsWire.NameRoundTrip | src/dnsWire.ts:11-88 | decoding an encoded name, anywhere in a message, gives its non-empty labels back |
| DnsResponse.DecodesIffNamed | src/dnsWire.ts:66-88 | on any bytes decodeName returns labels iff they are the name at the offset, its pointers being the low 14 bits of two bytes and at most 21 |
| DnsMessage.BuildPTRQuery | src/dnsWire.ts:28-43 | the writes into the two buffers produce the framed query |
| DnsMessage.ComputeParseMessage | src/dnsWire.ts:107-136 | the loops compute the response, or fail exactly where a read or decodeName throws |
| DnsResponse.ResponseRoundTrip | src/dnsWire.ts:107-136 | any head, questions, records and trailing bytes parse to the identifier, the rcode and exactly the records of type 12, in order, with ttl and the name their rdata denotes |
| DnsResponse.PlainResponseRoundTrip | src/dnsWire.ts:107-136 | without compression in the rdata this needs no condition on the message |
| DnsMessage.QueryRoundTrip | src/dnsWire.ts:28-43 | for every valid address the frame announces its length, the message parses to id mod 65536 without answers, and its question decodes to reverseName |
| ReverseNames.QueryOnTheWire | src/dnsWire.ts:28-43 | the bytes of the framed query for any valid address: length, identifier, flags, counts, the labels of the reverse name, type 12, class 1 |
| Deframe.Connection.Receive | src/ptrRefresh.ts:91-112 | one chunk: every complete message is taken and matched, the incomplete suffix stays |
| Deframe.ResultIsLast | src/ptrRefresh.ts:100-110 | an address has a result iff some message parses and carries its identifier, and the result is the last such message |
| Deframe.DeframeMeans | src/ptrRefresh.ts:96-100 | deframing finds exactly the messages whose frames, with an incomplete rest, make up the stream (section 4.2.2 of RFC 1035) |
| Deframe.DeframeInParts | src/ptrRefresh.ts:91-100 | deframing chunk by chunk is deframing the whole |
| Deframe.ChunksDoNotMatterIff | src/ptrRefresh.ts:84-113 | the loop returns the same for every way to cut a stream into chunks iff, once every query has a result, the messages behind change none |
| Deframe.ChunksDoNotMatter | src/ptrRefresh.ts:84-113 | if no query is answered twice, the results depend on the bytes alone |
| Deframe.RepeatedAnswersDependOnChunks | src/ptrRefresh.ts:84-106 | with a repeated answer they can depend on the chunks |
| Deframe.PipelinePTRQueries | src/ptrRefresh.ts:66-121 | the read loop returns what the chunks read so far say, and stops only when all is answered or nothing more comes |
| Deframe.CachedIffDefinitive | src/ptrRefresh.ts:137-147 | an address is cached iff some message answers its query with rcode 0 or 3, and then with that answer |

## Left out

- scan_mode in the comparison with the view: updatePoolForCheck does not update it on existing rows.
- Statistics, totals and scan mode in the bodies of /api/pool and /api/pool/changes: they are stale by design and carry no version.
- The order of rows in answers and in the browser's list, and the derived columns country and PTR list.
- The publishing and PTR jobs an ingest starts. A request without pruneIPs prunes in the background; its batches are atomic steps like any others, and its error is only logged.
- HTTP parsing, authentication, rate limits, rendering, IndexedDB schema upgrades, and failing transactions: a failed one changes nothing.
- Database.Database.HandleIngest: takes rows whose addresses are valid and normalised, because that is all its guards let through.
- Prefixes.InRangeIsPrefixMatch: takes JavaScript's Number() of the length text as a function, so which spellings of a length are integers is not modelled.
- SqlNormalizer.SqlAgrees: reads the JSON arrays of the SQL as the lists of parts they spell, which for hexadecimal parts they are.
- The second half of the IPv6 migration, which rewrites the tables with the view's own query.
- IPv4 canonicity: normalizeIPAddress returns IPv4 text unchanged, leading zeros included.
- Deframe.PipelinePTRQueries: a chunk list that ends stands for the deadline; sorting of host names and the minimum TTL are not modelled, results hold the parsed answers.
- Scanner.Scanner.Flush: the scan mode is the same for all checks of a scanner and is put back after filtering; the diagnostic per-IP counters and log lines are not modelled.
- flushFinal, worker scheduling, and the context that ends the flusher.
- Probing itself (ICMP, TLS, TCP), DNS over HTTPS, the Cloudflare API: results are arbitrary inputs.
