# Verified model of the INPX catalog server

A Dafny model of the INPX web reader's core and proofs of what it promises: catalog scans that
update incrementally but agree with a full rebuild, cursor pagination under concurrent requests
and catalog commits, the statistics and the search index that shadow the base rows, file
replacement that never loses the previous content, the canonical archive manifest, and the UTF-8
codec with the text keys built on it.

`dafny verify dfyconfig.toml` checks the whole project.

## How the model is laid out

| files | what they model |
|---|---|
| `CatalogModel`, `IncrementalScan`, `IncrementalScanProof`, `ScanPlanning`, `ScanHistory`, `ScanTotality` | the catalog tables as maps, the statements of a scan as functions on them, segment classification, and whole histories of scans |
| `CatalogStatistics`, `CatalogWriter`, `ScanExecution`, `ArchiveDirectory`, `ArchiveGuards`, `ScanConditions`, `ScanCounters`, `ScanRun` | the same scan in its imperative form: the writer's transaction, the statistics rows, the in-flight payload window, the archive guards against a changing file system, the counters, and one whole scan up to its commit or rollback |
| `ScanJobs`, `ScanService` | the job service as a state machine of critical sections, the class that performs them, and jobs together with the catalog they change |
| `CursorCache`, `CursorProtocol`, `CursorContinuation`, `SearchCriteria` | the bounded cache of materialised result lists, every interleaving of requests and catalog commits over it, when a cursor is still usable, and the criteria a session is bound to |
| `SearchIndex`, `SearchHistory` | entity tables, links and the contentless full-text index, and whole runs of inserts and updates over them |
| `FileReplacement`, `BookDownload` | replacement of a file when any step may fail, and the download that publishes through it |
| `ArchiveManifest` | the text an archive fingerprint is computed from |
| `Utf8`, `TextNormalization`, `MetadataNormalization`, `TextLaws`, `LanguageNormalization`, `LanguageLaws`, `FilenamePolicy` | the codec against section 4 of RFC 3629, normalisers and truncation on top of it, and what they do to letters, blanks and labels |
| `MemoryBudget` | the division of the configured memory |
| `Bytes`, `MapSums`, `Runs`, `Wrappers` | byte strings and sorting, sums over maps, induction over runs, `Option` and `Result` |

Conventions. A value-level function or relation says what an operation does to a state; a class
method that performs it in place is proved to do exactly that, and the laws are lemmas about the
value level. What the environment decides (a failing read, a cancellation, another process
touching an archive) is a nondeterministic choice, so the guarantees hold for every pattern of
failures. Such interferences are counted (`faults`), so that a contract can also say what happens when
there are none; and every look at an archive is recorded in a history with its purpose, so that a
contract can say when something was observed. SHA-256 is treated as injective by letting a fingerprint
be the content it identifies.
A segment row is keyed by its INP entry name and a book by its LibId, which are unique in the
schema. An archive with the same path, size and modification time as at the previous scan is taken
to hold the same payloads; this is the assumption named `Honest` where two scans are compared.

## Main results

* `IncrementalScanProof.IncrementalIsRebuilt`: the statements of a scan, in any drain order, write
  exactly the catalog declared by `CatalogModel.Rebuilt`. From it follow `ScanHistory.HistoryIndependence`
  over every history of scans and `ScanPlanning.RescanRefinesInitialScan`.
* `ScanRun.RunScan`: a scan against a changing file system either publishes that catalog or leaves the
  stored one as it was. If it publishes, every archive guard was seen to hold while the scan planned
  and again after it had read its last payload, the counters count what they name, the statistics
  agree with the base tables, the covers were within budget at every write, and no failed read or
  noticed cancellation was passed over. The counters count the records of the snapshot
  (`ScanCounters.ExactCountersDescribe`): an initial scan keeps nothing, and a rescan of an unaltered
  snapshot keeps everything and reads no payload. If nothing interferes, it publishes exactly the
  snapshots that `ScanConditions.Scannable` describes, except for those whose planned writes exceed
  the cover budget.
* `ScanService.OnlyCompletedJobsCommit`: along every run of the job service the catalog is what the
  scans of the completed jobs made of it, and what readers see is decided by the last of them.
* `CursorProtocol.EveryRunIsSafe`, `PublishingSucceeds` and `PaginationRefinesOffset`: under every
  interleaving the cache keeps its invariant and a chain of pages is one snapshot's result from the
  offset on; until 2^64 - 1 reservations were made (`WrapsLate`) no accounting check can terminate the
  process and a reservation is kept as a promise.
  `CursorContinuation.ContinuationSucceedsIff` says exactly when the next page of a chain can be had, and
  `CursorLastsTenMinutes` that a cursor used within ten minutes is good.
* `SearchIndex.RebuiltDocumentIff`: the document rebuilt from rows is the indexed one exactly when
  no author, tag or genre list holds two entries with one key. `SearchHistory.IndexedIff` carries
  this through every run of inserts and updates, in both directions, and
  `SearchHistory.PostingsAreRight` shows that what a row can be found by is right in every run:
  in each column by the words of that part of its metadata (`SearchHistory.FoundByItsMetadata`).
* `TextLaws.CaseIsForgotten`: texts that differ only in the case of their letters have one key.
* `FileReplacement.ReplaceDestination` and `BookDownload.PrepareDownload`: the original survives at
  every moment until validated content has replaced it and its backup is removed; a request that the
  facade refuses changes nothing, and one that it serves met every condition.

Four promises are false of the code in general, and the exact conditions are proved:

* `NormalizeText` is not idempotent on text whose first visible character is U+E000, nor on invalid
  input (`MetadataNormalization.KeyTwiceIff`, with `ReservedIsNotIdempotent` as the example).
* The search document is not rebuilt when a list holds two entries with equal keys
  (`SearchIndex.RebuiltDocumentIff`, with `TwinAuthorsAreNotRebuilt` as the example). An update then
  deletes another document than the one that was inserted, against the warning at
  `libs/Database/SearchIndexMaintenance.cpp:96-98`, and as far as whole documents go no later update
  makes up for it (`SearchHistory.IndexedIff`). Only how often and where words occur is affected: the
  two documents have the same words in every column (`SearchIndex.RebuiltTermsAgree`), so no row is
  found by a wrong word or missed by a right one (`SearchHistory.PostingsAreRight`).
* Cover statistics disagree with the base rows after an insert, or an update to another cover, when
  the cover's file does not exist and the cover is not yet counted
  (`CatalogStatistics.InsertAgreesIff` and `ReplaceAgreesIff`, with `MissingCoverIsNotCounted` as the
  examples).
* A cursor that is handed out is not always accepted: a first page of no ids at offset zero comes with
  a cursor at position zero, which is refused (`CursorContinuation.HandedOutIsValidIff`).

## Model

| member | source | states |
|---|---|---|
| `IncrementalScanProof.IncrementalIsRebuilt` | libs/App/InpxScanJobService.cpp:1346-1640 | upserting segments, writing payloads in any order, clearing rows not seen and the two availability updates leave exactly the declared catalog |
| `IncrementalScanProof.StampedIff` | libs/App/InpxScanJobService.cpp:1434-1640 | a scan stamps a location with its own id iff it wrote the payload or changed the row; every other stamp stays |
| `IncrementalScanProof.UpsertAllAt` | libs/App/InpxScanJobService.cpp:1346-1432 | after all upserts a planned segment has its planned row and exactly the deletion rows of its plan |
| `IncrementalScanProof.ClearAllAt` | libs/App/InpxScanJobService.cpp:1560-1576 | a location ends absent exactly when its segment was reparsed and this scan did not see it |
| `IncrementalScanProof.EligibleWhenListed` | libs/App/InpxScanJobService.cpp:1577-1640 | for a listed LibId the SQL condition over segments and deletions means that no later segment of the snapshot deletes it |
| `ScanHistory.RebuiltKeepsInv` | libs/App/InpxScanJobService.cpp:1346-1640 | each committed scan keeps the invariant that available segments' locations and deletion rows equal their parsed content |
| `ScanHistory.RunKeepsInv` | libs/App/InpxScanJobService.cpp:1893-1900 | along every history of scans, of any modes, the invariant holds and each scan commits the declared catalog |
| `ScanHistory.HistoryIndependence` | libs/App/InpxScanJobService.cpp:1577-1640 | a LibId is available iff the last snapshot lists it as an active FB2 record and no later segment deletes it; available rows do not depend on the history |
| `ScanHistory.AvailableIff` | libs/App/InpxScanJobService.cpp:1577-1640 | a book is available iff the last snapshot lists it as an FB2 record that is not deleted and no later segment has a deletion record for it, said of the records themselves |
| `ScanHistory.ShownRow` | libs/App/InpxScanJobService.cpp:1434-1530 | the row of an available book is its segment, its record and the payload the archive holds for the entry |
| `ScanHistory.StoredSegments` | libs/App/InpxScanJobService.cpp:1346-1432 | after any history the segment rows are those of the last snapshot in its order, and segments that vanished keep their row, unavailable |
| `ScanHistory.BooksStay` | libs/App/InpxScanJobService.cpp:1560-1640 | a book never leaves the catalog; one the snapshot no longer lists keeps its row and becomes unavailable |
| `ScanPlanning.PlanIsAccurate` | libs/App/InpxScanJobService.cpp:2179-2235 | classification as Unchanged, Added or Changed is right about the segment and the archive as they are |
| `ScanPlanning.ReusedIff` | libs/App/InpxScanJobService.cpp:2179-2235 | a segment is planned Unchanged iff the scan is a rescan, the segment is known and available with the same records, and its archive has the same path and state or the same manifest; otherwise all its records are planned to be parsed, as Changed if it is known and as Added if not |
| `ScanPlanning.PlannedIff` | libs/App/InpxScanJobService.cpp:2179-2235 | a segment can be planned iff the archive it needs is found, and can be read unless path and state suffice |
| `ScanPlanning.PlanIsStable` | libs/App/InpxScanJobService.cpp:2079-2138 | reading further archives does not change a decision already taken |
| `ScanPlanning.RescanRefinesInitialScan` | libs/App/InpxScanJobService.cpp:2179-2235 | from the same catalog and snapshot a rescan and an initial scan commit the same tables, whatever the execution and drain order |
| `ScanPlanning.DuplicateCheckIsExact` | libs/App/InpxScanJobService.cpp:2388-2391 | the check against reused and already processed ids passes iff no LibId is active twice anywhere in the snapshot |
| `ScanTotality.EverySnapshotHasAScan` | libs/App/InpxScanJobService.cpp:2028-2267 | every snapshot that is not empty, readable and unambiguous has plans and payloads in either mode, and writing them commits the declared catalog |
| `CatalogStatistics.StatisticsTables.IncrementCoverReference` | libs/Database/CatalogStatisticsMaintenance.cpp:177-226 | the in-place row updates are the reference-count increment of the specification |
| `CatalogStatistics.StatisticsTables.DecrementCoverReference` | libs/Database/CatalogStatisticsMaintenance.cpp:309-353 | likewise for the decrement, which removes the row with its last reference |
| `CatalogStatistics.StatisticsTables.RefreshCoverReferenceSize` | libs/Database/CatalogStatisticsMaintenance.cpp:244-307 | likewise for refreshing a size, inserting a missing row with the stored reference count |
| `CatalogStatistics.StatisticsTables.RecordCoverPathChanged` | libs/Database/CatalogStatisticsMaintenance.cpp:553-581 | the cover change of the specification |
| `CatalogStatistics.StatisticsTables.RecordBookInserted` | libs/Database/CatalogStatisticsMaintenance.cpp:539-551 | the insert of the specification |
| `CatalogStatistics.StatisticsTables.RecordAvailabilityUpdates` | libs/Database/CatalogStatisticsMaintenance.cpp:598-620 | the set-based availability deltas of the specification |
| `CatalogStatistics.InsertKeepsAgreement` | libs/Database/CatalogStatisticsMaintenance.cpp:539-551 | after an insert the counters equal the row counts, each reference count is the number of books naming the cover and the byte total is the sum over distinct covers |
| `CatalogStatistics.ReplaceKeepsAgreement` | libs/App/InpxScanJobService.cpp:1452-1523 | the same after a book is updated, with the same or another cover, and becomes available |
| `CatalogStatistics.AvailabilityChangeKeepsAgreement` | libs/Database/CatalogStatisticsMaintenance.cpp:583-596 | a single book that becomes available or unavailable keeps agreement |
| `CatalogStatistics.RefreshRepairs` | libs/Database/CatalogStatisticsMaintenance.cpp:244-307 | refreshing a cover whose row was lost brings back the row and its bytes, and none if no book names it |
| `CatalogWriter.RewritingRepairs` | libs/App/InpxScanJobService.cpp:1452-1523 | writing a book again with the cover it had restores a lost cover row with its full reference count |
| `CatalogStatistics.AvailabilityUpdatesKeepAgreement` | libs/App/InpxScanJobService.cpp:1642-1647 | adding newly unavailable and subtracting newly available rows keeps the unavailable counter equal to the row count |
| `CatalogStatistics.InsertAgreesIff` | libs/Database/CatalogStatisticsMaintenance.cpp:177-226 | an insert keeps agreement iff the cover file exists or the cover is already counted |
| `CatalogStatistics.ReplaceAgreesIff` | libs/Database/CatalogStatisticsMaintenance.cpp:553-581 | an update keeps agreement iff the new cover's file exists or the new cover is already counted, whatever the old cover was |
| `CatalogStatistics.MissingCoverIsNotCounted` | libs/Database/CatalogStatisticsMaintenance.cpp:177-226 | an insert and an update with a missing cover file after which the statistics are wrong |
| `CatalogStatistics.AgreementIsNonNegative` | libs/Database/CatalogStatisticsMaintenance.cpp:62-86 | no counter is negative when the statistics agree |
| `CatalogWriter.StreamWriter.UpsertSegment` | libs/App/InpxScanJobService.cpp:1346-1432 | the transaction's tables become those of the upsert; nothing stored changes |
| `CatalogWriter.StreamWriter.WriteParsedRecord` | libs/App/InpxScanJobService.cpp:1434-1530 | writes the location and book of one payload, tells inserts from updates, keeps statistics in agreement and notes every cover it wrote; if nothing interferes it is refused only by the write that first exceeds the cover budget |
| `CatalogWriter.StreamWriter.ClearAbsentRows` | libs/App/InpxScanJobService.cpp:1560-1576 | clears exactly the rows of reparsed segments that this scan did not see; fails only if cancelled |
| `CatalogWriter.StreamWriter.RecomputeAvailability` | libs/App/InpxScanJobService.cpp:1577-1647 | sets availability to eligibility and moves the unavailable counter by the rows changed |
| `CatalogWriter.StreamWriter.Commit` | libs/App/InpxScanJobService.cpp:1664-1689 | publishes tables and statistics at once; with cleanup succeeding the cover files are those referenced |
| `CatalogWriter.StreamWriter.Rollback` | libs/App/InpxScanJobService.cpp:1332-1343 | restores tables and statistics, and with cleanup succeeding the cover files |
| `CatalogWriter.RecordedAllAgrees` | libs/App/InpxScanJobService.cpp:1452-1523 | statistics agree with the books after any sequence of written payloads |
| `ScanExecution.PayloadWindow.TakeParsedRecord` | libs/App/InpxScanJobService.cpp:2423-2443 | takes the first ready task if preferred and there is one, else the oldest, and leaves the others |
| `ScanExecution.PayloadWindow.TakeAndRelease` | libs/App/InpxScanJobService.cpp:2448-2452 | the byte counter stays the sum of outstanding reservations; the saturating subtraction never saturates |
| `ScanExecution.PayloadWindow.MakeRoom` | libs/App/InpxScanJobService.cpp:2624-2628 | the count loop terminates with room for one more payload; if nothing interferes it stops early only at a write over the cover budget |
| `ScanExecution.PayloadWindow.MakeBytes` | libs/App/InpxScanJobService.cpp:2681-2686 | the byte loop terminates with room for the payload within the byte limit |
| `ScanExecution.PayloadWindow.Push` | libs/App/InpxScanJobService.cpp:2700-2725 | submitting keeps the queue length and the reserved bytes within their limits |
| `ScanExecution.PayloadWindow.DrainRemaining` | libs/App/InpxScanJobService.cpp:2526-2542 | on the exceptional exit every submitted payload has been drained exactly once and no bytes stay reserved |
| `ScanExecution.RecordScanner.ScanActive` | libs/App/InpxScanJobService.cpp:2615-2726 | an active record is submitted once, and only if its LibId was not active before and the archive has its entry, of the declared size and within the in-flight limit; otherwise the scan stops |
| `ScanExecution.RecordScanner.ExecutePlan` | libs/App/InpxScanJobService.cpp:2546-2727 | each record of the segment is scanned once and is a deletion, skipped or submitted |
| `ScanExecution.RecordScanner.Execute` | libs/App/InpxScanJobService.cpp:2545-2738 | all reparsed segments executed and the window drained, or drained and discarded |
| `ScanExecution.LedgerBalances` | libs/App/InpxScanJobService.cpp:2550-2614 | every scanned record is accounted for, in whatever order records were scanned |
| `ScanExecution.LedgerIsTight` | libs/App/InpxScanJobService.cpp:2550-2614 | a LibId is taken only by a reused segment or a scanned active record, and only payloads of allowed size were submitted |
| `ScanExecution.RunnableNext` | libs/App/InpxScanJobService.cpp:2615-2726 | whatever was scanned before, the next active record of runnable plans passes the LibId check and every check on its payload |
| `ScanExecution.InsertsAreNewBooks` | libs/App/InpxScanJobService.cpp:2463-2485 | with each LibId written once, the writes counted as added are those of books the catalog did not have, in any order |
| `ScanExecution.FinishedTasksFit` | libs/App/InpxScanJobService.cpp:2545-2738 | the drained payloads are the active records of the reparsed segments, each once |
| `ScanExecution.FinishedCounts` | libs/App/InpxScanJobService.cpp:2292-2325 | at the end of an execution skipped is the number of records of reparsed segments that are neither deleted nor FB2, and the counters add up |
| `ScanCounters.ExactCountersDescribe` | libs/App/InpxScanJobService.cpp:2292-2325 | the counters are those of the snapshot: total and scanned all records, reused the records of unaltered segments, parsed the active FB2 records of the others, skipped their other formats, added the books the catalog did not have |
| `ScanCounters.WhatIsKept` | libs/App/InpxScanJobService.cpp:2179-2235 | an initial scan reuses nothing; a rescan of an unaltered snapshot reuses every record and parses none |
| `ArchiveGuards.ScanGuards.ReadArchiveState` | libs/App/InpxScanJobService.cpp:2079-2112 | a guard is created once per archive from a state that was observed; guards only move forward |
| `ArchiveGuards.ScanGuards.ReadArchiveManifest` | libs/App/InpxScanJobService.cpp:2113-2138 | a manifest that was observed is read once per guard and then kept |
| `ArchiveGuards.ScanGuards.ValidatePayloads` | libs/App/InpxScanJobService.cpp:2139-2177 | the last phase is reached only from a manifest that was read again and was equal |
| `ArchiveGuards.ScanGuards.PlanSegment` | libs/App/InpxScanJobService.cpp:2179-2235 | planning while reading archives decides what the classification function decides on what was read; a segment whose archive has another path or state is kept only after its payloads were read again; it fails only by interference, untrue guards or an archive that cannot be found |
| `ArchiveGuards.ScanGuards.CheckPlans` | libs/App/InpxScanJobService.cpp:1713-1772 | succeeds exactly if every archive-backed plan has a guard that matches it and plans of one archive agree on one manifest, unless cancelled |
| `ArchiveGuards.ScanGuards.Validate` | libs/App/InpxScanJobService.cpp:1713-1802 | a success means that the state of every guarded archive, and its manifest if read, was observed to hold during the final validation; guards that are true pass if nothing interferes |
| `ScanConditions.ScannableIsRunnable` | libs/App/InpxScanJobService.cpp:2545-2738 | the plans of a scannable snapshot pass every check of the execution: archives as planned, entries found, sizes as declared and within the in-flight limit, no LibId twice |
| `ScanConditions.ScannableIff` | libs/App/InpxScanJobService.cpp:2545-2738 | scannable means: not empty, distinct names and LibIds, archives readable, and every active record is of a segment that is kept or has an entry of the declared size within the in-flight limit |
| `ScanConditions.FinishedIsScannable` | libs/App/InpxScanJobService.cpp:2545-2738 | conversely a snapshot whose execution finished was scannable |
| `ScanConditions.QuietIsGuarded` | libs/App/InpxScanJobService.cpp:1713-1772 | if nothing interfered, plans made from archives that were not changed behind an unchanged state pass the check of the guards |
| `ScanRun.PlanSnapshot` | libs/App/InpxScanJobService.cpp:2028-2267 | one plan per segment in order and one removal per vanished segment; duplicate names and empty snapshots are refused; guards only move forward; if nothing interferes nothing else but an archive that cannot be found is refused |
| `ScanRun.ExecutionOrder` | libs/App/InpxScanJobService.cpp:2392-2416 | the reparsed plans, each once, in ascending archive path and, within one archive, ascending index |
| `ScanRun.FinishScan` | libs/App/InpxScanJobService.cpp:1550-1689 | the statements before the commit are those of the specification, and every guard was observed to hold during the call; if nothing interferes true guards pass |
| `ScanRun.RunScan` | libs/App/InpxScanJobService.cpp:1893-2811 | published: exactly the declared catalog, every guard observed while planning and again after the last payload was read, every kept archive of another path or state validated, as many payloads read as were written, covers equal to those referenced and within budget at every write, the counters those of the snapshot as the guards saw it, so that an initial scan reused nothing and a rescan of an unaltered snapshot everything, no failed read or noticed cancellation was passed over, nor a failed write if the clean-up succeeded; discarded: tables and statistics unchanged, covers restored; if nothing interferes: published iff the snapshot is scannable and no write exceeds the cover budget, for archives not changed behind an unchanged state |
| `ScanService.RunJob` | libs/App/InpxScanJobService.cpp:2986-3061 | a job ends Completed with the declared catalog published, or Failed or, if a stop was requested, Cancelled with tables and statistics as they were |
| `ScanService.OnlyCompletedJobsCommit` | libs/App/InpxScanJobService.cpp:2923-3061 | in every run of the service the catalog results from one admissible scan for each completed job and none for any other, and what is available is decided by the last completed snapshot |
| `ScanJobs.ScansNeverOverlap` | libs/App/InpxScanJobService.cpp:2923-2945 | in every reachable state at most one job is not done, a job is terminal iff its result is set, and only a job asked to stop ends Cancelled |
| `ScanJobs.WhoCancels` | libs/App/InpxScanJobService.cpp:3113-3132 | only Cancel asks a job to stop and shows it as Cancelling at once; a progress report shows it so iff its worker was told to stop |
| `ScanJobs.HowJobsBegin` | libs/App/InpxScanJobService.cpp:2923-2945 | a job begins pending, not asked to stop, with the next id, and only when all others are terminal |
| `ScanJobs.TerminalIsAbsorbing` | libs/App/InpxScanJobService.cpp:3113-3187 | a terminal job never changes and its id is never reused |
| `ScanJobs.StepKeepsInv` | libs/App/InpxScanJobService.cpp:2923-3187 | every critical section keeps the job invariant |
| `ScanJobs.JobService.Admit` | libs/App/InpxScanJobService.cpp:2923-2945 | admits a job iff all others are terminal |
| `ScanJobs.JobService.PublishResult` | libs/App/InpxScanJobService.cpp:3055-3060 | status and result become terminal together |
| `ScanJobs.JobService.Cancel` | libs/App/InpxScanJobService.cpp:3113-3132 | requests a stop iff the job exists and is not terminal; the request reaches the worker if the worker thread exists |
| `ScanJobs.JobService.Remove` | libs/App/InpxScanJobService.cpp:3148-3187 | removes a job iff it is terminal |
| `CursorCache.GenerationKeyIsInjective` | libs/Database/SqliteBookQueryRepository.cpp:769-776 | the generation key determines fingerprint and snapshot id |
| `CursorCache.SearchSessions.Reserve` | libs/Database/SqliteBookQueryRepository.cpp:880-956 | reserve as specified, with the id counter that starts over after 2^64 - 1; counters equal to the sums |
| `CursorCache.SearchSessions.Publish` | libs/Database/SqliteBookQueryRepository.cpp:966-1064 | publish as specified for any token, counters equal to the sums, no accounting check fires |
| `CursorCache.SearchSessions.Release` | libs/Database/SqliteBookQueryRepository.cpp:958-964 | release as specified, no accounting check fires for a token the cache issued |
| `CursorCache.SearchSessions.Remove` | libs/Database/SqliteBookQueryRepository.cpp:1066-1076 | removal as specified |
| `CursorCache.SearchSessions.Read` | libs/Database/SqliteBookQueryRepository.cpp:1084-1159 | purge, the refusals and the slice with its next cursor; each refusal is characterised by `ReadRefuses` |
| `CursorCache.ReadRefuses` | libs/Database/SqliteBookQueryRepository.cpp:1084-1159 | a reading is refused as invalid, expired or of another snapshot exactly when the cursor, the ten minutes since the last access, the identity or the criteria say so, in this order |
| `CursorCache.SearchSessions.Purge` | libs/Database/SqliteBookQueryRepository.cpp:751-767 | exactly the sessions used within the last ten minutes remain |
| `CursorCache.SearchSessions.Activate` | libs/Database/SqliteBookQueryRepository.cpp:787-803 | another generation empties sessions and reservations |
| `CursorCache.SearchSessions.EvictLeastRecentlyUsed` | libs/Database/SqliteBookQueryRepository.cpp:839-849 | removes one session no other was used before |
| `CursorCache.SearchSessions.MakeRoom` | libs/Database/SqliteBookQueryRepository.cpp:912-924 | the eviction loop is the eviction relation |
| `CursorCache.SearchSessions.RemoveReservation` | libs/Database/SqliteBookQueryRepository.cpp:805-823 | the branches that terminate the process are unreachable for an issued token |
| `CursorCache.EvictionIsLru` | libs/Database/SqliteBookQueryRepository.cpp:839-849 | nothing kept was used before anything evicted |
| `CursorCache.EvictionIsLeast` | libs/Database/SqliteBookQueryRepository.cpp:912-924 | with the last evicted session back in place the cache would be too full |
| `CursorCache.FittingEvictsNothing` | libs/Database/SqliteBookQueryRepository.cpp:912-924 | while there are fewer than eight sessions and room for the ids, no session in use is evicted |
| `CursorCache.CacheLimits` | libs/Database/SqliteBookQueryRepository.cpp:653-690 | at most eight sessions of one generation, no more ids held and reserved than the capacity, three quarters of it for one session, and no byte count wraps |
| `CursorCache.OneSessionHasThreeQuarters` | libs/Database/SqliteBookQueryRepository.cpp:653-660 | the limit of one session is three quarters of the capacity, rounded down |
| `CursorCache.IdsGoRound` | libs/Database/SqliteBookQueryRepository.cpp:825-837 | reservation ids are 1 to 2^64 - 1, each followed by the next and the last by the first |
| `CursorCache.ReservesInv` | libs/Database/SqliteBookQueryRepository.cpp:880-956 | reserving keeps the totals within capacity, at most eight sessions, per-session limits and one generation |
| `CursorCache.PublishesInv` | libs/Database/SqliteBookQueryRepository.cpp:966-1064 | publishing keeps the same |
| `CursorCache.ReleasedInv` | libs/Database/SqliteBookQueryRepository.cpp:958-964 | releasing keeps the same |
| `CursorCache.ReadSliceInv` | libs/Database/SqliteBookQueryRepository.cpp:1084-1159 | reading keeps the same |
| `CursorCache.ReservationIsAPromise` | libs/Database/SqliteBookQueryRepository.cpp:1002-1048 | a reservation still held never fails for capacity, and at most one session is evicted for it, only for the session count |
| `CursorCache.ReserveRefusesIff` | libs/Database/SqliteBookQueryRepository.cpp:891-937 | reserve refuses for capacity iff the count exceeds the per-session limit or what other reservations leave; otherwise only if the id counter started over and came to a reservation still held |
| `CursorCache.SumsFitSizeT` | libs/Database/SqliteBookQueryRepository.cpp:723-734 | no size_t sum of the admission code can overflow |
| `CursorProtocol.StepKeepsInv` | libs/Database/SqliteBookQueryRepository.cpp:1239-1362 | every step of every request, and every catalog commit between steps, keeps the protocol invariant |
| `CursorProtocol.EveryRunIsSafe` | libs/Database/SqliteBookQueryRepository.cpp:1239-1362 | in every interleaving: cache invariant, every page a slice of the result of the reading transaction's own snapshot, and only issued tokens until the id counter starts over |
| `CursorProtocol.PagesComeFrom` | libs/Database/SqliteBookQueryRepository.cpp:1239-1362 | a page is answered only by a whole answer, a confirmed publication or a continuation; a publication is confirmed iff the catalog is still the reader's, else its session is withdrawn |
| `CursorProtocol.HowRequestsProceed` | libs/Database/SqliteBookQueryRepository.cpp:1239-1362 | a request holds its reservation until it has published or released it, and its published session until the page is out or the session withdrawn, on every exceptional path; no step touches another request |
| `CursorProtocol.RequestsCanProceed` | libs/Database/SqliteBookQueryRepository.cpp:1239-1362 | whatever the state and whatever the cache answers, a request can be asked and its next step is open |
| `CursorProtocol.WrapsLate` | libs/Database/SqliteBookQueryRepository.cpp:825-837 | the id counter does not start over in the first 2^64 - 2 steps of a run |
| `CursorProtocol.SliceIsRight` | libs/Database/SqliteBookQueryRepository.cpp:1103-1159 | a continuation that succeeds returns ids materialised under the reader's fingerprint and snapshot id |
| `CursorProtocol.PublishingSucceeds` | libs/Database/SqliteBookQueryRepository.cpp:1308-1351 | until the id counter starts over, publication fails only if the catalog or the generation moved on or a random session id is taken |
| `CursorProtocol.ChainIsOneStretch` | libs/Database/SqliteBookQueryRepository.cpp:1139-1155 | a chain of pages has no gap or repeat, reaches the end iff it has no cursor, and is no longer than the result |
| `CursorProtocol.PaginationRefinesOffset` | libs/Database/SqliteBookQueryRepository.cpp:1284-1351 | a finished chain from an offset with any positive limits is the result from that offset on |
| `CursorContinuation.ContinuationSucceedsIff` | libs/Database/SqliteBookQueryRepository.cpp:1084-1159 | in every run that draws fresh session ids, a cursor handed out succeeds iff it is valid, criteria and snapshot are the page's, and its session is cached and alive; it returns the ids from where the page ended |
| `CursorContinuation.CursorLastsTenMinutes` | libs/Database/SqliteBookQueryRepository.cpp:1084-1159 | a cursor that a page hands out gives the next ids for 600 seconds from that page |
| `CursorContinuation.PublishedLastsTenMinutes` | libs/Database/SqliteBookQueryRepository.cpp:966-1064 | likewise the cursor of a first page, from its publication |
| `CursorContinuation.IdleSessionExpires` | libs/Database/SqliteBookQueryRepository.cpp:751-767 | a session idle for 600 seconds or more answers that the cursor expired and is removed |
| `CursorContinuation.HandedOutIsValidIff` | libs/Database/SqliteBookQueryRepository.cpp:1285-1287 | only a first page of no ids at offset zero hands out a cursor that is refused |
| `SearchCriteria.CanonicalizeValues` | libs/Database/SqliteBookQueryRepository.cpp:693-707 | the canonical list of the values, or of their keys |
| `SearchCriteria.CanonicalIff` | libs/Database/SqliteBookQueryRepository.cpp:693-707 | two lists have the same canonical form iff they hold the same values |
| `SearchCriteria.SameCriteriaIff` | libs/Database/SqliteBookQueryRepository.cpp:709-721 | two requests share criteria iff they ask for the same text, languages, genres up to normalisation and effective order |
| `SearchIndex.JoinNormalizedText` | libs/Database/SearchIndexMaintenance.cpp:22-55 | the non-empty keys, sorted if asked, joined by single spaces |
| `SearchIndex.TermsStand` | libs/Database/SearchIndexMaintenance.cpp:22-55 | the words of a column are the maximal stretches of its bytes without a blank |
| `SearchIndex.JoinedTextTerms` | libs/Database/SearchIndexMaintenance.cpp:22-55 | the words of the joined text are the words of the keys joined |
| `SearchIndex.BuildDocument` | libs/Database/SearchIndexMaintenance.cpp:67-76 | title, authors, tags, genres and description, each in its column; what the columns hold is said by `SearchHistory.FoundByItsMetadata` |
| `SearchIndex.LinkNames` | libs/App/InpxScanJobService.cpp:339-398 | links each key at its first mention and keeps every display name filed under its own key |
| `SearchIndex.ResolveEntity` | libs/Database/SqliteEntityHelpers.cpp:29-60 | insert-if-absent never renames an entity |
| `SearchIndex.OrderedRoundTripIff` | libs/App/InpxScanJobService.cpp:443-450 | authors read back in author order give the indexed text iff no two share a key |
| `SearchIndex.SortedRoundTripIff` | libs/App/InpxScanJobService.cpp:451-466 | tags and genres read back in any order give the indexed text iff no two share a key |
| `SearchIndex.RebuiltDocumentIff` | libs/Database/SearchIndexMaintenance.cpp:91-105 | the document built from stored rows is the indexed one iff no list holds two entries with one key, whoever named the entities |
| `SearchIndex.RebuiltTermsAgree` | libs/Database/SearchIndexMaintenance.cpp:91-105 | with twins or without, the rebuilt document has the same words in every column as the indexed one |
| `SearchIndex.TwinAuthorsAreNotRebuilt` | libs/App/InpxScanJobService.cpp:533-547 | a book with one author listed twice, whose rebuilt document differs whatever else the tables hold |
| `SearchIndex.SearchCatalog.Insert` | libs/App/InpxScanJobService.cpp:988-1013 | the insert step; each row stays filed under its current document |
| `SearchIndex.SearchCatalog.Update` | libs/App/InpxScanJobService.cpp:1015-1045 | the update step; each row stays filed under exactly its current document iff the old metadata has no twins |
| `SearchHistory.IndexedIff` | libs/App/InpxScanJobService.cpp:988-1045 | after any run of inserts and updates every row is filed under exactly its current document iff no update replaced metadata with twins |
| `SearchHistory.PostingsAreRight` | libs/App/InpxScanJobService.cpp:988-1045 | after any run of inserts and updates, for any tokenizer that separates at blanks, a row is found by exactly the tokens of its current metadata |
| `SearchHistory.FoundByItsMetadata` | libs/Database/SearchIndexMaintenance.cpp:67-76 | after any run a row is found in column 0 by the tokens of its title's key, in 1, 2 and 3 by those of its authors', tags' and genres' keys, in 4 by those of its description, and by nothing else |
| `SearchHistory.TwinlessRunsAreIndexed` | libs/App/InpxScanJobService.cpp:988-1045 | while only metadata without twins is written, every state is indexed right |
| `FileReplacement.RestoreBackup` | libs/App/FileReplacement.cpp:182-207 | either the backup is back at the destination or nothing changed, also if the backup is gone or the destination was created anew |
| `FileReplacement.Rollback` | libs/App/FileReplacement.cpp:209-244 | undoes what was done, or leaves the original at the destination or the backup, at every moment |
| `FileReplacement.ReplaceDestination` | libs/App/FileReplacement.cpp:313-388 | new validated content at the destination, or everything as before, or the original at the destination or the backup; the original survives at every moment of a call that does not succeed, and at every moment but the last, the removal of its backup, of one that does; other paths are untouched; if nothing fails it succeeds and leaves no backup |
| `BookDownload.PrepareDownload` | libs/App/BookDownloadFacade.cpp:303-477 | a request with an invalid id, a relative path, a directory or a path inside the cache, an unconfigured source, an unknown and an unavailable book each get their own answer and change nothing; success means that every condition held, that nothing but removals of the backup and of the workspaces failed, and is validated content of the catalogued size; every failure keeps the original, and the destination is as before unless a rollback failed; a request that can be served succeeds if nothing fails |
| `BookDownload.PublishPrepared` | libs/App/BookDownloadFacade.cpp:443-476 | the destination changes only through the replacement, which begins only when the source was just found valid |
| `ArchiveManifest.EncodingIsInjective` | libs/App/InpxArchiveAccess.cpp:518-543 | the length-prefixed text determines the sequence of entries, for arbitrary names |
| `ArchiveManifest.CanonicalForgetsOrder` | libs/App/InpxArchiveAccess.cpp:488-508 | permuting the archive's entries does not change the text |
| `ArchiveManifest.SameTextIff` | libs/App/InpxArchiveAccess.cpp:351-549 | two archives have the same text iff they hold the same set of names, sizes and checksums |
| `ArchiveManifest.LineOfAnEntry` | libs/App/InpxArchiveAccess.cpp:518-543 | the bytes written for one entry: lengths, separators and the line end |
| `Bytes.AtMostIff` | libs/App/InpxArchiveAccess.cpp:488-508 | names are ordered as unsigned bytes, a prefix before its extensions |
| `ArchiveManifest.SortedIsCanonical` | libs/App/InpxArchiveAccess.cpp:488-508 | any ascending arrangement of distinct names gives the canonical text |
| `ArchiveManifest.NeighboursShowDuplicates` | libs/App/InpxArchiveAccess.cpp:509-516 | comparing neighbours after sorting finds every duplicate name |
| `ArchiveManifest.Admit` | libs/App/InpxArchiveAccess.cpp:373-424 | admits iff every entry can be stat'ed and the entry and name budgets hold; the refusal names the first that does not |
| `ArchiveManifest.ReadManifest` | libs/App/InpxArchiveAccess.cpp:351-549 | succeeds iff the archive is acceptable, with the canonical text in both passes; a refusal is explained by the first check that fails |
| `ArchiveManifest.AcceptableIff` | libs/App/InpxArchiveAccess.cpp:351-549 | acceptable means: every entry can be stat'ed, 512 bytes an entry and two for each byte of a name fit the budget, payloads are intact, at most 250 MiB each and do not overflow in sum if validation is asked for, and names are distinct |
| `Utf8.DecodeIsSound` | libs/Foundation/UnicodeConversion.cpp:228-328 | what is decoded is well-formed and is the encoding of the scalar value returned |
| `Utf8.DecodeIsComplete` | libs/Foundation/UnicodeConversion.cpp:228-328 | every well-formed character is decoded, with its length |
| `Utf8.DecodeEncode` | libs/Foundation/UnicodeConversion.cpp:419-446 | decoding undoes appending, in any context |
| `Utf8.EncodeIsWellFormed` | libs/Foundation/UnicodeConversion.cpp:419-446 | appending writes a character of the RFC 3629 grammar |
| `Utf8.ValidIsEncoded` | libs/Foundation/UnicodeConversion.cpp:828-843 | every valid string is the encoding of some text |
| `Utf8.EncodeAllIsInjective` | libs/Foundation/UnicodeConversion.cpp:419-446 | of only one text |
| `Utf8.IsValidUtf8` | libs/Foundation/UnicodeConversion.cpp:828-843 | true iff the string is in the grammar |
| `Utf8.IsTrailingIncomplete` | libs/Foundation/UnicodeConversion.cpp:385-417 | true iff the rest is a non-empty proper prefix of a well-formed character |
| `Utf8.TryTrimTrailingIncomplete` | libs/Foundation/UnicodeConversion.cpp:870-905 | returns the valid prefix iff the rest is a non-empty proper prefix of a well-formed character |
| `Utf8.SplitIsUnique` | libs/Foundation/UnicodeConversion.cpp:870-905 | there is at most one such prefix |
| `TextNormalization.CaseFoldTwice` | libs/Foundation/UnicodeConversion.cpp:555-679 | case folding is idempotent on every scalar value |
| `TextLaws.CapitalsFold` | libs/Foundation/UnicodeConversion.cpp:555-679 | Latin, Greek and Russian capitals and their small letters fold to the small letter |
| `TextLaws.EvenCapitalsFold` | libs/Foundation/UnicodeConversion.cpp:555-679 | likewise the pairs of extended Latin and Cyrillic whose capital is even |
| `TextLaws.OddCapitalsFold` | libs/Foundation/UnicodeConversion.cpp:555-679 | likewise the pairs whose capital is odd |
| `TextLaws.OtherCyrillicFold` | libs/Foundation/UnicodeConversion.cpp:555-679 | likewise the other Cyrillic capitals |
| `TextLaws.SinglesFold` | libs/Foundation/UnicodeConversion.cpp:555-679 | the letters that stand alone fold to what they become |
| `TextLaws.OthersFold` | libs/Foundation/UnicodeConversion.cpp:555-679 | the sharp s becomes two letters in either case, and every other code point is left alone |
| `TextNormalization.TryNormalize` | libs/Foundation/UnicodeConversion.cpp:907-945 | fails iff the input is invalid; otherwise the folded words of the text joined by single blanks; what this does to letters and blanks is said by `TextLaws` |
| `TextNormalization.NormalFormTwice` | libs/Foundation/UnicodeConversion.cpp:907-945 | normalisation is idempotent |
| `TextNormalization.SameNormalFormIff` | libs/Foundation/UnicodeConversion.cpp:907-945 | equal normal forms iff equal words up to case folding |
| `TextNormalization.NormalIffFixed` | libs/Foundation/UnicodeConversion.cpp:907-945 | the fixed points are the texts already folded, with single inner blanks only |
| `TextLaws.CaseIsForgotten` | libs/Foundation/UnicodeConversion.cpp:907-945 | texts that differ only in the case of their letters have one normal form and one key |
| `TextLaws.VanishesIff` | libs/Foundation/UnicodeConversion.cpp:907-945 | exactly these 25 code points are blanks |
| `TextLaws.BlankSeparates` | libs/Foundation/UnicodeConversion.cpp:907-945 | a blank between two texts becomes one space if both have words, and nothing otherwise |
| `TextLaws.OneWordFolds` | libs/Foundation/UnicodeConversion.cpp:907-945 | text without blanks is folded letter by letter |
| `MetadataNormalization.NormalizeText` | libs/Domain/MetadataNormalization.cpp:99-108 | the key of any byte string |
| `TextLaws.KeyOfText` | libs/Domain/MetadataNormalization.cpp:14-44 | the key of valid text is its normal form, behind U+E000 if the normal form begins with it |
| `TextLaws.KeyOfInvalid` | libs/Domain/MetadataNormalization.cpp:14-44 | the key of an invalid string is U+E000, a fixed word and its bytes in hexadecimal |
| `MetadataNormalization.SameKeyIff` | libs/Domain/MetadataNormalization.cpp:14-44 | equal keys iff both valid with equal normal forms, or the same invalid string |
| `MetadataNormalization.KeyTwiceIff` | libs/Domain/MetadataNormalization.cpp:14-27 | normalising a key changes nothing iff the input is valid and does not start with the reserved character |
| `MetadataNormalization.ReservedIsNotIdempotent` | libs/Domain/MetadataNormalization.cpp:14-27 | the reserved character itself is an input whose key changes |
| `LanguageNormalization.CanonicalIsFixed` | libs/Domain/LanguageNormalization.cpp:21-109 | every canonical label of the alias table resolves to itself |
| `LanguageNormalization.CleanedIs` | libs/Domain/LanguageNormalization.cpp:216-231 | on valid input the second normalisation never fails, and byte operations are operations on text |
| `LanguageNormalization.LanguageTwice` | libs/Domain/LanguageNormalization.cpp:216-259 | NormalizeLanguage is idempotent on every byte string |
| `LanguageLaws.NamesResolve` | libs/Domain/LanguageNormalization.cpp:20-109 | the names of the most frequent languages resolve to their codes |
| `LanguageLaws.CodesAreKnown` | libs/Domain/LanguageNormalization.cpp:111-175 | further codes are known without an alias |
| `LanguageLaws.NameIsResolved` | libs/Domain/LanguageNormalization.cpp:216-259 | a label that is one name becomes the code of the name, or stays as it is if it is no alias |
| `LanguageLaws.FirstOfListCounts` | libs/Domain/LanguageNormalization.cpp:203-229 | of a list separated by commas, semicolons, slashes or pluses the first name counts |
| `LanguageLaws.RegionIsDropped` | libs/Domain/LanguageNormalization.cpp:216-259 | a known language with a region, written with a dash or an underscore, becomes the code of the language |
| `LanguageLaws.UnknownKeepsRegion` | libs/Domain/LanguageNormalization.cpp:236-258 | what is neither a name nor a code keeps its region |
| `LanguageLaws.InvalidLabelIsKept` | libs/Domain/LanguageNormalization.cpp:216-259 | an invalid label is returned as it is |
| `FilenamePolicy.Cut` | libs/Foundation/FilenamePolicy.cpp:50-58 | valid names are cut to their longest valid prefix within the limit |
| `FilenamePolicy.KeptIsSafe` | libs/Foundation/FilenamePolicy.cpp:20-66 | what is kept has no byte below 0x20 and none of the nine reserved characters, which became underscores, while every other byte stays; it has no trailing space, fits and stays valid |
| `FilenamePolicy.LittleIsLost` | libs/Foundation/FilenamePolicy.cpp:20-66 | nothing but trailing spaces and what exceeds the limit is lost, at most three bytes more for the sake of a whole character |
| `FilenamePolicy.SanitizeDownloadFilenameBase` | libs/Foundation/FilenamePolicy.cpp:20-66 | the kept name, or the fallback iff nothing is kept; valid and within the limit when the fallback is |
| `MemoryBudget.SharesFit` | libs/App/CInpxCatalogApplication.cpp:378-405 | for every accepted configuration cursor, scan and all download shares fit the total and nothing wraps |
| `MemoryBudget.AcceptedIff` | libs/App/CInpxCatalogApplication.cpp:479-494 | the memory of a configuration is accepted iff the total is three bytes or more and each download gets at least one byte of the download share |
| `MemoryBudget.SharesAre` | libs/App/CInpxCatalogApplication.cpp:378-405 | cursors have a sixteenth or one byte, scans the rest after two such shares, and a download its equal part |
| `MemoryBudget.ScanSharesFit` | libs/App/InpxScanJobService.cpp:625-649 | planning, manifest, in-flight and all cover shares fit the scan's share and nothing wraps |
| `MemoryBudget.ScanSharesAre` | libs/App/InpxScanJobService.cpp:625-728 | payloads in flight have a sixteenth or one byte, manifests as much within the half they share with planning, and each worker an equal part of the rest for covers, up to 64 MiB |
| `MemoryBudget.BudgetIsPartitioned` | libs/App/InpxScanJobService.cpp:718-728 | both levels together fit the configured total |
| `MemoryBudget.LeastTotal` | libs/App/CInpxCatalogApplication.cpp:479-494 | three bytes is the least total whose scan share is positive and does not wrap |

## Left out

- ScanRun.RunScan: of a scan in which something interfered it does not say which end it comes to, because every read, write, validation and cancellation point may fail; it says what holds at either end.
- ScanService.RunJob: an exception between the commit and the worker's return, for want of memory, would end a job as Failed whose scan was published; no such exception is modelled.
- FileReplacement.ReplaceDestination: the backup path is taken to be unused; the source builds it from a clock and a process-wide sequence number.
- ScanJobs.JobService.Cancel: a Cancel that races with the assignment of the worker thread in Start is undefined behaviour in the source; here it falls before or after it.
- CursorProtocol.EveryRunIsSafe: says nothing about tokens once the 64-bit id counter has started over, because a request that slept through all 2^64 - 1 reservations could then share its id with another.
- SearchIndex.SearchCatalog.Update: what the index holds for a row is the bag of documents inserted and not deleted; postings are modelled as tokens in columns (PostingsAreRight), but not the positions and frequencies within a posting, which a wrong delete leaves for phrase search and ranking to see.
- LanguageNormalization.LanguageTwice: the library calls for replacing and finding a byte are functions, since the source has no loop of its own there.
- ArchiveManifest.ReadManifest: payload validation and name collection are two loops here and one loop in the source; reading a payload to its end is one fact about the entry.
- SQL text, facets, sort clauses and SQLite transactions: a query is a function from a snapshot and criteria to an ordered id list, and a transaction is atomic.
- INP and FB2 parsing, genre mapping, cover decoding and archive root resolution: a parsed record and a resolved path are given.
- Planning limits on records, segments and filesystem entries: they only add further ways for a scan to stop.
- Overflow of int64 and size_t counters in the catalog tables and job snapshots.
- Persisted warnings, progress messages, percentages, logging and performance tracking.
- Cover path normalisation and the source size statistic: a cover is named by its content.
- Directory creation, converter processes and command-line probing: they succeed or fail as the environment decides.
- HTTP, authentication, schema validation, legacy Cyrillic decoding, ISBN checksums and enum mappings.
