# Verified model of the black-hole memory workers

A Dafny model of the scripts that condense, link, repair and supervise a memory store, with proofs of
what they promise over every input, every run and every point at which a run can stop. `dafny verify
dfyconfig.toml` checks the whole project.

| module | models |
|---|---|
| `Text`, `Seqs`, `Sorting`, `Payloads` | stripping, joining, line splitting and JSON escaping of text; filters, keys and distinctness of lists; the stable sort; point payloads |
| `MapReduce`, `ChunkRequests` | the payload budget of the crystallizer: packing log entries into chunks, clipping a stage payload to its limit, merging summaries, the map and reduce requests and what they carry |
| `Harvest`, `Selection`, `Journal`, `Agreement`, `Pass`, `CounterRuns` | a pass of the crystallizer: which stored items become records, which group is condensed and what the model is shown, how its sources are archived, in which order a pass takes effect, when the loop ends, and runs in which a promise fails |
| `Backfill` | the user-scope backfill: scan, backup, apply, rollback |
| `Quarantine` | the quarantine of duplicate points: copy, verify, delete, restore from the manifest |
| `Reflection`, `ReflectionRuns` | the reflection daemon: audit, resolution, revalidation and delete among other writers, and cycles in which a promise fails |
| `GraphHealer` | orphans, neighbours and planned links of the semantic graph |
| `LauncherLog`, `LauncherRuntime` | the rotating log; status debouncing, readiness polling, start with rollback, the API transaction |

Where a script can be stopped, a `fuel` field counts the effects that still happen; a contract that holds
for every fuel holds at every point of a crash. Searches, the language model, classification of text,
clocks, the outcome of calls and the steps of other writers are parameters, so every statement holds for
all of them. A digest is an injective constructor, a JSON codec a pair of functions with the laws it needs.

## What the proofs found

The code is modelled as it is. Where a promise does not hold for all inputs, the exact condition is proved.

- A restore of the quarantine puts a point back under its id as text, so numeric ids are not restored
  (`Quarantine.RestoreIsExact`); a project with whitespace around it is never matched by the delete filter,
  so such a run copies and verifies but cannot complete (`Quarantine.Machine.RunApply`,
  `Quarantine.PaddedProjectRun`).
- A rollback of a backfill that stopped before its first write, over an older backup, puts old payloads back;
  recovery is exact for every stop if and only if the directory held nothing to put back
  (`Backfill.RecoveryIsExactIff`, `Backfill.StaleBackupRun`).
- The delete of the reflection daemon filters by the literal project field: a point without one passes the
  validation, is reported as deleted, and stays (`Reflection.ReportIsTrueIff`). The revalidation does not
  cover an edit that lands before the delete (`Reflection.LateEditIsLost`), and nothing looks whether the
  crystal was stored (`Reflection.CrystalIsThereIff`, `ReflectionRuns.NoCrystalRun`). Two names of one point are accepted by the audit and
  refused by the commit (`Reflection.TooFewIffOnePoint`).
- In the two highest tiers a project that is blank or padded keeps its observations from being archived, so a
  pass may complete with more active items than before (`CounterRuns.PaddedProjectRun`), and a semantic topic
  called "mixed" archives observations outside the pool (`CounterRuns.MixedTopicRun`); exactly when neither
  happens is `Agreement.HighTierAgreesIff`. Two projects may hold one event id; the store then refuses the
  whole call (`CounterRuns.SharedEventRun`).
- In the lower tiers an observation is archived only when the id of an archived record finds its event id
  (`Agreement.LowTierArchivesIff`), so here, too, a pass may complete with more active items than before
  (`CounterRuns.OtherEventIdsRun`).
- Crystals are harvested like other memories, so a pass may archive the crystal it has just extended
  (`Pass.CrystalActiveIff`, `CounterRuns.BaseAmongSourcesRun`).
- Scanned points that share a node but not a time can give a cycle of upgrades
  (`GraphHealer.TimesApartGiveCycle`).
- A start with a duration that is not finite raises after the service was started, without a rollback
  (`LauncherRuntime.StartWhenReady`).
- A small budget for many summaries can drop the last of them whole (`MapReduce.SummariesVanishIff`).
- Chunks are limited by characters and requests by those of their encoding, so a chunk with many escapes, such
  as line breaks and quotes, loses its tail on the way to the model (`ChunkRequests.CarriedByLimitIff`,
  `ChunkRequests.QuotesRun`).

## Model

| member | source | states |
|---|---|---|
| `MapReduce.ChunkLogEntries` | scripts/bhm_crystallize_worker_synthesis.py:174-198 | For any list of entries and any limit: the chunks joined by a blank line are the stripped, non-blank and clipped entries joined by one, so nothing is lost or reordered; every chunk is within the limit; no division of the same entries into contiguous groups within the limit has fewer. |
| `MapReduce.GreedyIsMinimal` | scripts/bhm_crystallize_worker_synthesis.py:174-198 | A greedy packing of a suffix of the entries never has more groups than any packing of all of them. |
| `MapReduce.SlotLength` | scripts/bhm_crystallize_worker_synthesis.py:137-139 | The encoded payload is as long as the same payload with the slot empty plus the escaped slot, whatever the slot holds. |
| `MapReduce.CutDecides` | scripts/bhm_crystallize_worker_synthesis.py:240-254 | One clip decides: the clipped text fits exactly when its first character alone fits, and a clip that does not fit has cut down to at most one character. |
| `MapReduce.AttemptIsIdempotent` | scripts/bhm_crystallize_worker_synthesis.py:246-254 | A second turn of the fitting loop changes nothing, so six turns do no more than one. |
| `MapReduce.ClipDecides` | scripts/bhm_crystallize_worker_synthesis.py:240-254 | The payload is within the limit after the fitting exactly when the slot cut down to its first character would be. |
| `MapReduce.StagePayload.Fit` | scripts/bhm_crystallize_worker_synthesis.py:240-254 | The fitting loop leaves the payload clipped once in the chosen slot, and as it was when there is no such slot. |
| `MapReduce.EverySummaryKept` | scripts/bhm_crystallize_worker_synthesis.py:257-270 | With 320 characters per summary and fewer than 10^27 summaries the final clip never happens: the result is all the parts, each with its whole share, in order. |
| `MapReduce.SummariesKeptIff` | scripts/bhm_crystallize_worker_synthesis.py:257-270 | Nothing of the merged summaries is clipped exactly when the headers, what each summary keeps within its share, and the separators are within the budget. |
| `MapReduce.EveryLengthKeptIff` | scripts/bhm_crystallize_worker_synthesis.py:257-270 | For n summaries: nothing is clipped, however long they are, exactly when the budget takes the n headers, n whole shares and the separators. |
| `MapReduce.SummariesVanishIff` | scripts/bhm_crystallize_worker_synthesis.py:257-270 | The summaries from the k-th on are lost whole, with their headers, exactly when the budget ends no later than the separator before them. |
| `MapReduce.LastSummaryCanVanish` | scripts/bhm_crystallize_worker_synthesis.py:257-270 | Such summaries: of three of 240 characters in a budget of 500 nothing of the third remains. |
| `MapReduce.GateOpens` | scripts/bhm_crystallize_worker_synthesis.py:206-237 | Every planned request passes the size gate exactly when the fixed part of each stage leaves room for the first character of its text. |
| `MapReduce.SynthesizeWithMapReduce` | scripts/bhm_crystallize_worker_synthesis.py:352-413 | The chunks pack, in order, every item of the Active and then of the Compress zone that holds more than whitespace, each under the name of its zone and its running number, stripped and cut at the chunk limit, and nothing else; there are none exactly when both zones are blank. Every request sent is within 20000 characters and asks for its chunk, the last one for the merged answers. The run ends with no entries, with a refused or a failed request, or with the answer to the last request of the whole plan. With room in every stage no request is refused; without it, and with a model that always answers, the run is refused. |
| `MapReduce.RefusedExactlyWithoutRoom` | scripts/bhm_crystallize_worker_synthesis.py:337-413 | Any run that ended as described over these chunks is refused only without room in some stage, and then always, when the model always answers. |
| `MapReduce.EntriesHoldItems` | scripts/bhm_crystallize_worker_synthesis.py:144-171 | What is packed is, for each zone, its items with more than whitespace: the k-th of them under the name of the zone and k, stripped, cut at the limit. |
| `MapReduce.NoChunksIff` | scripts/bhm_crystallize_worker_synthesis.py:158-198 | There is nothing to send exactly when every item of both zones is blank. |
| `MapReduce.ChunkRequestAsks` | scripts/bhm_crystallize_worker_synthesis.py:205-230 | The request for a chunk names the project, the session with its stage, the instruction and the chunk behind its number, or the front of it, and nothing else. |
| `MapReduce.ReduceRequestAsks` | scripts/bhm_crystallize_worker_synthesis.py:229-270 | The reduce request holds all answers in order, each under its number and cut at its share, together cut at what is available. |
| `MapReduce.DumpsIsJson` | scripts/bhm_crystallize_worker_synthesis.py:137-138 | The measured text is the JSON of the payload, with every text escaped. |
| `Text.EscapeRoundTrip` | scripts/bhm_crystallize_worker_synthesis.py:137-138 | A JSON reader gets every escaped text back. |
| `ChunkRequests.CarriedWholeIff` | scripts/bhm_crystallize_worker_synthesis.py:240-254 | The fitting loop leaves a payload as it is exactly when its encoding is within the limit, or its slot is at most one character. |
| `ChunkRequests.MapLength` | scripts/bhm_crystallize_worker_synthesis.py:205-233 | A map request is as long, encoded, as the one that sets the chunk limit, plus the growth of its numbers and the encoded chunk. |
| `ChunkRequests.ChunkCarriedIff` | scripts/bhm_crystallize_worker_synthesis.py:371-388 | The request for a chunk carries it whole exactly when its fixed part and the encoded chunk are within the limit, or the chunk is alone and one character. |
| `ChunkRequests.CarriedByLimitIff` | scripts/bhm_crystallize_worker_synthesis.py:236-254 | Where the fixed part leaves room: one of several chunks is carried whole exactly when its characters, its escapes and the growth of the numbers exceed the chunk limit by no more than the reserve of 256. |
| `ChunkRequests.FewEscapesCarried` | scripts/bhm_crystallize_worker_synthesis.py:236-254 | So in a run of fewer than 10^d chunks every chunk with at most 264 - 4d escapes is carried whole: 252 for d = 3, and one without escapes up to d = 66. |
| `ChunkRequests.ReduceCarriedIff` | scripts/bhm_crystallize_worker_synthesis.py:395-400 | The reduce request carries the merged summaries whole exactly when they fit once encoded. |
| `ChunkRequests.QuotesRun` | scripts/bhm_crystallize_worker_synthesis.py:352-413 | A whole run over one log of quotes that is within the chunk limit and too long once encoded: it ends with a crystal, and the request it sent holds a proper part of the log. |
| `Backfill.ScanFinds` | scripts/apply-bhm-qdrant-user-scope-backfill.py:55-110 | A point of the scanned collections has a row exactly when it is a target: its user id is missing or its data is blank. |
| `Backfill.ScanIsSnapshot` | scripts/apply-bhm-qdrant-user-scope-backfill.py:55-110 | Each target has one row, with its payload as it is in the store and the digest of it. |
| `Backfill.ScanTargets` | scripts/apply-bhm-qdrant-user-scope-backfill.py:55-123 | The scan returns the target rows; its two counters are zero exactly when no point belongs to another user and when every point has a source id. |
| `Backfill.RestoreIsExact` | scripts/apply-bhm-qdrant-user-scope-backfill.py:226-239 | Putting every row back restores the whole store from any state that differs from it on the rows only. |
| `Backfill.RollbackUndoesAnyPrefix` | scripts/apply-bhm-qdrant-user-scope-backfill.py:190-239 | From the state after any prefix of the apply, and after any interrupted rollback on top, a completed rollback restores every payload. |
| `Backfill.OnlyMissingFieldsChange` | scripts/apply-bhm-qdrant-user-scope-backfill.py:65-96 | After any prefix of the apply every field of every point is as before, except a missing user id that is now the expected one and blank data that is now the text of the content, or else of the memory. |
| `Backfill.AppliedFills` | scripts/apply-bhm-qdrant-user-scope-backfill.py:65-96 | After any prefix of the apply every point is as it was or filled, and after all of it every listed one is filled: the user id that was missing or empty is the expected one, data without a text is the content, or else the memory, and every other field is as before. |
| `Backfill.RescanIsEmpty` | scripts/apply-bhm-qdrant-user-scope-backfill.py:55-110 | After a completed apply a fresh scan finds nothing exactly when every user id it wrote is non-empty and every derived data value is more than whitespace. |
| `Backfill.BackupRoundTrip` | scripts/apply-bhm-qdrant-user-scope-backfill.py:148-223 | The written files load back as the very rows exactly when every line is free of line separators and there is at least one; otherwise the loader refuses them. |
| `Backfill.TornLinesDoNotParse` | scripts/apply-bhm-qdrant-user-scope-backfill.py:148-187 | A backup in which a line breaks in two does not parse, so it is refused rather than read as other rows. |
| `Backfill.LoadBackupIff` | scripts/apply-bhm-qdrant-user-scope-backfill.py:211-223 | The loader accepts a backup exactly when version, file name, digest and number of rows are those of the manifest and every line with more than whitespace is a row, and it then reads these rows in order. |
| `Backfill.Session.WriteBackup` | scripts/apply-bhm-qdrant-user-scope-backfill.py:163-187 | The directory is as it was with no effect left, holds the new payload file only with one, and both files with two or more; the write is done exactly with two effects and lines that survive the check. |
| `Backfill.Session.Apply` | scripts/apply-bhm-qdrant-user-scope-backfill.py:190-208 | It goes on, at one effect for each row that fills something in, until it has done every row, until the first row whose data cannot be derived, where it raises, or until no effect is left. |
| `Backfill.Session.RunApply` | scripts/apply-bhm-qdrant-user-scope-backfill.py:242-270 | For every number of effects left: which prefix of the target rows is applied, what the directory holds, and whether the run is done, raised or died; at every stop each point is as it was or filled, and when it is done every listed point is filled. A point of another user or without a source id stops it before anything is written. |
| `Backfill.Session.RunRollback` | scripts/apply-bhm-qdrant-user-scope-backfill.py:211-239 | For every number of effects left: how many saved rows are put back, up to the first digest that does not match, and how the run ends; without a backup that is bound to its manifest nothing changes. |
| `Backfill.RestoreChangesNothingIff` | scripts/apply-bhm-qdrant-user-scope-backfill.py:226-239 | Putting saved rows back leaves a store alone exactly when each point they name has the payload of its last row. |
| `Backfill.RecoveryIsExactIff` | scripts/apply-bhm-qdrant-user-scope-backfill.py:163-239 | An apply that stops at any effect, or by itself, is undone by the rollback that follows, for every number of effects, exactly when the directory held no loadable backup before or one whose last rows are the payloads in the store. |
| `Backfill.ApplyStopAndRecover` | scripts/apply-bhm-qdrant-user-scope-backfill.py:163-239 | From such a directory, an apply stopped anywhere, then any number of interrupted rollbacks and one with enough effects, leave every payload as it was. |
| `Backfill.StaleBackupRun` | scripts/apply-bhm-qdrant-user-scope-backfill.py:163-239 | A run over an older backup of one row that dies before its first effect, followed by a rollback: the older payload replaces the newer one. |
| `Quarantine.CopiesVerify` | src/blackholememory/projection_quarantine.py:226-278 | Over a fresh collection the check on the copied ids always passes, and every candidate has its copy: the vector, every field of the payload with its value, the marker, and nothing else. |
| `Quarantine.RemovalLosesNothing` | src/blackholememory/projection_quarantine.py:281-348 | While originals are removed, every point outside the quarantine collection is as it was or a removed original, and every candidate has its copy, with payload, vector and marker. |
| `Quarantine.Machine.DeleteOriginals` | src/blackholememory/projection_quarantine.py:281-348 | A candidate without a project stops the removal before it starts; the batches dealt with are gone exactly where the delete filter matched, and nothing else is. It dies only without an effect left, and spends at most one for each candidate. |
| `Quarantine.Machine.RunApply` | scripts/bhm_quarantine_projection_orphans.py:359-447 | Whenever the process stops, each candidate is in its own collection, or in both the quarantine copy, with its payload, its vector and the marker, and the backup whose digest is in a manifest that records the verified copy. With 2n + 7 effects for n candidates the run ends by itself. Over a used directory or an existing quarantine collection the store is unchanged; otherwise a run that ends by itself has made every copy, the originals are gone exactly where the project field is a text without surrounding whitespace, unless one is blank, and it is done exactly when all of them are gone. The manifests are written in the order of their stages, as far as the run gets. |
| `Quarantine.RunRestore` | scripts/bhm_quarantine_projection_orphans.py:183-225 | It dies only without an effect left, and spends at most one for each saved point. A restore that ends by itself succeeds exactly when manifest and backup exist, the digest matches and no saved id is empty; it then has put back every saved point, an interrupted one some of them, and nothing else changes. |
| `Quarantine.RestoreIsExact` | scripts/bhm_quarantine_projection_orphans.py:183-225 | From every state an apply can leave, a completed restore makes the live collections what they were exactly when every candidate id was text: a restored point gets its id as text. |
| `Quarantine.QuarantineThenRestore` | scripts/bhm_quarantine_projection_orphans.py:183-447 | Quarantine, stop anywhere, restore, also when the quarantine collection existed and the run raised behind its manifest: with two effects for the run and more than one for each candidate the restore is done; when it is done, everything but a collection the run created is as before exactly if every id was text; when it is refused, all of it is as before. |
| `Quarantine.PaddedProjectRun` | src/blackholememory/projection_quarantine.py:281-348 | A run over a point whose project has whitespace around it or is blank: the copy is made and verified, and the run raises with the original in place. |
| `Harvest.ItemsAreAccounted` | scripts/bhm_crystallize_worker_base.py:749-773 | For every list of items: the active ones are the kept, the empty and the spam ones together; the kept are exactly the accepted items in order; the duplicates are the kept ones less the distinct signatures; a kept record is flagged exactly when an earlier one has its signature. |
| `Harvest.LatestIsExact` | scripts/bhm_crystallize_worker_base.py:774-784 | After the versions are merged no two observations have the same event id, and the last version of every observation is there. |
| `Harvest.FirstVersionsProper` | scripts/bhm_crystallize_worker_base.py:774-784 | The observations that keep their place are the first of their event, one for each event. |
| `Harvest.DistinctEventsStay` | scripts/bhm_crystallize_worker_base.py:774-784 | Observations with different event ids, or none, are left exactly as they are. |
| `Harvest.DedupeObservations` | scripts/bhm_crystallize_worker_base.py:774-784 | The loop with its position index yields, in the order of first appearance, the last version of each event, and every observation without an event id. |
| `Harvest.HarvestRecords` | scripts/bhm_crystallize_worker_base.py:706-812 | The two loops and the sort yield the records of exactly the items that are neither archived nor deprecated, have an id and are accepted, with the id, project and signature of the item, the highest score first and of equal scores the latest, and the counters of the accounting. |
| `Harvest.HarvestAccounts` | scripts/bhm_crystallize_worker_base.py:706-812 | Active items equal accepted, empty and spam ones together, the empty ones those without an id or a text; duplicates equal accepted less distinct signatures; the records are a permutation of the accepted ones. |
| `Harvest.HarvestedAreUsable` | scripts/bhm_crystallize_worker_base.py:749-812 | A record is harvested exactly for a usable item, describes it, and stands before another only with a higher score, or with the same and a time that is not earlier. |
| `Sorting.TextGeIff` | scripts/bhm_crystallize_worker_base.py:810-811 | Of two times the one is not earlier exactly when it is equal, a longer continuation, or larger at the first difference. |
| `Sorting.SortedIsStable` | scripts/bhm_crystallize_worker_base.py:810-811 | Elements that are equal in the order keep their sequence, as the sort the worker relies on guarantees. |
| `Selection.RepresentativeRecords` | scripts/bhm_crystallize_worker.py:275-308 | The two loops, with their early returns, yield first one record per signature and then the others without repeated ids, up to the limit; the top of the pool in the lowest tier; nothing in the highest. |
| `Selection.RepresentativesCover` | scripts/bhm_crystallize_worker.py:275-308 | In the macro and singularity tiers: records of the pool, from as many signatures as the limit allows; when the ids differ, as many different records as it allows. |
| `Selection.RepresentativesAreEarliest` | scripts/bhm_crystallize_worker.py:283-299 | The leading records of the sample are the earliest of their signatures, in the order of the pool. |
| `Selection.SampleSize` | scripts/bhm_crystallize_worker.py:249-308 | The model is shown no record of a pool of 10000 or more, 10 of one of 1000 or more, 30 of one of 100 or more (of different ids in these two), and else the smallest of the pool, the batch option and 20. |
| `Selection.SplitTemperature` | scripts/bhm_crystallize_worker.py:500-512 | The loop puts exactly those records into the hot part that have the identity, the id or else the signature, of one of the first ten of the newest-first order or of one within five minutes, and the others into the other part. |
| `Selection.SplitIsCutIff` | scripts/bhm_crystallize_worker.py:500-512 | The hot part is exactly the front of the newest-first order, as long as the larger of ten and the recent records, capped by the pool, if and only if no identity of that front returns behind it; for different identities it always is. |
| `Selection.GroupRecords` | scripts/bhm_crystallize_worker.py:311-321 | The loop fills each group with the records of its project and topic, in order, and keeps the keys in the order of first appearance. |
| `Selection.SelectBatch` | scripts/bhm_crystallize_worker.py:311-355 | The batch is made from the first of the heaviest groups that are large enough: its pool is one whole group, ranked by score and time; no group of its kind with enough records has a larger total of scores plus three, or one, for each record, or the same and more records; a project group comes only without a semantic one; tier and archive follow the size of the pool. There is none exactly when no project has enough records. |
| `Selection.BatchIsBest` | scripts/bhm_crystallize_worker.py:311-344 | The pool is one whole group, sorted; no other group of its kind that is large enough weighs more; a project group is taken only when no semantic group is large enough. |
| `Selection.SelectedIsBest` | scripts/bhm_crystallize_worker.py:311-355 | The same for every list of records, stated on the records alone. |
| `Selection.ScoreSumAdds` | scripts/bhm_crystallize_worker.py:326 | The total is made of the single scores. |
| `Selection.NothingToDoIff` | scripts/bhm_crystallize_worker.py:323-335 | A pass finds nothing to do exactly when no project has enough records. |
| `Selection.ArchiveIsLarge` | scripts/bhm_crystallize_worker.py:269-272 | Within the bounds of the command line every batch archives at least ten records from the front of its pool: what the model was shown in the lowest tier, the whole pool in the others. |
| `Selection.ArchiveIsOneGroup` | scripts/bhm_crystallize_worker.py:311-344 | Every archived record was harvested and belongs to the project and topic of the batch. |
| `Journal.FindsOwn` | src/blackholememory/observation_store.py:535-543 | A row's own public id finds it. |
| `Journal.FindsPlain` | src/blackholememory/observation_store.py:535-543 | An id without wildcards finds exactly the rows whose public id has the same letters, in either case. |
| `Journal.LikeParts` | src/blackholememory/observation_store.py:535-543 | A pattern of two parts matches exactly a text of two parts that they match. |
| `Journal.LikeOne` | src/blackholememory/observation_store.py:535-543 | A percent sign matches any text, an underscore any character, and every other character itself, in either case. |
| `Journal.ObservationStore.Archive` | src/blackholememory/observation_store.py:509-578 | All rows found by one of the ids that is not blank, stripped, as whole storage ids or as patterns behind the project, become archived; or none at all when one id finds two rows. |
| `Agreement.MarkArchived` | scripts/bhm_crystallize_worker_execution.py:38-110 | Not refused, it archives in the two highest tiers exactly the rows the selector takes, in the others exactly those an archived record means, and no other row; refused, which happens exactly when one id finds two rows, it changes nothing. |
| `Agreement.RefusedIff` | src/blackholememory/observation_store.py:535-543 | The store refuses a batch exactly when the id of a selected row finds another row, or in the lower tiers the id of an archived record finds two. |
| `Agreement.PoolIff` | scripts/bhm_crystallize_worker_base.py:774-808 | A harvested item is in the pool of the batch exactly when its project and, in a semantic batch, its topic are those of the batch. |
| `Agreement.SelectorAgrees` | scripts/bhm_crystallize_worker_execution.py:18-35 | For every batch and all rows: an active row is in the pool and written with the project of the batch exactly when the selector takes it, it has the topic of the batch, and the harvest kept it, so that no later row of its event, in whatever project, stands in for it. |
| `Agreement.PlainProjectsAgree` | scripts/bhm_crystallize_worker_execution.py:18-35 | For projects that are missing, or neither blank nor padded, an active row is in the pool exactly when the selector takes it, it has the topic of the batch, and the harvest kept it. |
| `Agreement.ColumnIsLiteral` | src/blackholememory/observation_store.py:209-233 | The project column is the project the record is grouped under exactly when the project is missing, or is not blank and has no whitespace around it. |
| `Agreement.MixedTopicTakesMore` | scripts/bhm_crystallize_worker_execution.py:33-35 | A semantic batch of the two highest tiers that is called "mixed" archives every active row of its project with an accepted item; of these the pool holds, when the call is not refused, exactly those of the topic. |
| `Agreement.HighTierArchivesPool` | scripts/bhm_crystallize_worker_execution.py:72-91 | In the two highest tiers, for all rows: a call that is not refused archives a row exactly when it was active, is written with the project of the batch, and is in the pool or, in a group called "mixed", is an accepted item of the project. |
| `Agreement.HighTierAgreesIff` | scripts/bhm_crystallize_worker_execution.py:18-91 | For every batch of the two highest tiers with an observation that is not refused: exactly its pool is archived if and only if every row of the pool has its project missing or written plainly, and, when the group is called "mixed", no accepted row of its project has another topic. |
| `Agreement.OtherTopicsAgree` | scripts/bhm_crystallize_worker_execution.py:72-91 | A group that is not called "mixed" archives exactly the active rows of its pool whose project is missing or written plainly. |
| `Agreement.SelectedIsKept` | scripts/bhm_crystallize_worker_base.py:774-784 | A selected row whose id finds no other row is the version of its event that the harvest kept. |
| `Agreement.LowTierArchivesIff` | scripts/bhm_crystallize_worker_execution.py:50-52 | In the lower tiers the row an archived record was read from becomes archived exactly when the id of some archived record finds it, which is so when its event id is the id of its record. |
| `CounterRuns.OtherEventIdsRun` | scripts/bhm_crystallize_worker_execution.py:50-52 | A whole pass over observations whose event ids are not their ids: it completes, archives none of them, and leaves one active item more. |
| `CounterRuns.OwnEventIdsRun` | scripts/bhm_crystallize_worker_execution.py:50-52 | The same observations with their ids as event ids: the batch is not refused and takes all of them. |
| `CounterRuns.MixedTopicRun` | scripts/bhm_crystallize_worker_execution.py:33-35 | A thousand observations of the topic "mixed" and one of another, which is archived and not in the pool. |
| `CounterRuns.SharedEventRun` | src/blackholememory/observation_store_base.py:88-89 | A whole pass over more than a thousand observations and one of another project under the event id of the first: the harvest drops a row the selector takes, the pass writes its crystal and is refused, and every observation stays active. |
| `CounterRuns.PaddedProjectRun` | src/blackholememory/observation_store.py:209-233 | A whole pass of the two highest tiers over observations whose project is any blank or padded text: all of them are in the pool, the pass completes, archives none of them, and leaves one active item more. |
| `Pass.ChoiceIsBest` | scripts/bhm_crystallize_worker_consolidation.py:321-348 | A crystal is extended exactly when one scores at least 0.42; it is the best by score, size and age; another is archived as redundant exactly when it scores at least 0.42, has another id, and scores 0.66 or is about the same problem. |
| `Pass.ChosenBaseIsKept` | scripts/bhm_crystallize_worker_consolidation.py:338-348 | The extended crystal is never among those archived as redundant. |
| `Pass.Stores.ArchiveMemories` | scripts/bhm_crystallize_worker_consolidation.py:787-837 | The memories archived are those of a prefix of the list, cut at a chunk: all of them exactly when it is done. It stops early only without a call left or at an unknown id, and makes at most one call for each memory. |
| `Pass.Stores.Apply` | scripts/bhm_crystallize_worker_execution.py:113-141 | At every stop: once any memory or observation has lost its activity, the crystal is active, provided the crystal is not itself a source of the pass. It stops early only without a call left, or refused by a store that does not know a memory or finds two rows by one id. Done, the memories are the old ones with the hub and the new crystal; active are those that were or were written, less the redundant crystals and the archived memories of the batch; and exactly the rows the batch takes are archived. It makes five calls, one for the redundant crystals, and one for every 500 memories. |
| `Pass.AfterPassIsFinished` | scripts/bhm_crystallize_worker_execution.py:113-141 | The state after a pass that is not refused, written out memory by memory and row by row. |
| `Pass.CrystalComesFirst` | scripts/bhm_crystallize_worker_execution.py:113-141 | The same from every state a pass can stand in, with any part of its sources archived. |
| `Pass.CrystalActiveIff` | scripts/bhm_crystallize_worker_execution.py:113-141 | A completed pass leaves its crystal active exactly when the crystal was not among the archived sources. |
| `Pass.PassTouchesOnly` | scripts/bhm_crystallize_worker_execution.py:113-141 | At every stop no memory has changed but the hub, the crystal, the redundant crystals and the sources. |
| `CounterRuns.BaseAmongSourcesRun` | scripts/bhm_crystallize_worker_consolidation.py:338-348 | A whole pass over memories of which one is the crystal it extends: it completes, and no memory is active any more. |
| `Pass.RecordHasRow` | scripts/bhm_crystallize_worker_execution.py:50-91 | Each archived record of an observation is that of an active row, and the batch takes that row exactly when, in the lower tiers, some archived id finds it, and in the two highest its project is missing or written plainly. |
| `Pass.CompletedPassShrinks` | scripts/bhm_crystallize_worker_execution.py:113-141 | A completed pass over a batch whose observations are all found in this way takes all its archived records, ten at least, out of the active items and adds at most two. |
| `Pass.RunPasses` | scripts/bhm_crystallize_worker.py:869-875 | On stores nobody else writes, whose active rows have their ids as event ids and their projects written plainly, each pass leaves at least eight active items fewer; with 2n + 7 calls for n active items the loop ends when there is no batch left, or at a batch the journal refuses because one id finds two rows. |
| `Pass.ArchiveIsDistinct` | scripts/bhm_crystallize_worker.py:269-272 | The archive records of a batch differ in the id of the memory or the event id of the observation. |
| `GraphHealer.PointsAreWellNamed` | scripts/bhm_graph_healer.py:142-159 | A scanned point knows itself by its node id, its aliases are the fields that name it, stripped and not blank, and its node is the first of source id, id and its own id that is not blank. |
| `GraphHealer.OrphanIff` | scripts/bhm_graph_healer.py:191-193 | An orphan is a scanned point of which no alias is, stripped, a node of the graph or the target of a link. |
| `GraphHealer.SearchSimilarPoints` | scripts/bhm_graph_healer.py:412-467 | The loop over the hits keeps the first admissible hit of every node: above the threshold, resolved to a point, and sharing no alias with the source. |
| `GraphHealer.NeighborsAreProper` | scripts/bhm_graph_healer.py:446-467 | Every neighbour scores above the threshold and shares no alias with the source; no two are the same node. |
| `GraphHealer.PlanLinksForOrphan` | scripts/bhm_graph_healer.py:470-500 | The loop over the neighbours plans a link for each that is another node and whose key is not known yet. |
| `GraphHealer.PlanLinksAreFresh` | scripts/bhm_graph_healer.py:470-500 | The links of one orphan start at it, are no self-loops, have the kind their times ask for, and have keys that are new and pairwise different. |
| `GraphHealer.FullStays` | scripts/bhm_graph_healer.py:553-580 | Once the limit is reached, later orphans add nothing. |
| `GraphHealer.HealGraph` | scripts/bhm_graph_healer.py:503-600 | A run plans the links of the orphans in turn up to its limits, writes those whose write succeeds, none in a dry run, and leaves the graph with exactly the written links added. |
| `GraphHealer.EveryPlanIsFresh` | scripts/bhm_graph_healer.py:546-580 | Every planned link starts at a scanned point of which no alias is a node or a link target of the starting graph, is no self-loop, and is an upgrade exactly when it leads to a newer point, and else a dependency. |
| `GraphHealer.PlansAreDistinct` | scripts/bhm_graph_healer.py:546-580 | No two planned links have the same ends and kind, none is in the starting graph, and their number is within the limit. |
| `GraphHealer.EveryPlanHasItsHit` | scripts/bhm_graph_healer.py:412-500 | Every planned link comes from a hit of the search for its source that beats the threshold, stands for its target, and shares no alias with the source. |
| `GraphHealer.EveryHitIsPlanned` | scripts/bhm_graph_healer.py:412-500 | Without a limit on links, every such hit for another node has a link planned from the node of its orphan to that node. |
| `GraphHealer.ResolveIff` | scripts/bhm_graph_healer.py:412-466 | A hit stands for the first scanned point that has its id as an alias, or else for the point it describes. |
| `GraphHealer.AppliedArePlanned` | scripts/bhm_graph_healer.py:566-575 | The written links are planned ones, and no more. |
| `GraphHealer.PlannedAreInputs` | scripts/bhm_graph_healer.py:412-500 | Every planned link runs between points that were scanned or that a hit stands for. |
| `GraphHealer.NoUpgradeCycle` | scripts/bhm_graph_healer.py:227-230 | When the points of the scan and of the hits agree on the time of each node, no cycle of planned links, reading UPGRADES forwards and DEPENDS_ON backwards, passes through an UPGRADES link. |
| `GraphHealer.TimesApartGiveCycle` | scripts/bhm_graph_healer.py:211-230 | Whenever two orphans of one node find one other node, newer than the one and not newer than the other, a run without a limit on links plans such a cycle. |
| `GraphHealer.UpgradeCycleCounterRun` | scripts/bhm_graph_healer.py:211-230 | Such a run: two scanned points of one node with different times, and a neighbour between them. |
| `GraphHealer.OrphansShrink` | scripts/bhm_graph_healer.py:162-193 | The graph a run leaves has no orphans, among the same points, that were none before. |
| `GraphHealer.HealedForGood` | scripts/bhm_graph_healer.py:162-193 | A point whose link was written was mentioned nowhere in the starting graph, and is mentioned in the graph the run leaves. |
| `Reflection.NormalizeStringList` | scripts/bhm_reflection_daemon.py:191-204 | The loop keeps each non-blank stripped text once, at its first position. |
| `Reflection.NormalizeAuditResult` | scripts/bhm_reflection_daemon.py:347-369 | The targets are the listed names that some record has; the answer is accepted only with two of them and a core insight. |
| `Reflection.PointToRecord` | scripts/bhm_reflection_daemon.py:214-261 | The checks and fallbacks in the order of the code make a record exactly of a candidate payload, with its source id and project. |
| `Reflection.InsightKept` | scripts/bhm_reflection_daemon.py:169-173 | The trimmed insight is empty exactly when the text is blank, the whole text up to 1800 characters, and beyond the first 1780 without the whitespace they end in, with a mark. |
| `Reflection.AuditNamesKnown` | scripts/bhm_reflection_daemon.py:347-369 | The targets of a normalized answer are different, stripped, not empty, and known from the records. |
| `Reflection.ResolveTargetPointIds` | scripts/bhm_reflection_daemon.py:467-483 | The loop resolves each name to a point, by point id first and else by the last record with that source id; it refuses unresolved names before too few points. |
| `Reflection.NormalizedAlwaysResolves` | scripts/bhm_reflection_daemon.py:467-483 | After an audit normalizing again changes nothing and every name resolves, so the branch for unresolved ids is never taken. |
| `Reflection.ResolvedAreNamed` | scripts/bhm_reflection_daemon.py:467-483 | Resolved points are at least two, all different, and each is a record that one of the names stands for. |
| `Reflection.TooFewIffOnePoint` | scripts/bhm_reflection_daemon.py:467-483 | An accepted audit is still refused as too few exactly when all its names stand for one point. |
| `ReflectionRuns.TwoNamesOnePointRun` | scripts/bhm_reflection_daemon.py:638-687 | A whole cycle over two scanned records, named by the point id and the source id of the same one: the audit is accepted, the commit refused as too few, and nothing changes. |
| `Reflection.RevalidateDeleteTargets` | scripts/bhm_reflection_daemon.py:547-583 | It passes exactly when every target was read with its audited payload and in scope; a target outside the snapshot, and the point a refusal names, are as it says. |
| `Reflection.DeleteQdrantPoints` | scripts/bhm_reflection_daemon.py:586-610 | The delete is issued exactly when the targets, read just before, are unchanged; it removes those whose project field is literally the scope when it takes effect. |
| `Reflection.CommitConsolidation` | scripts/bhm_reflection_daemon.py:613-635 | Says for every run, whatever other writers do in between, exactly when the crystal is written, when the delete is issued, and what store is left. |
| `Reflection.DeletionIsGuarded` | scripts/bhm_reflection_daemon.py:547-635 | A deleted point is one of at least two different audited points, was named by the audit, was read back with its audited payload in scope after the crystal was written, and was in scope when deleted; all other points stay as they were met. |
| `Reflection.ReportIsTrueIff` | scripts/bhm_reflection_daemon.py:586-610 | With nobody writing between read and delete, the reported points are all gone exactly when each has its project written in its payload. |
| `ReflectionRuns.DefaultedPointsRun` | scripts/bhm_reflection_daemon.py:638-687 | A whole cycle over any two candidates without a project: they pass every check, are reported as deleted, and stay as they were. |
| `Reflection.LateEditIsLost` | scripts/bhm_reflection_daemon.py:547-610 | Whatever the other writers do, a commit deletes a payload that was never audited exactly when its delete takes effect and a target was edited after it was read back, with a project that is still literally the scope. |
| `ReflectionRuns.LateEditRun` | scripts/bhm_reflection_daemon.py:638-687 | A whole cycle in which a target is edited after it was read back: the edit is deleted with its point. |
| `ReflectionRuns.NoCrystalRun` | scripts/bhm_reflection_daemon.py:638-687 | A whole cycle in which the call that is to add the crystal returns without storing anything: it reports both points as deleted, and the store is empty afterwards. |
| `ReflectionRuns.ContentIsEnough` | scripts/bhm_reflection_daemon.py:220-229 | Of payloads with nothing but a content the scan takes exactly those with at least 40 characters within surrounding whitespace, so there are points for these cycles. |
| `Reflection.CrystalIsThereIff` | scripts/bhm_reflection_daemon.py:486-544 | With nobody else writing, the crystal is there after the delete, with its content and the scope, exactly when the call that was to add it stored it; a call that returns without storing leads to the delete all the same. |
| `Reflection.RunReflectionCycle` | scripts/bhm_reflection_daemon.py:638-687 | A dry run changes nothing; a commit is refused for too few targets exactly when all names stand for one point, and never for unresolved names, a foreign record or an uncovered target; what store every commit leaves. |
| `LauncherLog.UnifiedLog.Rotate` | scripts/bhm_launcher_transport.py:16-26 | The renames, oldest first, up to the first that fails. |
| `LauncherLog.UnifiedLog.Append` | scripts/bhm_launcher_transport.py:29-45 | A line that would exceed the limit rotates first; it is appended also when the rotation fails. |
| `LauncherLog.RotatedContents` | scripts/bhm_launcher_transport.py:16-26 | A rotation, cut short anywhere, loses the oldest backup exactly when the next one is there to replace it, and nothing else. |
| `LauncherLog.LogIsSuffix` | scripts/bhm_launcher_transport.py:16-45 | Over every run, from any files and with any failures at any step, the files from oldest to newest hold a suffix of what they held and everything that reached them since. |
| `LauncherLog.CleanRunInOrder` | scripts/bhm_launcher_transport.py:16-45 | Without errors and from no files: numbering has no gaps, each file is within the limit or one oversized line, no two neighbouring files would fit into one, and nothing is lost before every backup is in use. |
| `LauncherLog.CleanRunRetains` | scripts/bhm_launcher_transport.py:16-45 | So the log holds everything, or the newest part of it that is more than twice the limit. |
| `LauncherRuntime.DebounceIsExact` | scripts/bhm_launcher_transport.py:82-96 | Over every history the counter is the length of the trailing failures, and the report is Recovering exactly when the service has run and at least one but fewer failures than the threshold follow; otherwise it is the observation. |
| `LauncherRuntime.DownFromThreshold` | scripts/bhm_launcher_transport.py:82-96 | A service that has run is shown as down exactly from its threshold-th failure in a row. |
| `LauncherRuntime.Monitor.Turn` | scripts/bhm_launcher_workers.py:132-155 | Every turn of the loop keeps, for each service, the debouncing of its own observations so far. |
| `LauncherRuntime.OthersDoNotMatter` | scripts/bhm_launcher_workers.py:132-155 | Two monitors, over any other services, that saw the same observations of one service keep and report the same for it. |
| `LauncherRuntime.WaitForReadiness` | scripts/bhm_launcher_readiness.py:82-123 | With a clock that advances at least as long as the sleeps, no probe before the last is ready, the last decides, a failed wait lasts the timeout, and there are at most ceiling(timeout / poll) + 1 probes, never more than 12001; with a punctual clock a failed wait makes exactly that many; it raises exactly for a duration that is not finite. |
| `LauncherRuntime.StartWhenReady` | scripts/bhm_launcher_readiness.py:126-180 | A ready service is neither started nor rolled back; a rollback is made at most once, of the own start, and exactly when the wait failed and there is one. A duration that is not finite raises after the start, which stays. |
| `LauncherRuntime.RunApiTransaction` | scripts/bhm_launcher_service.py:259-320 | No command, one, or two, the second always forced; none exactly when unforced and ready; a second only after every probe of the first attempt was unready or its command failed; an attempt whose command succeeded is given up only 120 seconds after it, with a punctual clock only after 121 unready probes, so that one ready answer among them means one command and success; success exactly when the last command succeeded and the last probe was ready. |

## Left out

- Text classification (domain, priority, semantic type, error signatures, spam markers, topics): parameters of the harvest, as deterministic functions of an item.
- Qt widgets, dashboard, telemetry, process and plugin handling of the launcher: user interface and operating system.
- HTTP, SQLite, Qdrant and the language model: each call is a step with a contract.
- Report, summary and metadata dictionaries, counters that are only printed, and fixed texts.
- Migration and freshness command lines: their logic is in modules that are not part of this model.
- Unicode details: upper-casing of the audit action and lower-casing of statuses are taken as done; characters are code points, so surrogates and normalization do not arise.
- Frequency map, big-bang passport, frozen zone and log signature compression of the synthesis context: the map-reduce model starts from the finished payload.
- MapReduce.SynthesizeWithMapReduce: the instruction texts are parameters; the bookkeeping in the batch context is not modelled.
- Backfill.ScanTargets: the paging of the scroll, the sort order of the rows and the digest over all targets are not modelled; the scan order is a parameter.
- Backfill.Session.RunApply: the review of the plan digest and the lock on the API writer are not modelled.
- Quarantine.Machine.RunApply: the classification that selects the points, and the report after the run, are not modelled; candidates are as the collecting step has checked them, and the groups of a delete come in any order.
- Quarantine.RunRestore: a numeric id is put back under its text as a new key; a store that refuses such an id makes the restore raise instead.
- Backfill.Session.Apply: point ids are texts; a numeric id, which the script also passes as text, is not told apart, so a store that refuses it there is not modelled.
- Journal.ObservationStore.Archive: only rows stored under an id scoped by project are modelled, as the store writes them.
- Pass.Stores.ArchiveMemories: the chunks of the two highest tiers are sent at once; the model sends them in turn, while `Pass.CrystalComesFirst` holds for any part of the sources.
- Pass.Stores.Apply: of a memory only its activity is modelled, and a call that fails for any other reason counts as one without a call left; merged content, links and references are calls without effect here.
- Pass.RunPasses: the loop sleeps and goes on after a pass that failed or found nothing; the model stops there. The active rows are those of its promise: event id equal to id, project written plainly.
- GraphHealer.HealGraph: paging of the scan, smoke filters, rate limit and the error list are not modelled; an answered or failed search per orphan is a parameter.
- Reflection.RunReflectionCycle: the choice of the dense cluster is a parameter: the records are any the scan can give. Ids are text; a numeric id makes the read fail. Tags in lists are not looked at by the model of the candidate test.
- Reflection.CommitConsolidation: payloads are compared directly in place of their digests; a project field that is a list never matches the delete filter.
- LauncherLog.UnifiedLog.Append: file permissions, links and reparse points are not modelled; they count as operations that fail.
- LauncherRuntime.Monitor.Turn: the telemetry schedule is not modelled.
- LauncherRuntime.StartWhenReady: the detail texts are not modelled.
