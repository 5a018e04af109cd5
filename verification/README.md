# Cloudy Neigh: the storage protocol and the query index, verified

Cloudy Neigh is a vector index on object storage. Ingesters append numbered objects to a lock-free write-ahead log.
Flushers tail the log, upload content-addressed segments and commit them to branch manifests by compare-and-swap. Query
nodes load the segments of a manifest into an in-memory columnar table and search it. This project models that path in
Dafny and proves, over every interleaving and every crash point, that what a query node serves is the log.

The main results, from the outside in:

1. **End to end.** In every run of concurrent ingesters, forks and crashing flushers, after any passes of a loader, failed
   or not, an error-free pass over the manifest as it stands publishes exactly the sequential replay of the branch's log
   up to the manifest's checkpoint, starting from the parent's replay if the branch was forked
   (`EndToEnd.TableIsLogReplay`); so does one over a stale manifest with a segment beyond those applied
   (`EndToEnd.StaleTableIsLogReplay`). Put on top of the WAL protocol, that log is the objects which interleaved and
   failing `Append` calls create, in order, and an acknowledged batch is among them under its number (`LogToTable`).
2. **Exactly-once materialisation and resume safety** of the flusher (`FlusherSafety`), with a crash allowed between any
   two store calls, several flushers, lost acknowledgements and any stale or partial branch listing at start-up. And the
   flusher does its work: from every reachable state a flusher that starts and runs undisturbed leaves every batch of the
   log in its manifest (`FlusherProgress`), after which a loader publishes the replay of the whole log
   (`EndToEnd.CaughtUpTableIsWholeLog`).
3. **Healing.** Replaying any prefix of a list of mutations and then the whole list is replaying it once
   (`Index.ReplayAfterPrefix`); so any sequence of failed loads ended by an error-free one is a from-scratch rebuild
   (`LoaderModel.ErrorFreeSyncIsRebuild`).
4. **The table refines a map of documents**, and its heap-based search with early pruning is sort-then-truncate
   (`Table.Table`, `TableRefinement`, `Search`). What a put stores, what a get returns and which hits a search answers in
   which order are also stated outright, on the encoded vectors and in plain comparisons of scores and ids
   (`Index.ApplyMeans`, `Table.UpsertThenGet`, `Search.SearchMeans`). Every slice and map of the table is an object of its own that is
   written in place; a clone shares none of them, so loading into it leaves the published table as it is (`Loader`).
5. **The log is contiguous and appends are atomic** under any number of writers (`WalProtocol`), on top of the tail search
   with its probe bound (`TailSearch`) and the key order (`WalKeys`). From every state a call that is left alone is
   acknowledged right after the tail, however often it collided (`WalProgress`).
6. **RecordIO** detects a torn write at every cut point and any changed byte, and reads nothing but what its writer prints
   (`RecordIo`, `RecordIoStreams`, with CRC-32C of section 12.1 of RFC 3720 in `Crc32c`).
7. **Catalog updates lose nothing** (`CasCatalog`, `Catalogs`), and the **half-precision codec** rounds to nearest, ties to
   even (`Fp16`, binary16 of section 3.4 of IEEE 754-2019).

Protocols are state machines in which every store call is one action and a run is any sequence of actions. Sequential
code is classes and methods, each proved against functions on values. `dafny verify dfyconfig.toml` checks everything.

In these places the code does less than a reader might expect. Each is stated with an input that shows it and with its
exact condition:

- An `Append` to a log that holds 2^64 - 1 entries wraps to sequence number 0. The numbers in use are without a hole in
  every state of a run exactly when no state is over-full (`WalProtocol.ContiguityIffNeverOverfull`); 2^64 - 1 appends,
  one after the other, fill the log and the next one leaves it with a hole (`WalProtocol.FullLogWraps`).
- An `Append` that is told of a conflict after its own commit retries and adds its batch twice
  (`WalProtocol.FalseConflictAppendsTwice`). An acknowledged call has created one object more than it had such replies,
  so exactly one if and only if it had none (`WalProtocol.ExactlyOnceIffNoFalseConflict`).
- A log entry that forks a branch and then changes it loses the change. A single-branch entry is collected whole exactly
  when the checkpoint does not cover it and no record forks the branch before one of its mutations
  (`Mutations.CollectsWholeBatch`, `Mutations.ForkThenMutationIsSkipped`). The ingester never writes such an entry
  (`Mutations.IngesterEntries`).
- An error-free `Sync` that holds a stale manifest can succeed over a table that shows part of a newer segment, left by a
  failed pass over a newer manifest (`LoaderModel.StaleSyncIsNotRebuild`). The table is then the rebuild of that manifest
  exactly when the manifest has a segment beyond those applied, or whatever the table holds beyond the manifest leaves
  the documents and dimensions of its rebuild as they are (`LoaderModel.ErrorFreeSyncIff`, `Index.ReplayIsIdle`). A
  manifest no shorter than any tried before is always enough (`LoaderModel.ErrorFreeSyncIsRebuild`).
- `Skip` checks no payload checksum: it passes over a written frame whose payload was damaged, which `Scan` reports
  (`RecordIo.SkipPassesOverDamage`). The two agree exactly on the bytes that are not a complete frame with a good header
  and a payload that fails its checksum (`RecordIo.SkipVersusScan`), in particular on every stream the writer wrote, cut
  anywhere (`RecordIo.SkipAgreesWithScan`).

## Model

| member | source | states |
|---|---|---|
| `EndToEnd.TableIsLogReplay` | query/loader.go:49-162 | In every run of well-shaped ingesters, forks and crashing flushers, and after any loader passes at any moments of it, an error-free pass over the current manifest leaves the index equal to the record-by-record replay of the log up to its checkpoint, from the parent's replay at the fork |
| `EndToEnd.ReplayIsBatches` | ingest/flusher.go:276-393 | Replaying a branch's log record by record equals replaying the batches its manifest should hold, through the whole fork lineage |
| `EndToEnd.LoadedIsReplay` | query/loader.go:49-162 | The same as the end-to-end result for any history of shared storage that keeps the flusher's invariant and only grows |
| `EndToEnd.RunIsHistory` | ingest/flusher.go:313-393 | Every run of the flusher protocol is such a history |
| `EndToEnd.StaleTableIsLogReplay` | query/loader.go:60-162 | The end-to-end result for the manifest of any moment of the run, however stale, that has a segment beyond those applied: the index is the replay up to that manifest's checkpoint |
| `EndToEnd.StaleLoadedIsReplay` | query/loader.go:60-162 | The same for any such history |
| `EndToEnd.CaughtUpTableIsWholeLog` | ingest/flusher.go:180-240 | After any run, a flusher that starts on any listing and runs undisturbed leaves every branch of the log with a manifest, and an error-free pass over it publishes the replay of the whole log |
| `LogToTable.TableIsReplayOfObjects` | logstream/log.go:46-164 | With the WAL protocol underneath, Append calls, flushers, forks and loaders interleaved: the index is the record-by-record replay of WAL objects 1, 2, ... up to the manifest's checkpoint |
| `LogToTable.LogIsObjects` | logstream/log.go:81-114 | In every such run the flushers' log is the WAL objects, decoded, in the order of their numbers |
| `LogToTable.AcknowledgedIsInLog` | logstream/log.go:81-101 | An acknowledged Append's batch is the entry of that log under the number it was told |
| `LogToTable.EntryOfBatch` | logstream/log.go:141-164 | A batch that was written reads as its records, parsed one by one |
| `FlusherSafety.RunInv` | ingest/flusher.go:180-393 | The inductive invariant of shared storage, flushers and forkers holds in every reachable state |
| `FlusherSafety.ExactlyOnce` | ingest/flusher.go:313-393 | In every state a branch's segment list decodes to its fork base followed by exactly one batch per log entry of the branch above the base and up to the checkpoint, in order, and every listed segment is stored under its digest |
| `FlusherSafety.AnyCheckpointCoversAll` | ingest/flusher.go:180-207 | Whatever branch's checkpoint is taken, every batch of every branch at or below it is in that branch's own manifest |
| `FlusherSafety.ResumeSafety` | ingest/flusher.go:209-274 | Wherever a flusher stands, every batch below its position is in its manifest, and an entry its memory makes it skip is too |
| `FlusherSafety.RunGrows` | ingest/flusher.go:349-392 | The log and all segment lists only extend, checkpoints never fall, lineages never change and a generation names one manifest for ever |
| `FlusherSafety.FlushKeeps` | ingest/flusher.go:349-392 | A manifest write whose condition holds keeps the invariant of shared storage |
| `FlusherSafety.ForkKeeps` | ingest/ingester.go:139-157 | So does the write of a forked manifest |
| `FlusherSafety.SkippedIsCovered` | ingest/flusher.go:304-306 | An entry from which nothing is collected is already covered |
| `FlusherProgress.WriteMeans` | ingest/flusher.go:370-388 | In every state of the invariant, a manifest write whose condition holds leaves the branch at checkpoint n with the segments read followed by the batch's reference, and an acknowledged flusher at the catalog step; every other reply and a failed condition too |
| `FlusherProgress.TurnFlushes` | ingest/flusher.go:276-393 | From entry n the undisturbed steps of a flusher end at entry n + 1 with everything up to n covered; a batch nobody had committed is the last segment of its branch, at checkpoint n, and nothing else changed |
| `FlusherProgress.ReadEntryGoes` | ingest/flusher.go:276-311 | Reading an entry takes its whole batch, unless it has none or the remembered checkpoint covers it |
| `FlusherProgress.MixedEntryStops` | ingest/flusher.go:299-302 | An entry that mixes branches stops the flusher and changes nothing else |
| `FlusherProgress.StartupIs` | ingest/flusher.go:180-222 | An undisturbed start reads the manifests listed, remembers the checkpoint of each, and stands right after the least of them, or at the first entry |
| `FlusherProgress.CatchUpCoversLog` | ingest/flusher.go:209-240 | From every state of the invariant, a flusher that starts and runs undisturbed for as many turns as the log is long covers the log |
| `FlusherProgress.InterruptGoesBack` | ingest/flusher.go:243-274 | An interrupted flusher resumes at the entry in progress, or at the listing, with its memory and all of storage kept |
| `FlusherProgress.ForkCopies` | ingest/ingester.go:139-195 | An undisturbed fork gives the target the source's manifest and announces it; without a source, or over an existing target, it changes no storage |
| `Mutations.IngesterEntries` | ingest/ingester.go:74-194 | What Upsert, Delete and Fork append is well shaped and its batch is exactly the call's mutations |
| `Mutations.FillUpsert` | ingest/ingester.go:83-104 | What Upsert appends is well shaped, and to the flusher it means one put per document, in order, on the call's branch, and nothing when the branch has no name |
| `Mutations.FillDelete` | ingest/ingester.go:118-134 | What Delete appends is well shaped, and means one deletion per id, likewise |
| `Mutations.CollectMutations` | ingest/flusher.go:276-311 | The loop of processRecords collects what the recursive specification collects, or reports two branches |
| `Mutations.CollectWellShaped` | ingest/flusher.go:276-311 | From a well-shaped entry the whole batch is collected, or nothing when the checkpoint covers it, and only this entry's number enters the checkpoints |
| `Mutations.CollectMarksForks` | ingest/flusher.go:286-293 | Exactly the branches that an entry forks are marked with its number, unless they stood there or later already |
| `Mutations.RefusedIffMixed` | ingest/flusher.go:295-303 | An entry is refused if and only if two of its mutations are on different branches |
| `Mutations.ForkMarksTarget` | ingest/ingester.go:171-179 | What Fork announces makes the flusher mark the target, not the source, and flush nothing |
| `Mutations.CollectsWholeBatch` | ingest/flusher.go:286-307 | A single-branch entry is collected whole if and only if the checkpoint does not cover it and no fork of the branch precedes one of its mutations |
| `Mutations.ForkThenMutationIsSkipped` | ingest/flusher.go:286-306 | The concrete entry whose mutation is lost |
| `Index.ReplayAfterPrefix` | query/loader.go:73-149 | Replaying a prefix and then the whole list succeeds exactly when replaying the list once does, with the same documents and dimensions |
| `Index.EffectAbsorbsPrefix` | query/table.go:160-195 | The effect of a list on any document absorbs the effect of its own prefix performed first |
| `Index.ApplyAllDims` | query/table.go:116-149 | A list can be replayed if and only if each mutation is applicable to the dimensions fixed so far, and replay fixes exactly those dimensions |
| `Index.ApplyAllIsEffect` | query/table.go:103-254 | What a replay does to each document is the composed effect of its mutations |
| `Index.ReplayIsIdle` | query/table.go:103-254 | A replay leaves the index as it was if and only if, for every document, the columns it lays over it are there already with the same contents, or the outcome it decides (after a delete) is what was there, and its vectors lie in columns of their dimension |
| `Index.ApplyMeans` | query/loader.go:108-127 | A mutation can be applied exactly when it deletes, or puts a document with an id whose non-empty vectors encode and fit their columns; a put stores each vector's encoding and norm and each attribute, keeps a live document's other columns and drops a deleted one's, and touches no other document |
| `LoaderModel.LoadSegmentHeals` | query/loader.go:88-146 | Loading a segment in full over any part of it gives the rebuild that ends with the segment |
| `LoaderModel.LoadIsRebuild` | query/loader.go:71-147 | A pass that loads any segment leaves a rebuild of the applied segments and part of the next, and one that loads all leaves the rebuild |
| `LoaderModel.SyncKeeps` | query/loader.go:49-162 | Every pass, over any manifest, keeps that, never lowers applied, and never leaves applied below the manifest of lastGen |
| `LoaderModel.RunIsConsistent` | query/loader.go:49-162 | So in every run of passes, failed or not, over manifests old and new |
| `LoaderModel.AppliedNeverDecreases` | query/loader.go:67-146 | applied never decreases along a run |
| `LoaderModel.ErrorFreeSync` | query/loader.go:60-162 | An error-free pass publishes the rebuild of its manifest if that has a segment beyond those applied, and otherwise changes neither the table nor applied |
| `LoaderModel.ErrorFreeSyncIff` | query/loader.go:60-162 | After an error-free pass the table is the rebuild of the manifest it read if and only if that has a segment beyond those applied, or replaying over the rebuild what the table holds beyond the manifest is idle |
| `LoaderModel.SyncReports` | query/loader.go:49-162 | Exactly when a pass reports each error: the read failed; another generation with fewer segments than applied; a new segment that does not open whole or is not applicable. The count returned is the rise of applied, which is the longest loadable part; lastGen moves only on success, and an unchanged generation is no error and no change |
| `LoaderModel.ErrorFreeSyncIsRebuild` | query/loader.go:71-151 | After any passes, an error-free pass over a manifest no shorter than any tried before leaves exactly its from-scratch rebuild |
| `LoaderModel.StaleSyncIsNotRebuild` | query/loader.go:60-69 | A concrete run in which an error-free pass over a stale manifest does not |
| `Loader.Loader.constructor` | query/loader.go:34-47 | A new loader has applied nothing and publishes an empty table |
| `Loader.Loader.LoadSegment` | query/loader.go:88-136 | The loop over one segment's mutations is the replay up to the first refusal |
| `Loader.Loader.LoadAll` | query/loader.go:73-147 | The loop over segments stops at the first that fails, with what was loaded before it |
| `Loader.Loader.LoadNew` | query/loader.go:71-76 | New segments go into a clone that shares no slice, map or column with the published table |
| `Loader.ReplayOnClone` | query/table.go:63-95 | Whatever mutations are written in place into a clone, every slice and map of the original keeps its contents, and so the original every answer it gives |
| `Loader.Loader.Sync` | query/loader.go:49-162 | A pass is the pass whose errors, count and state SyncReports fixes, changes only the loader, and publishes the old table or a wholly new one, so no published table ever changes |
| `Table.Table.Upsert` | query/table.go:103-228 | Succeeds exactly when the id is not empty and every non-empty vector encodes and fits its column; then the document holds each vector's encoding and norm and each attribute, merged into a live document and fresh otherwise; a refusal changes nothing |
| `Table.Table.Stage` | query/table.go:115-131 | The checks pass exactly when every non-empty vector fits its column and can be encoded; then exactly those are staged, each with its encoding and its norm; otherwise the column at fault is named |
| `Table.Table.Store` | query/table.go:133-227 | What follows the checks keeps all columns numRows long and index and docIDs mutual inverses, and is the put of the encoded values |
| `Table.Table.AddColumnsFor` | query/table.go:133-158 | Missing columns are added without a value in any row |
| `Table.Table.ReviveRow` | query/table.go:161-173 | A deleted row forgets every column that is not about to be written |
| `Table.Table.WriteRow` | query/table.go:174-193 | The row is live and holds the new values, and nothing else changes |
| `Table.Table.AddRow` | query/table.go:197-226 | Every column gets one more cell, with the value or without |
| `Table.Table.Delete` | query/table.go:247-254 | The document is gone and every other one and all dimensions are as before; reports whether it was live |
| `Table.Table.RecordAt` | query/table.go:260-284 | The record holds exactly the row's vectors, decoded, and its attributes |
| `Table.Table.Get` | query/table.go:286-292 | Returns a record exactly when the document is live, with its attributes and each of its vectors decoded |
| `Table.UpsertThenGet` | query/table.go:103-292 | After a successful upsert, Get returns decode(encode(v)) for every non-empty vector v of the put, and every attribute of it |
| `Table.Table.Clone` | query/table.go:63-95 | A valid table with the same rows, whose every slice, map and column is newly allocated |
| `Table.VectorMap.Copy` | query/table.go:76-84 | The map of vector columns is copied with a new column and three new slices per column, all apart from each other |
| `Table.AttrMap.Copy` | query/table.go:85-93 | So is the map of attribute columns, with a new slice per column |
| `Table.Table.ApplyMutation` | query/loader.go:108-127 | One mutation is applied as on the logical index or refused without a change |
| `Table.Table.Candidate` | query/table.go:354-398 | A row is a hit exactly when its document is eligible, with its score |
| `Table.Table.Visit` | query/table.go:354-424 | Each row keeps the heap's contents the best topK of the rows seen |
| `Table.Consider` | query/table.go:400-423 | Skipping on a worse score alone, pushing and replacing the root all keep that |
| `Table.Table.Search` | query/table.go:294-443 | Refuses exactly on a wrong dimension, a zero vector under cosine or an unknown metric, in that order; otherwise returns min(topK, n) of the n documents asked for, with their records and scores, in order, and leaves out none that is better |
| `TableRefinement.UpsertRefines` | query/table.go:103-228 | An upsert of rows is the put of a document: merged into a live one column by column, fresh otherwise |
| `TableRefinement.UpsertUpserts` | query/table.go:133-227 | Every cell of every row after an upsert |
| `TableRefinement.DeleteRefines` | query/table.go:247-254 | Marking a row is removing a document |
| `Search.SearchIsSortThenTruncate` | query/table.go:294-443 | The answer is the first min(topK, n) of the n eligible documents, each listed once, sorted by score and then id |
| `Search.SearchMeans` | query/table.go:301-463 | Scores ascend under cosine and Euclidean distance and descend under the dot product, ties are in ascending id, no document left out has a better score, or an equal one with a smaller id, than one returned, and each score is its metric's in terms of the kernels |
| `Lexicographic.FirstDifferenceDecides` | query/table.go:451-463 | The string order of ids and keys: the first difference decides, and a proper prefix comes first |
| `Search.SearchDependsOnlyOnIndex` | query/table.go:354-443 | Tables with the same logical index give the same answer to every query, whatever their rows and tombstones |
| `Search.HitOrderIsStrictWeak` | query/table.go:451-463 | cmpAsc and cmpDesc are strict weak orders |
| `Search.UnknownFieldMatchesNothing` | query/table.go:331-338 | A filter on an unknown attribute matches no row, so the early return is the full answer |
| `TopK.KeptIsFirst` | query/table.go:400-426 | Sorting what a bounded selection kept is truncating the sort of everything |
| `TopK.SortPermutes` | query/table.go:426-426 | The sort does not depend on the order of its input when ties are equal |
| `HitHeap.Hits.Up` | query/table.go:465-479 | container/heap's up restores the heap and keeps its elements |
| `HitHeap.Hits.Down` | query/table.go:465-479 | container/heap's down does |
| `HitHeap.Hits.Push` | query/table.go:418-419 | Push adds one element to the heap |
| `HitHeap.Hits.ReplaceRoot` | query/table.go:420-423 | Replacing the root and Fix(0) swaps the worst element for the new one |
| `HitHeap.Hits.Offer` | query/table.go:418-423 | The heap keeps the best k of the stream |
| `HitHeap.RootIsWorst` | query/table.go:470-471 | The root of the heap is its worst element |
| `WalKeys.KeyOrder` | logstream/log.go:227-229 | Key order is numeric order for all 64-bit numbers, and keys are distinct |
| `WalKeys.ParseInvertsKey` | logstream/log.go:227-248 | parseSeq undoes segmentKey |
| `WalKeys.ParseAcceptsOnlyKeys` | logstream/log.go:231-248 | parseSeq accepts only the base names segmentKey gives |
| `TailSearch.Bisect` | logstream/log.go:211-224 | The binary search ends between the tail at the first and at the last probe, in at most k probes for a range of 2^k, and fails only when its last probe did |
| `TailSearch.GallopPast` | logstream/log.go:184-209 | The exponential phase brackets the tail without exceeding 64 bits, after k + 1 probes for a stride of 2^k, and fails only when its last probe did |
| `TailSearch.Jump` | logstream/log.go:171-225 | The answer lies between the tail at the first and at the last probe, is exact on a still log, and takes at most 2 * floor(log2(d + 1)) + 1 probes there; there is an answer unless the last probe failed |
| `TailSearch.ListingOfLog` | logstream/log.go:117-135 | A bounded listing shows the numbers after lo without a gap, and its last key parses to lo plus its length |
| `TailSearch.Head` | logstream/log.go:117-139 | head(lo) lies between the tail at the listing and the tail at the last probe, and is exact on a still log; there is an answer unless the last probe failed |
| `WalProtocol.WalContiguity` | logstream/log.go:46-115 | In every run the numbers in use are 1 .. T without a hole, every object is its creator's batch, and lastKnown is 0 or in use |
| `WalProtocol.ContiguityIffNeverOverfull` | logstream/log.go:76-113 | The numbers in use are 1 .. T in every state of a run if and only if no state holds more than 2^64 - 1 objects |
| `WalProtocol.FullLogWraps` | logstream/log.go:76-83 | A run of 2^64 - 1 appends that fills the log without a hole, after which one more append is created at 0 and leaves a hole |
| `WalProtocol.ListingOk` | logstream/log.go:117-135 | A listing made during a search keeps the search between the tail at its start and the tail now |
| `WalProtocol.ProbeOk` | logstream/log.go:171-225 | So does every probe, while others append |
| `WalProtocol.AcknowledgedIsUnique` | logstream/log.go:81-101 | An acknowledged append holds a number whose object it created itself, with its own batch, and which no other acknowledged append holds |
| `WalProtocol.RunGrows` | logstream/log.go:46-115 | Objects are never changed or removed, lastKnown never falls, and an acknowledged append keeps its number |
| `WalProtocol.AcknowledgedIsReadable` | logstream/log.go:141-164 | From its acknowledgement on, Read of its number returns exactly its records |
| `WalProtocol.StepAppends` | logstream/log.go:81-114 | Every action leaves the log as it is or appends the batch of one call: an atomic append |
| `WalProtocol.LogIsAppended` | logstream/log.go:81-114 | Over a whole run the log, in the order of its numbers, is the batches created, in the order of creation |
| `WalProtocol.AppendsAtMostOnce` | logstream/log.go:81-114 | Without a conflict reported after a commit, a call appends at most once |
| `WalProtocol.ExactlyOnceIffNoFalseConflict` | logstream/log.go:81-114 | An acknowledged call created exactly one object more than it was told of conflicts after its own commit, so exactly one if and only if that never happened |
| `WalProtocol.FalseConflictAppendsTwice` | logstream/log.go:102-113 | The run in which one call creates objects 1 and 2 |
| `WalProgress.UndisturbedAppendIsAcknowledged` | logstream/log.go:46-115 | Every call under way in any state short of a full log, whatever it collided with, is acknowledged by its own steps at the number after the tail, with exactly its batch added, or at the number of the object it had created |
| `WalProgress.SearchEnds` | logstream/log.go:117-225 | An undisturbed search ends, no earlier than the tail at its start and no later than the tail now |
| `ObjectStore.MemStore.Put` | objectstore/mem.go:120-150 | Writes exactly when the condition holds, under a generation never issued before, deletions notwithstanding |
| `ObjectStore.MemStore.Delete` | objectstore/mem.go:107-118 | Removes the object or reports that there is none |
| `ObjectStore.MemStore.List` | objectstore/mem.go:152-180 | The first keys after the start with the prefix, in ascending order, and no match skipped |
| `ObjectStore.GenerationInjective` | objectstore/local.go:56-58 | Two generation strings are equal only if both their numbers are |
| `ObjectStore.GenerationWellFormed` | objectstore/local.go:60-70 | A generation that was issued is never refused as malformed |
| `CasCatalog.CatalogIsFold` | namespace/branch.go:47-73 | Under every interleaving the catalog is the fold of the committed changes in commit order, and each took effect there |
| `CasCatalog.AnswersAreLinear` | namespace/branch.go:47-73 | Every answer has a place in that order: a success is committed there, and a change found unneeded was so there |
| `CasCatalog.WriteMeans` | namespace/branch.go:47-73 | A conditional write commits exactly when the object is still the one read, whatever the reply; a conflict starts over |
| `CasCatalog.UndisturbedUpdate` | namespace/branch.go:47-73 | Left alone, a change that has an effect on the current catalog is committed and acknowledged, and one that has none is found unneeded |
| `CasCatalog.FoldKeeps` | namespace/catalog.go:80-151 | What every effective change keeps, every later catalog keeps |
| `Catalogs.BranchesLoseNothing` | namespace/branch.go:27-73 | A branch is in the catalog exactly when the last committed change about it added it |
| `Catalogs.AddedBranchStays` | namespace/branch.go:27-35 | A branch whose AddBranch returned is listed for as long as no later RemoveBranch of it commits |
| `Catalogs.ListBranches` | namespace/branch.go:16-25 | The branches in order, or main when there is none |
| `Catalogs.NamespacesStay` | namespace/catalog.go:80-151 | Entries never vanish, and neither a creation time nor a non-zero deletion time ever changes |
| `Catalogs.NamespaceChangeMeans` | namespace/catalog.go:80-151 | A create has an effect exactly on an unknown name, and a delete exactly on an active namespace; what each sets, and that it touches no other |
| `Catalogs.AcknowledgedChange` | namespace/catalog.go:98-151 | An acknowledged create made the namespace active with the requested creation time, and an acknowledged delete gave it the requested deletion time |
| `Catalogs.CreateCommitsOnce` | namespace/catalog.go:80-113 | At most one creation of a name is ever committed |
| `Catalogs.CreateSucceedsOnce` | namespace/catalog.go:80-113 | At most one CreateNamespace of a name ever succeeds |
| `Catalogs.NamespaceAnswersStay` | namespace/catalog.go:80-151 | What CreateNamespace and DeleteNamespace answered stays true of every later catalog |
| `Catalogs.ActiveNamespaces` | namespace/catalog.go:153-172 | The namespaces not deleted, in order, or the default one |
| `RecordIo.ScanOfCutStream` | recordio/scanner.go:59-137 | For every record list and every cut of its bytes, the scan yields the records whose frames end by the cut, then a clean end on a boundary and a torn write elsewhere, with the last boundary as the valid offset |
| `RecordIo.ScanInvertsEncode` | recordio/writer.go:58-91 | Scanning what was written gives back the records |
| `RecordIo.ScanIsCanonical` | recordio/scanner.go:89-137 | Bytes scanned to a clean end are the writer's encoding of what was scanned |
| `RecordIo.TooLargeIsRefused` | recordio/scanner.go:59-87 | A record over the limit is refused as such by Scan and Skip, from its header alone |
| `RecordIo.FrameLayout` | recordio/writer.go:67-89 | The length in eight little-endian bytes, its checksum, the record, the record's checksum |
| `RecordIo.SkipVersusScan` | recordio/scanner.go:151-204 | Skip agrees with Scan if and only if the bytes are not a complete frame with a good header whose payload fails its checksum; there Skip passes over what Scan reports |
| `RecordIo.SkipAgreesWithScan` | recordio/scanner.go:151-204 | On a written stream, cut anywhere and entered at any frame, Skip and Scan agree on success, next offset and error |
| `RecordIo.HeaderCorruptionDetected` | recordio/scanner.go:59-87 | Any one changed byte of a header is reported |
| `RecordIo.DataCorruptionDetected` | recordio/scanner.go:89-137 | Any one changed byte of a payload or its checksum is reported |
| `RecordIo.SkipPassesOverDamage` | recordio/scanner.go:151-204 | Every written frame with one byte of its payload or payload checksum changed is passed over by Skip and reported by Scan |
| `RecordIo.ScanOfCorruptStream` | recordio/scanner.go:89-137 | A stream with one byte changed yields the records before the damaged frame and then the fault |
| `Crc32c.MaskedCrcDetectsByteChange` | recordio/crc.go:27-30 | The masked CRC-32C of two byte strings that differ in one byte differs |
| `Crc32c.CheckValue` | recordio/crc.go:27-30 | The checksum of the digits 1 to 9 is E3069283, and masked C78AB0E5 |
| `Bytes.PutUint64Surjective` | recordio/writer.go:67-71 | The little-endian length is a bijection between 64-bit numbers and eight bytes |
| `RecordIoStreams.RecordWriter.WriteRecord` | recordio/writer.go:58-91 | Appends one frame and returns its offset, or fails, exactly when a call on the writer below failed, and stays failed, or refuses after a close |
| `RecordIoStreams.RecordWriter.Flush` | recordio/writer.go:97-109 | Succeeds exactly when the writer below does, and then everything written has reached the sink |
| `RecordIoStreams.RecordWriter.Close` | recordio/writer.go:122-136 | The first close flushes and closes the underlying writer even if the flush failed, reports a failed flush before a failed close, and without either has everything in the sink; later ones succeed and change nothing |
| `RecordIoStreams.InterruptedWriteScan` | recordio/writer.go:58-136 | Wherever the writer stopped, a scan of its sink yields a prefix of the records and never a corruption |
| `RecordIoStreams.RecordScanner.ReadHeaderBytes` | recordio/scanner.go:59-87 | The length, a clean end, or the fault of the header |
| `RecordIoStreams.RecordScanner.Scan` | recordio/scanner.go:89-137 | One step is the specified step at the last valid offset, and errors are sticky |
| `RecordIoStreams.RecordScanner.Skip` | recordio/scanner.go:151-204 | The same for Skip, for every split of the payload between buffer and reader and for both ways to pass over it |
| `RecordIoStreams.ReadAllRecords` | logstream/log.go:155-163 | The loop over Scan is the scan of the whole object |
| `Segments.SegmentWriter.Write` | segment/writer.go:24-37 | Appends the frame of a mutation, and refuses nil without a change |
| `Segments.WriteSegment` | ingest/flusher.go:319-329 | Without an error the buffer holds the segment's bytes, and there is no error unless the writer below fails |
| `Segments.ReadSegment` | segment/reader.go:20-33 | The loop over Next yields the mutations before the first scan or decode error |
| `Segments.DecodeAllStops` | segment/reader.go:20-33 | Records are decoded in order up to the first that is refused, and no further |
| `Segments.SegmentRoundTrip` | segment/reader.go:20-33 | Reading a written segment gives back its batch and a clean end |
| `Segments.DamagedSegment` | segment/reader.go:20-33 | A segment with any one byte changed opens as a proper prefix of its batch and an error |
| `Fp16.EncodesNearest` | vector/format.go:27-58 | A finite value encodes exactly when its magnitude is below 65520, and then to the nearest half, the even one of two, with its sign |
| `Fp16.DecodesExactly` | vector/format.go:60-76 | A finite half decodes to the float32 of its sign and magnitude |
| `Fp16.RoundTrip` | vector/format.go:27-76 | Encoding the decoding of any finite half returns it |
| `Fp16.EncodingIsMonotone` | vector/format.go:27-58 | Encoding keeps the order of signed values |
| `Fp16.EncodeFP16` | vector/format.go:10-25 | Succeeds exactly when the target is long enough and every element is finite and below 65520; otherwise names the first fault, with the elements before it written and the rest untouched |

## Left out

- Fork's rollback and concurrent forks of one target: its unguarded delete can erase a manifest that a flusher has extended. Only the success path is modelled.
- Objects for Append, flushBranch and updateBranches: their retry loops interleave with other processes and are modelled step by step, as state machines, so the model says nothing about how often a loop retries.
- Liveness and timing: poll intervals, deadlines and the fairness of compare-and-swap retries.
- `CatalogCache`, the tenant and namespace registries, gRPC handlers, commands and configuration.
- The Google Cloud and local-file stores: the in-memory store is the store model. The 64-bit overflow of its generation counter is not modelled.
- Protobuf and JSON encodings: decoding is taken to undo encoding. Attribute values are opaque and immutable, and nil attribute values and nil vectors do not occur, as in decoded messages.
- SHA-256 is taken to be injective: a segment id is the digest of the batch itself.
- The distance kernels, the inverse norm and the vectors' storage codec are parameters of the table, over real scores without NaN. The half-precision codec is verified on its own.
- Segment sizes and schema versions in manifests, statistics and logging; the store's Stat and ReadRange.
- Validation of names and log prefixes, and the storage keys other than those of the log.
- Errors of the byte reader under a scanner, other than the end of its bytes.
- CasCatalog.AnswersAreLinear: says nothing about a caller whose write was answered with an error after it committed, beyond the change being in the history.
- Catalogs.NamespacesStay: holds while nobody deletes the catalog object, which no code here does.
- WalProtocol.AcknowledgedIsReadable: is stated for records within the scanner's default limit of 64 MiB, which the writer does not enforce.
- Segments.SegmentRoundTrip: likewise.
- TailSearch.Jump: the probe bound is for a log that stands still; on a growing one only the position of the answer is bounded.
