# A verified model of the ActivityWatch server and its sync

This project models the parts of the repository where the arithmetic and the
state are hardest to get right, and proves what they promise:

- **Interval transforms** (`Events`, `Flood`, `FilterPeriod`, `TimeIntervals`,
  `UnionNoOverlap`, `PeriodUnion`): the loops that fill gaps, cut by filters
  and unite timed events. Each loop is a method proved equal to a recursive
  function; the lemmas say what that function does to every instant.
- **Replica merge** (`Conflict`, `Text`, `Merge`, `MergeRetention`, `MergeRuns`,
  `SyncRound`, `ActivityImport`): last writer wins with an archive of the losers, the
  pull-merge-push round, and the append-only import of events.
- **Event store** (`HeartbeatRule`, `StoreSpec`, `Datastore`, `StoreFacts`,
  `BucketCache`, `StoreRuns`, `NewestRows`, `HeartbeatCache`, `HeartbeatExamples`,
  `Worker`, `WorkerRuns`, `ImportEndpoint`, `Seconds`, `Reimport`): the tables with
  their two caches, the thread that commits in batches and holds back some of its
  answers, the import of export files, and the durations in them.
- **Devices and tags** (`Devices`, `Discovery`, `AliasForest`, `TagPaths`,
  `TagTree`, `TagCounts`): which announcement of a device is believed, the
  edges that merges leave, and the tree of tags.

Times are integers (nanoseconds; milliseconds for revisions), intervals are
half open, event data is an opaque value compared by equality, and SQLite tables
are sequences or maps of rows. Durations may be negative, as in the program; the
lemmas about `filter_period_intersect` and `period_union` ask for durations >= 0,
those about `flood` and `union_no_overlap` only where the table says so.

Where the program changes things in place the model is a class or a loop with the
same fields, and its contract ties the new state to a function of the old one; the
results below are about that function.

## What the proofs brought to light

These are places where the code does less than its comments or a reader would
expect. The model follows the code; each has a lemma with a concrete input, and,
where it says so, a lemma with the exact condition.

- A negative duration, which event parsing lets through, can make `flood` return
  events out of order (`NegativeDurationBreaksOrder`; exact condition in
  `FloodShape`).
- `filter_period_intersect` never steps back to an earlier filter, so an event
  that overlaps an earlier one can lose a period (`OverlapLosesData`; exact
  statement in `FilterExact`).
- `union_no_overlap` returns overlapping events exactly if an event of the first
  list overlaps two of the second (`UnionProperIff`).
- One unparsable timestamp can make "newer" circular (`UnparsedRing`; exact
  condition in `RingIff`). The order of imports then decides what is kept
  (`UnparsedOrderMatters`), and so it does when a payload comes back
  (`RepeatedPayloadOrderMatters`; exact condition, for any versions, in
  `ConvergesIff`).
- Two newer versions of one key in one batch can lose the first of them, without
  an archive entry (`RepeatedKeyLosesVersion`; exact condition in
  `ImportRetainsIff`).
- Events of two buckets can share a fingerprint, and then one is dropped
  (`FingerprintsCollide`; exact condition in `NamesCollideIff` and
  `ImportIsUnionIff`); events of negative length are appended by every import
  (`NegativeIsAddedAgain`; exact condition in `SecondImportAddsNothingIff`).
- Renaming a bucket away and back leaves a stale remembered heartbeat that cuts
  a stored event short (`RenameBackCutsEvent`; exact condition in
  `RenamedCoherentIff`).
- After the newest event of a bucket is deleted, the next heartbeat is refused,
  because the deleted event is still remembered (`DeletedEventRefusesBeat`; exact
  condition in `DeletedCoherentIff`).
- A rolled-back batch leaves its effects in the bucket cache
  (`RolledBackBucketStaysCached`; exact condition in `CacheBoundsHoldIff`).
- Durations pass through an export as fractional seconds, and the import cuts them
  to nanoseconds. An export that is imported into its own store can therefore
  shorten events by a nanosecond (`RoundingCutsEvent`; exact condition in
  `ReimportIff`).
- An imported event that ends before the first of its file starts is added again
  by each import (`BackwardEventImportsTwice`; exact condition in
  `SecondImportIsNoOpIff`).
- Nine merges of a device in a row are more than `resolve_device_id` follows
  (`NineMergesDoNotResolve`; exact condition in `ResolvesIff`).
- Deleting a merged device and seeing it again can close a circle of aliases
  (`DeletionMakesACycle`; exact condition in `DeleteKeepsForestIff`).
- The counts of the tag tree are documented as numbers of notes; they are numbers
  of note and tag pairs (`NestedTagsCountTwice`; exact condition in
  `CountIsNotesIff`).

## Model

| member | source | states |
|---|---|---|
| Events.SortIsSortedPermutation | aw-transform/src/sort.rs:3-7 | sorting by timestamp yields a sorted permutation of the events |
| Events.SortIsStable | aw-transform/src/sort.rs:3-7 | events that start at the same instant keep their relative order |
| Flood.FloodEvents | aw-transform/src/flood.rs:36-163 | the loop with its retried event and carried half gap ends, and computes the recursive definition `Flooded` that the lemmas below are about |
| Flood.FloodShape | aw-transform/src/flood.rs:50-161 | any input: between output neighbours no gap below the pulsetime is left but a single odd nanosecond between different data, and the output is sorted if and only if no widening reaches back past the start of the event before it; durations >= 0 never do, and stay >= 0 |
| Flood.FloodIsIdempotent | aw-transform/src/flood.rs:36-163 | any input without such an overshoot, overlaps allowed: flooding the output again with the same pulsetime changes nothing |
| Flood.FloodCoverage | aw-transform/src/flood.rs:50-161 | any input: every input interval lies inside one output event with its data, and anything shown besides lies in a gap below the pulsetime, on the side of an input event with that data |
| Flood.FloodExact | aw-transform/src/flood.rs:50-161 | non-overlapping input, durations >= 0: so is the output, and data shows at an instant if and only if the input shows it there or the instant lies on that data's side of a gap between neighbours below the pulsetime |
| Flood.NegativeDurationBreaksOrder | aw-transform/src/flood.rs:36-163 | a concrete input with a negative duration whose output is not sorted; FloodShape has the exact condition |
| FilterPeriod.FilterPeriodIntersect | aw-transform/src/filter_period.rs:20-69 | the loop over both lists, which examines a trimmed event again, ends on every input and computes `Filtered` |
| FilterPeriod.FilterPieces | aw-transform/src/filter_period.rs:36-66 | every output event lies inside one input event and one filter, with that event's id and data |
| FilterPeriod.FilterExact | aw-transform/src/filter_period.rs:20-69 | any input, overlapping or not: data shows at an instant if and only if some event shows it there under a filter that the scan has not passed when it reaches that event |
| FilterPeriod.FilterCoverage | aw-transform/src/filter_period.rs:20-69 | any input: an instant is covered by the output if and only if some event and some filter cover it |
| FilterPeriod.FilterNonOverlapping | aw-transform/src/filter_period.rs:20-69 | non-overlapping events and any filters: the output is sorted and disjoint and shows each event's data exactly where a filter covers it |
| FilterPeriod.OverlapLosesData | aw-transform/src/filter_period.rs:55-66 | a concrete input where an event overlapping an earlier one loses a period that a filter grants it |
| TimeIntervals.OverlapIsSharedInstant | aw-models/src/timeinterval.rs:60-96 | the intersection test on two events holds exactly if they share an instant |
| UnionNoOverlap.UnionEvents | aw-transform/src/union_no_overlap.rs:15-60 | the loop ends although the second list is rewritten and grows under it, and computes `UnionFrom` |
| UnionNoOverlap.UnionCoverage | aw-transform/src/union_no_overlap.rs:15-75 | any lists: the output covers exactly the instants that an input covers and shows nothing that neither input shows |
| UnionNoOverlap.UnionKeepsFirst | aw-transform/src/union_no_overlap.rs:15-75 | any lists: the first list is a subsequence of the output, verbatim and in order, and everything else lies inside an event of the second with its data |
| UnionNoOverlap.UnionProperIff | aw-transform/src/union_no_overlap.rs:15-75 | both lists sorted, disjoint, of positive durations: the output is so if and only if no event of the first overlaps two events of the second |
| UnionNoOverlap.UnionDisjointIff | aw-transform/src/union_no_overlap.rs:15-75 | the same, with disjointness stated for every pair of events |
| UnionNoOverlap.UnionPrecedence | aw-transform/src/union_no_overlap.rs:15-75 | under that condition the first list's data shows wherever it covers an instant, and elsewhere the second list's |
| PeriodUnion.UnionPeriods | aw-transform/src/period_union.rs:19-56 | the loop that pops, changes and pushes back the last period computes `Periods` |
| PeriodUnion.PeriodsCover | aw-transform/src/period_union.rs:19-56 | the output covers exactly the instants of both inputs, keeps their end points, is separated by gaps of positive length and carries no data |
| PeriodUnion.CanonicalForm | aw-transform/src/period_union.rs:28-52 | two gap-separated lists that reach the same instants are the same list of intervals |
| PeriodUnion.PeriodsDetermined | aw-transform/src/period_union.rs:19-56 | inputs that reach the same instants give identical periods |
| PeriodUnion.PeriodsLaws | aw-transform/src/period_union.rs:19-56 | swapping the arguments, and uniting the result again with an input or with nothing, changes no period |
| PeriodUnion.PeriodsFromCoverage | aw-transform/src/period_union.rs:19-56 | for positive durations the covered instants alone determine the periods |
| Conflict.NewerTrichotomy | aw-sync-rust/src/conflict.rs:32-46 | at most one of two versions is newer, and neither exactly if milliseconds are not comparable or equal and the device ids are equal |
| Conflict.NewerTransitive | aw-sync-rust/src/conflict.rs:32-46 | among timestamps that all parse, or that all do not, "not older" is transitive |
| Conflict.RingIff | aw-sync-rust/src/conflict.rs:32-46 | three versions are newer than each other in a ring if and only if two of them parse, the third does not, and its device id lies between theirs in the order opposite to their times |
| Conflict.UnparsedRing | aw-sync-rust/src/conflict.rs:38-45 | three such versions |
| Merge.KeyFacts | aw-sync-rust/src/serialize.rs:429-436 | a row's key is never blank, and a row stored under its key keeps that key |
| Merge.Table.BuildIndex | aw-sync-rust/src/serialize.rs:464-492 | the index by uuid holds the last row of each uuid |
| Merge.Table.Import | aw-sync-rust/src/serialize.rs:494-581 | the import loop, over notes or todos, changes rows and counters as `Imported` says |
| Merge.ImportByKey | aw-sync-rust/src/serialize.rs:494-581 | unique keys on both sides: keys stay unique, and each key ends with its stored version or the incoming one, as arbitration between just these two decides |
| Merge.ImportKeepsKeysUnique | aw-sync-rust/src/serialize.rs:464-581 | keys stay unique if and only if the batch brings each key the table lacks at most once |
| MergeRetention.ImportLosesNothing | aw-sync-rust/src/serialize.rs:494-581 | any batch: each incoming row falls under exactly one action, in order, and archived = updated + deleted + stale; without repeated keys every prior and every incoming payload is afterwards stored under its key or archived |
| MergeRetention.ImportRetainsIff | aw-sync-rust/src/serialize.rs:464-581 | any batch, keys repeated or not: every prior and incoming payload is stored under its key or archived if and only if each row that overwrites a stored one has the payload of the last that does, or a stale twin in the batch |
| MergeRetention.ArchiveHoldsLosers | aw-sync-rust/src/serialize.rs:500-561 | whatever is archived lost to what is stored afterwards, and is filed under the winner's revision |
| MergeRetention.RepeatedKeyLosesVersion | aw-sync-rust/src/serialize.rs:464-497 | a concrete batch with a repeated key, one payload of which is neither stored nor archived |
| MergeRuns.PrevailingWins | aw-sync-rust/src/serialize.rs:494-581 | a payload that no other replaces, and one of whose versions is newer than all of any climb of others (each newer than the one before), is what every run of unique-key batches that sees them ends with, from any table, timestamps parsed or not, ties or not |
| MergeRuns.ConvergesIff | aw-sync-rust/src/serialize.rs:494-581 | for any versions: all runs that see the same versions of a key end with the same payload if and only if there are none or such a payload is among them |
| MergeRuns.UniformConvergesIff | aw-sync-rust/src/serialize.rs:494-581 | for timestamps that all parse or all do not: if and only if there are none, or no version of some payload is older than one of another, and each of another is older than some of its |
| MergeRuns.PrevailsIsChampion | aw-sync-rust/src/serialize.rs:494-581 | as long as tied revisions carry one payload, a payload prevails if and only if each of its versions is newer than every version of another |
| MergeRuns.TiedPayloadPrevails | aw-sync-rust/src/serialize.rs:494-581 | three versions, two of them tied, of which a payload prevails that does not beat the other one each time |
| MergeRuns.ChampionWins | aw-sync-rust/src/serialize.rs:494-581 | a payload each of whose versions is newer than every version of another is what any run that sees it ends with |
| MergeRuns.RunKeepsNewest | aw-sync-rust/src/serialize.rs:494-581 | with timestamps that all parse or all do not, and one revision per payload, each key ends at the newest version ever seen for it |
| MergeRuns.ImportOrderDoesNotMatter | aw-sync-rust/src/serialize.rs:494-581 | two runs, from any tables, that saw the same versions of a key, one payload of which prevails, end with that payload, whatever the order, grouping and repetition |
| MergeRuns.ImportsCommute | aw-sync-rust/src/serialize.rs:494-581 | under the same condition two imports commute, and repeating either changes no payload |
| MergeRuns.UnparsedOrderMatters | aw-sync-rust/src/conflict.rs:38-45 | with one unparsable timestamp, two orders of the same imports keep different payloads |
| MergeRuns.RepeatedPayloadOrderMatters | aw-sync-rust/src/serialize.rs:500-506 | with parsed timestamps and a payload written twice, around another one, two orders of the same imports keep different payloads |
| SyncRound.Device.PersistOutcome | aw-sync-rust/src/manager.rs:2171-2211 | the counters are added up and each archived row goes to the trash, in order |
| SyncRound.Device.ApplySnapshot | aw-sync-rust/src/manager.rs:490-550 | each table that came is imported, or noted as an error if it is unreadable, with results accumulated and losers in the trash |
| SyncRound.SyncTo | aw-sync-rust/src/manager.rs:559-639 | tables and trash of both devices after a round, for any sharing settings: the peer's shared tables are merged here and then the shared results there; a failed fetch changes nothing, a failed push leaves the peer as it was |
| SyncRound.RoundByKey | aw-sync-rust/src/manager.rs:559-639 | what both devices hold for a key after a round, from what they held before it |
| SyncRound.RoundAgreesIff | aw-sync-rust/src/manager.rs:559-639 | after a round whose push arrives both devices agree on a key if and only if they did not hold different payloads under revisions that arbitration cannot tell apart |
| SyncRound.AgreedRoundIsIdle | aw-sync-rust/src/manager.rs:559-639 | a round between devices that agree changes no table and archives nothing |
| SyncRound.SecondRoundIsIdle | aw-sync-rust/src/manager.rs:559-639 | without such a tie, a second round changes nothing any more |
| ActivityImport.ActivityDb.ReadIds | aw-sync-rust/src/serialize.rs:833-860 | the bucket ids by name |
| ActivityImport.ActivityDb.ReadFingerprints | aw-sync-rust/src/serialize.rs:862-887 | the fingerprints of all stored events |
| ActivityImport.ActivityDb.AddBuckets | aw-sync-rust/src/serialize.rs:892-925 | buckets are merged by name: metadata of known ones is overwritten, new ones are added and become known |
| ActivityImport.ActivityDb.AppendEvents | aw-sync-rust/src/serialize.rs:927-963 | an event is counted as known, appended, or reported for want of its bucket, and what is appended becomes known |
| ActivityImport.ActivityDb.Import | aw-sync-rust/src/serialize.rs:821-967 | the tables and counters after both loops, starting from the stored ids and fingerprints |
| ActivityImport.FingerprintInjective | aw-sync-rust/src/serialize.rs:814-816 | two events of one bucket with equal fingerprints are equal |
| ActivityImport.NamesCollideIff | aw-sync-rust/src/serialize.rs:814-816 | some events of two buckets share a fingerprint if and only if one name continues the other by a pipe and a number, two such, or two such and a pipe and anything |
| ActivityImport.FingerprintsCollide | aw-sync-rust/src/serialize.rs:814-816 | two such events |
| ActivityImport.ImportIsUnion | aw-sync-rust/src/serialize.rs:821-967 | if no known name continues another so: the stored facts become the old ones plus the incoming ones of known buckets, as they read back; stored rows stay, in place, and bucket names stay unique |
| ActivityImport.ImportIsUnionIff | aw-sync-rust/src/serialize.rs:821-967 | every import of events after the given buckets is such a union if and only if no known name continues another so |
| ActivityImport.SecondImportAddsNothing | aw-sync-rust/src/serialize.rs:821-967 | importing the same snapshot again adds no event, whatever the bucket names, if no event of a known bucket has a negative length |
| ActivityImport.SecondImportAddsNothingIff | aw-sync-rust/src/serialize.rs:821-967 | any snapshot and names: the second import adds no event if and only if each event of negative length in a known bucket has the fingerprint of a stored event |
| ActivityImport.NegativeIsAddedAgain | aw-sync-rust/src/serialize.rs:821-967 | if no known name continues another as a fingerprint does, an event of negative length in a known bucket is added again |
| HeartbeatRule.MergeFacts | aw-transform/src/heartbeat.rs:12-59 | a merge keeps start and data and ends where the later of the two ends |
| HeartbeatRule.MergeCovers | aw-transform/src/heartbeat.rs:12-59 | durations >= 0: when exactly two events merge, and that the merged event covers both, the time between them, and nothing else |
| Datastore.DatastoreInstance.constructor | aw-datastore/src/datastore.rs:279-307 | a store opens with a cache equal to the buckets and extents in its tables |
| Datastore.DatastoreInstance.GetStoredBuckets | aw-datastore/src/datastore.rs:309-396 | a refresh overwrites the cache entries of stored buckets and removes none |
| Datastore.DatastoreInstance.CreateBucket | aw-datastore/src/datastore.rs:418-482 | tables, cache and error of creating a bucket, with or without events |
| Datastore.DatastoreInstance.DeleteBucket | aw-datastore/src/datastore.rs:484-511 | tables, cache and error of deleting a bucket with its events |
| Datastore.DatastoreInstance.RenameBucket | aw-datastore/src/datastore.rs:1107-1142 | tables, cache and each error of renaming, a taken name that the cache does not know included |
| Datastore.DatastoreInstance.UpdateEndtime | aw-datastore/src/datastore.rs:615-648 | the extent grows just enough to hold the event, and the cache follows when it grew |
| Datastore.DatastoreInstance.InsertEvents | aw-datastore/src/datastore.rs:525-578 | rows are added or replaced by id, the extent grows, and the events come back with their ids |
| Datastore.DatastoreInstance.DeleteEventsById | aw-datastore/src/datastore.rs:580-613 | exactly the bucket's rows with those ids go; the cache stays |
| Datastore.DatastoreInstance.ReplaceLastEvent | aw-datastore/src/datastore.rs:650-705 | the row is rewritten and the extent grows; matching no row is an error |
| Datastore.DatastoreInstance.GetEvents | aw-datastore/src/datastore.rs:816-945 | the rows in range, newest first, limited, clipped if asked |
| Datastore.DatastoreInstance.Heartbeat | aw-datastore/src/datastore.rs:707-758 | the heartbeat is merged into the remembered or re-read event, or appended; what is remembered on each path, errors included |
| StoreFacts.QueryIsNewestFirst | aw-datastore/src/datastore.rs:816-916 | a query answers with exactly the bucket's events that touch the range, newest first, and under a limit with the newest of them |
| StoreFacts.ClippedIsRestricted | aw-datastore/src/datastore.rs:871-897 | a clipped event covers exactly what its row covers inside the range; an unclipped one is the row |
| StoreFacts.InsertedAreStored | aw-datastore/src/datastore.rs:525-578 | new ids: the events come back in order with the ids of the rows that now hold them, and no stored row is lost |
| StoreFacts.DeletedExactly | aw-datastore/src/datastore.rs:580-613 | exactly the rows of this bucket with the given ids go |
| BucketCache.AgreesIff | aw-datastore/src/datastore.rs:309-396 | the cache agrees with the tables, extent by extent, if and only if it equals what a refresh would compute |
| BucketCache.InsertAllKeepsBounded | aw-datastore/src/datastore.rs:525-578 | inserts keep cached extents outer bounds, and exact when the ids are new |
| BucketCache.ReplaceKeepsBounded | aw-datastore/src/datastore.rs:650-705 | rewriting an event keeps the extents outer bounds, and exact when the event continues |
| BucketCache.RenameKeepsBounded | aw-datastore/src/datastore.rs:1107-1142 | so does renaming a bucket |
| BucketCache.DeleteBucketKeepsBounded | aw-datastore/src/datastore.rs:484-511 | so does deleting one |
| BucketCache.DeleteEventsKeepsBounded | aw-datastore/src/datastore.rs:580-613 | deleting events leaves outer bounds |
| StoreRuns.RunKeepsBounded | aw-datastore/src/datastore.rs:418-758 | in every run of commands, deletions and id-replacing inserts included, the cached start and end of each bucket hold all its events |
| StoreRuns.RunKeepsExact | aw-datastore/src/datastore.rs:309-758 | in every run that creates, inserts new ids, beats, and renames onto names under which no event is remembered that the bucket's row of that id contradicts, the cache equals what a refresh would recompute |
| StoreRuns.RenamedExactIff | aw-datastore/src/datastore.rs:1107-1142 | a rename that succeeds keeps the cache exact and what is remembered true of its rows if and only if what is remembered under the new name is true of the renamed bucket's row |
| StoreRuns.RereadIsLatest | aw-datastore/src/datastore.rs:816-916 | a query for one event gives the row with the latest start |
| HeartbeatCache.RunRefinesUncached | aw-datastore/src/datastore.rs:707-758 | in runs of all six commands, from any store with outer bounds: every response, both tables and the bucket cache equal those of re-reading the newest row each time, as long as heartbeats come in order, no inserted id takes another bucket's remembered row, and creations, renames and event deletions meet the conditions below |
| HeartbeatCache.AppendedBeatCoherentIff | aw-datastore/src/datastore.rs:740-757 | a heartbeat that cannot be merged keeps the memory truthful if and only if it starts after the newest stored event |
| HeartbeatExamples.RenameBackCutsEvent | aw-datastore/src/datastore.rs:707-758 | a run from the empty store, all caches right, after which a rename back and one heartbeat cut the stored event from 10 to 2 and leave the cached end wrong |
| HeartbeatCache.RenamedCoherentIff | aw-datastore/src/datastore.rs:1107-1142 | a rename that succeeds keeps the memory truthful if and only if nothing is remembered under the new name, or just the newest event of the renamed bucket |
| HeartbeatCache.CreatedCoherentIff | aw-datastore/src/datastore.rs:418-482 | a new bucket without events keeps the memory truthful if and only if nothing is remembered under its name |
| HeartbeatCache.DropKeepsCoherent | aw-datastore/src/datastore.rs:484-511 | deleting a bucket always does |
| HeartbeatCache.DeletedCoherentIff | aw-datastore/src/datastore.rs:580-613 | deleting events does if and only if the bucket's remembered event is not among them |
| HeartbeatExamples.DeletedEventRefusesBeat | aw-datastore/src/datastore.rs:707-758 | a run from the empty store after which a heartbeat is refused with an error and nothing is stored, where re-reading would have stored it |
| Worker.DatastoreWorker.HandleRequest | aw-datastore/src/worker.rs:276-442 | each request's effect on tables, caches, counters and flags, and its answer |
| Worker.DatastoreWorker.Commit | aw-datastore/src/worker.rs:236-265 | a commit makes the transaction durable or not, and turns the held-back answer into an error if it failed |
| Worker.DatastoreWorker.WorkLoop | aw-datastore/src/worker.rs:187-272 | the nested loops refine a machine that takes one turn at a time: same state and same answers after any turns |
| WorkerRuns.DurableIsWholeBatches | aw-datastore/src/worker.rs:187-272 | at every moment, whatever commits failed, the durable tables are the effect of whole batches in order, and the open transaction is that plus the open batch |
| WorkerRuns.SplitLosesNothing | aw-datastore/src/worker.rs:187-272 | the batches and the open one contain every turn taken, in order |
| WorkerRuns.SettledWithoutRollback | aw-datastore/src/worker.rs:187-272 | if no batch was rolled back, the durable state is that of handling the requests one by one without transactions |
| WorkerRuns.BatchesOnlyGrow | aw-datastore/src/worker.rs:187-272 | later turns change no finished batch and no answer given |
| WorkerRuns.DeferredAnswers | aw-datastore/src/worker.rs:204-265 | ForceCommit and Close succeed exactly if the commit did, and then everything requested in the batch is durable; after a failure the batch is durable as a whole or not at all |
| WorkerRuns.OtherAnswersDoNotWait | aw-datastore/src/worker.rs:211-233 | any other request is answered by its effect on the open transaction, whatever becomes of the commit |
| WorkerRuns.OpenBatchIsBounded | aw-datastore/src/worker.rs:225-233 | when a request is polled at most 100 counted events are uncommitted, the counter is that of the open batch, and nothing in it asked for a commit, came late, or created, renamed or deleted a bucket |
| WorkerRuns.RollbackKeepsBoundsIff | aw-datastore/src/worker.rs:236-265 | a rolled-back batch leaves the cached extents outer bounds if and only if its last request did not create, rename or delete a bucket |
| WorkerRuns.CacheBoundsHoldIff | aw-datastore/src/worker.rs:187-272 | over every run, whatever commits fail: the worker's bucket cache bounds the events of every bucket at every moment if and only if no rolled-back batch ended in such a request |
| WorkerRuns.RolledBackBucketStaysCached | aw-datastore/src/worker.rs:249-265 | a created bucket whose batch is rolled back is gone from the tables and still in the cache |
| ImportEndpoint.Merge | aw-server/src/endpoints/import.rs:48-111 | importing into an existing bucket queries the stretch of the events, drops those whose identity it finds and inserts the rest |
| ImportEndpoint.Import | aw-server/src/endpoints/import.rs:41-120 | the loop over the buckets of a file, with its error exits |
| ImportEndpoint.RecognisedIff | aw-server/src/endpoints/import.rs:52-92 | an event is recognised as a duplicate if and only if its identity is stored and it touches the stretch from the first start to the last end |
| ImportEndpoint.ImportAppends | aw-server/src/endpoints/import.rs:41-120 | events without ids: no error, and rows are only added, one per new event, in order |
| ImportEndpoint.ImportIsUnion | aw-server/src/endpoints/import.rs:41-120 | afterwards a bucket holds the identities it held and those imported into it, and no other bucket changed |
| ImportEndpoint.SecondImportIsNoOpIff | aw-server/src/endpoints/import.rs:41-120 | importing a file again changes nothing if and only if every event touches the stretch that its bucket's query asks for |
| ImportEndpoint.SecondImportIsNoOp | aw-server/src/endpoints/import.rs:41-120 | with durations >= 0 the second import changes nothing |
| ImportEndpoint.BackwardEventImportsTwice | aw-server/src/endpoints/import.rs:52-92 | a concrete file whose second import changes the store |
| ImportEndpoint.ImportChangesNothingIff | aw-server/src/endpoints/import.rs:41-120 | importing into an existing bucket, events with or without ids, durations >= 0: nothing changes, ids and cached extent included, if and only if each event is stored with its start, duration and data |
| Seconds.ReadBackLosesAtMostOne | aw-models/src/duration.rs:6-20 | a duration below 2^52 ns that is written as a double number of seconds, multiplied and cut off comes back as it was or one nanosecond shorter |
| Seconds.WholeSecondsSurvive | aw-models/src/duration.rs:6-20 | whole seconds come back exactly |
| Seconds.OnePointOhOhOne | aw-models/src/duration.rs:6-20 | 1.001 s comes back one nanosecond shorter |
| Reimport.ReimportIff | aw-server/src/endpoints/export.rs:11-25 | whatever the file makes of a duration: importing an export into the store it was made from changes nothing, ids and cached extents included, if and only if each row, with its duration as read back, is what some row of its bucket is |
| Reimport.ReadsBackIff | aw-server/src/endpoints/export.rs:11-25 | for rows told apart by start and data that means that each duration comes back as it was |
| Reimport.WholeSecondsReimport | aw-server/src/endpoints/export.rs:11-25 | a store whose events last whole seconds takes its own export without a change |
| Reimport.RoundingCutsEvent | aw-server/src/endpoints/export.rs:11-25 | one heartbeat of 1.001 s, after which importing the export shortens the stored row and leaves the cached end too late |
| Devices.SyncDb.UpsertDevice | aw-sync-rust/src/storage.rs:141-162 | what registering a device writes, and the pairing time and fingerprint it keeps |
| Devices.SyncDb.UpsertDiscovered | aw-sync-rust/src/storage.rs:223-241 | what a discovery writes on a new row and on a known one |
| Devices.SyncDb.TouchSeen | aw-sync-rust/src/storage.rs:274-281 | only the last-seen time and the online flag change, and only for another device |
| Devices.SyncDb.DeleteDevice | aw-sync-rust/src/storage.rs:292-297 | row and secret go, edges stay |
| Devices.SyncDb.MergeDevice | aw-sync-rust/src/storage.rs:369-434 | each check in order with its error, then the four writes of the transaction |
| Devices.SyncDb.ResolveDeviceId | aw-sync-rust/src/storage.rs:345-359 | the loop follows at most eight edges |
| Discovery.RecordPeer | aw-sync-rust/src/discovery.rs:88-132 | arbitration, then either the address or only the last-seen time is written |
| Discovery.RejectedIff | aw-sync-rust/src/discovery.rs:67-83 | an announcement is suppressed exactly if it is a broadcast and the row's mDNS report is less than 45 s old |
| Discovery.AcceptedAtOnce | aw-sync-rust/src/discovery.rs:67-83 | mDNS is always accepted, and so is the first broadcast 45 s later, which closes the window |
| Discovery.WindowHolds | aw-sync-rust/src/discovery.rs:88-106 | within 45 s of an mDNS report no broadcasts, however many, change address, port or window |
| Discovery.AcceptedIff | aw-sync-rust/src/discovery.rs:67-106 | over any run with a clock that does not run back, a broadcast is suppressed if and only if mDNS reported that device less than 45 s before it |
| Discovery.AddressIsLastAccepted | aw-sync-rust/src/storage.rs:223-281 | a device's address is that of its last accepted announcement |
| Discovery.RunKeepsTrust | aw-sync-rust/src/storage.rs:223-241 | no run of announcements changes pairing, alias, the name of a paired device, a secret or an edge, or forgets a device |
| AliasForest.MergeSucceedsIff | aw-sync-rust/src/storage.rs:369-403 | a merge succeeds exactly for two different live devices, neither this one, one of them paired; otherwise nothing changes |
| AliasForest.MergeFacts | aw-sync-rust/src/storage.rs:405-434 | a success lowers the live count by one, adds one edge, drops the old secret, and the surviving row inherits what it lacked and keeps the rest |
| AliasForest.RunKeepsForest | aw-sync-rust/src/storage.rs:369-434 | in every run of announcements, registrations and merges the edges stay acyclic, exactly the merged devices have one, and there is one more per successful merge |
| AliasForest.NoCycle | aw-sync-rust/src/storage.rs:345-359 | in such a forest no edges lead from a device back to itself |
| AliasForest.RootIsLive | aw-sync-rust/src/storage.rs:345-359 | following edges from any known device ends at a live one |
| AliasForest.RootAfterEdge | aw-sync-rust/src/storage.rs:416-421 | a merge moves the whole tree of the one device under the other, and no other tree |
| AliasForest.ResolvesIff | aw-sync-rust/src/storage.rs:345-359 | resolving yields that live device if it is at most eight hops away, and otherwise a merged one |
| AliasForest.NineMergesDoNotResolve | aw-sync-rust/src/storage.rs:345-359 | nine merges in a row, after which the first device resolves to a merged one |
| AliasForest.PairingSurvives | aw-sync-rust/src/storage.rs:423-434 | once paired, a device stays paired as the live device it becomes, in every run of announcements and merges |
| AliasForest.MergedAwayHaveNoSecret | aw-sync-rust/src/storage.rs:409-410 | merged devices have no secret, in every run |
| AliasForest.DeleteKeepsForestIff | aw-sync-rust/src/storage.rs:292-297 | deleting a row keeps the forest if and only if it is not merged and no other was merged into it |
| AliasForest.DeletionMakesACycle | aw-sync-rust/src/storage.rs:292-434 | a deletion, a rediscovery and a merge that close a circle and make a merged device resolve to itself |
| TagPaths.SplitJoin | aw-inbox-rust/src/db.rs:697-706 | a path names its segments: splitting it undoes joining |
| TagPaths.SortedFacts | aw-inbox-rust/src/db.rs:722-748 | sorting paths gives the ascending order of the same paths |
| TagTree.CountTags | aw-inbox-rust/src/db.rs:668-691 | the exact counts: how many live notes carry each trimmed tag, repeats within a note counted once |
| TagTree.Tally | aw-inbox-rust/src/db.rs:693-719 | the inclusive count of every path and the children of each, for tags in any order |
| TagTree.TalliedIsExact | aw-inbox-rust/src/db.rs:675-719 | counted tag by tag, the inclusive counts are those of note and tag pairs, and exactly the tagged paths have one |
| TagTree.GetTagTree | aw-inbox-rust/src/db.rs:667-749 | the recursion ends, and on every level the nodes are in ascending order exactly the paths with a positive count, each with that count |
| TagCounts.TreeIsDetermined | aw-inbox-rust/src/db.rs:721-748 | the notes determine the tree, whatever order the maps are walked in |
| TagCounts.NodesAreTaggedPaths | aw-inbox-rust/src/db.rs:693-748 | a path occurs in the tree once if some live note's tag has it as a segment prefix, and otherwise not at all |
| TagCounts.CountsAddUp | aw-inbox-rust/src/db.rs:693-741 | a node's count is what is tagged with its very path plus its children's counts |
| TagCounts.CountIsNotesIff | aw-inbox-rust/src/db.rs:664-666 | a count equals the number of notes below the path if and only if no note has two different tags there, and is larger otherwise |
| TagCounts.NestedTagsCountTwice | aw-inbox-rust/src/db.rs:664-719 | one note tagged `a` and `a/b` counts twice under `a` |

## Left out

Whole parts of the repository:

- The D1 cloud sync, the HTTP endpoints other than the import, authentication,
  configuration, logging, the query language, classification, and the Android and
  client libraries.
- Encryption, transport, pairing codes, machine fingerprints and the mDNS and UDP
  sockets: announcements arrive as values.
- Note relations and the list table in the todo import, whose ids are not mapped
  between devices; `restore_note` and `restore_todo`; the SQL of exports. A
  device sends its tables as they are.
- `export_activity`, whose column indices do not fit its query; only the import
  is modelled.
- `migrate_hostname`, `migrate_test_bucket_names`, the import of a legacy
  database, schema migrations, the key-value table and the privacy filter.
- `resolve`, which only names what `incoming_newer` decided.

Simplifications:

- Integers are unbounded: the overflow of 64-bit nanoseconds and the panics of
  the unwrapped conversions are not modelled. Pulsetimes are integers; the rounding
  of fractional seconds is modelled for durations in JSON (`Seconds`, up to 2^52 ns),
  and not for pulsetimes.
- JSON, SQL text and the parsing of timestamps (section 5.6 of RFC 3339) are
  abstracted to values, table operations and a partial function to milliseconds.
  Bucket metadata beyond what the code compares is one opaque record.
- The order that SQLite gives rows with equal start times, and the order in which
  hash maps are walked where it matters to nothing proved, are fixed: rows in
  table order, buckets of a file in list order.
- Database errors other than the ones named by an error constructor do not occur;
  a failed commit does. In the worker, a transaction can always be begun, and the
  thread does not panic. SQLite enforces the reference from events to buckets;
  the model does not, which shows only after a rolled-back creation.
- `get_events` without a start hides and clips what lies before 1970. The model
  does the same; the exact results about re-reading ask for later times.
- The stages of a sync round run without other requests in between, and so does
  the import of a file.
- `sync_conflicts`, which repeats the trash entries, and the log tables.
- `last_seen_epoch` is the last-seen time in seconds and is not stored twice;
  RFC 3339 texts of times are compared as times.
- Random uuids for rows without one are assumed filled in before a round.
- HeartbeatCache.RunRefinesUncached: heartbeats out of order, creations and renames
  onto a name under which another event is remembered, deletions of a remembered
  event, and ids that take another bucket's remembered row are excluded; the exact
  conditions are `AppendedBeatCoherentIff`, `CreatedCoherentIff`, `RenamedCoherentIff`
  and `DeletedCoherentIff`. What a rolled-back batch leaves remembered is not examined.
- ImportEndpoint.SecondImportIsNoOpIff: is about events without ids; events with
  ids replace stored rows wherever those are.
- SyncRound.Device.PersistOutcome: inserting a trash entry does not fail, and the
  row that repeats it in `sync_conflicts` is not modelled.
- SyncRound.Device.ApplySnapshot: the activity part of a snapshot is modelled by
  itself, in `ActivityImport`, and does not add to the counters here.
- SyncRound.SyncTo: no activity travels, and only whole tables of notes and todos.
- ActivityImport.ActivityDb.Import: transfer records have no titles.
- Datastore.DatastoreInstance.constructor: the database has the current version.
- Worker.DatastoreWorker.HandleRequest: key-value, count, single-event, migration
  and privacy-filter commands are not modelled.
- Worker.DatastoreWorker.WorkLoop: a transaction that cannot be begun is tried again
  a second later with nothing changed; that wait is not a turn of the model.
- Discovery.RecordPeer: the log entry, and failures of the store, are not modelled.
