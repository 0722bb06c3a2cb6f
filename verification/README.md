# DuckLake: materialized views, deletes, replication and planning

A Dafny model of four independent parts of DuckLake, the lakehouse extension for DuckDB, and proofs
of what each part is for.  `dafny verify dfyconfig.toml` checks everything.

**Materialized views.**  A refresh rewrites a stored `GROUP BY` result from the change feed instead
of recomputing it.  The emitted queries are modelled by their meaning over row multisets, with
NULL-safe keys, NULL-skipping aggregates and AVG as an exact quotient.  The delta form, the
changed-key form and the join form are each proved equal to the full aggregate, for every change
feed with `old + inserted = new + deleted`; two state machines over base commits and refresh
transactions, for one table and for a fact table joined with a dimension, then show that the choice
between the forms is right over every run, and exactly where it is not.

* `Tables`, `ViewDefinition`: rows as multisets, the query a view stores.
* `DeltaRefresh`, `KeyedRefresh`: the refresh forms. `RefreshRuns`, `MaterializedView`: whole runs,
  and the refresh operator as a class. `JoinRuns`: whole runs of a join view. `RefreshLimits`: where
  the hypotheses are needed.

**Deletes.**  Deletion vectors follow the `deletion-vector-v1` blob type of the Apache Iceberg
Puffin specification; their checksum is the CRC of section 8 of RFC 1952.  The byte reader and
writer work on arrays and are proved against a sequence-level format.  The chunked filter walks a
sorted list with one pointer; the exact class of lists on which that walk is right is proved.

* `ShiftRegister`, `Bits`, `Crc32` (one file), `ChecksumValues`, `DeletionVector`, `BlobBytes`,
  `DeletionVectorIO`, `OrderedSets`, `CumulativeDeletes`, `DeleteFilterSpec`, `ChangeFeed`, `DeleteFilters`.

**Replication.**  Catching one table up by snapshot changes, primary-key merge, watermark or full
copy, with the data commit and the saved cursor as separate steps; the claims by which jobs share a
destination; the wildcard matcher.

* `ReplicaApply`, `ReplicaReplay`, `ReplicaTable`, `ReplicationRuns`, `TableOwnership`, `GlobMatch`.

**Planning and trees.**  Greedy compaction runs, decoding a preorder schema listing into heap
columns, memoised reachability over parent chains, order-insensitive name maps and their hashed set.

* `CompactionRuns`, `Compaction`, `SchemaListing`, `SchemaTree`, `SchemaReachability`, `NameMap`,
  `NameMapSet`.

## Where the code does less than one might expect

Each of these is stated as an exact condition; where there is a lemma with a concrete failing input, it
is named as well.

* The matcher tests literal equality before `*`, so a text that itself contains `*` is matched wrongly
  by some pattern (`GlobMatch.GlobExactlyWhen`).
* Deletes of a single snapshot are written as a bare vector and come back without their snapshot; only
  the catalog's begin snapshot still tells it (`CumulativeDeletes.WriteThenScan`,
  `CumulativeDeletes.LoneSnapshotIsScanned`).
* A row deleted both in the delete file and inlined hides every deleted row beyond it from a chunk that
  starts at or before it (`DeleteFilterSpec.WithInlinedFindable`, `DeleteFilterSpec.DoubleDeleteHides`).
* The size field of a blob is not covered by the checksum: exactly the values from the body's size on
  are accepted (`DeletionVector.ResizedExactlyWhen`).
* The writer cuts the body's size to 32 bits without a test: a blob of a larger body is written and can
  never be read back (`DeletionVector.WrittenExactlyWhen`).
* The join form looks only at committed dimension changes and at uncommitted fact changes.  In a
  transaction that changed the dimension itself it is right exactly when that changes no group it
  does not recompute (`KeyedRefresh.JoinRefreshExactlyWhen`); for added rows, and for deleted rows,
  exactly when all their pairs fall into recomputed groups (`KeyedRefresh.JoinRefreshWithLocalDims`,
  `KeyedRefresh.JoinRefreshWithRemovedDims`; concretely `RefreshLimits.JoinRefreshMissesLocalDim`,
  `RefreshLimits.JoinRefreshKeepsRemovedDim`).  The next refresh puts it right
  (`JoinRuns.NextRefreshRecomputes`).
* Two delta refreshes in one transaction apply the same window twice; the rows stay right exactly when
  the window cancels out in every group that is not rebuilt (`RefreshLimits.SecondDeltaRefresh`,
  `RefreshLimits.SecondDeltaRefreshCountsTwice`).
* The delta form is refused at bind time when a select-list position is grouped twice
  (`DeltaRefresh.FilledSelectList`).
* An emptied source has no maximum watermark, and its stale copy stays until the next cycle
  (`ReplicationRuns.WatermarkCycleExactlyWhen`, `ReplicationRuns.StaleCopyStays`).
* A snapshot cycle that finds no change leaves the copy alone, whatever it holds
  (`ReplicationRuns.SnapshotCycleExactlyWhen`).
* A replay does not follow a row that moves from one row id to another, and the copy is reseeded
  (`ReplicaReplay.ExplainsExactlyWhen`).
* A merge removes no surplus copies of a row (`ReplicaApply.MergeExactlyWhen`,
  `ReplicaApply.MergeKeepsSurplus`).
* When jobs are dropped at any time, a table gets two owners exactly when a cycle saves its state while
  another job has a row for the table, which the upsert does not test
  (`TableOwnership.OneOwnerExactlyWhen`, `TableOwnership.DropDuringCycleBreaks`).
* A schema listing that is cut short is accepted, and so is a row after a root without children, whose
  count wraps around (`SchemaListing.CutListingAccepted`, `SchemaListing.ExtraRowRefused`).
* An empty file ends a compaction run that a later file would bring closer to the target
  (`CompactionRuns.ClosestExactlyWhen`, `CompactionRuns.EmptyFileStopsRun`).
* Removing a name map that stands for others loses them from the lookup
  (`NameMapSet.MappingSet.Remove`, `NameMapSet.TwinIsLost`).

## Model

| member | source | states |
|---|---|---|
| ViewDefinition.IsViewUnique | src/functions/ducklake_materialized_view.cpp:2029-2037 | Two stored tables that both hold the query over one base are the same rows: the stored result is determined, so "equals recompute" is well defined. |
| ViewDefinition.ExtremaMean | src/functions/ducklake_materialized_view.cpp:1324-1335 | MIN is v if and only if v is an argument of some row and no argument is smaller, MAX likewise with larger; either is NULL if and only if every argument is. |
| ViewDefinition.CountMeans | src/functions/ducklake_materialized_view.cpp:1303-1313 | COUNT(*) is the number of rows and COUNT(arg) the number of rows whose argument is not NULL. |
| ViewDefinition.SumMeans | src/functions/ducklake_materialized_view.cpp:1299-1327 | SUM is additive over rows, of one row its argument, and NULL exactly without arguments. |
| ViewDefinition.AvgMeans | src/functions/ducklake_materialized_view.cpp:1314-1318 | AVG times COUNT is SUM, and AVG is NULL exactly without arguments. |
| ViewDefinition.ViewMeans | src/functions/ducklake_materialized_view.cpp:2029-2037 | A stored view has exactly one row for the key of every base row that passes WHERE, holding its key values and the aggregates over all rows of that key. |
| ViewDefinition.ViewRowsAreGroups | src/functions/ducklake_materialized_view.cpp:2029-2037 | Every stored row belongs to the key of some base row that passes WHERE. |
| DeltaRefresh.FilledSelectList | src/functions/ducklake_materialized_view.cpp:1368-1392 | When aggregates and key positions add up to the select list, every non-aggregate column is a key if and only if no key position is repeated; otherwise the delta builder runs out of aggregates and throws. |
| DeltaRefresh.ExtremumSurvives | src/functions/ducklake_materialized_view.cpp:1287-1338 | If no deleted value ties or beats the stored extremum unless an inserted one beats it, the better of stored and inserted is the new MIN or MAX of the group, NULLs included. |
| DeltaRefresh.UnsafeExactlyWhen | src/functions/ducklake_materialized_view.cpp:1340-1506 | A deleted row makes its group be rebuilt if and only if its argument is NULL in a group without arguments, is the stored MIN or MAX, or is one no old and no inserted argument goes beyond. |
| DeltaRefresh.EligibleExactlyWhen | src/functions/ducklake_materialized_view.cpp:585-612 | The delta form is eligible if and only if all aggregates are plain, one is COUNT(*), every SUM has a COUNT of its argument and every AVG a COUNT and a SUM. |
| DeltaRefresh.DeltaRefreshIsRecompute | src/functions/ducklake_materialized_view.cpp:1340-1506 | Kept, updated and rebuilt rows together are exactly the aggregate of the new base, for any eligible mix of COUNT, SUM, AVG, MIN and MAX, any change feed, NULL keys, vanished and new groups. |
| KeyedRefresh.KeyedRefreshExactlyWhen | src/functions/ducklake_materialized_view.cpp:1651-1704 | A changed-key refresh is the query over the new base if and only if the stored rows agree with the new base on every key outside the change window. |
| KeyedRefresh.AgreementAdvances | src/functions/ducklake_materialized_view.cpp:2006-2021 | Rows that agree with one base outside a window agree with the next base outside the window widened by that step's inserted and deleted keys, so a refresh whose own transaction wrote the base stays repairable. |
| KeyedRefresh.JoinCounts | src/functions/ducklake_materialized_view.cpp:1743-1790 | A pair occurs in the join as often as its fact times as often as its dimension row, if they match, and else not at all. |
| KeyedRefresh.JoinRefreshIsRecompute | src/functions/ducklake_materialized_view.cpp:1743-1790 | Refreshing from fact-side changes alone equals recomputing the aggregate over the whole join when the dimension is unchanged, for any multiplicities and keys from either side. |
| KeyedRefresh.JoinRefreshExactlyWhen | src/functions/ducklake_materialized_view.cpp:1959-1989 | Whatever the refreshing transaction did to the dimension, the join refresh is right if and only if the dimension at the cursor and the one it sees give the same row for every group the fact-side window does not recompute. |
| KeyedRefresh.JoinRefreshWithLocalDims | src/functions/ducklake_materialized_view.cpp:1959-1989 | With uncommitted added dimension rows the join refresh is right if and only if every pair they add falls into a group the refresh recomputes. |
| KeyedRefresh.JoinRefreshWithRemovedDims | src/functions/ducklake_materialized_view.cpp:1959-1989 | With uncommitted deleted dimension rows it is right if and only if every pair they formed with a fact at the cursor falls into a recomputed group. |
| KeyedRefresh.JoinRefreshWithReplacedDims | src/functions/ducklake_materialized_view.cpp:1959-1989 | With dimension rows deleted and added together it is right if the pairs of both fall into recomputed groups. |
| KeyedRefresh.ReplacedDimsKeepSizes | src/functions/ducklake_materialized_view.cpp:1959-1989 | Where it is right, every group it does not recompute lost as many pairs with the deleted rows as it gained with the added ones. |
| RefreshRuns.FeedBalances | src/functions/ducklake_materialized_view.cpp:1276-1282 | The concatenated changes of a snapshot window balance the base at its ends: old plus inserted is new plus deleted. |
| RefreshRuns.FeedMeans | src/functions/ducklake_materialized_view.cpp:1276-1282 | The feed of a window holds exactly the rows that commits after its start and up to its end inserted, and those they deleted. |
| RefreshRuns.FeedSizes | src/functions/ducklake_materialized_view.cpp:1276-1282 | Feeds of adjacent windows add up, down to the changes of one commit. |
| RefreshRuns.ModeExactlyWhen | src/functions/ducklake_materialized_view.cpp:1880-2037 | Skipped if and only if IF STALE and nothing committed or local touched the base; full if and only if a plain refresh meets an unchanged base or a repaired table, or a changed one an ineligible or unfilled view or own writes; delta, incremental and failed exactly in their remaining cases. |
| RefreshRuns.UntouchedGroupsMatch | src/functions/ducklake_materialized_view.cpp:1892-1901 | At every snapshot since the last refresh, groups no commit has touched since the cursor equal the current base's groups. |
| RefreshRuns.RefreshIsExact | src/functions/ducklake_materialized_view.cpp:1892-2037 | Whichever mode is chosen, skip, delta, incremental or full, the stored rows after the refresh are the query over the base its transaction saw. |
| RefreshRuns.StepKeepsInv | src/functions/ducklake_materialized_view.cpp:818-832 | Every base commit and every refresh commit, also with other commits in between, keeps the invariant tying stored rows, cursor and own-writes flag to the base. |
| RefreshRuns.EveryRunIsExact | src/functions/ducklake_materialized_view.cpp:1892-2037 | After every event of every run from an unfilled view: refreshes are exact, untouched groups match the current base, and a clear own-writes flag means the rows are the query at the cursor. |
| JoinRuns.JoinModeExactlyWhen | src/functions/ducklake_materialized_view.cpp:1880-1989 | A join view is refreshed from the fact side if and only if it is eligible and filled, commits touched the fact table and none the dimension, the transaction did not write the fact table, and no full refresh is forced; skipped if and only if IF STALE and nothing changed; else recomputed. |
| JoinRuns.JoinStepKeepsInv | src/functions/ducklake_materialized_view.cpp:1880-1989 | Every commit to either table and every refresh commit, exact or not, keeps the invariant: while no commit since the cursor touched the dimension, the stored rows are a single-table view over the joined rows. |
| JoinRuns.EveryJoinRunIsExact | src/functions/ducklake_materialized_view.cpp:1880-1989 | In every run of commits to both tables and refreshes of a join view from an unfilled one, every refresh leaves the query over the join its transaction saw, except a join refresh in a transaction that changed the dimension itself. |
| JoinRuns.LocalDimsExactlyWhen | src/functions/ducklake_materialized_view.cpp:1959-1989 | That exception, on rows that are the query at the cursor, is right if and only if the two dimensions give the same row for every group it does not recompute. |
| JoinRuns.NextRefreshRecomputes | src/functions/ducklake_materialized_view.cpp:1959-1989 | After it the next refresh, whatever commits come in between, recomputes the whole view: the transaction's own commit is a dimension change in its window. |
| RefreshLimits.SecondDeltaRefresh | src/functions/ducklake_materialized_view.cpp:1991-2017 | For every view the delta form maintains, a second delta refresh over the same window is right if and only if in each group that is not rebuilt the window inserts as many rows as it deletes and, where the group is live, leaves every COUNT and every non-NULL SUM as it is; AVG, MIN and MAX add no condition. |
| RefreshLimits.InsertsCountTwice | src/functions/ducklake_materialized_view.cpp:1991-2017 | In a window of inserts only the first delta refresh is right and a second one wrong as soon as one inserted row passes WHERE. |
| RefreshLimits.SecondDeltaRefreshCountsTwice | src/functions/ducklake_materialized_view.cpp:1991-2017 | A concrete view on which two delta refreshes in one transaction count the inserted row twice. |
| RefreshLimits.JoinRefreshMissesLocalDim | src/functions/ducklake_materialized_view.cpp:1959-1989 | A concrete join on which an uncommitted dimension row passes the gate and is missing from the refreshed rows. |
| RefreshLimits.JoinRefreshKeepsRemovedDim | src/functions/ducklake_materialized_view.cpp:1959-1989 | A concrete join on which the group of an uncommitted deleted dimension row stays in the refreshed rows. |
| MaterializedView.RefreshedView.DependenciesChanged | src/storage/ducklake_catalog.cpp:1787-1825 | True exactly when some commit after the first and up to the second snapshot touched the base. |
| MaterializedView.RefreshedView.ChooseMode | src/functions/ducklake_materialized_view.cpp:1880-2037 | The bind-time branches choose exactly the mode whose conditions `RefreshRuns.ModeExactlyWhen` states. |
| MaterializedView.RefreshedView.Finalize | src/functions/ducklake_materialized_view.cpp:818-832 | Committing a refresh leaves the query over the base its transaction saw, stamps cursor and own-writes flag, keeps the invariant, and changes nothing when skipped. |
| GlobMatch.GlobMatch | src/replication/ducklake_replication.cpp:106-131 | The loop terminates and computes its meaning as a recursive search. |
| GlobMatch.StarMatches | src/replication/ducklake_replication.cpp:112-118 | A star matches if and only if the rest of the pattern matches some rest of the text. |
| GlobMatch.StarFreeExactlyWhen | src/replication/ducklake_replication.cpp:112-114 | A pattern without stars matches exactly the texts of its length that agree with it wherever it has no question mark. |
| GlobMatch.LastStarSuffices | src/replication/ducklake_replication.cpp:115-122 | Giving up all earlier stars for the last one loses no match. |
| GlobMatch.AnswerIsMatch | src/replication/ducklake_replication.cpp:106-131 | For text without `*` the loop's answer is the wildcard definition, for every pattern. |
| GlobMatch.GlobExactlyWhen | src/replication/ducklake_replication.cpp:112-118 | The loop agrees with the wildcard definition on every pattern if and only if the text contains no `*`. |
| Crc32.MakeTable | src/storage/ducklake_deletion_vector.cpp:28-40 | Every table entry is eight steps of the bit-by-bit register from its index. |
| Crc32.TableStep | src/storage/ducklake_deletion_vector.cpp:18-24 | One table step equals feeding the byte's eight bits to the reflected register, least significant first. |
| Crc32.Crc.Update | src/storage/ducklake_deletion_vector.cpp:18-24 | The table-driven checksum equals the bit-by-bit reference on every message and start value. |
| ChecksumValues.CheckValue | src/storage/ducklake_deletion_vector.cpp:18-43 | The checksum of the nine bytes of "123456789" is 0xCBF43926. |
| ChecksumValues.ResidueIsConstant | src/storage/ducklake_deletion_vector.cpp:18-43 | For every message, feeding it and then the four bytes of its checksum, lowest first, leaves the register at 0xDEBB20E3. |
| Crc32.ByteStepInjective | src/storage/ducklake_deletion_vector.cpp:18-24 | A byte step loses nothing: from equal results equal registers follow for one byte, and equal bytes for one register. |
| Crc32.SingleByteDetected | src/storage/ducklake_deletion_vector.cpp:18-43 | Two messages that differ in exactly one byte have different checksums. |
| DeletionVector.RejoinSplit | src/storage/ducklake_deletion_vector.cpp:143-226 | Splitting any 64-bit position into a signed high word and a low word and rejoining them gives the position back, negative high words included. |
| BlobBytes.SplitMeans | src/storage/ducklake_deletion_vector.cpp:147-151 | A position is its high word in two's complement times 2^32 plus its low word; the high word is negative exactly from 2^63 on. |
| DeletionVector.PositionsOfGrouped | src/storage/ducklake_deletion_vector.cpp:143-226 | Grouping positions by high word and listing them again is the identity on every set of 64-bit positions. |
| DeletionVector.BlobRoundTrip | src/storage/ducklake_deletion_vector.cpp:50-141 | Decoding any blob of a set, its bitmaps in any order, passes every size, magic and checksum test, leaves no bytes over and yields the grouped set. |
| BlobBytes.FrameBytes | src/storage/ducklake_deletion_vector.cpp:163-200 | The bytes of a blob: body size highest byte first, 0xD1 0xD3 0x39 0x64, bitmap count lowest byte first, bitmaps, checksum of all but the size highest byte first. |
| BlobBytes.SectionBytes | src/storage/ducklake_deletion_vector.cpp:183-192 | A bitmap is preceded by its high word in two's complement, lowest byte first. |
| BlobBytes.HeaderErrors | src/storage/ducklake_deletion_vector.cpp:50-92 | Which error each failed test of the header gives, in terms of the bytes. |
| BlobBytes.TrailingRefused | src/storage/ducklake_deletion_vector.cpp:120-131 | A written blob with any bytes after it is refused as having trailing bytes. |
| BlobBytes.CutRefused | src/storage/ducklake_deletion_vector.cpp:50-141 | A written blob cut short anywhere is refused. |
| DeletionVector.ResizedExactlyWhen | src/storage/ducklake_deletion_vector.cpp:56-113 | A written blob with another size field decodes, to the same bitmaps, if and only if the field declares at least the body's size. |
| DeletionVector.WrittenExactlyWhen | src/storage/ducklake_deletion_vector.cpp:152-175 | What is written for a set of positions can be read back if and only if its body is smaller than 2^32 bytes. |
| DeletionVector.OneByteRejected | src/storage/ducklake_deletion_vector.cpp:120-139 | A blob that differs from a written one in a single byte of the checksummed region or of the checksum is never decoded. |
| DeletionVectorIO.ToBlob | src/storage/ducklake_deletion_vector.cpp:143-201 | Writing through an advancing pointer fills exactly the format's bytes for the set; the size field is the body's size cut to 32 bits, so the result decodes if and only if the body fits. |
| DeletionVectorIO.FromBlob | src/storage/ducklake_deletion_vector.cpp:50-141 | Reading through an advancing pointer equals the format's decoder on every byte array, errors included. |
| DeletionVectorIO.ToSet | src/storage/ducklake_deletion_vector.cpp:212-226 | Expanding the bitmaps yields exactly the rejoined positions. |
| CumulativeDeletes.Deltas | src/storage/ducklake_delete.cpp:205-209 | One entry per snapshot, holding the positions deleted at exactly that snapshot. |
| CumulativeDeletes.Cumulate | src/storage/ducklake_delete.cpp:210-226 | The vector of each snapshot, in snapshot order, holds the positions deleted at or before it. |
| CumulativeDeletes.WriteWithSnapshots | src/storage/ducklake_delete.cpp:202-232 | A lone snapshot is written bare, several as one cumulative vector each; the begin snapshot is the earliest. |
| CumulativeDeletes.FirstSnapshots | src/storage/ducklake_delete_filter.cpp:169-181 | Scanning vectors in snapshot order up to the bound records for each position the first snapshot that holds it. |
| CumulativeDeletes.ScanFile | src/storage/ducklake_delete_filter.cpp:122-192 | An empty file and a mix of vectors with and without snapshot are errors; vectors without snapshots give their union in order, those with snapshots each position in order with its first snapshot, within the bounds. |
| CumulativeDeletes.FirstHolderIsEarliest | src/storage/ducklake_delete.cpp:211-217 | In cumulative vectors the first one holding a position belongs to the position's earliest deletion. |
| CumulativeDeletes.ScanReturnsExactlyWhen | src/storage/ducklake_delete_filter.cpp:169-192 | Of given vectors a position is returned if and only if some vector with snapshot <= the upper bound holds it and none with snapshot < the lower bound does. |
| CumulativeDeletes.WriteThenScan | src/storage/ducklake_delete_filter.cpp:122-192 | Writing deletes and scanning with any bounds returns exactly the positions whose earliest snapshot is within them if and only if the deletes span at least two snapshots: those deleted at or before the upper bound and never before the lower one; a lone snapshot survives only as the begin snapshot. |
| DeleteFilterSpec.WalkExactlyWhen | src/storage/ducklake_delete_filter.cpp:63-95 | The one-pointer walk keeps exactly the undeleted rows of every chunk if and only if each effective entry's row is led by an effective entry and preceded by no repeated row. |
| DeleteFilterSpec.FindableWithoutSnapshots | src/storage/ducklake_delete_filter.cpp:63-95 | For sorted rows without snapshots that means: only the largest row may be repeated. |
| DeleteFilterSpec.ChunksKeepUndeleted | src/storage/ducklake_delete_filter.cpp:109-120 | However a file is cut into consecutive chunks, reading keeps exactly the rows below the row cap that are not deleted, once each and in order. |
| DeleteFilterSpec.ReadExactlyWhen | src/storage/ducklake_delete_filter.cpp:63-120 | A row is read if and only if it is in the file, below the cap, and no entry deletes it at a snapshot <= the filter's. |
| DeleteFilterSpec.WithInlinedDeletes | src/storage/ducklake_delete_filter.cpp:342-382 | After the merge a row is deleted if and only if the file deletes it at or before the snapshot filter or it is inlined. |
| DeleteFilterSpec.WithInlinedFindable | src/storage/ducklake_delete_filter.cpp:342-382 | The merged list filters every chunk rightly if and only if no row beyond a row deleted on both sides is deleted. |
| DeleteFilters.DeleteFilter.FilterRows | src/storage/ducklake_delete_filter.cpp:63-95 | The selection written, or the untouched one on the two early exits, is exactly what the walk keeps. |
| DeleteFilters.Walk | src/storage/ducklake_delete_filter.cpp:76-94 | The loop writes the offsets of the kept rows in order and nothing else. |
| DeleteFilters.DeleteFilter.Filter | src/storage/ducklake_delete_filter.cpp:109-120 | The row cap cuts the chunk before filtering; nothing is selected at or past it. |
| DeleteFilters.DeleteFilter.AddInlined | src/storage/ducklake_delete_filter.cpp:342-382 | Both merge paths keep the rows sorted and each row with its own snapshot, inlined ones with snapshot 0. |
| DeleteFilters.MergeWithSnapshots | src/storage/ducklake_delete_filter.cpp:356-381 | The two-pointer merge of rows and snapshots is the merge of the paired entries, inlined first on a tie. |
| ChangeFeed.NewlyDeletedExactlyWhen | src/storage/ducklake_delete_filter.cpp:458-535 | Newly deleted is a row the window's delete file lists, any row of a file dropped without one and without inlined deletes, or an inlined delete, unless the earlier delete file lists it and the current one carries no snapshots. |
| ChangeFeed.DeletionSnapshotsMean | src/storage/ducklake_delete_filter.cpp:458-535 | The snapshot reported is an inlined delete's own, else the one the delete file lists last for the row, else the one that dropped the file. |
| ChangeFeed.FeedEmitsNewlyDeleted | src/storage/ducklake_delete_filter.cpp:458-535 | A filter listing the rows that are not newly deleted emits, over any chunks covering the file, exactly the newly deleted rows, once each and in order. |
| DeleteFilters.EmitFeed | src/storage/ducklake_delete_filter.cpp:458-535 | From a scan entry to the rows read through its filter in any chunks: fails exactly when a delete file names a row out of range, else reports exactly the newly deleted rows, once each and in order. |
| DeleteFilters.DeleteFilter.InitializeFeed | src/storage/ducklake_delete_filter.cpp:458-535 | Fails exactly when a delete file names a row out of range; otherwise the list is the complement of window deletes plus inlined ones minus earlier ones (or of a dropped file), and every known deletion snapshot can be looked up by row or row id. |
| ReplicaApply.MergeExactlyWhen | src/replication/ducklake_replication.cpp:348-382 | With unique source keys the two deletes and the insert make the tables equal if and only if the destination held no source row more than once. |
| ReplicaApply.WindowExactlyWhen | src/replication/ducklake_replication.cpp:864-877 | Replaying from the saved watermark to the maximum makes the tables equal if and only if they agreed below the saved watermark. |
| ReplicaApply.WindowMeans | src/replication/ducklake_replication.cpp:864-877 | For any bounds and with NULL watermarks: rows from the lower bound on come from the source up to the upper one, all others stay as they were. |
| ReplicaReplay.ReplayCatchesUp | src/replication/ducklake_replication.cpp:423-447 | For sources without duplicate rows and snapshots that report no row as deleted which they leave in the table (an update exchanging values between rows does so), replaying the changes since the cursor onto any state the source had since then ends at the newest state; on other snapshots the comparison that follows reseeds. |
| ReplicaReplay.ExplainsExactlyWhen | src/replication/ducklake_replication.cpp:384-447 | The change feed between two versions of a table, no-op updates included, satisfies that hypothesis if and only if no row moves from one row id to another. |
| ReplicaTable.Replica.ApplyPkMerge | src/replication/ducklake_replication.cpp:348-382 | The statements in order compute the merge, with and without non-key columns. |
| ReplicaTable.Replica.ApplyWatermarkDelta | src/replication/ducklake_replication.cpp:864-877 | Delete from the lower bound on, then copy the window, or only copy without a lower bound. |
| ReplicaTable.Replica.ApplySnapshotDelta | src/replication/ducklake_replication.cpp:390-464 | The replay is kept if the two-way difference with the source is empty and replaced by the source otherwise; an empty delta compares nothing. |
| ReplicaTable.DeltaAppliedIsSource | src/replication/ducklake_replication.cpp:448-463 | A non-empty delta always leaves the source's rows, whatever the destination held before. |
| ReplicationRuns.SyncTable | src/replication/ducklake_replication.cpp:1397-1504 | One cycle's data transaction on the table object equals the model's cycle: reseed rules, NULL watermark failure without a change, the chosen strategy, the cursor to save. |
| ReplicationRuns.SyncedExactlyWhen | src/replication/ducklake_replication.cpp:1413-1420 | A cycle fails if and only if it runs by watermark and some source row's watermark is NULL. |
| ReplicationRuns.ReseedsExactlyWhen | src/replication/ducklake_replication.cpp:1413-1463 | The destination is copied anew if and only if it is missing, no cursor of this strategy and incarnation is saved, the saved watermark exceeds all of a source that has some, or the saved snapshot has expired. |
| ReplicationRuns.NextCursorMeans | src/replication/ducklake_replication.cpp:1387-1411 | A cycle saves the largest watermark in the source, attained, under the watermark strategy, the newest snapshot of a lake source, and the source's identity. |
| ReplicationRuns.FirstCycleCopies | src/replication/ducklake_replication.cpp:1464-1486 | The first cycle after a claim leaves the source's rows in the destination, under every strategy. |
| ReplicationRuns.CycleIsExact | src/replication/ducklake_replication.cpp:1413-1526 | From every state the invariant allows, a cycle fails exactly on a NULL watermark and else leaves the destination equal to the source at its read point. |
| ReplicationRuns.StepKeepsInv | src/replication/ducklake_replication.cpp:1413-1526 | Source commits and recreation, snapshot expiry, claims, cycles with and without a saved cursor, and drops keep: the destination is some source version not older than the saved cursor. |
| ReplicationRuns.EveryCycleIsExact | src/replication/ducklake_replication.cpp:1413-1526 | After any run, with crashes between data commit and cursor, the next cycle leaves the source's rows in the destination, for all four strategies, or changes nothing when a watermark is NULL. |
| ReplicationRuns.WatermarkCycleExactlyWhen | src/replication/ducklake_replication.cpp:1394-1493 | With no contract on the source, a watermark cycle that does not reseed is exact if and only if the rows below the cursor agree, or, for an emptied source, the destination was empty. |
| ReplicationRuns.MergeCycleExactlyWhen | src/replication/ducklake_replication.cpp:1490-1492 | With unique source keys, a merge cycle that does not reseed is exact if and only if the destination held no source row more than once. |
| ReplicationRuns.SnapshotCycleExactlyWhen | src/replication/ducklake_replication.cpp:1493-1503 | A snapshot cycle that does not reseed is exact if and only if it finds a change at a later snapshot or the copy was equal already; without changes the copy is left alone. |
| TableOwnership.StateTable.Claim | src/replication/ducklake_replication.cpp:1238-1265 | A claim inserts exactly when no other job has a row for the table, and so never gives it a second owner. |
| TableOwnership.StateTable.MarkError | src/replication/ducklake_replication.cpp:514-532 | An error creates the job's row only where no other job has one, and so never gives the table a second owner. |
| TableOwnership.StateTable.Upsert | src/replication/ducklake_replication.cpp:488-512 | Saving a table's state gives it a second owner if and only if another job has a row for it. |
| TableOwnership.StateTable.Execute | src/replication/ducklake_replication.cpp:1201-1267 | The statements sent for a step change the state table as the run model says, and keep single owners if and only if the step does not overwrite another job's table. |
| TableOwnership.RowsAfter | src/replication/ducklake_replication.cpp:1165-1267 | Which rows the state table holds after each step: other jobs' rows always stay; the row of a dropped table and all rows of a dropped job are gone; errors and claims add a row only where no other job has one; a saved state always does. |
| TableOwnership.CycleAfter | src/replication/ducklake_replication.cpp:1165-1267 | When each step can be taken and how far the cycle is after it: a table is managed only when no other job has it, and saved only after the job record was seen again. |
| TableOwnership.StepKeepsInv | src/replication/ducklake_replication.cpp:1201-1267 | Every statement of every job, drops between its cycles included, keeps the tables apart and the rows a running cycle relies on in place. |
| TableOwnership.EveryRunHasOneOwner | src/replication/ducklake_replication.cpp:1201-1267 | However any number of jobs interleave their cycles, no destination table ever has two owners when jobs are dropped only between their own cycles. |
| TableOwnership.StepExactlyWhen | src/replication/ducklake_replication.cpp:1201-1267 | Of all the statements only the saving upsert can give a table a second owner, exactly when another job has a row for it. |
| TableOwnership.OneOwnerExactlyWhen | src/replication/ducklake_replication.cpp:703-715 | In every run with drops at any time, tables have one owner after every prefix if and only if no cycle saves its state while another job has a row for the table. |
| TableOwnership.DropDuringCycleBreaks | src/replication/ducklake_replication.cpp:1522-1526 | A concrete run from the empty state table in which a job dropped in its cycle saves its state over the job that claimed the freed table. |
| SchemaListing.RunForest | src/functions/ducklake_add_data_files.cpp:414-482 | Reading the preorder listing of any forest under an open column creates exactly its columns, each under its own parent, leaves numbered left to right, and leaves the stacks as before it less its siblings. |
| SchemaListing.ListingRebuilds | src/functions/ducklake_add_data_files.cpp:414-482 | A file's listing decodes without error to exactly its forest. |
| SchemaListing.ColumnsAreRows | src/functions/ducklake_add_data_files.cpp:414-482 | The columns come in the order of the rows with their payloads, and exactly those of rows without children have a leaf number. |
| SchemaListing.LeavesNumbered | src/functions/ducklake_add_data_files.cpp:414-482 | Leaves are numbered without gaps in the order of the listing. |
| SchemaListing.CutListingAccepted | src/functions/ducklake_add_data_files.cpp:414-482 | Every prefix of a listing decodes without error. |
| SchemaListing.ExtraRowRefused | src/functions/ducklake_add_data_files.cpp:414-482 | One row too many is refused if and only if the file has columns; otherwise the root's count wraps around. |
| SchemaTree.ReadRow | src/functions/ducklake_add_data_files.cpp:414-482 | One row creates one heap column, appends it to its parent in place and updates both stacks as the decoder model says. |
| SchemaTree.HoldsRepresents | src/functions/ducklake_add_data_files.cpp:753-810 | Heap columns holding a forest's created columns and child lists represent that forest. |
| SchemaTree.Decode | src/functions/ducklake_add_data_files.cpp:753-810 | The loop fails exactly when counts run out before the rows, and on the listing of any forest the heap columns are that forest with its leaves numbered from 0. |
| SchemaReachability.FatesExclude | src/storage/ducklake_catalog.cpp:776-820 | A chain that reaches the top, one with a missing ancestor and a cyclic one exclude each other. |
| SchemaReachability.FateExactlyWhen | src/storage/ducklake_catalog.cpp:783-808 | A schema has a missing ancestor if and only if its parent is missing or has one, and reaches the top if and only if it is a root or its parent does. |
| SchemaReachability.WalkUp | src/storage/ducklake_catalog.cpp:783-808 | Walking one chain with the memo sets settles every schema on it correctly or finds a loop. |
| SchemaReachability.FindUnreachableSchemas | src/storage/ducklake_catalog.cpp:776-820 | Terminates; reports a cycle if and only if some chain is cyclic, naming a schema on a loop; otherwise returns exactly the schemas with a missing ancestor. |
| SchemaReachability.OrderIrrelevant | src/storage/ducklake_catalog.cpp:776-820 | Inputs with the same schemas in any order have the same index, hence the same verdict and, without a cycle, the same set; which schema a cycle error names may differ. |
| CompactionRuns.RunEnd | src/functions/ducklake_compaction_functions.cpp:376-395 | The inner loop ends at the first file that would not bring a non-empty run closer to the target. |
| CompactionRuns.DistanceIsDifference | src/functions/ducklake_compaction_functions.cpp:376-395 | The distance is the absolute difference to the target. |
| CompactionRuns.RunBelowTwiceTarget | src/functions/ducklake_compaction_functions.cpp:376-395 | Runs of files below the target stay below twice the target. |
| CompactionRuns.ClosestExactlyWhen | src/functions/ducklake_compaction_functions.cpp:376-395 | A run is the prefix of the remaining files closest to the target if and only if the next non-empty file would not bring it closer. |
| CompactionRuns.PositiveSizesClosest | src/functions/ducklake_compaction_functions.cpp:376-395 | With no empty files every run is the closest prefix. |
| CompactionRuns.EmptyFileStopsRun | src/functions/ducklake_compaction_functions.cpp:376-395 | Concrete sizes on which an empty file ends a run too early. |
| Compaction.MembersAre | src/functions/ducklake_compaction_functions.cpp:337-362 | A group's candidates are exactly its eligible files, in ascending order. |
| Compaction.SameGroupExactlyWhen | src/functions/ducklake_compaction_functions.cpp:352-361 | Two files share a group if and only if partition and partition values agree and their schema versions agree or both merge into the latest. |
| Compaction.CandidatesExactlyWhen | src/functions/ducklake_compaction_functions.cpp:337-362 | A group's candidates are exactly its files below the target size, without deletes and still current. |
| Compaction.GroupFiles | src/functions/ducklake_compaction_functions.cpp:337-362 | One pass splits the files into the candidates of each group, equal under schema compatibility, partition and partition values. |
| Compaction.PlanGroup | src/functions/ducklake_compaction_functions.cpp:375-418 | A group is cut into consecutive runs until it or the budget is used up; runs of one file spend budget without a command. |
| Compaction.GenerateCompactions | src/functions/ducklake_compaction_functions.cpp:364-423 | The commands are those of a plan over distinct groups within the budget; with budget left every mergeable group is cut to its end. |
| Compaction.CommandsAreSound | src/functions/ducklake_compaction_functions.cpp:364-423 | At most the maximum number of commands, no file in two of them, each a contiguous run of at least two files of one group below twice the target. |
| Compaction.EveryCommandMergesRun | src/functions/ducklake_compaction_functions.cpp:397-412 | Every command merges, in order, one contiguous run of at least two candidates of one group, below twice the target. |
| Compaction.CommandFilesMean | src/functions/ducklake_compaction_functions.cpp:337-412 | All files of a command are below the target, without deletes, still current, of one partition with the same values and of schema versions that go together; it is bound to the latest schema if and only if they merge into it. |
| Compaction.CommandsWithinBudget | src/functions/ducklake_compaction_functions.cpp:397-422 | There are at most as many commands as runs spent, hence at most the maximum. |
| Compaction.CommandsDisjoint | src/functions/ducklake_compaction_functions.cpp:407-412 | No file is moved out twice. |
| NameMap.IsCompatibleWith | src/common/ducklake_name_map.cpp:37-48 | The recursive test decides compatibility. |
| NameMap.ListIsCompatible | src/common/ducklake_name_map.cpp:13-35 | Erasing matched names from an index decides: as many entries, distinct names on both sides, a compatible partner for each. |
| NameMap.CompatibleExactlyWhen | src/common/ducklake_name_map.cpp:13-48 | Two maps are compatible if and only if sibling names are distinct in both and every path of names leads in both to the same field and partition flag, or in neither to one. |
| NameMap.Symmetric | src/common/ducklake_name_map.cpp:13-48 | Compatibility is symmetric although the test indexes only one side. |
| NameMap.Transitive | src/common/ducklake_name_map.cpp:13-48 | Compatibility is transitive. |
| NameMap.ReflexiveExactlyWhen | src/common/ducklake_name_map.cpp:13-48 | An entry is compatible with itself if and only if sibling names are distinct at every depth. |
| NameMap.CompatibleAreDistinct | src/common/ducklake_name_map.cpp:13-48 | Being compatible with anything forces distinct sibling names at every depth, on both sides. |
| NameMap.ChildOrderIgnored | src/common/ducklake_name_map.cpp:13-48 | Reordering children at any depth changes no comparison. |
| NameMap.CompatibleHashesEqual | src/common/ducklake_name_map.cpp:5-11 | Compatible entries have equal exclusive-or hashes, for any string hash. |
| NameMap.HashMeans | src/common/ducklake_name_map.cpp:5-11 | The hash has a bit if and only if an odd number of names, at any depth, hash to it. |
| NameMapSet.MappingSet.Find | src/common/ducklake_name_map.cpp:65-72 | Looking into one bucket finds a compatible representative if there is one anywhere. |
| NameMapSet.SameMappingExactlyWhen | src/common/ducklake_name_map.cpp:50-63 | Two registered maps stand for each other if and only if they belong to the same table and say the same of every column. |
| NameMapSet.MappingSet.TryGetCompatible | src/common/ducklake_name_map.cpp:65-72 | The hashed lookup agrees with a linear search over the registered maps. |
| NameMapSet.MappingSet.Add | src/common/ducklake_name_map.cpp:74-80 | Adding keeps lookups complete and keeps the first of several compatible maps as representative. |
| NameMapSet.MappingSet.Remove | src/common/ducklake_name_map.cpp:82-92 | After a removal from any set lookups see every registered map that is left if and only if they saw those before and the removed one was no representative or had no compatible twin. |
| NameMapSet.TwinIsLost | src/common/ducklake_name_map.cpp:82-92 | Two compatible maps, the first removed: the second is registered and not found. |

## Left out

- SQL text, quoting, parsing and binding: queries are modelled by what they mean; the change feed's multiset balance is a hypothesis.
- Floating-point measures and the rule that rebuilds groups with non-finite values: measures are integers, AVG is an exact quotient.
- Views over external tables, over no table or over more than two tables take no part in the run state machines; that the analysis found a fact and a dimension table is a flag.
- Schema drift and repair of legacy column types during a refresh: a repaired backing table is only a flag that forces a full refresh.
- DeletionVectorIO.ToBlob: each bitmap's own encoding is an assumed self-delimiting invertible code of 32-bit sets that notices a cut buffer, as the Roaring library is not part of this model.
- Crc32.Crc.Update: words are sequences of 32 bits instead of machine words, and `>>` and `&` are written on those bits.
- DeletionVector.ResizedExactlyWhen: the bitmap library is told the declared remaining size even past the end of the blob; here it can look no further than that end.
- Puffin container headers, footers and their JSON payload; Parquet and Vortex delete files are taken as lists of rows and snapshots.
- DeleteFilters.DeleteFilter.InitializeFeed: inlined deletes are required to name rows of the file, which the code does not test.
- ReplicationRuns.SyncTable: schema sync of the destination, share mode's file reconciliation and row counts are left out; a job's strategy and watermark column stay the same over a run, and the source's snapshots are numbered without gaps.
- Supervisor threads, timers, backoff, pausing, abort flags and job listing.
- TableOwnership: the status, strategy and cursor columns of a state row play no part in ownership and are left out there.
- SchemaTree.Decode: the map from leaf number to column is left out, as it repeats the numbering; column payloads are one opaque value.
- Compaction.GenerateCompactions: rewriting deletes, whose sizes are floating-point estimates, and building the merge plans are left out.
- NameMapSet.MappingSet.Add: ids are required to be new and sibling names distinct; hashes are sets of one bits instead of machine words.
- File and network I/O, encryption, statistics readout, access control, settings, and conflict checks at commit.
