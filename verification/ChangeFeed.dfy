/**
 The rows a change feed reports as deleted from one data file: a scan entry lists the current
 delete file's rows within the window, or a dropped file, the inlined deletes with their
 snapshots, and the delete file in force before the window.
 */
module ChangeFeed {
  import opened Tables
  import opened DeleteFilterSpec

  datatype Listing = Listing(rows: seq<nat>, snapshots: seq<nat>, embedded: bool)

  datatype DeleteScan = DeleteScan(
    rowCount: nat, current: Option<Listing>, droppedAt: Option<nat>, inlined: map<nat, nat>, previous: Option<Listing>)

  function RowSet(rows: seq<nat>): set<nat> {
    set x | x in rows
  }

  function AllRows(rowCount: nat): (r: set<nat>)
    ensures forall x: nat :: x in r <==> x < rowCount
  {
    if rowCount == 0 then {} else AllRows(rowCount - 1) + {rowCount - 1}
  }

  /** Rows of the delete file, or every row of a dropped file without inlined deletes. */
  function Primary(scan: DeleteScan): set<nat> {
    if scan.current.Some? then RowSet(scan.current.value.rows)
    else if scan.droppedAt.Some? && scan.inlined == map[] then AllRows(scan.rowCount)
    else {}
  }

  /** Rows already deleted before the window.  Vectors with snapshots were bounded by the window
      when they were scanned, so the earlier file is not consulted for them. */
  function AlreadyDeleted(scan: DeleteScan): set<nat> {
    if scan.previous.Some? && !(scan.current.Some? && scan.current.value.embedded) then RowSet(scan.previous.value.rows)
    else {}
  }

  function NewlyDeleted(scan: DeleteScan): set<nat> {
    Primary(scan) + scan.inlined.Keys - AlreadyDeleted(scan)
  }

  /** Some delete file names a row the data file does not have. */
  predicate OutOfRange(scan: DeleteScan) {
    || (scan.current.Some? && exists x :: x in scan.current.value.rows && x >= scan.rowCount)
    || exists x :: x in AlreadyDeleted(scan) && x >= scan.rowCount
  }

  /** The snapshot listed last for each of the first n rows. */
  function FileSnapshots(rows: seq<nat>, snapshots: seq<nat>, n: nat): map<nat, nat>
    requires n <= |rows|
  {
    if n == 0 then map[]
    else if n <= |snapshots| then FileSnapshots(rows, snapshots, n - 1)[rows[n - 1] := snapshots[n - 1]]
    else FileSnapshots(rows, snapshots, n - 1)
  }

  /** The snapshot that deleted each row, where known; an inlined delete overrides the file's. */
  function DeletionSnapshots(scan: DeleteScan): map<nat, nat> {
    (if scan.current.Some? then FileSnapshots(scan.current.value.rows, scan.current.value.snapshots, |scan.current.value.rows|)
     else if scan.droppedAt.Some? && scan.inlined == map[] then map x | x in AllRows(scan.rowCount) :: scan.droppedAt.value
     else map[]) + scan.inlined
  }

  /** Distinct rows have distinct row ids. */
  ghost predicate Injective(rowIds: map<nat, nat>) {
    forall p, q :: p in rowIds && q in rowIds && rowIds[p] == rowIds[q] ==> p == q
  }

  lemma {:induction false} SurvivorsIncrease(d: Deletes, lo: nat, hi: nat)
    requires Usable(d)
    ensures StrictlyIncreasing(Survivors(d, lo, hi))
    decreases hi
  {
    if lo < hi {
      SurvivorsIncrease(d, lo, hi - 1);
      var s := Survivors(d, lo, hi - 1);
      forall i | 0 <= i < |s| ensures s[i] < hi - 1 {
        SurvivorsAre(d, lo, hi - 1, s[i]);
      }
    }
  }

  /** Exactly the newly deleted rows, once each and in order. */
  ghost predicate EmitsDeleted(scan: DeleteScan, emitted: seq<nat>) {
    StrictlyIncreasing(emitted) && forall x :: x in emitted <==> x in NewlyDeleted(scan)
  }

  /** A filter that lists the rows not newly deleted emits, over any consecutive chunks that cover
      the file, exactly the newly deleted rows, once each and in order. */
  lemma FeedEmitsNewlyDeleted(scan: DeleteScan, d: Deletes, counts: seq<nat>)
    requires d.snapshots == [] && StrictlyIncreasing(d.rows) && Sum(counts) == scan.rowCount
    requires !OutOfRange(scan) && forall x :: x in scan.inlined ==> x < scan.rowCount
    requires forall x: nat :: x in d.rows <==> x < scan.rowCount && x !in NewlyDeleted(scan)
    ensures EmitsDeleted(scan, ReadChunks(d, None, 0, counts))
  {
    StrictIsFindable(d);
    ChunksKeepUndeleted(d, None, 0, counts);
    SurvivorsIncrease(d, 0, scan.rowCount);
    forall x ensures x in Survivors(d, 0, scan.rowCount) <==> x in NewlyDeleted(scan) {
      SurvivorsAre(d, 0, scan.rowCount, x);
      ListedIsDeleted(d, x);
    }
  }

  lemma ListedIsDeleted(d: Deletes, x: nat)
    requires Usable(d) && d.snapshots == []
    ensures IsDeleted(d, x) <==> x in d.rows
  {
    if x in d.rows {
      var k :| 0 <= k < |d.rows| && d.rows[k] == x;
      assert Effective(d, k);
    }
  }

  /** What counts as newly deleted: a row the window's delete file lists, any row of a file dropped without
      one and without inlined deletes, or an inlined delete; unless the delete file in force before the
      window lists it, which is not asked of vectors that carry their snapshots. */
  lemma NewlyDeletedExactlyWhen(scan: DeleteScan, x: nat)
    ensures x in NewlyDeleted(scan) <==>
            && ( || (scan.current.Some? && x in scan.current.value.rows)
                 || (scan.current.None? && scan.droppedAt.Some? && |scan.inlined| == 0 && x < scan.rowCount)
                 || x in scan.inlined)
            && !(scan.previous.Some? && x in scan.previous.value.rows && (scan.current.None? || !scan.current.value.embedded))
  {
    assert |scan.inlined| == 0 <==> scan.inlined == map[];
  }

  lemma {:induction false} FileSnapshotsMean(rows: seq<nat>, snapshots: seq<nat>, n: nat, x: nat)
    requires n <= |rows|
    ensures x in FileSnapshots(rows, snapshots, n) <==> exists k :: 0 <= k < n && k < |snapshots| && rows[k] == x
    ensures x in FileSnapshots(rows, snapshots, n) ==>
              exists k :: 0 <= k < n && k < |snapshots| && rows[k] == x && FileSnapshots(rows, snapshots, n)[x] == snapshots[k]
                          && forall j :: k < j < n && j < |snapshots| ==> rows[j] != x
  {
    if n > 0 {
      FileSnapshotsMean(rows, snapshots, n - 1, x);
      if n <= |snapshots| && rows[n - 1] == x {
        assert FileSnapshots(rows, snapshots, n)[x] == snapshots[n - 1];
      }
    }
  }

  /** The snapshot reported for a deleted row: an inlined delete's own, else the one its delete file lists
      last for it, else the one that dropped the file. */
  lemma DeletionSnapshotsMean(scan: DeleteScan, x: nat)
    ensures x in scan.inlined ==> x in DeletionSnapshots(scan) && DeletionSnapshots(scan)[x] == scan.inlined[x]
    ensures x !in scan.inlined && scan.current.Some? && x in DeletionSnapshots(scan) ==>
              exists k :: 0 <= k < |scan.current.value.rows| && k < |scan.current.value.snapshots| && scan.current.value.rows[k] == x
                          && DeletionSnapshots(scan)[x] == scan.current.value.snapshots[k]
                          && forall j :: k < j < |scan.current.value.rows| && j < |scan.current.value.snapshots| ==> scan.current.value.rows[j] != x
    ensures scan.current.None? && scan.droppedAt.Some? && |scan.inlined| == 0 && x < scan.rowCount ==>
              x in DeletionSnapshots(scan) && DeletionSnapshots(scan)[x] == scan.droppedAt.value
  {
    if scan.current.Some? {
      FileSnapshotsMean(scan.current.value.rows, scan.current.value.snapshots, |scan.current.value.rows|, x);
    }
    assert |scan.inlined| == 0 <==> scan.inlined == map[];
  }
}
