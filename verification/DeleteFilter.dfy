/** The delete filter attached to a data file scan. */
module DeleteFilters {
  import opened Tables
  import opened DeleteFilterSpec
  import opened ChangeFeed

  const STANDARD_VECTOR_SIZE: nat := 2048

  /** Offsets into a chunk; without an index array it selects every offset in order. */
  class SelectionVector {
    var indices: array?<nat>

    constructor ()
      ensures indices == null
    {
      indices := null;
    }

    /** The first |rows| offsets, counted from start, are the given rows. */
    ghost predicate Selects(start: nat, rows: seq<nat>)
      reads this, if indices == null then {} else {indices}
    {
      && (indices != null ==> |rows| <= indices.Length)
      && forall i :: 0 <= i < |rows| ==> rows[i] == start + if indices == null then i else indices[i]
    }

    /** The rows the first n offsets stand for. */
    method Rows(start: nat, n: nat, ghost expected: seq<nat>) returns (rows: seq<nat>)
      requires n == |expected| && Selects(start, expected)
      ensures rows == expected
    {
      rows := [];
      var i := 0;
      while i < n
        invariant 0 <= i <= n && rows == expected[..i]
      {
        rows := rows + [start + if indices == null then i else indices[i]];
        i := i + 1;
      }
    }
  }

  class DeleteFilter {
    var deletedRows: seq<nat>
    var snapshotIds: seq<nat>
    var snapshotMap: map<nat, nat>
    var usesRowId: bool
    var maxRowCount: Option<nat>
    var snapshotFilter: Option<nat>

    ghost predicate Valid()
      reads this
    {
      Usable(Data())
    }

    function Data(): Deletes
      reads this
    {
      Deletes(deletedRows, snapshotIds, snapshotFilter)
    }

    constructor ()
      ensures Valid() && Data() == Deletes([], [], None) && maxRowCount == None && snapshotMap == map[] && !usesRowId
    {
      deletedRows, snapshotIds, snapshotMap, usesRowId := [], [], map[], false;
      maxRowCount, snapshotFilter := None, None;
    }

    /** Selects what a walk over the chunk keeps. */
    method FilterRows(start: nat, count: nat, sel: SelectionVector) returns (n: nat)
      requires Valid() && sel.indices == null && count <= STANDARD_VECTOR_SIZE
      modifies sel
      ensures sel.indices == null || fresh(sel.indices)
      ensures n == |Picked(Data(), start, count)| && sel.Selects(start, Picked(Data(), start, count))
    {
      var deleteIdx := LowerBound(deletedRows, start);
      if deleteIdx == |deletedRows| || deletedRows[deleteIdx] > start + count {
        NothingSkipped(Data(), start, count);
        return count;
      }
      var indices := new nat[STANDARD_VECTOR_SIZE];
      sel.indices := indices;
      n := Walk(Data(), start, count, deleteIdx, indices);
    }

    /** Filters a chunk, first dropping the rows at or past the row cap. */
    method Filter(start: nat, count: nat, sel: SelectionVector) returns (n: nat)
      requires Valid() && sel.indices == null && count <= STANDARD_VECTOR_SIZE
      modifies sel
      ensures n == |ReadChunk(Data(), maxRowCount, start, count)|
      ensures sel.Selects(start, ReadChunk(Data(), maxRowCount, start, count))
    {
      var capped := count;
      if maxRowCount.Some? {
        if maxRowCount.value <= start {
          return 0;
        }
        capped := if maxRowCount.value - start < count then maxRowCount.value - start else count;
      }
      n := FilterRows(start, capped, sel);
    }

    /** Adds inlined deletes to the file's. */
    method AddInlined(inlined: seq<nat>)
      requires Valid() && StrictlyIncreasing(inlined)
      modifies this`deletedRows, this`snapshotIds
      ensures Valid() && Data() == WithInlined(old(Data()), inlined)
    {
      WithInlinedUsable(Data(), inlined);
      if snapshotIds == [] {
        deletedRows := RowsOf(Merge(Entries(deletedRows, []), inlined));
      } else {
        deletedRows, snapshotIds := MergeWithSnapshots(deletedRows, snapshotIds, inlined);
      }
    }

    /** Turns the filter around for the change feed: it then drops every row that is not newly
        deleted, and remembers by row, or by row id where the file stores row ids, which snapshot
        deleted it.  Fails when a delete file names a row the data file does not have. */
    method InitializeFeed(scan: DeleteScan, rowIds: map<nat, nat>) returns (ok: bool)
      requires deletedRows == [] && snapshotMap == map[] && !usesRowId
      requires Injective(rowIds) && forall x :: x in scan.inlined ==> x < scan.rowCount
      modifies this`deletedRows, this`snapshotMap, this`usesRowId
      ensures ok <==> !OutOfRange(scan)
      ensures ok ==> StrictlyIncreasing(deletedRows) && forall x: nat :: x in deletedRows <==> x < scan.rowCount && x !in NewlyDeleted(scan)
      ensures ok ==> forall x :: x in DeletionSnapshots(scan) ==> SnapshotKnown(rowIds, x, DeletionSnapshots(scan)[x])
    {
      var rowsToScan, positions;
      ok, rowsToScan, positions := MarkPrimary(scan);
      if !ok {
        return;
      }
      MarkInlined(scan.inlined.Keys, rowsToScan);
      positions := positions + scan.inlined;
      RememberSnapshots(positions, rowIds);
      if scan.previous.Some? && !(scan.current.Some? && scan.current.value.embedded) {
        assert forall x :: x in scan.previous.value.rows <==> x in AlreadyDeleted(scan);
        ok := ClearPrevious(scan.previous.value.rows, rowsToScan);
        if !ok {
          return;
        }
      }
      deletedRows := Unmarked(rowsToScan);
    }

    function GetSnapshotForRow(key: nat): Option<nat>
      reads this
    {
      if key in snapshotMap then Some(snapshotMap[key]) else None
    }

    /** Looking up the key of row x gives snapshot s; rows without a row id are not remembered. */
    ghost predicate SnapshotKnown(rowIds: map<nat, nat>, x: nat, s: nat)
      reads this
    {
      if !usesRowId then GetSnapshotForRow(x) == Some(s)
      else x in rowIds ==> GetSnapshotForRow(rowIds[x]) == Some(s)
    }

    method RememberSnapshots(positions: map<nat, nat>, rowIds: map<nat, nat>)
      requires Injective(rowIds) && snapshotMap == map[] && !usesRowId
      modifies this`snapshotMap, this`usesRowId
      ensures forall x :: x in positions ==> SnapshotKnown(rowIds, x, positions[x])
    {
      var ids := map x | x in rowIds && x in positions :: rowIds[x];
      if positions == map[] {
        return;
      }
      usesRowId := ids != map[];
      if usesRowId {
        snapshotMap := map x | x in ids :: ids[x] := positions[x];
      } else {
        snapshotMap := positions;
      }
    }
  }

  /** Reads a data file through a filter, chunk by chunk. */
  method ReadFile(filter: DeleteFilter, counts: seq<nat>) returns (rows: seq<nat>)
    requires filter.Valid() && forall i :: 0 <= i < |counts| ==> counts[i] <= STANDARD_VECTOR_SIZE
    ensures rows == ReadChunks(filter.Data(), filter.maxRowCount, 0, counts)
  {
    ghost var d, cap := filter.Data(), filter.maxRowCount;
    var start, i := 0, 0;
    rows := [];
    while i < |counts|
      invariant 0 <= i <= |counts|
      invariant rows + ReadChunks(d, cap, start, counts[i..]) == ReadChunks(d, cap, 0, counts)
    {
      var sel := new SelectionVector();
      var n := filter.Filter(start, counts[i], sel);
      var chunk := sel.Rows(start, n, ReadChunk(d, cap, start, counts[i]));
      assert counts[i..][1..] == counts[i + 1..];
      rows := rows + chunk;
      start := start + counts[i];
      i := i + 1;
    }
  }

  /** From a scan entry to the rows the change feed reports, in any chunks that cover the file. */
  method EmitFeed(scan: DeleteScan, rowIds: map<nat, nat>, counts: seq<nat>) returns (ok: bool, emitted: seq<nat>)
    requires Injective(rowIds) && forall x :: x in scan.inlined ==> x < scan.rowCount
    requires Sum(counts) == scan.rowCount && forall i :: 0 <= i < |counts| ==> counts[i] <= STANDARD_VECTOR_SIZE
    ensures ok <==> !OutOfRange(scan)
    ensures ok ==> EmitsDeleted(scan, emitted)
  {
    emitted := [];
    var filter := new DeleteFilter();
    ok := filter.InitializeFeed(scan, rowIds);
    if ok {
      var d := filter.Data();
      assert d.rows == filter.deletedRows;
      FeedEmitsNewlyDeleted(scan, d, counts);
      emitted := ReadFile(filter, counts);
    }
  }

  /** Rows flagged are those of before and the first i listed ones. */
  ghost predicate Marked(flags: seq<bool>, rows: seq<nat>, i: nat)
    requires i <= |rows|
  {
    && (forall k :: 0 <= k < i ==> rows[k] < |flags| && flags[rows[k]])
    && (forall x :: 0 <= x < |flags| && flags[x] ==> exists k :: 0 <= k < i && rows[k] == x)
  }

  lemma MarkedMore(flags: seq<bool>, rows: seq<nat>, i: nat)
    requires i < |rows| && rows[i] < |flags| && Marked(flags, rows, i)
    ensures Marked(flags[rows[i] := true], rows, i + 1)
  {
    var more := flags[rows[i] := true];
    forall x | 0 <= x < |more| && more[x] ensures exists k :: 0 <= k < i + 1 && rows[k] == x {
      if x == rows[i] {
      } else {
        var k :| 0 <= k < i && rows[k] == x;
      }
    }
  }

  lemma MarkedAll(flags: seq<bool>, rows: seq<nat>)
    requires Marked(flags, rows, |rows|)
    ensures forall x: nat :: x < |flags| ==> (flags[x] <==> x in rows)
  {
  }

  /** Marks the current delete file's rows and notes their snapshots. */
  method MarkCurrent(listing: Listing, flags: array<bool>) returns (ok: bool, positions: map<nat, nat>)
    requires forall x :: 0 <= x < flags.Length ==> !flags[x]
    modifies flags
    ensures ok <==> forall x :: x in listing.rows ==> x < flags.Length
    ensures ok ==> positions == FileSnapshots(listing.rows, listing.snapshots, |listing.rows|)
    ensures ok ==> Marked(flags[..], listing.rows, |listing.rows|)
  {
    positions := map[];
    var i := 0;
    while i < |listing.rows|
      invariant 0 <= i <= |listing.rows|
      invariant positions == FileSnapshots(listing.rows, listing.snapshots, i)
      invariant Marked(flags[..], listing.rows, i)
    {
      var row := listing.rows[i];
      if row >= flags.Length {
        assert row in listing.rows;
        return false, positions;
      }
      MarkedMore(flags[..], listing.rows, i);
      ghost var before := flags[..];
      flags[row] := true;
      assert flags[..] == before[row := true];
      if i < |listing.snapshots| {
        positions := positions[row := listing.snapshots[i]];
      }
      i := i + 1;
    }
    ok := true;
  }

  /** Marks the rows of the delete file, or of the dropped file. */
  method MarkPrimary(scan: DeleteScan) returns (ok: bool, flags: array<bool>, positions: map<nat, nat>)
    ensures fresh(flags) && flags.Length == scan.rowCount
    ensures ok <==> !(scan.current.Some? && exists x :: x in scan.current.value.rows && x >= scan.rowCount)
    ensures ok ==> forall x :: 0 <= x < flags.Length ==> (flags[x] <==> x in Primary(scan))
    ensures ok ==> positions + scan.inlined == DeletionSnapshots(scan)
  {
    flags := new bool[scan.rowCount](_ => false);
    positions := map[];
    ok := true;
    if scan.current.Some? {
      ok, positions := MarkCurrent(scan.current.value, flags);
      if ok {
        MarkedAll(flags[..], scan.current.value.rows);
      }
    } else if scan.droppedAt.Some? && scan.inlined == map[] {
      flags := new bool[scan.rowCount](_ => true);
      positions := map x | x in AllRows(scan.rowCount) :: scan.droppedAt.value;
    }
  }

  method MarkInlined(rows: set<nat>, flags: array<bool>)
    requires forall x :: x in rows ==> x < flags.Length
    modifies flags
    ensures forall x :: 0 <= x < flags.Length ==> (flags[x] <==> old(flags[x]) || x in rows)
  {
    var rest := rows;
    while rest != {}
      invariant rest <= rows
      invariant forall x :: 0 <= x < flags.Length ==> (flags[x] <==> old(flags[x]) || x in rows - rest)
    {
      var row :| row in rest;
      flags[row] := true;
      rest := rest - {row};
    }
  }

  method ClearPrevious(rows: seq<nat>, flags: array<bool>) returns (ok: bool)
    modifies flags
    ensures ok <==> forall x :: x in rows ==> x < flags.Length
    ensures ok ==> forall x :: 0 <= x < flags.Length ==> (flags[x] <==> old(flags[x]) && x !in rows)
  {
    var i := 0;
    while i < |rows|
      invariant 0 <= i <= |rows|
      invariant forall x :: x in rows[..i] ==> x < flags.Length
      invariant forall x :: 0 <= x < flags.Length ==> (flags[x] <==> old(flags[x]) && x !in rows[..i])
    {
      if rows[i] >= flags.Length {
        assert rows[i] in rows;
        return false;
      }
      assert rows[..i + 1] == rows[..i] + [rows[i]];
      flags[rows[i]] := false;
      i := i + 1;
    }
    assert rows[..i] == rows;
    ok := true;
  }

  /** The unmarked rows, in order. */
  method Unmarked(flags: array<bool>) returns (rows: seq<nat>)
    ensures StrictlyIncreasing(rows) && forall x: nat :: x in rows <==> x < flags.Length && !flags[x]
  {
    rows := [];
    var i := 0;
    while i < flags.Length
      invariant 0 <= i <= flags.Length
      invariant StrictlyIncreasing(rows) && forall x: nat :: x in rows <==> x < i && !flags[x]
    {
      if !flags[i] {
        assert forall k :: 0 <= k < |rows| ==> rows[k] in rows;
        rows := rows + [i];
      }
      i := i + 1;
    }
  }

  /** Writes the offsets of the kept rows of a chunk, one pointer into the deletes moving along. */
  method Walk(d: Deletes, start: nat, count: nat, first: nat, indices: array<nat>) returns (n: nat)
    requires Usable(d) && first == LowerBound(d.rows, start) && count <= indices.Length
    modifies indices
    ensures n == |Picked(d, start, count)|
    ensures forall k :: 0 <= k < n ==> Picked(d, start, count)[k] == start + indices[k]
  {
    var deleteIdx, i := first, 0;
    var checkSnapshots := d.filter.Some? && d.snapshots != [];
    n := 0;
    while i < count
      invariant 0 <= i <= count && deleteIdx == Pointer(d, start, i)
      invariant n == |Picked(d, start, i)|
      invariant forall k :: 0 <= k < n ==> Picked(d, start, i)[k] == start + indices[k]
    {
      WalkStep(d, start, i, deleteIdx);
      var isDeleted := false;
      if deleteIdx < |d.rows| && start + i == d.rows[deleteIdx] {
        isDeleted := !checkSnapshots || d.snapshots[deleteIdx] <= d.filter.value;
        deleteIdx := deleteIdx + 1;
      }
      if !isDeleted {
        indices[n] := i;
        n := n + 1;
      }
      i := i + 1;
    }
  }

  /** One row further: where the pointer moves and whether the row is kept. */
  lemma WalkStep(d: Deletes, start: nat, i: nat, k: nat)
    requires Usable(d) && k == Pointer(d, start, i)
    ensures var found := k < |d.rows| && start + i == d.rows[k];
            && Pointer(d, start, i + 1) == (if found then k + 1 else k)
            && Picked(d, start, i + 1) ==
               Picked(d, start, i) + if found && (d.filter.None? || d.snapshots == [] || d.snapshots[k] <= d.filter.value) then [] else [start + i]
  {
  }

  /** Entry e of the merge follows those done. */
  ghost predicate Takes(done: seq<Entry>, e: Entry, rest: seq<Entry>, all: seq<Entry>) {
    done + [e] + rest == all && RowsOf(done + [e]) == RowsOf(done) + [e.row] && SnapshotsOf(done + [e]) == SnapshotsOf(done) + [e.snapshot]
  }

  /** Merges inlined deletes into rows that carry snapshots. */
  method MergeWithSnapshots(rows: seq<nat>, snapshots: seq<nat>, inlined: seq<nat>) returns (mergedRows: seq<nat>, mergedSnapshots: seq<nat>)
    requires snapshots != [] && |snapshots| == |rows|
    ensures mergedRows == RowsOf(Merge(Entries(rows, snapshots), inlined))
    ensures mergedSnapshots == SnapshotsOf(Merge(Entries(rows, snapshots), inlined))
  {
    ghost var entries := Entries(rows, snapshots);
    ghost var all := Merge(entries, inlined);
    ghost var done: seq<Entry> := [];
    mergedRows, mergedSnapshots := [], [];
    var i, j := 0, 0;
    while i < |rows| || j < |inlined|
      invariant 0 <= i <= |rows| && 0 <= j <= |inlined|
      invariant done + Merge(entries[i..], inlined[j..]) == all
      invariant mergedRows == RowsOf(done) && mergedSnapshots == SnapshotsOf(done)
      decreases |rows| - i + |inlined| - j
    {
      if j == |inlined| || (i < |rows| && rows[i] < inlined[j]) {
        TakesFromFile(done, entries, i, inlined, j, all);
        mergedRows, mergedSnapshots := mergedRows + [rows[i]], mergedSnapshots + [snapshots[i]];
        done := done + [entries[i]];
        i := i + 1;
      } else {
        TakesInlined(done, entries, i, inlined, j, all);
        mergedRows, mergedSnapshots := mergedRows + [inlined[j]], mergedSnapshots + [0];
        done := done + [Entry(inlined[j], 0)];
        j := j + 1;
      }
    }
  }

  lemma {:induction false} NothingSkipped(d: Deletes, start: nat, n: nat)
    requires Usable(d)
    requires LowerBound(d.rows, start) == |d.rows| || d.rows[LowerBound(d.rows, start)] >= start + n
    ensures |Picked(d, start, n)| == n && Pointer(d, start, n) == LowerBound(d.rows, start)
    ensures forall i :: 0 <= i < n ==> Picked(d, start, n)[i] == start + i
  {
    if n > 0 {
      NothingSkipped(d, start, n - 1);
    }
  }

  lemma TakesFromFile(done: seq<Entry>, a: seq<Entry>, i: nat, b: seq<nat>, j: nat, all: seq<Entry>)
    requires i < |a| && j <= |b| && (j == |b| || a[i].row < b[j]) && done + Merge(a[i..], b[j..]) == all
    ensures Takes(done, a[i], Merge(a[i + 1..], b[j..]), all)
  {
    assert a[i..] == [a[i]] + a[i + 1..];
    assert Merge(a[i..], b[j..]) == [a[i]] + Merge(a[i + 1..], b[j..]);
  }

  lemma TakesInlined(done: seq<Entry>, a: seq<Entry>, i: nat, b: seq<nat>, j: nat, all: seq<Entry>)
    requires i <= |a| && j < |b| && !(i < |a| && a[i].row < b[j]) && done + Merge(a[i..], b[j..]) == all
    ensures Takes(done, Entry(b[j], 0), Merge(a[i..], b[j + 1..]), all)
  {
    assert b[j..][1..] == b[j + 1..];
    assert Merge(a[i..], b[j..]) == [Entry(b[j], 0)] + Merge(a[i..], b[j + 1..]);
  }
}
