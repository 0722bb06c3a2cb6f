/**
 What filtering a data file by its deletes means.  A filter walks a chunk of rows with one pointer
 into its sorted delete list; which lists make that walk exact is settled here for every chunk, and
 with it the merge of inlined deletes and the complement list built for the change feed.
 */
module DeleteFilterSpec {
  import opened Tables

  /** Deleted rows in ascending order, the snapshot of each when known, and the reader's snapshot. */
  datatype Deletes = Deletes(rows: seq<nat>, snapshots: seq<nat>, filter: Option<nat>)

  ghost predicate Sorted(s: seq<nat>) {
    forall i, j :: 0 <= i < j < |s| ==> s[i] <= s[j]
  }

  ghost predicate StrictlyIncreasing(s: seq<nat>) {
    forall i, j :: 0 <= i < j < |s| ==> s[i] < s[j]
  }

  ghost predicate Usable(d: Deletes) {
    Sorted(d.rows) && (d.snapshots == [] || |d.snapshots| == |d.rows|)
  }

  /** Entry k applies to a reader at the filter's snapshot. */
  predicate Effective(d: Deletes, k: nat)
    requires k < |d.rows| && (d.snapshots == [] || |d.snapshots| == |d.rows|)
  {
    d.filter.None? || d.snapshots == [] || d.snapshots[k] <= d.filter.value
  }

  ghost predicate IsDeleted(d: Deletes, row: nat)
    requires Usable(d)
  {
    exists k :: 0 <= k < |d.rows| && d.rows[k] == row && Effective(d, k)
  }

  /** The rows of [lo, hi) that are not deleted, in order. */
  ghost function Survivors(d: Deletes, lo: nat, hi: nat): seq<nat>
    requires Usable(d)
    decreases hi
  {
    if lo >= hi then []
    else Survivors(d, lo, hi - 1) + if IsDeleted(d, hi - 1) then [] else [hi - 1]
  }

  lemma {:induction false} SurvivorsAre(d: Deletes, lo: nat, hi: nat, x: nat)
    requires Usable(d)
    ensures x in Survivors(d, lo, hi) <==> lo <= x < hi && !IsDeleted(d, x)
    decreases hi
  {
    if lo < hi {
      SurvivorsAre(d, lo, hi - 1, x);
    }
  }

  lemma {:induction false} SurvivorsSplit(d: Deletes, lo: nat, mid: nat, hi: nat)
    requires Usable(d) && lo <= mid <= hi
    ensures Survivors(d, lo, hi) == Survivors(d, lo, mid) + Survivors(d, mid, hi)
    decreases hi
  {
    if mid < hi {
      SurvivorsSplit(d, lo, mid, hi - 1);
    }
  }

  // ---- the walk ----

  function LowerBound(rows: seq<nat>, start: nat): (k: nat)
    ensures k <= |rows| && (forall i :: 0 <= i < k ==> rows[i] < start) && (k < |rows| ==> rows[k] >= start)
  {
    if rows == [] || rows[0] >= start then 0
    else
      var rest := LowerBound(rows[1..], start);
      assert forall i :: 1 <= i < 1 + rest ==> rows[i] == rows[1..][i - 1];
      1 + rest
  }

  /** The delete pointer before row start + i is looked at. */
  function Pointer(d: Deletes, start: nat, i: nat): (k: nat)
    ensures k <= |d.rows|
  {
    if i == 0 then LowerBound(d.rows, start)
    else
      var k := Pointer(d, start, i - 1);
      if k < |d.rows| && d.rows[k] == start + (i - 1) then k + 1 else k
  }

  /** Row start + i is skipped: the pointer stands on it, on an entry in effect. */
  predicate Skips(d: Deletes, start: nat, i: nat)
    requires d.snapshots == [] || |d.snapshots| == |d.rows|
  {
    var k := Pointer(d, start, i);
    k < |d.rows| && d.rows[k] == start + i && Effective(d, k)
  }

  /** The rows the walk keeps among the first n of a chunk. */
  function Picked(d: Deletes, start: nat, n: nat): (r: seq<nat>)
    requires d.snapshots == [] || |d.snapshots| == |d.rows|
    ensures |r| <= n
  {
    if n == 0 then []
    else Picked(d, start, n - 1) + if Skips(d, start, n - 1) then [] else [start + (n - 1)]
  }

  // ---- when the walk is exact ----

  /** Entries m and m + 1 name the same row. */
  predicate Repeats(rows: seq<nat>, m: nat) {
    m + 1 < |rows| && rows[m] == rows[m + 1]
  }

  ghost predicate LeadsTo(d: Deletes, f: nat, j: nat)
    requires Usable(d) && j < |d.rows|
  {
    f <= j && d.rows[f] == d.rows[j] && Effective(d, f) && forall m :: 0 <= m < f ==> !Repeats(d.rows, m)
  }

  /** The walk finds entry j: its row leads its duplicates with an entry in effect, and no row
      before it is repeated. */
  ghost predicate Found(d: Deletes, j: nat)
    requires Usable(d) && j < |d.rows|
  {
    exists f :: LeadsTo(d, f, j)
  }

  /** Every entry in effect is found. */
  ghost predicate Findable(d: Deletes)
    requires Usable(d)
  {
    forall j {:trigger Found(d, j)} :: 0 <= j < |d.rows| && Effective(d, j) ==> Found(d, j)
  }

  /** Sorted rows increase strictly as long as none is repeated. */
  lemma StrictBelow(rows: seq<nat>, f: nat, i: nat, j: nat)
    requires Sorted(rows) && i < j <= f < |rows| && forall m :: 0 <= m < f ==> !Repeats(rows, m)
    ensures rows[i] < rows[j]
  {
    assert !Repeats(rows, i);
    assert rows[i] <= rows[i + 1] <= rows[j];
  }

  lemma {:induction false} PointerReaches(d: Deletes, start: nat, i: nat, f: nat)
    requires Usable(d) && f < |d.rows| && start + i <= d.rows[f]
    requires forall m :: 0 <= m < f ==> !Repeats(d.rows, m)
    ensures var k := Pointer(d, start, i); k <= f && d.rows[k] >= start + i
    decreases i
  {
    if i > 0 {
      PointerReaches(d, start, i - 1, f);
      var k := Pointer(d, start, i - 1);
      if k < f {
        assert !Repeats(d.rows, k);
      }
    }
  }

  /** An entry that is found is skipped wherever the chunk starts. */
  lemma FoundIsSkipped(d: Deletes, start: nat, i: nat, j: nat)
    requires Usable(d) && j < |d.rows| && Found(d, j) && d.rows[j] == start + i
    ensures Skips(d, start, i)
  {
    var f :| LeadsTo(d, f, j);
    PointerReaches(d, start, i, f);
    var k := Pointer(d, start, i);
    if k < f {
      StrictBelow(d.rows, f, k, f);
    }
  }

  /** Where the list is findable the walk skips exactly the deleted rows. */
  lemma SkipsDeleted(d: Deletes, start: nat, i: nat)
    requires Usable(d) && Findable(d)
    ensures Skips(d, start, i) <==> IsDeleted(d, start + i)
  {
    if IsDeleted(d, start + i) {
      var j :| 0 <= j < |d.rows| && d.rows[j] == start + i && Effective(d, j);
      assert Found(d, j);
      FoundIsSkipped(d, start, i, j);
    }
  }

  lemma {:induction false} PickedExact(d: Deletes, start: nat, n: nat)
    requires Usable(d) && Findable(d)
    ensures Picked(d, start, n) == Survivors(d, start, start + n)
  {
    if n > 0 {
      PickedExact(d, start, n - 1);
      SkipsDeleted(d, start, n - 1);
      assert start + n - 1 == start + (n - 1);
    }
  }

  lemma {:induction false} StuckPointer(d: Deletes, start: nat, i: nat)
    requires i >= 1 && Pointer(d, start, 1) < |d.rows| && d.rows[Pointer(d, start, 1)] <= start
    ensures Pointer(d, start, i) == Pointer(d, start, 1)
  {
    if i > 1 {
      StuckPointer(d, start, i - 1);
    }
  }

  /** The first entry for the row of entry j. */
  function Lead(rows: seq<nat>, j: nat): (f: nat)
    requires j < |rows|
    ensures f <= j && rows[f] == rows[j] && (f == 0 || rows[f - 1] != rows[f])
  {
    if j > 0 && rows[j - 1] == rows[j] then Lead(rows, j - 1) else j
  }

  /** A repeated row before entry j hides it from a chunk starting at the repeated row. */
  lemma HiddenByRepeat(d: Deletes, j: nat, m: nat)
    requires Usable(d) && j < |d.rows| && Repeats(d.rows, m) && d.rows[m] < d.rows[j]
    ensures !Skips(d, d.rows[m], d.rows[j] - d.rows[m])
  {
    var start := d.rows[m];
    var first := LowerBound(d.rows, start);
    assert first <= m && Pointer(d, start, 0) == first && d.rows[first] == start;
    assert Pointer(d, start, 1) == first + 1 && d.rows[first + 1] == start;
    StuckPointer(d, start, d.rows[j] - start);
  }

  lemma LowerBoundIs(rows: seq<nat>, start: nat, f: nat)
    requires Sorted(rows) && f < |rows| && rows[f] >= start && (f == 0 || rows[f - 1] < start)
    ensures LowerBound(rows, start) == f
  {
  }

  /** A lead not in effect hides its duplicates from a chunk starting at their row. */
  lemma HiddenByLead(d: Deletes, j: nat, f: nat)
    requires Usable(d) && j < |d.rows| && f == Lead(d.rows, j) && !Effective(d, f)
    ensures !Skips(d, d.rows[j], 0)
  {
    assert f > 0 ==> d.rows[f - 1] <= d.rows[f];
    LowerBoundIs(d.rows, d.rows[j], f);
  }

  /** The chunk on which the walk goes wrong when entry j cannot be found. */
  lemma MissedRow(d: Deletes, j: nat) returns (start: nat, i: nat)
    requires Usable(d) && j < |d.rows| && Effective(d, j) && !Found(d, j)
    ensures start + i == d.rows[j] && !Skips(d, start, i)
  {
    var f := Lead(d.rows, j);
    if m :| 0 <= m < f && Repeats(d.rows, m) {
      assert d.rows[m + 1] <= d.rows[f - 1] < d.rows[f];
      HiddenByRepeat(d, j, m);
      start, i := d.rows[m], d.rows[j] - d.rows[m];
    } else {
      assert !LeadsTo(d, f, j);
      HiddenByLead(d, j, f);
      start, i := d.rows[j], 0;
    }
  }

  ghost predicate ExactOnChunk(d: Deletes, start: nat, n: nat)
    requires Usable(d)
  {
    Picked(d, start, n) == Survivors(d, start, start + n)
  }

  /** The walk keeps exactly the undeleted rows of every chunk if and only if the list is findable. */
  lemma WalkExactlyWhen(d: Deletes)
    requires Usable(d)
    ensures (forall start, n :: ExactOnChunk(d, start, n)) <==> Findable(d)
  {
    if Findable(d) {
      forall start, n ensures ExactOnChunk(d, start, n) {
        PickedExact(d, start, n);
      }
    } else {
      var j :| 0 <= j < |d.rows| && Effective(d, j) && !Found(d, j);
      var start, i := MissedRow(d, j);
      assert start + i in Picked(d, start, i + 1);
      SurvivorsAre(d, start, start + (i + 1), start + i);
      assert !ExactOnChunk(d, start, i + 1);
    }
  }

  /** Strictly increasing rows are always findable, whatever their snapshots. */
  lemma StrictIsFindable(d: Deletes)
    requires Usable(d) && StrictlyIncreasing(d.rows)
    ensures Findable(d)
  {
    forall j {:trigger Found(d, j)} | 0 <= j < |d.rows| && Effective(d, j) ensures Found(d, j) {
      assert LeadsTo(d, j, j);
    }
  }

  /** Only the largest row is repeated. */
  ghost predicate OnlyLargestRepeats(rows: seq<nat>) {
    forall m: nat :: Repeats(rows, m) ==> rows[m] == rows[|rows| - 1]
  }

  /** Without snapshots a list is findable exactly when only its largest row may be repeated. */
  lemma FindableWithoutSnapshots(d: Deletes)
    requires Usable(d) && d.snapshots == []
    ensures Findable(d) <==> OnlyLargestRepeats(d.rows)
  {
    if !OnlyLargestRepeats(d.rows) {
      LargerIsHidden(d);
    } else {
      forall j {:trigger Found(d, j)} | 0 <= j < |d.rows| && Effective(d, j) ensures Found(d, j) {
        NoRepeatBeforeLead(d.rows, j);
        assert LeadsTo(d, Lead(d.rows, j), j);
      }
    }
  }

  lemma LargerIsHidden(d: Deletes)
    requires Usable(d) && d.snapshots == [] && !OnlyLargestRepeats(d.rows)
    ensures !Findable(d)
  {
    var last := |d.rows| - 1;
    var m: nat :| Repeats(d.rows, m) && d.rows[m] != d.rows[last];
    assert d.rows[m] <= d.rows[last];
    forall f | 0 <= f <= last ensures !LeadsTo(d, f, last) {
      assert f <= m ==> d.rows[f] <= d.rows[m];
    }
    assert Effective(d, last) && !Found(d, last);
  }

  lemma NoRepeatBeforeLead(rows: seq<nat>, j: nat)
    requires Sorted(rows) && j < |rows| && OnlyLargestRepeats(rows)
    ensures forall m :: 0 <= m < Lead(rows, j) ==> !Repeats(rows, m)
  {
    var f := Lead(rows, j);
    forall m | 0 <= m < f ensures !Repeats(rows, m) {
      assert rows[m] <= rows[f - 1] < rows[f] <= rows[|rows| - 1];
    }
  }

  // ---- consecutive chunks under a row cap ----

  /** The number of rows of a chunk below the cap. */
  function Capped(cap: Option<nat>, start: nat, count: nat): (n: nat)
    ensures n <= count
  {
    if cap.None? then count
    else if cap.value <= start then 0
    else if cap.value - start < count then cap.value - start
    else count
  }

  function Sum(counts: seq<nat>): nat {
    if counts == [] then 0 else counts[0] + Sum(counts[1..])
  }

  /** What is read of a chunk. */
  function ReadChunk(d: Deletes, cap: Option<nat>, start: nat, count: nat): seq<nat>
    requires d.snapshots == [] || |d.snapshots| == |d.rows|
  {
    Picked(d, start, Capped(cap, start, count))
  }

  /** Reading a file chunk by chunk. */
  function ReadChunks(d: Deletes, cap: Option<nat>, start: nat, counts: seq<nat>): seq<nat>
    requires d.snapshots == [] || |d.snapshots| == |d.rows|
    decreases |counts|
  {
    if counts == [] then []
    else ReadChunk(d, cap, start, counts[0]) + ReadChunks(d, cap, start + counts[0], counts[1..])
  }

  /** The undeleted rows of a chunk below the cap. */
  ghost function SurvivorsBelow(d: Deletes, cap: Option<nat>, start: nat, count: nat): seq<nat>
    requires Usable(d)
  {
    Survivors(d, start, start + Capped(cap, start, count))
  }

  lemma SurvivorsOfTwo(d: Deletes, cap: Option<nat>, start: nat, first: nat, rest: nat)
    requires Usable(d)
    ensures SurvivorsBelow(d, cap, start, first + rest) == SurvivorsBelow(d, cap, start, first) + SurvivorsBelow(d, cap, start + first, rest)
  {
    if Capped(cap, start, first) == first {
      SurvivorsSplit(d, start, start + first, start + Capped(cap, start, first + rest));
    }
  }

  lemma ChunkKeepsUndeleted(d: Deletes, cap: Option<nat>, start: nat, count: nat)
    requires Usable(d) && Findable(d)
    ensures ReadChunk(d, cap, start, count) == SurvivorsBelow(d, cap, start, count)
  {
    PickedExact(d, start, Capped(cap, start, count));
  }

  /** However a file is cut into consecutive chunks, reading them keeps exactly the rows below the
      cap that are not deleted, once each and in order. */
  lemma {:induction false} ChunksKeepUndeleted(d: Deletes, cap: Option<nat>, start: nat, counts: seq<nat>)
    requires Usable(d) && Findable(d)
    ensures ReadChunks(d, cap, start, counts) == SurvivorsBelow(d, cap, start, Sum(counts))
    decreases |counts|
  {
    if counts != [] {
      var first, rest := counts[0], counts[1..];
      ChunkKeepsUndeleted(d, cap, start, first);
      ChunksKeepUndeleted(d, cap, start + first, rest);
      SurvivorsOfTwo(d, cap, start, first, Sum(rest));
      assert ReadChunks(d, cap, start, counts) == ReadChunk(d, cap, start, first) + ReadChunks(d, cap, start + first, rest);
    }
  }

  // ---- merging inlined deletes ----

  datatype Entry = Entry(row: nat, snapshot: nat)

  /** A delete list as entries; a list without snapshots behaves as one at snapshot 0. */
  function Entries(rows: seq<nat>, snapshots: seq<nat>): (r: seq<Entry>)
    requires snapshots == [] || |snapshots| == |rows|
    ensures |r| == |rows|
  {
    seq(|rows|, i requires 0 <= i < |rows| => Entry(rows[i], if snapshots == [] then 0 else snapshots[i]))
  }

  /** Inlined deletes carry snapshot 0 and go first on a tie. */
  function Merge(a: seq<Entry>, b: seq<nat>): (r: seq<Entry>)
    ensures |r| == |a| + |b|
    decreases |a| + |b|
  {
    if b == [] then a
    else if a != [] && a[0].row < b[0] then [a[0]] + Merge(a[1..], b)
    else [Entry(b[0], 0)] + Merge(a, b[1..])
  }

  ghost predicate EntriesSorted(s: seq<Entry>) {
    forall i, j :: 0 <= i < j < |s| ==> s[i].row <= s[j].row
  }

  ghost predicate EntriesIncreasing(s: seq<Entry>) {
    forall i, j :: 0 <= i < j < |s| ==> s[i].row < s[j].row
  }

  lemma {:induction false} MergeHas(a: seq<Entry>, b: seq<nat>, e: Entry)
    ensures e in Merge(a, b) <==> e in a || (e.row in b && e.snapshot == 0)
    decreases |a| + |b|
  {
    if b == [] {
    } else if a != [] && a[0].row < b[0] {
      MergeHas(a[1..], b, e);
      assert a == [a[0]] + a[1..];
    } else {
      MergeHas(a, b[1..], e);
      assert b == [b[0]] + b[1..];
    }
  }

  lemma {:induction false} MergeSorted(a: seq<Entry>, b: seq<nat>)
    requires EntriesSorted(a) && Sorted(b)
    ensures EntriesSorted(Merge(a, b))
    decreases |a| + |b|
  {
    if b != [] {
      var head, tail := Merge(a, b)[0], Merge(a, b)[1..];
      if a != [] && a[0].row < b[0] {
        MergeSorted(a[1..], b);
        forall k | 0 <= k < |tail| ensures head.row <= tail[k].row {
          MergeHas(a[1..], b, tail[k]);
        }
      } else {
        MergeSorted(a, b[1..]);
        forall k | 0 <= k < |tail| ensures head.row <= tail[k].row {
          MergeHas(a, b[1..], tail[k]);
        }
      }
    }
  }

  /** Neighbours on one row: an inlined delete, then the file's delete of the same row. */
  lemma {:induction false} MergeNeighbours(a: seq<Entry>, b: seq<nat>, m: nat)
    requires EntriesIncreasing(a) && StrictlyIncreasing(b)
    requires m + 1 < |a| + |b| && Merge(a, b)[m].row == Merge(a, b)[m + 1].row
    ensures Merge(a, b)[m].snapshot == 0 && Merge(a, b)[m].row in b && exists e :: e in a && e.row == Merge(a, b)[m].row
    decreases |a| + |b|
  {
    if b == [] {
      assert false;
    } else if a != [] && a[0].row < b[0] {
      var tail := Merge(a[1..], b);
      MergeHas(a[1..], b, tail[0]);
      assert tail[0].row > a[0].row;
      if m > 0 {
        MergeNeighbours(a[1..], b, m - 1);
        var e :| e in a[1..] && e.row == Merge(a, b)[m].row;
        assert e in a;
      }
    } else {
      var tail := Merge(a, b[1..]);
      if m > 0 {
        MergeNeighbours(a, b[1..], m - 1);
      } else {
        MergeHas(a, b[1..], tail[0]);
        assert tail[0] in a;
      }
    }
  }

  /** A row deleted both in the file and inlined takes two neighbouring entries. */
  lemma {:induction false} MergeRepeats(a: seq<Entry>, b: seq<nat>, row: nat) returns (m: nat)
    requires EntriesIncreasing(a) && StrictlyIncreasing(b)
    requires row in b && exists e :: e in a && e.row == row
    ensures m + 1 < |a| + |b| && Merge(a, b)[m].row == row == Merge(a, b)[m + 1].row
    decreases |a| + |b|
  {
    var e :| e in a && e.row == row;
    if a[0].row < b[0] {
      assert e in a[1..];
      m := MergeRepeats(a[1..], b, row);
      m := m + 1;
    } else if b[0] == row {
      assert a[0].row == row;
      m := 0;
      assert b[1..] != [] ==> b[1..][0] > row;
    } else {
      assert row in b[1..];
      m := MergeRepeats(a, b[1..], row);
      m := m + 1;
    }
  }

  /** A list with the inlined deletes merged in: each entry keeps its snapshot, and a list without
      snapshots stays without. */
  function WithInlined(d: Deletes, inlined: seq<nat>): Deletes
    requires d.snapshots == [] || |d.snapshots| == |d.rows|
  {
    var merged := Merge(Entries(d.rows, d.snapshots), inlined);
    Deletes(RowsOf(merged), if d.snapshots == [] then [] else SnapshotsOf(merged), d.filter)
  }

  function RowsOf(s: seq<Entry>): (r: seq<nat>)
    ensures |r| == |s|
  {
    seq(|s|, i requires 0 <= i < |s| => s[i].row)
  }

  function SnapshotsOf(s: seq<Entry>): (r: seq<nat>)
    ensures |r| == |s|
  {
    seq(|s|, i requires 0 <= i < |s| => s[i].snapshot)
  }

  lemma WithInlinedUsable(d: Deletes, inlined: seq<nat>)
    requires Usable(d) && Sorted(inlined)
    ensures Usable(WithInlined(d, inlined))
  {
    MergeSorted(Entries(d.rows, d.snapshots), inlined);
  }

  /** After the merge a row is deleted when the file deletes it or it is inlined. */
  lemma WithInlinedDeletes(d: Deletes, inlined: seq<nat>, row: nat)
    requires Usable(d) && Sorted(inlined)
    ensures Usable(WithInlined(d, inlined))
    ensures IsDeleted(WithInlined(d, inlined), row) <==> IsDeleted(d, row) || row in inlined
  {
    WithInlinedUsable(d, inlined);
    var a := Entries(d.rows, d.snapshots);
    var merged, w := Merge(a, inlined), WithInlined(d, inlined);
    if IsDeleted(w, row) {
      var k :| 0 <= k < |w.rows| && w.rows[k] == row && Effective(w, k);
      MergeHas(a, inlined, merged[k]);
      assert merged[k] in merged;
      if merged[k] in a {
        var i :| 0 <= i < |a| && a[i] == merged[k];
        assert Effective(d, i);
      }
    }
    if IsDeleted(d, row) {
      var i :| 0 <= i < |d.rows| && d.rows[i] == row && Effective(d, i);
      MergeHas(a, inlined, a[i]);
      var k :| 0 <= k < |merged| && merged[k] == a[i];
      assert Effective(w, k);
    }
    if row in inlined {
      MergeHas(a, inlined, Entry(row, 0));
      var k :| 0 <= k < |merged| && merged[k] == Entry(row, 0);
      assert Effective(w, k);
    }
  }

  /** The merged list is findable exactly when no row beyond a row deleted twice is deleted. */
  lemma WithInlinedFindable(d: Deletes, inlined: seq<nat>)
    requires Usable(d) && StrictlyIncreasing(d.rows) && StrictlyIncreasing(inlined)
    ensures Usable(WithInlined(d, inlined))
    ensures Findable(WithInlined(d, inlined)) <==>
            forall row, beyond :: row in d.rows && row in inlined && IsDeleted(WithInlined(d, inlined), beyond) ==> beyond <= row
  {
    WithInlinedUsable(d, inlined);
    var w := WithInlined(d, inlined);
    if Findable(w) {
      forall row, beyond | row in d.rows && row in inlined && IsDeleted(w, beyond) ensures beyond <= row {
        RepeatBlocks(d, inlined, row, beyond);
      }
    } else {
      var j :| 0 <= j < |w.rows| && Effective(w, j) && !Found(w, j);
      assert IsDeleted(w, w.rows[j]);
      var row := BlockedByRepeat(d, inlined, j);
      assert row < w.rows[j];
    }
  }

  /** Which rows are read, whatever the chunks: those of the file below the row cap that no entry deletes for
      a reader at the filter's snapshot. */
  lemma ReadExactlyWhen(d: Deletes, cap: Option<nat>, counts: seq<nat>, x: nat)
    requires Usable(d) && Findable(d)
    ensures x in ReadChunks(d, cap, 0, counts) <==>
            && x < Sum(counts) && (cap.Some? ==> x < cap.value)
            && !exists k :: 0 <= k < |d.rows| && d.rows[k] == x &&
                            (d.filter.None? || d.snapshots == [] || d.snapshots[k] <= d.filter.value)
  {
    ChunksKeepUndeleted(d, cap, 0, counts);
    SurvivorsAre(d, 0, Capped(cap, 0, Sum(counts)), x);
  }

  /** Rows 3 and 5 deleted in the file and row 3 inlined as well: the chunk of rows 3 to 5 keeps row 5. */
  lemma DoubleDeleteHides()
    ensures var w := WithInlined(Deletes([3, 5], [], None), [3]);
            w.rows == [3, 3, 5] && IsDeleted(w, 5) && Picked(w, 3, 3) == [4, 5]
  {
    var d := Deletes([3, 5], [], None);
    var entries := Entries(d.rows, d.snapshots);
    assert entries == [Entry(3, 0), Entry(5, 0)];
    assert Merge(entries, [3]) == [Entry(3, 0)] + Merge(entries, [3][1..]) == [Entry(3, 0), Entry(3, 0), Entry(5, 0)];
    var w := WithInlined(d, [3]);
    assert w.rows == [3, 3, 5];
    assert Effective(w, 2) && w.rows[2] == 5;
    assert Pointer(w, 3, 0) == 0 && Pointer(w, 3, 1) == 1 && Pointer(w, 3, 2) == 1;
    assert Picked(w, 3, 1) == [] && Picked(w, 3, 2) == [4];
  }

  lemma RepeatBlocks(d: Deletes, inlined: seq<nat>, row: nat, beyond: nat)
    requires Usable(d) && StrictlyIncreasing(d.rows) && StrictlyIncreasing(inlined)
    requires Usable(WithInlined(d, inlined)) && Findable(WithInlined(d, inlined))
    requires row in d.rows && row in inlined && IsDeleted(WithInlined(d, inlined), beyond)
    ensures beyond <= row
  {
    var m := CommonRowRepeats(d, inlined, row);
    var w := WithInlined(d, inlined);
    var j :| 0 <= j < |w.rows| && w.rows[j] == beyond && Effective(w, j);
    assert Found(w, j);
    var f :| LeadsTo(w, f, j);
    assert m >= f;
  }

  lemma CommonRowRepeats(d: Deletes, inlined: seq<nat>, row: nat) returns (m: nat)
    requires Usable(d) && StrictlyIncreasing(d.rows) && StrictlyIncreasing(inlined) && row in d.rows && row in inlined
    ensures Repeats(WithInlined(d, inlined).rows, m) && WithInlined(d, inlined).rows[m] == row
  {
    var a := Entries(d.rows, d.snapshots);
    var i :| 0 <= i < |d.rows| && d.rows[i] == row;
    assert a[i] in a && a[i].row == row;
    m := MergeRepeats(a, inlined, row);
  }

  /** A repeated row of the merged list is deleted in the file and inlined; the inlined one leads. */
  lemma RepeatIsCommon(d: Deletes, inlined: seq<nat>, m: nat)
    requires Usable(d) && StrictlyIncreasing(d.rows) && StrictlyIncreasing(inlined)
    requires Usable(WithInlined(d, inlined)) && Repeats(WithInlined(d, inlined).rows, m)
    ensures WithInlined(d, inlined).rows[m] in d.rows && WithInlined(d, inlined).rows[m] in inlined
    ensures Effective(WithInlined(d, inlined), m)
  {
    var a, w := Entries(d.rows, d.snapshots), WithInlined(d, inlined);
    MergeNeighbours(a, inlined, m);
    var e :| e in a && e.row == w.rows[m];
    var i :| 0 <= i < |a| && a[i] == e;
    assert d.rows[i] == w.rows[m];
  }

  lemma BlockedByRepeat(d: Deletes, inlined: seq<nat>, j: nat) returns (row: nat)
    requires Usable(d) && StrictlyIncreasing(d.rows) && StrictlyIncreasing(inlined)
    requires Usable(WithInlined(d, inlined)) && j < |WithInlined(d, inlined).rows|
    requires Effective(WithInlined(d, inlined), j) && !Found(WithInlined(d, inlined), j)
    ensures row in d.rows && row in inlined && row < WithInlined(d, inlined).rows[j]
  {
    var w := WithInlined(d, inlined);
    var f := Lead(w.rows, j);
    if f < j {
      assert w.rows[f] <= w.rows[f + 1] <= w.rows[j];
      RepeatIsCommon(d, inlined, f);
    }
    assert !LeadsTo(w, f, j);
    var m :| 0 <= m < f && Repeats(w.rows, m);
    RepeatIsCommon(d, inlined, m);
    row := w.rows[m];
    assert w.rows[m + 1] <= w.rows[f - 1] < w.rows[f];
  }
}
