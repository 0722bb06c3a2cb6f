/**
 How one replication cycle brings a destination table up to its source: by primary-key merge, by
 replaying a watermark window, or by replaying the source's snapshot changes and checking the
 result.  Tables are row sequences; equality is equality as multisets of rows.
 */
module ReplicaApply {
  import opened OrderedSets
  import opened Tables

  // ---- merge on primary keys ----

  predicate HasKey<R, K(==)>(rows: seq<R>, key: R -> K, k: K) {
    exists i :: 0 <= i < |rows| && key(rows[i]) == k
  }

  /** Some row of the table has this row's key but differs from it. */
  predicate HasChanged<R(==), K(==)>(rows: seq<R>, key: R -> K, r: R) {
    exists i :: 0 <= i < |rows| && key(rows[i]) == key(r) && rows[i] != r
  }

  ghost predicate UniqueKeys<R, K>(rows: seq<R>, key: R -> K) {
    forall i, j :: 0 <= i < j < |rows| ==> key(rows[i]) != key(rows[j])
  }

  /** The destination rows that survive the two deletes: those with a key of the source, unchanged. */
  function Unchanged<R(==), K(==)>(dest: seq<R>, source: seq<R>, key: R -> K): seq<R> {
    Select(Select(dest, d => HasKey(source, key, key(d))), d => !HasChanged(source, key, d))
  }

  function Merged<R(==), K(==)>(dest: seq<R>, source: seq<R>, key: R -> K): seq<R> {
    var kept := Unchanged(dest, source, key);
    kept + Select(source, s => !HasKey(kept, key, key(s)))
  }

  lemma {:induction false} UniqueKeysCount<R, K>(rows: seq<R>, key: R -> K, x: R)
    requires UniqueKeys(rows, key)
    ensures multiset(rows)[x] <= 1
  {
    if rows != [] {
      var n := |rows| - 1;
      UniqueKeysCount(rows[..n], key, x);
      assert rows == rows[..n] + [rows[n]];
      if x in rows[..n] {
        var i :| 0 <= i < n && rows[i] == x;
        assert rows[n] != x;
      }
    }
  }

  lemma UnchangedCount<R, K>(dest: seq<R>, source: seq<R>, key: R -> K, x: R)
    requires UniqueKeys(source, key)
    ensures multiset(Unchanged(dest, source, key))[x] == if x in source then multiset(dest)[x] else 0
  {
    var hasKey, same := d => HasKey(source, key, key(d)), d => !HasChanged(source, key, d);
    SelectCounts(dest, hasKey, x);
    SelectCounts(Select(dest, hasKey), same, x);
    if x in source {
      var i :| 0 <= i < |source| && source[i] == x;
      assert HasKey(source, key, key(x)) && !HasChanged(source, key, x);
    }
  }

  lemma InsertedExactly<R, K>(dest: seq<R>, source: seq<R>, key: R -> K, x: R)
    requires UniqueKeys(source, key) && x in source
    ensures HasKey(Unchanged(dest, source, key), key, key(x)) <==> x in dest
  {
    var kept := Unchanged(dest, source, key);
    UnchangedCount(dest, source, key, x);
    if x in dest {
      assert x in kept;
      var i :| 0 <= i < |kept| && kept[i] == x;
    }
    if HasKey(kept, key, key(x)) {
      var i :| 0 <= i < |kept| && key(kept[i]) == key(x);
      assert kept[i] in kept;
      UnchangedCount(dest, source, key, kept[i]);
      assert kept[i] in source && kept[i] in dest;
      assert kept[i] == x;
    }
  }

  lemma MergedCount<R, K>(dest: seq<R>, source: seq<R>, key: R -> K, x: R)
    requires UniqueKeys(source, key)
    ensures multiset(Merged(dest, source, key))[x] ==
            if x !in source then 0 else if x in dest then multiset(dest)[x] else 1
  {
    var kept := Unchanged(dest, source, key);
    var isNew := s => !HasKey(kept, key, key(s));
    SelectCounts(source, isNew, x);
    UnchangedCount(dest, source, key, x);
    UniqueKeysCount(source, key, x);
    if x in source {
      InsertedExactly(dest, source, key, x);
    }
  }

  /** With unique source keys the merge makes the destination equal to the source exactly when the
      destination stored no source row more than once: nothing removes surplus copies. */
  lemma MergeExactlyWhen<R, K>(dest: seq<R>, source: seq<R>, key: R -> K)
    requires UniqueKeys(source, key)
    ensures SameRows(Merged(dest, source, key), source) <==> forall x :: x in source ==> multiset(dest)[x] <= 1
  {
    var merged := Merged(dest, source, key);
    if forall x :: x in source ==> multiset(dest)[x] <= 1 {
      forall x ensures multiset(merged)[x] == multiset(source)[x] {
        MergedCount(dest, source, key, x);
        UniqueKeysCount(source, key, x);
      }
      SameCounts(merged, source);
    }
    if SameRows(merged, source) {
      forall x | x in source ensures multiset(dest)[x] <= 1 {
        MergedCount(dest, source, key, x);
        UniqueKeysCount(source, key, x);
      }
    }
  }

  /** A destination that holds a row twice keeps both copies. */
  lemma MergeKeepsSurplus(key: int -> int)
    ensures !SameRows(Merged([7, 7], [7], key), [7])
  {
    assert multiset([7, 7])[7] == 2;
    MergeExactlyWhen([7, 7], [7], key);
  }

  // ---- watermark window ----

  predicate AtLeast(v: Option<int>, low: int) {
    v.Some? && v.value >= low
  }

  predicate AtMost(v: Option<int>, high: int) {
    v.Some? && v.value <= high
  }

  function UpTo<R>(wm: R -> Option<int>, high: int): R -> bool {
    r => AtMost(wm(r), high)
  }

  function InWindow<R>(wm: R -> Option<int>, low: int, high: int): R -> bool {
    r => AtLeast(wm(r), low) && AtMost(wm(r), high)
  }

  function BelowLow<R>(wm: R -> Option<int>, low: int): R -> bool {
    r => !AtLeast(wm(r), low)
  }

  /** Replays the rows from the lower bound up to the upper one. */
  function WindowReplayed<R>(dest: seq<R>, source: seq<R>, wm: R -> Option<int>, low: Option<int>, high: int): seq<R> {
    if low.None? then dest + Select(source, UpTo(wm, high))
    else Select(dest, BelowLow(wm, low.value)) + Select(source, InWindow(wm, low.value, high))
  }

  ghost predicate NoNulls<R>(rows: seq<R>, wm: R -> Option<int>) {
    forall r :: r in rows ==> wm(r).Some?
  }

  function Below<R>(rows: seq<R>, wm: R -> Option<int>, low: int): seq<R> {
    Select(rows, BelowLow(wm, low))
  }

  lemma WindowCount<R>(dest: seq<R>, source: seq<R>, wm: R -> Option<int>, low: Option<int>, high: int, x: R)
    requires NoNulls(source, wm) && Extremum(source, wm, true) == Some(high)
    ensures multiset(WindowReplayed(dest, source, wm, low, high))[x] ==
            if low.None? then multiset(dest)[x] + multiset(source)[x]
            else if AtLeast(wm(x), low.value) then multiset(source)[x] else multiset(dest)[x]
  {
    ExtremumIs(source, wm, true);
    assert x in source ==> AtMost(wm(x), high);
    if low.None? {
      SelectCounts(source, UpTo(wm, high), x);
    } else {
      SelectCounts(dest, BelowLow(wm, low.value), x);
      SelectCounts(source, InWindow(wm, low.value, high), x);
    }
  }

  /** Replaying the window up to the source's maximum makes the tables equal exactly when they agreed
      below the lower bound. */
  lemma WindowExactlyWhen<R>(dest: seq<R>, source: seq<R>, wm: R -> Option<int>, low: int, high: int)
    requires NoNulls(source, wm) && Extremum(source, wm, true) == Some(high)
    ensures SameRows(WindowReplayed(dest, source, wm, Some(low), high), source) <==>
            SameRows(Below(dest, wm, low), Below(source, wm, low))
  {
    var applied, a, b := WindowReplayed(dest, source, wm, Some(low), high), Below(dest, wm, low), Below(source, wm, low);
    if SameRows(applied, source) {
      forall x ensures multiset(a)[x] == multiset(b)[x] {
        WindowCounts(dest, source, wm, low, high, x);
      }
      SameCounts(a, b);
    }
    if SameRows(a, b) {
      forall x ensures multiset(applied)[x] == multiset(source)[x] {
        WindowCounts(dest, source, wm, low, high, x);
      }
      SameCounts(applied, source);
    }
  }

  lemma WindowCounts<R>(dest: seq<R>, source: seq<R>, wm: R -> Option<int>, low: int, high: int, x: R)
    requires NoNulls(source, wm) && Extremum(source, wm, true) == Some(high)
    ensures multiset(WindowReplayed(dest, source, wm, Some(low), high))[x] == if AtLeast(wm(x), low) then multiset(source)[x] else multiset(dest)[x]
    ensures multiset(Below(dest, wm, low))[x] == if AtLeast(wm(x), low) then 0 else multiset(dest)[x]
    ensures multiset(Below(source, wm, low))[x] == if AtLeast(wm(x), low) then 0 else multiset(source)[x]
  {
    WindowCount(dest, source, wm, Some(low), high, x);
    SelectCounts(dest, BelowLow(wm, low), x);
    SelectCounts(source, BelowLow(wm, low), x);
  }

  /** Which rows a window holds afterwards, whatever its bounds and with NULL watermarks: from the lower bound
      on the source's up to the upper one, elsewhere what the destination had.  Without a lower bound
      the source's rows up to the upper one are added. */
  lemma WindowMeans<R>(dest: seq<R>, source: seq<R>, wm: R -> Option<int>, low: Option<int>, high: int, x: R)
    ensures low.Some? && wm(x).Some? && low.value <= wm(x).value ==>
              multiset(WindowReplayed(dest, source, wm, low, high))[x] == if wm(x).value <= high then multiset(source)[x] else 0
    ensures low.Some? && (wm(x).None? || wm(x).value < low.value) ==>
              multiset(WindowReplayed(dest, source, wm, low, high))[x] == multiset(dest)[x]
    ensures low.None? ==>
              multiset(WindowReplayed(dest, source, wm, low, high))[x] ==
              multiset(dest)[x] + if wm(x).Some? && wm(x).value <= high then multiset(source)[x] else 0
  {
    if low.None? {
      SelectCounts(source, UpTo(wm, high), x);
    } else {
      SelectCounts(dest, BelowLow(wm, low.value), x);
      SelectCounts(source, InWindow(wm, low.value, high), x);
    }
  }

  /** Seeding an empty table up to the maximum copies the source. */
  lemma SeedIsExact<R>(source: seq<R>, wm: R -> Option<int>, high: int)
    requires NoNulls(source, wm) && Extremum(source, wm, true) == Some(high)
    ensures SameRows(WindowReplayed([], source, wm, None, high), source)
  {
    var seeded := WindowReplayed([], source, wm, None, high);
    forall x ensures multiset(seeded)[x] == multiset(source)[x] {
      WindowCount([], source, wm, None, high, x);
    }
    SameCounts(seeded, source);
  }

  // ---- snapshot changes ----

  datatype Kind = Insert | Delete | Preimage | Postimage

  datatype Change<R> = Change(snapshot: nat, rowId: nat, kind: Kind, row: R)

  function InsertsAt<R>(delta: seq<Change<R>>, s: nat): seq<R> {
    if delta == [] then []
    else
      var c := delta[|delta| - 1];
      InsertsAt(delta[..|delta| - 1], s) + if c.snapshot == s && (c.kind.Insert? || c.kind.Postimage?) then [c.row] else []
  }

  /** An update that leaves the row as it was must not delete it. */
  predicate IsNoOpUpdate<R(==)>(delta: seq<Change<R>>, c: Change<R>) {
    Change(c.snapshot, c.rowId, Postimage, c.row) in delta
  }

  predicate DeletedAt<R(==)>(delta: seq<Change<R>>, s: nat, r: R) {
    exists i :: 0 <= i < |delta| && delta[i].snapshot == s && delta[i].row == r
                && (delta[i].kind.Delete? || (delta[i].kind.Preimage? && !IsNoOpUpdate(delta, delta[i])))
  }

  function SnapshotReplayed<R(==)>(dest: seq<R>, delta: seq<Change<R>>, s: nat): seq<R> {
    var inserted := dest + Select(InsertsAt(delta, s), r => r !in dest);
    Select(inserted, r => !DeletedAt(delta, s, r))
  }

  /** Replays the first n of the listed snapshots. */
  function Replayed<R(==)>(dest: seq<R>, delta: seq<Change<R>>, snapshots: seq<nat>, n: nat): seq<R>
    requires n <= |snapshots|
  {
    if n == 0 then dest else SnapshotReplayed(Replayed(dest, delta, snapshots, n - 1), delta, snapshots[n - 1])
  }

  function SnapshotsIn<R>(delta: seq<Change<R>>): set<nat> {
    set i | 0 <= i < |delta| :: delta[i].snapshot
  }

  /** Replays all snapshots of the delta in order. */
  function AllReplayed<R(==)>(dest: seq<R>, delta: seq<Change<R>>): seq<R> {
    var snapshots := Ascending(SnapshotsIn(delta));
    Replayed(dest, delta, snapshots, |snapshots|)
  }

  // ---- replaying a window of snapshots ----

  ghost predicate NoDuplicates<R>(rows: seq<R>) {
    forall x :: x in rows ==> multiset(rows)[x] <= 1
  }

  /** Snapshot s changes row r, according to the delta. */
  ghost predicate Touches<R>(delta: seq<Change<R>>, s: nat, r: R) {
    r in InsertsAt(delta, s) || DeletedAt(delta, s, r)
  }

  /** The source at snapshot s agrees with the delta: rows deleted then are gone, other rows inserted
      then are there, and rows not mentioned are as at the snapshot before. */
  ghost predicate Explains<R>(history: seq<seq<R>>, delta: seq<Change<R>>, s: nat, r: R)
    requires s < |history|
  {
    && (DeletedAt(delta, s, r) ==> r !in history[s])
    && (r in InsertsAt(delta, s) && !DeletedAt(delta, s, r) ==> r in history[s])
    && (!Touches(delta, s, r) && s > 0 ==> (r in history[s] <==> r in history[s - 1]))
  }

  lemma ReplayedMember<R>(dest: seq<R>, delta: seq<Change<R>>, s: nat, r: R)
    ensures r in SnapshotReplayed(dest, delta, s) <==> (r in dest || r in InsertsAt(delta, s)) && !DeletedAt(delta, s, r)
  {
    var isNew, stays := r => r !in dest, r => !DeletedAt(delta, s, r);
    var added := Select(InsertsAt(delta, s), isNew);
    SelectCounts(InsertsAt(delta, s), isNew, r);
    SelectCounts(dest + added, stays, r);
    assert multiset(dest + added)[r] == multiset(dest)[r] + multiset(added)[r];
  }
}
