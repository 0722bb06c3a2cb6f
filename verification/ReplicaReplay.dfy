/**
 Replaying snapshot changes from a saved cursor.  When the source never stores a row twice, the
 replay ends at the source's newest state from any state the source went through since the
 cursor, so a replay that is repeated after a crash needs no repair.
 */
module ReplicaReplay {
  import opened OrderedSets
  import opened Tables
  import opened ReplicaApply

  /** The delta covers the snapshots from low to high and explains what the source did in them. */
  ghost predicate ExactDelta<R(!new)>(history: seq<seq<R>>, delta: seq<Change<R>>, low: nat, high: nat) {
    && low <= high < |history|
    && (forall i :: 0 <= i < |delta| ==> low <= delta[i].snapshot <= high)
    && forall s, r {:trigger Explains(history, delta, s, r)} :: low <= s <= high ==> Explains(history, delta, s, r)
  }

  lemma {:induction false} InsertListed<R>(delta: seq<Change<R>>, s: nat, r: R)
    requires r in InsertsAt(delta, s)
    ensures s in SnapshotsIn(delta)
  {
    var n := |delta| - 1;
    if r in InsertsAt(delta[..n], s) {
      InsertListed(delta[..n], s, r);
      var i :| 0 <= i < n && delta[..n][i].snapshot == s;
      assert delta[i].snapshot == s;
    } else {
      assert delta[n].snapshot == s;
    }
  }

  lemma TouchListed<R>(delta: seq<Change<R>>, s: nat, r: R)
    requires Touches(delta, s, r)
    ensures s in SnapshotsIn(delta)
  {
    if r in InsertsAt(delta, s) {
      InsertListed(delta, s, r);
    }
  }

  /** A row not touched after snapshot a up to b is there at both or at neither. */
  lemma {:induction false} Untouched<R(!new)>(history: seq<seq<R>>, delta: seq<Change<R>>, low: nat, high: nat, a: nat, b: nat, r: R)
    requires ExactDelta(history, delta, low, high) && low <= a <= b <= high
    requires forall s :: a < s <= b ==> !Touches(delta, s, r)
    ensures r in history[a] <==> r in history[b]
    decreases b
  {
    if a < b {
      assert Explains(history, delta, b, r);
      Untouched(history, delta, low, high, a, b - 1, r);
    }
  }

  /** Some snapshot among the first i listed ones touches the row. */
  ghost predicate TouchedBefore<R>(delta: seq<Change<R>>, snapshots: seq<nat>, i: nat, r: R)
    requires i <= |snapshots|
  {
    exists k :: 0 <= k < i && Touches(delta, snapshots[k], r)
  }

  /** Replaying one snapshot makes the rows it touches as the source had them, and leaves the others. */
  lemma SnapshotTracks<R(!new)>(history: seq<seq<R>>, delta: seq<Change<R>>, s: nat, d: seq<R>, r: R)
    requires s < |history| && Explains(history, delta, s, r)
    ensures r in SnapshotReplayed(d, delta, s) <==> if Touches(delta, s, r) then r in history[s] else r in d
  {
    ReplayedMember(d, delta, s, r);
  }

  /** After i replayed snapshots, rows touched so far are as the source had them then, and the others
      as they were before the replay. */
  ghost predicate Tracks<R>(history: seq<seq<R>>, delta: seq<Change<R>>, dest: seq<R>, snapshots: seq<nat>, i: nat, d: seq<R>, r: R)
    requires i <= |snapshots| && forall k :: 0 <= k < |snapshots| ==> snapshots[k] < |history|
  {
    if TouchedBefore(delta, snapshots, i, r) then i > 0 && (r in d <==> r in history[snapshots[i - 1]])
    else r in d <==> r in dest
  }

  lemma {:induction false} ReplayTracks<R(!new)>(
      history: seq<seq<R>>, delta: seq<Change<R>>, low: nat, high: nat, dest: seq<R>, snapshots: seq<nat>, i: nat, r: R)
    requires ExactDelta(history, delta, low, high) && snapshots == Ascending(SnapshotsIn(delta)) && i <= |snapshots|
    requires forall k :: 0 <= k < |snapshots| ==> low <= snapshots[k] <= high
    ensures Tracks(history, delta, dest, snapshots, i, Replayed(dest, delta, snapshots, i), r)
    decreases i
  {
    if i > 0 {
      ReplayTracks(history, delta, low, high, dest, snapshots, i - 1, r);
      StepTracks(history, delta, low, high, dest, snapshots, i, Replayed(dest, delta, snapshots, i - 1), r);
    }
  }

  lemma StepTracks<R(!new)>(
      history: seq<seq<R>>, delta: seq<Change<R>>, low: nat, high: nat, dest: seq<R>, snapshots: seq<nat>, i: nat, d: seq<R>, r: R)
    requires ExactDelta(history, delta, low, high) && snapshots == Ascending(SnapshotsIn(delta)) && 0 < i <= |snapshots|
    requires forall k :: 0 <= k < |snapshots| ==> low <= snapshots[k] <= high
    requires Tracks(history, delta, dest, snapshots, i - 1, d, r)
    ensures Tracks(history, delta, dest, snapshots, i, SnapshotReplayed(d, delta, snapshots[i - 1]), r)
  {
    assert Explains(history, delta, snapshots[i - 1], r);
    SnapshotTracks(history, delta, snapshots[i - 1], d, r);
    TouchedNow(delta, snapshots, i, r);
    if !Touches(delta, snapshots[i - 1], r) && TouchedBefore(delta, snapshots, i - 1, r) {
      BetweenListed(history, delta, low, high, snapshots, i - 1, r);
    }
  }

  lemma TouchedNow<R>(delta: seq<Change<R>>, snapshots: seq<nat>, i: nat, r: R)
    requires 0 < i <= |snapshots|
    ensures TouchedBefore(delta, snapshots, i, r) <==> TouchedBefore(delta, snapshots, i - 1, r) || Touches(delta, snapshots[i - 1], r)
  {
  }

  lemma NotBetween(snapshots: seq<nat>, i: nat, s: nat)
    requires Increasing(snapshots) && 0 < i < |snapshots| && snapshots[i - 1] < s < snapshots[i]
    ensures s !in snapshots
  {
    forall k | 0 <= k < |snapshots| ensures snapshots[k] != s {
      assert k < i ==> snapshots[k] <= snapshots[i - 1];
      assert k > i ==> snapshots[i] < snapshots[k];
    }
  }

  /** A touched snapshot is listed, so it is not after the last one. */
  lemma TouchIsBefore<R>(delta: seq<Change<R>>, snapshots: seq<nat>, s: nat, r: R)
    requires Touches(delta, s, r) && snapshots == Ascending(SnapshotsIn(delta))
    ensures snapshots != [] && s <= snapshots[|snapshots| - 1] && TouchedBefore(delta, snapshots, |snapshots|, r)
  {
    TouchListed(delta, s, r);
    assert s in snapshots;
    var k :| 0 <= k < |snapshots| && snapshots[k] == s;
  }

  /** Between two neighbouring listed snapshots nothing changes. */
  lemma BetweenListed<R(!new)>(history: seq<seq<R>>, delta: seq<Change<R>>, low: nat, high: nat, snapshots: seq<nat>, i: nat, r: R)
    requires ExactDelta(history, delta, low, high) && snapshots == Ascending(SnapshotsIn(delta)) && 0 < i < |snapshots|
    requires low <= snapshots[i - 1] < snapshots[i] <= high && !Touches(delta, snapshots[i], r)
    ensures r in history[snapshots[i - 1]] <==> r in history[snapshots[i]]
  {
    forall s | snapshots[i - 1] < s <= snapshots[i] ensures !Touches(delta, s, r) {
      if s < snapshots[i] {
        NotBetween(snapshots, i, s);
        assert s !in SnapshotsIn(delta);
        if Touches(delta, s, r) {
          TouchListed(delta, s, r);
        }
      }
    }
    Untouched(history, delta, low, high, snapshots[i - 1], snapshots[i], r);
  }

  lemma ReplayNoDuplicates<R>(dest: seq<R>, delta: seq<Change<R>>, s: nat)
    requires NoDuplicates(dest) && NoDuplicates(InsertsAt(delta, s))
    ensures NoDuplicates(SnapshotReplayed(dest, delta, s))
  {
    var isNew, stays := r => r !in dest, r => !DeletedAt(delta, s, r);
    var added := Select(InsertsAt(delta, s), isNew);
    forall x | x in SnapshotReplayed(dest, delta, s) ensures multiset(SnapshotReplayed(dest, delta, s))[x] <= 1 {
      SelectCounts(dest + added, stays, x);
      SelectCounts(InsertsAt(delta, s), isNew, x);
      assert multiset(dest + added)[x] == multiset(dest)[x] + multiset(added)[x];
    }
  }

  lemma {:induction false} AllReplayNoDuplicates<R>(dest: seq<R>, delta: seq<Change<R>>, snapshots: seq<nat>, n: nat)
    requires n <= |snapshots| && NoDuplicates(dest) && forall k :: 0 <= k < |snapshots| ==> NoDuplicates(InsertsAt(delta, snapshots[k]))
    ensures NoDuplicates(Replayed(dest, delta, snapshots, n))
  {
    if n > 0 {
      AllReplayNoDuplicates(dest, delta, snapshots, n - 1);
      ReplayNoDuplicates(Replayed(dest, delta, snapshots, n - 1), delta, snapshots[n - 1]);
    }
  }

  lemma SameMembers<R>(a: seq<R>, b: seq<R>)
    requires NoDuplicates(a) && NoDuplicates(b) && forall x :: x in a <==> x in b
    ensures SameRows(a, b)
  {
    forall x ensures multiset(a)[x] == multiset(b)[x] {
      assert x in a <==> x in multiset(a);
      assert x in b <==> x in multiset(b);
    }
    SameCounts(a, b);
  }

  /** Replaying the changes since low onto any state the source had from low on ends at the source's
      newest state: rows replayed twice are inserted and deleted without effect. */
  lemma ReplayCatchesUp<R(!new)>(history: seq<seq<R>>, delta: seq<Change<R>>, low: nat, h: nat, high: nat, dest: seq<R>)
    requires ExactDelta(history, delta, low, high) && low <= h <= high
    requires SameRows(dest, history[h]) && NoDuplicates(history[h]) && NoDuplicates(history[high])
    requires forall s :: s in SnapshotsIn(delta) ==> NoDuplicates(InsertsAt(delta, s))
    ensures SameRows(AllReplayed(dest, delta), history[high])
  {
    var snapshots := Ascending(SnapshotsIn(delta));
    var n := |snapshots|;
    forall k | 0 <= k < n ensures low <= snapshots[k] <= high {
      assert snapshots[k] in snapshots;
    }
    forall r ensures r in Replayed(dest, delta, snapshots, n) <==> r in history[high] {
      ReplayTracks(history, delta, low, high, dest, snapshots, n, r);
      SameRowsMembers(dest, history[h], r);
      AfterLast(history, delta, low, h, high, snapshots, r);
    }
    forall x | x in dest ensures multiset(dest)[x] <= 1 {
      SameRowsMembers(dest, history[h], x);
    }
    AllReplayNoDuplicates(dest, delta, snapshots, n);
    SameMembers(Replayed(dest, delta, snapshots, n), history[high]);
  }

  /** After the last listed snapshot nothing changes; a row never listed does not change at all. */
  lemma AfterLast<R(!new)>(history: seq<seq<R>>, delta: seq<Change<R>>, low: nat, h: nat, high: nat, snapshots: seq<nat>, r: R)
    requires ExactDelta(history, delta, low, high) && low <= h <= high && snapshots == Ascending(SnapshotsIn(delta))
    requires forall k :: 0 <= k < |snapshots| ==> low <= snapshots[k] <= high
    ensures r in history[high] <==>
            if TouchedBefore(delta, snapshots, |snapshots|, r) then r in history[snapshots[|snapshots| - 1]] else r in history[h]
  {
    var from := if TouchedBefore(delta, snapshots, |snapshots|, r) then snapshots[|snapshots| - 1] else h;
    forall s | from < s <= high ensures !Touches(delta, s, r) {
      if Touches(delta, s, r) {
        TouchIsBefore(delta, snapshots, s, r);
      }
    }
    Untouched(history, delta, low, high, from, high, r);
  }

  // ---- where the delta comes from ----

  /** A row of the change feed between two versions of a table whose rows have ids that updates keep.  An
      update need not change anything. */
  ghost predicate IsChangeOf<R>(before: map<nat, R>, after: map<nat, R>, updated: set<nat>, c: Change<R>) {
    match c.kind
    case Insert => c.rowId !in before && c.rowId in after && c.row == after[c.rowId]
    case Delete => c.rowId in before && c.rowId !in after && c.row == before[c.rowId]
    case Preimage => c.rowId in updated && c.rowId in before && c.row == before[c.rowId]
    case Postimage => c.rowId in updated && c.rowId in after && c.row == after[c.rowId]
  }

  /** The delta's changes at snapshot s are those between the two versions. */
  ghost predicate IsFeedOf<R(!new)>(before: map<nat, R>, after: map<nat, R>, updated: set<nat>, delta: seq<Change<R>>, s: nat) {
    && (forall id :: id in updated ==> id in before && id in after)
    && (forall id :: id in before && id in after && before[id] != after[id] ==> id in updated)
    && (forall c :: c in delta && c.snapshot == s ==> IsChangeOf(before, after, updated, c))
    && (forall c: Change<R> :: c.snapshot == s && IsChangeOf(before, after, updated, c) ==> c in delta)
  }

  lemma {:induction false} InsertsMean<R>(delta: seq<Change<R>>, s: nat, r: R)
    ensures r in InsertsAt(delta, s) <==> exists c :: c in delta && c.snapshot == s && c.row == r && (c.kind.Insert? || c.kind.Postimage?)
  {
    if delta != [] {
      var n := |delta| - 1;
      InsertsMean(delta[..n], s, r);
      assert forall c :: c in delta <==> c in delta[..n] || c == delta[n];
    }
  }

  /** The rows a snapshot inserts or updates, for the feed of two versions. */
  lemma FeedInserts<R(!new)>(before: map<nat, R>, after: map<nat, R>, updated: set<nat>, delta: seq<Change<R>>, s: nat, r: R)
    requires IsFeedOf(before, after, updated, delta, s)
    ensures r in InsertsAt(delta, s) <==> exists id :: id in after && after[id] == r && (id !in before || id in updated)
  {
    InsertsMean(delta, s, r);
    if id :| id in after && after[id] == r && (id !in before || id in updated) {
      var c := Change(s, id, if id in before then Postimage else Insert, r);
      assert IsChangeOf(before, after, updated, c);
    }
  }

  /** The rows a snapshot removes: those some row id loses, no-op updates left aside. */
  lemma FeedDeletes<R(!new)>(before: map<nat, R>, after: map<nat, R>, updated: set<nat>, delta: seq<Change<R>>, s: nat, r: R)
    requires IsFeedOf(before, after, updated, delta, s)
    ensures DeletedAt(delta, s, r) <==> exists id :: Loses(before, after, id) && before[id] == r
  {
    if id :| Loses(before, after, id) && before[id] == r {
      var c := Change(s, id, if id in after then Preimage else Delete, r);
      assert IsChangeOf(before, after, updated, c) && c in delta;
      var i :| 0 <= i < |delta| && delta[i] == c;
      assert id in after ==> !IsChangeOf(before, after, updated, Change(s, id, Postimage, r));
    }
    if DeletedAt(delta, s, r) {
      var i :| 0 <= i < |delta| && delta[i].snapshot == s && delta[i].row == r
               && (delta[i].kind.Delete? || (delta[i].kind.Preimage? && !IsNoOpUpdate(delta, delta[i])));
      var c := delta[i];
      assert c in delta && IsChangeOf(before, after, updated, c);
      if c.kind.Preimage? && after[c.rowId] == r {
        assert IsChangeOf(before, after, updated, Change(s, c.rowId, Postimage, r));
      }
      assert Loses(before, after, c.rowId);
    }
  }

  /** The row id is gone or holds another row afterwards. */
  predicate Loses<R(==)>(before: map<nat, R>, after: map<nat, R>, id: nat) {
    id in before && (id !in after || after[id] != before[id])
  }

  /** A row that one row id loses is held by some row id afterwards. */
  ghost predicate RowMoves<R>(before: map<nat, R>, after: map<nat, R>) {
    exists a, b :: Loses(before, after, a) && b in after && after[b] == before[a]
  }

  /** The feed of a snapshot explains it to the replay exactly when no row moves from one row id to another;
      updates that exchange values between rows are what a replay cannot follow. */
  lemma ExplainsExactlyWhen<R(!new)>(history: seq<seq<R>>, delta: seq<Change<R>>, s: nat, before: map<nat, R>, after: map<nat, R>, updated: set<nat>)
    requires 0 < s < |history| && IsFeedOf(before, after, updated, delta, s)
    requires (forall r :: r in history[s - 1] <==> r in before.Values) && (forall r :: r in history[s] <==> r in after.Values)
    ensures (forall r :: Explains(history, delta, s, r)) <==> !RowMoves(before, after)
  {
    if RowMoves(before, after) {
      var a, b :| Loses(before, after, a) && b in after && after[b] == before[a];
      var r := before[a];
      FeedDeletes(before, after, updated, delta, s, r);
      assert r in after.Values;
      assert !Explains(history, delta, s, r);
    } else {
      forall r ensures Explains(history, delta, s, r) {
        FeedInserts(before, after, updated, delta, s, r);
        FeedDeletes(before, after, updated, delta, s, r);
        if r in before.Values && !DeletedAt(delta, s, r) {
          var id :| id in before && before[id] == r;
          assert !Loses(before, after, id);
          assert after[id] in after.Values;
        }
        if r in after.Values && r !in InsertsAt(delta, s) {
          var id :| id in after && after[id] == r;
          assert before[id] in before.Values;
        }
      }
    }
  }
}
