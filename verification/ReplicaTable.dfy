/** The destination table as the apply statements change it, one statement after the other. */
module ReplicaTable {
  import opened OrderedSets
  import opened Tables
  import opened ReplicaApply

  lemma {:induction false} SelectAll<T>(rows: seq<T>, p: T -> bool)
    requires forall r :: r in rows ==> p(r)
    ensures Select(rows, p) == rows
  {
    if rows != [] {
      SelectAll(rows[1..], p);
    }
  }

  class Replica<R(==)> {
    var rows: seq<R>

    constructor ()
      ensures rows == []
    {
      rows := [];
    }

    /** DELETE FROM, then INSERT ... SELECT * FROM the source. */
    method Reseed(source: seq<R>)
      modifies this
      ensures rows == source
    {
      rows := [];
      rows := rows + source;
    }

    /** Removes rows whose key is gone, then rows whose other columns changed, then inserts the missing
        keys.  Without other columns there is nothing to compare, and no second delete. */
    method ApplyPkMerge<K(==)>(source: seq<R>, key: R -> K, otherColumns: bool)
      requires !otherColumns ==> forall a, b :: a in source && b in rows && key(a) == key(b) ==> a == b
      modifies this
      ensures rows == Merged(old(rows), source, key)
    {
      rows := Select(rows, d => HasKey(source, key, key(d)));
      if otherColumns {
        rows := Select(rows, d => !HasChanged(source, key, d));
      } else {
        OnlyKeysUnchanged(rows, old(rows), source, key);
      }
      var kept := rows;
      rows := rows + Select(source, s => !HasKey(kept, key, key(s)));
    }

    /** Deletes the destination's rows from the lower bound on and copies the source's window. */
    method ApplyWatermarkDelta(source: seq<R>, wm: R -> Option<int>, low: Option<int>, high: int)
      modifies this
      ensures rows == WindowReplayed(old(rows), source, wm, low, high)
    {
      if low.Some? {
        rows := Select(rows, BelowLow(wm, low.value));
        rows := rows + Select(source, InWindow(wm, low.value, high));
      } else {
        rows := rows + Select(source, UpTo(wm, high));
      }
    }

    /** Per snapshot, inserts the rows not yet there and then deletes. */
    method Replay(delta: seq<Change<R>>, snapshots: seq<nat>)
      modifies this
      ensures rows == Replayed(old(rows), delta, snapshots, |snapshots|)
    {
      var i := 0;
      while i < |snapshots|
        invariant 0 <= i <= |snapshots| && rows == Replayed(old(rows), delta, snapshots, i)
      {
        ReplaySnapshot(delta, snapshots[i]);
        i := i + 1;
      }
    }

    method ReplaySnapshot(delta: seq<Change<R>>, s: nat)
      modifies this
      ensures rows == SnapshotReplayed(old(rows), delta, s)
    {
      var before := rows;
      rows := rows + Select(InsertsAt(delta, s), r => r !in before);
      rows := Select(rows, r => !DeletedAt(delta, s, r));
    }

    /** Replays the changed snapshots in order, compares the result with the source as of the upper
        bound in both directions, and reseeds when they differ.  Without changes nothing is compared. */
    method ApplySnapshotDelta(delta: seq<Change<R>>, sourceAt: seq<R>) returns (reseeded: bool)
      modifies this
      ensures rows == DeltaApplied(old(rows), delta, sourceAt)
      ensures reseeded <==> delta != [] && !SameRows(AllReplayed(old(rows), delta), sourceAt)
    {
      var snapshots := Ascending(SnapshotsIn(delta));
      SomeSnapshots(delta);
      Replay(delta, snapshots);
      if snapshots == [] {
        return false;
      }
      var missing := multiset(sourceAt) - multiset(rows) != multiset{};
      var extra := multiset(rows) - multiset(sourceAt) != multiset{};
      NothingMissingOrExtra(rows, sourceAt);
      if !missing && !extra {
        return false;
      }
      Reseed(sourceAt);
      reseeded := true;
    }
  }

  lemma SomeSnapshots<R>(delta: seq<Change<R>>)
    ensures Ascending(SnapshotsIn(delta)) == [] <==> delta == []
  {
    if delta != [] {
      assert delta[0].snapshot in SnapshotsIn(delta);
    } else {
      assert SnapshotsIn(delta) == {};
    }
  }

  /** A non-empty delta always leaves the source's rows. */
  lemma DeltaAppliedIsSource<R>(dest: seq<R>, delta: seq<Change<R>>, sourceAt: seq<R>)
    requires delta != []
    ensures SameRows(DeltaApplied(dest, delta, sourceAt), sourceAt)
  {
  }

  /** The delta replayed if that gives the source, else the source. */
  function DeltaApplied<R(==)>(dest: seq<R>, delta: seq<Change<R>>, sourceAt: seq<R>): seq<R> {
    if delta == [] then dest
    else
      var replayed := AllReplayed(dest, delta);
      if multiset(replayed) == multiset(sourceAt) then replayed else sourceAt
  }

  lemma NothingMissingOrExtra<R>(a: seq<R>, b: seq<R>)
    ensures multiset(b) - multiset(a) == multiset{} && multiset(a) - multiset(b) == multiset{} <==> SameRows(a, b)
  {
    if multiset(b) - multiset(a) == multiset{} && multiset(a) - multiset(b) == multiset{} {
      forall x ensures multiset(a)[x] == multiset(b)[x] {
        assert (multiset(b) - multiset(a))[x] == 0 && (multiset(a) - multiset(b))[x] == 0;
      }
      SameCounts(a, b);
    }
  }

  lemma OnlyKeysUnchanged<R, K>(kept: seq<R>, dest: seq<R>, source: seq<R>, key: R -> K)
    requires kept == Select(dest, d => HasKey(source, key, key(d)))
    requires forall a, b :: a in source && b in dest && key(a) == key(b) ==> a == b
    ensures kept == Unchanged(dest, source, key)
  {
    var hasKey := d => HasKey(source, key, key(d));
    forall d | d in kept ensures !HasChanged(source, key, d) {
      SelectCounts(dest, hasKey, d);
      assert d in multiset(Select(dest, hasKey));
      assert d in dest;
      assert forall i :: 0 <= i < |source| ==> source[i] in source;
    }
    SelectAll(kept, d => !HasChanged(source, key, d));
  }
}
