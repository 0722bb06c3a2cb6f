/**
 Replicating one table over whole runs.  A cycle commits the table's data and then, as a separate
 step, saves its cursor; it may stop in between, or fail and roll back.  The source moves on, is
 dropped and recreated, and expires old snapshots at any time.
 */
module ReplicationRuns {
  import opened Tables
  import opened ReplicaApply
  import opened ReplicaTable

  datatype Strategy = FullCopy | Merge | Watermark | Snapshot

  datatype Job<!R, !K> = Job(strategy: Strategy, key: R -> K, wm: R -> Option<int>, isLake: bool)

  /** The saved state of a table; a claim saves only NULLs. */
  datatype Cursor = Cursor(watermark: Option<int>, snapshot: Option<nat>, identity: Option<nat>)

  /** The source at one snapshot; its identity changes when it is dropped and recreated. */
  datatype Version<R> = Version(identity: nat, rows: seq<R>)

  /** All versions so far; snapshots before the oldest kept one have expired. */
  datatype Source<R> = Source(versions: seq<Version<R>>, oldest: nat)

  datatype State<R> = State(source: Source<R>, dest: Option<seq<R>>, cursor: Option<Cursor>)

  function Head<R>(s: Source<R>): nat
    requires s.versions != []
  {
    |s.versions| - 1
  }

  function Newest<R>(s: Source<R>): Version<R>
    requires s.versions != []
  {
    s.versions[Head(s)]
  }

  function HighWatermark<R, K>(job: Job<R, K>, s: Source<R>): Option<int>
    requires s.versions != []
  {
    Extremum(Newest(s).rows, job.wm, true)
  }

  // ---- one cycle ----

  /** The watermark moved backwards, or there is no cursor of this strategy to continue from. */
  predicate CursorUnusable<R, K>(job: Job<R, K>, cursor: Cursor, s: Source<R>)
    requires s.versions != []
  {
    match job.strategy
    case FullCopy => true
    case Merge => false
    case Watermark =>
      var high := HighWatermark(job, s);
      cursor.watermark.None? || (high.Some? && cursor.watermark.value > high.value)
    case Snapshot => cursor.snapshot.None? || cursor.snapshot.value < s.oldest
  }

  /** Whether the destination is cleared and copied anew. */
  predicate Reseeds<R, K>(job: Job<R, K>, st: State<R>)
    requires st.source.versions != []
  {
    || st.dest.None? || st.cursor.None?
    || st.cursor.value.identity != Some(Newest(st.source).identity)
    || CursorUnusable(job, st.cursor.value, st.source)
  }

  predicate HasNull<R, K>(job: Job<R, K>, s: Source<R>)
    requires s.versions != []
  {
    exists i :: 0 <= i < |Newest(s).rows| && job.wm(Newest(s).rows[i]).None?
  }

  /** The destination's rows after the cycle's data transaction; none when it fails.  The delta is what
      the change feed reports from the cursor's snapshot to the newest one. */
  function Synced<R(==), K(==)>(job: Job<R, K>, st: State<R>, delta: seq<Change<R>>): Option<seq<R>>
    requires st.source.versions != []
  {
    var source := Newest(st.source).rows;
    if job.strategy.Watermark? && HasNull(job, st.source) then None
    else if Reseeds(job, st) then Some(Seeded(job, st.source))
    else
      var dest, cursor := st.dest.value, st.cursor.value;
      var high, head := HighWatermark(job, st.source), Head(st.source);
      if job.strategy.Watermark? then
        Some(if high.None? then dest else WindowReplayed(dest, source, job.wm, cursor.watermark, high.value))
      else if job.strategy.Merge? then Some(Merged(dest, source, job.key))
      else Some(if head > cursor.snapshot.value then DeltaApplied(dest, delta, source) else dest)
  }

  /** A fresh copy; under the watermark strategy only rows up to the maximum just read. */
  function Seeded<R, K>(job: Job<R, K>, s: Source<R>): seq<R>
    requires s.versions != []
  {
    var source := Newest(s).rows;
    if job.strategy.Watermark? then
      var high := HighWatermark(job, s);
      if high.None? then [] else WindowReplayed([], source, job.wm, None, high.value)
    else source
  }

  function NextCursor<R, K>(job: Job<R, K>, s: Source<R>): Cursor
    requires s.versions != []
  {
    Cursor(if job.strategy.Watermark? then HighWatermark(job, s) else None, if job.isLake then Some(Head(s)) else None,
           Some(Newest(s).identity))
  }

  /** The data transaction of a cycle on the destination table; a NULL watermark fails it before any
      row is touched.  The cursor is what the cycle saves afterwards. */
  method SyncTable<R(==, !new), K(==)>(job: Job<R, K>, source: Source<R>, cursor: Option<Cursor>, replica: Replica<R>, isNew: bool,
                                 delta: seq<Change<R>>, otherColumns: bool)
    returns (ok: bool, next: Cursor)
    requires source.versions != [] && (isNew ==> replica.rows == [])
    requires !otherColumns ==> forall a, b :: job.key(a) == job.key(b) ==> a == b
    modifies replica
    ensures var before := State(source, if isNew then None else Some(old(replica.rows)), cursor);
            var synced := Synced(job, before, delta);
            && (ok <==> synced.Some?)
            && replica.rows == (if ok then synced.value else old(replica.rows))
    ensures ok ==> next == NextCursor(job, source)
  {
    ghost var before := State(source, if isNew then None else Some(replica.rows), cursor);
    var rows := Newest(source).rows;
    var high := if job.strategy.Watermark? then HighWatermark(job, source) else None;
    next := Cursor(high, if job.isLake then Some(Head(source)) else None, Some(Newest(source).identity));
    if job.strategy.Watermark? && HasNull(job, source) {
      return false, next;
    }
    var reseed := isNew || job.strategy.FullCopy? || cursor.None?;
    if !reseed {
      reseed := cursor.value.identity != Some(Newest(source).identity) || CursorUnusable(job, cursor.value, source);
    }
    assert reseed <==> Reseeds(job, before);
    if reseed {
      replica.Reseed([]);
      if job.strategy.Watermark? {
        if high.Some? {
          replica.ApplyWatermarkDelta(rows, job.wm, None, high.value);
        }
      } else {
        replica.Reseed(rows);
      }
    } else if job.strategy.Watermark? {
      if high.Some? {
        replica.ApplyWatermarkDelta(rows, job.wm, cursor.value.watermark, high.value);
      }
    } else if job.strategy.Merge? {
      replica.ApplyPkMerge(rows, job.key, otherColumns);
    } else if Head(source) > cursor.value.snapshot.value {
      var reseeded := replica.ApplySnapshotDelta(delta, rows);
    }
    ok := true;
  }

  // ---- runs ----

  datatype Event<R> =
    | SourceCommit(version: Version<R>)
    | Expire(oldest: nat)
    | Claim
    | Cycle(delta: seq<Change<R>>, saved: bool)
    | DropReplica
    | ForgetReplica

  /** Rows are only added, none below one that was there. */
  ghost predicate Appends<R, K>(job: Job<R, K>, before: seq<R>, after: seq<R>) {
    && multiset(before) <= multiset(after)
    && forall x, y :: x in before && y in after && multiset(before)[y] < multiset(after)[y] && job.wm(x).Some? && job.wm(y).Some? ==>
         job.wm(x).value <= job.wm(y).value
  }

  /** What each strategy expects of its source. */
  ghost predicate SourceKeepsContract<R, K>(job: Job<R, K>, source: Source<R>, next: Version<R>)
    requires source.versions != []
  {
    && Newest(source).identity <= next.identity
    && (job.strategy.Merge? ==> UniqueKeys(next.rows, job.key))
    && (job.strategy.Watermark? && next.identity == Newest(source).identity ==> Appends(job, Newest(source).rows, next.rows))
  }

  ghost predicate Allowed<R, K>(job: Job<R, K>, st: State<R>, e: Event<R>)
    requires st.source.versions != []
  {
    match e
    case SourceCommit(version) => SourceKeepsContract(job, st.source, version)
    case Expire(oldest) => st.source.oldest <= oldest <= Head(st.source)
    case Claim => st.cursor.None?
    case Cycle(delta, _) => st.cursor.Some? && DeltaComplete(st, delta)
    case DropReplica => st.cursor.Some?
    case ForgetReplica => st.dest.None?
  }

  function Apply<R(==), K(==)>(job: Job<R, K>, st: State<R>, e: Event<R>): (r: State<R>)
    requires st.source.versions != []
    ensures st.source.versions <= r.source.versions
  {
    match e
    case SourceCommit(version) => st.(source := st.source.(versions := st.source.versions + [version]))
    case Expire(oldest) => st.(source := st.source.(oldest := oldest))
    case Claim => st.(cursor := Some(Cursor(None, None, None)))
    case DropReplica => st.(dest := None)
    case ForgetReplica => st.(cursor := None)
    case Cycle(delta, saved) =>
      var rows := Synced(job, st, delta);
      if rows.None? then st
      else if saved then st.(dest := rows, cursor := Some(NextCursor(job, st.source)))
      else st.(dest := rows)
  }

  /** Where the change feed reports nothing from the cursor on, the source did not change. */
  ghost predicate DeltaComplete<R>(st: State<R>, delta: seq<Change<R>>)
    requires st.source.versions != []
  {
    delta == [] && st.cursor.Some? && st.cursor.value.snapshot.Some? && st.source.oldest <= st.cursor.value.snapshot.value ==>
      forall k :: st.cursor.value.snapshot.value <= k < |st.source.versions| ==> SameRows(st.source.versions[k].rows, Newest(st.source).rows)
  }

  // ---- the invariant ----

  ghost predicate ValidSource<R, K>(job: Job<R, K>, s: Source<R>) {
    && s.versions != [] && s.oldest < |s.versions|
    && (job.strategy.Merge? ==> forall i :: 0 <= i < |s.versions| ==> UniqueKeys(s.versions[i].rows, job.key))
    && forall i :: 0 < i < |s.versions| ==> Follows(job, s.versions[i - 1], s.versions[i])
  }

  ghost predicate Follows<R, K>(job: Job<R, K>, before: Version<R>, after: Version<R>) {
    && before.identity <= after.identity
    && (job.strategy.Watermark? && before.identity == after.identity ==> Appends(job, before.rows, after.rows))
  }

  /** The cursor was saved at version k and the destination holds version h, not older than k. */
  ghost predicate Holds<R, K>(job: Job<R, K>, source: Source<R>, dest: Option<seq<R>>, cursor: Cursor, k: nat, h: nat) {
    && k <= h < |source.versions| && KnownAt(job, source, cursor, k)
    && (dest.Some? ==> SameRows(dest.value, source.versions[h].rows))
  }

  /** The cursor was saved at version k, or is only a claim. */
  ghost predicate KnownAt<R, K>(job: Job<R, K>, source: Source<R>, cursor: Cursor, k: nat) {
    && k < |source.versions|
    && (cursor.identity.Some? ==>
          && cursor.identity == Some(source.versions[k].identity)
          && (cursor.snapshot.Some? ==> cursor.snapshot == Some(k))
          && (cursor.watermark.Some? ==> cursor.watermark == Extremum(source.versions[k].rows, job.wm, true)))
  }

  ghost predicate Inv<R, K>(job: Job<R, K>, st: State<R>) {
    && ValidSource(job, st.source)
    && (st.dest.Some? ==> st.cursor.Some?)
    && (st.cursor.Some? ==> CursorKnown(job, st))
  }

  /** There is a version the cursor was saved at, and one not older that the destination holds. */
  ghost predicate CursorKnown<R, K>(job: Job<R, K>, st: State<R>)
    requires st.cursor.Some?
  {
    exists k, h :: Holds(job, st.source, st.dest, st.cursor.value, k, h)
  }

  // ---- one cycle is exact ----

  lemma SeededIsExact<R, K>(job: Job<R, K>, s: Source<R>)
    requires s.versions != [] && (job.strategy.Watermark? ==> !HasNull(job, s))
    ensures SameRows(Seeded(job, s), Newest(s).rows)
  {
    var source := Newest(s).rows;
    if job.strategy.Watermark? {
      NoNullsWithout(job, s);
      ExtremumIs(source, job.wm, true);
      var high := HighWatermark(job, s);
      if high.Some? {
        SeedIsExact(source, job.wm, high.value);
      } else {
        NoMaximumOfNothing(source, job.wm);
      }
    }
  }

  lemma NoNullsWithout<R, K>(job: Job<R, K>, s: Source<R>)
    requires s.versions != [] && !HasNull(job, s)
    ensures NoNulls(Newest(s).rows, job.wm)
  {
  }

  lemma NoMaximumOfNothing<R>(rows: seq<R>, wm: R -> Option<int>)
    requires NoNulls(rows, wm) && Extremum(rows, wm, true).None?
    ensures rows == []
  {
    if rows != [] {
      assert rows[0] in rows;
      ExtremumIs(rows, wm, true);
    }
  }

  /** Appending keeps the rows below an existing watermark. */
  lemma BelowKept<R, K>(job: Job<R, K>, before: seq<R>, after: seq<R>, low: int, x: R)
    requires Appends(job, before, after) && NoNulls(after, job.wm) && x in before && job.wm(x) == Some(low)
    ensures SameRows(Below(before, job.wm, low), Below(after, job.wm, low))
  {
    var a, b := Below(before, job.wm, low), Below(after, job.wm, low);
    forall y ensures multiset(a)[y] == multiset(b)[y] {
      SelectCounts(before, BelowLow(job.wm, low), y);
      SelectCounts(after, BelowLow(job.wm, low), y);
      assert multiset(before)[y] <= multiset(after)[y];
      assert multiset(before)[y] < multiset(after)[y] ==> y in after;
    }
    SameCounts(a, b);
  }

  /** Between versions of one identity. */
  lemma {:induction false} StaysBelow<R, K>(job: Job<R, K>, s: Source<R>, k: nat, j: nat, low: int)
    requires ValidSource(job, s) && job.strategy.Watermark? && k <= j < |s.versions|
    requires s.versions[k].identity == s.versions[j].identity && NoNulls(s.versions[j].rows, job.wm)
    requires Extremum(s.versions[k].rows, job.wm, true) == Some(low)
    ensures SameRows(Below(s.versions[k].rows, job.wm, low), Below(s.versions[j].rows, job.wm, low))
    ensures exists x :: x in s.versions[j].rows && job.wm(x) == Some(low)
    decreases j
  {
    ExtremumIs(s.versions[k].rows, job.wm, true);
    if k < j {
      IdentityBetween(job, s, k, j - 1, j);
      assert Follows(job, s.versions[j - 1], s.versions[j]);
      var before, after := s.versions[j - 1].rows, s.versions[j].rows;
      forall y | y in before ensures y in after {
        assert multiset(before)[y] <= multiset(after)[y];
      }
      StaysBelow(job, s, k, j - 1, low);
      var x :| x in before && job.wm(x) == Some(low);
      BelowKept(job, before, after, low, x);
    }
  }

  /** Identities never come back: versions between two of one identity have it too. */
  lemma {:induction false} IdentityBetween<R, K>(job: Job<R, K>, s: Source<R>, k: nat, i: nat, j: nat)
    requires ValidSource(job, s) && k <= i <= j < |s.versions| && s.versions[k].identity == s.versions[j].identity
    ensures s.versions[i].identity == s.versions[k].identity
  {
    IdentitiesGrow(job, s, k, i);
    IdentitiesGrow(job, s, i, j);
  }

  lemma {:induction false} IdentitiesGrow<R, K>(job: Job<R, K>, s: Source<R>, i: nat, j: nat)
    requires ValidSource(job, s) && i <= j < |s.versions|
    ensures s.versions[i].identity <= s.versions[j].identity
    decreases j
  {
    if i < j {
      IdentitiesGrow(job, s, i, j - 1);
      assert Follows(job, s.versions[j - 1], s.versions[j]);
    }
  }

  lemma WatermarkCycleExact<R, K>(job: Job<R, K>, st: State<R>, delta: seq<Change<R>>, k: nat, h: nat)
    requires Inv(job, st) && job.strategy.Watermark? && !HasNull(job, st.source) && !Reseeds(job, st)
    requires Holds(job, st.source, st.dest, st.cursor.value, k, h)
    ensures SameRows(Synced(job, st, delta).value, Newest(st.source).rows)
  {
    var s, low, dest := st.source, st.cursor.value.watermark.value, st.dest.value;
    NoNullsWithout(job, s);
    StaysBelow(job, s, k, Head(s), low);
    var x :| x in Newest(s).rows && job.wm(x) == Some(low);
    ExtremumIs(Newest(s).rows, job.wm, true);
    var high := HighWatermark(job, s);
    IdentityBetween(job, s, k, h, Head(s));
    NoNullsBefore(job, s, h);
    StaysBelow(job, s, k, h, low);
    SelectSameRows(dest, s.versions[h].rows, BelowLow(job.wm, low));
    WindowExactlyWhen(dest, Newest(s).rows, job.wm, low, high.value);
  }

  lemma {:induction false} NoNullsBefore<R, K>(job: Job<R, K>, s: Source<R>, h: nat)
    requires ValidSource(job, s) && job.strategy.Watermark? && h < |s.versions|
    requires s.versions[h].identity == Newest(s).identity && NoNulls(Newest(s).rows, job.wm)
    ensures NoNulls(s.versions[h].rows, job.wm)
    decreases |s.versions| - h
  {
    if h < Head(s) {
      IdentityBetween(job, s, h, h + 1, Head(s));
      NoNullsBefore(job, s, h + 1);
      assert Follows(job, s.versions[h], s.versions[h + 1]);
      var before, after := s.versions[h].rows, s.versions[h + 1].rows;
      forall y | y in before ensures job.wm(y).Some? {
        assert multiset(before)[y] <= multiset(after)[y];
        assert y in after;
      }
    }
  }

  lemma MergeCycleExact<R, K>(job: Job<R, K>, st: State<R>, delta: seq<Change<R>>, k: nat, h: nat)
    requires Inv(job, st) && job.strategy.Merge? && !Reseeds(job, st)
    requires Holds(job, st.source, st.dest, st.cursor.value, k, h)
    ensures SameRows(Synced(job, st, delta).value, Newest(st.source).rows)
  {
    var source, dest := Newest(st.source).rows, st.dest.value;
    forall x | x in source ensures multiset(dest)[x] <= 1 {
      UniqueKeysCount(st.source.versions[h].rows, job.key, x);
    }
    MergeExactlyWhen(dest, source, job.key);
  }

  lemma SnapshotCycleExact<R, K>(job: Job<R, K>, st: State<R>, delta: seq<Change<R>>, k: nat, h: nat)
    requires Inv(job, st) && job.strategy.Snapshot? && !Reseeds(job, st) && DeltaComplete(st, delta)
    requires Holds(job, st.source, st.dest, st.cursor.value, k, h)
    ensures SameRows(Synced(job, st, delta).value, Newest(st.source).rows)
  {
    if Head(st.source) > k && delta != [] {
      DeltaAppliedIsSource(st.dest.value, delta, Newest(st.source).rows);
    }
  }

  /** A cycle fails exactly when it runs by watermark and some source row has none. */
  lemma SyncedExactlyWhen<R, K>(job: Job<R, K>, st: State<R>, delta: seq<Change<R>>)
    requires st.source.versions != []
    ensures Synced(job, st, delta).None? <==>
            job.strategy.Watermark? && exists r :: r in st.source.versions[|st.source.versions| - 1].rows && job.wm(r) == None
  {
    var rows := Newest(st.source).rows;
    if r :| r in rows && job.wm(r) == None {
      var i :| 0 <= i < |rows| && rows[i] == r;
      assert job.wm(rows[i]).None?;
    }
  }

  /** When the destination is cleared and copied anew: it does not exist, there is no saved cursor of this
      strategy and of this incarnation of the source, every watermark of a source that has rows is
      smaller than the saved one, or the saved snapshot has expired. */
  lemma ReseedsExactlyWhen<R, K>(job: Job<R, K>, st: State<R>)
    requires st.source.versions != []
    ensures var newest := st.source.versions[|st.source.versions| - 1];
            Reseeds(job, st) <==>
            || st.dest == None || st.cursor == None || st.cursor.value.identity != Some(newest.identity) || job.strategy == FullCopy
            || (job.strategy == Watermark &&
                (st.cursor.value.watermark == None ||
                 ((exists r :: r in newest.rows && job.wm(r).Some?) &&
                  forall r :: r in newest.rows && job.wm(r).Some? ==> job.wm(r).value < st.cursor.value.watermark.value)))
            || (job.strategy == Snapshot && (st.cursor.value.snapshot == None || st.cursor.value.snapshot.value < st.source.oldest))
  {
    ExtremumIs(Newest(st.source).rows, job.wm, true);
  }

  /** What a cycle saves: the largest watermark of the source, the newest snapshot of a lake source, and
      which incarnation of the source it read. */
  lemma NextCursorMeans<R, K>(job: Job<R, K>, s: Source<R>)
    requires s.versions != []
    ensures var newest := s.versions[|s.versions| - 1]; var cursor := NextCursor(job, s);
            && cursor.identity == Some(newest.identity)
            && cursor.snapshot == (if job.isLake then Some(|s.versions| - 1) else None)
            && (cursor.watermark.None? <==> job.strategy != Watermark || forall r :: r in newest.rows ==> job.wm(r) == None)
            && (cursor.watermark.Some? ==>
                  && (exists r :: r in newest.rows && job.wm(r) == cursor.watermark)
                  && (forall r :: r in newest.rows && job.wm(r).Some? ==> job.wm(r).value <= cursor.watermark.value))
  {
    ExtremumIs(Newest(s).rows, job.wm, true);
  }

  /** Whatever state a cycle starts from, unless a NULL watermark makes it fail, after its data commit the
      destination is the source. */
  lemma CycleIsExact<R, K>(job: Job<R, K>, st: State<R>, delta: seq<Change<R>>)
    requires Inv(job, st) && DeltaComplete(st, delta)
    ensures Synced(job, st, delta).None? <==>
            job.strategy.Watermark? && exists r :: r in st.source.versions[|st.source.versions| - 1].rows && job.wm(r) == None
    ensures Synced(job, st, delta).Some? ==> SameRows(Synced(job, st, delta).value, Newest(st.source).rows)
  {
    SyncedExactlyWhen(job, st, delta);
    if Synced(job, st, delta).None? {
    } else if Reseeds(job, st) {
      SeededIsExact(job, st.source);
    } else {
      var k, h :| Holds(job, st.source, st.dest, st.cursor.value, k, h);
      match job.strategy
      case Watermark => WatermarkCycleExact(job, st, delta, k, h);
      case Merge => MergeCycleExact(job, st, delta, k, h);
      case Snapshot => SnapshotCycleExact(job, st, delta, k, h);
    }
  }

  /** The first cycle after a claim copies the source under every strategy, and saves where it stands. */
  lemma FirstCycleCopies<R, K>(job: Job<R, K>, source: Source<R>, delta: seq<Change<R>>)
    requires source.versions != []
    requires job.strategy.Watermark? ==> forall r :: r in Newest(source).rows ==> job.wm(r).Some?
    ensures RunAllowed(job, Initial(source), [Claim, Cycle(delta, true)])
    ensures var st := Run(job, Initial(source), [Claim, Cycle(delta, true)]);
            && st.source == source && st.cursor == Some(NextCursor(job, source))
            && st.dest.Some? && SameRows(st.dest.value, source.versions[|source.versions| - 1].rows)
  {
    var claimed := Apply(job, Initial(source), Claim);
    assert [Claim, Cycle(delta, true)][1..] == [Cycle(delta, true)] && [Cycle(delta, true)][1..] == [];
    SyncedExactlyWhen(job, claimed, delta);
    SeededIsExact(job, source);
    var st := Apply(job, claimed, Cycle(delta, true));
    assert RunAllowed(job, st, []) && Run(job, st, []) == st;
    assert RunAllowed(job, claimed, [Cycle(delta, true)]) && Run(job, claimed, [Cycle(delta, true)]) == st;
  }

  // ---- every run ----

  lemma HoldsLater<R, K>(job: Job<R, K>, source: Source<R>, later: Source<R>, dest: Option<seq<R>>, cursor: Cursor, k: nat, h: nat)
    requires Holds(job, source, dest, cursor, k, h) && source.versions <= later.versions
    ensures Holds(job, later, dest, cursor, k, h)
  {
  }

  /** A saved cycle leaves a cursor for the version it read, an unsaved one keeps the older cursor. */
  lemma CycleKeepsInv<R, K>(job: Job<R, K>, st: State<R>, delta: seq<Change<R>>, saved: bool)
    requires Inv(job, st) && Allowed(job, st, Cycle(delta, saved))
    ensures Inv(job, Apply(job, st, Cycle(delta, saved)))
  {
    var rows := Synced(job, st, delta);
    if rows.Some? {
      CycleIsExact(job, st, delta);
      var k, h :| Holds(job, st.source, st.dest, st.cursor.value, k, h);
      if saved {
        assert Holds(job, st.source, rows, NextCursor(job, st.source), Head(st.source), Head(st.source));
      } else {
        assert Holds(job, st.source, rows, st.cursor.value, k, Head(st.source));
      }
    }
  }

  lemma StepKeepsInv<R, K>(job: Job<R, K>, st: State<R>, e: Event<R>)
    requires Inv(job, st) && Allowed(job, st, e)
    ensures Inv(job, Apply(job, st, e))
  {
    var next := Apply(job, st, e);
    match e
    case Cycle(delta, saved) => CycleKeepsInv(job, st, delta, saved);
    case Claim => assert Holds(job, next.source, next.dest, next.cursor.value, 0, 0);
    case SourceCommit(version) =>
      CommitKeepsSource(job, st.source, version);
      if st.cursor.Some? {
        var k, h :| Holds(job, st.source, st.dest, st.cursor.value, k, h);
        HoldsLater(job, st.source, next.source, st.dest, st.cursor.value, k, h);
      }
    case Expire(_) =>
      if st.cursor.Some? {
        var k, h :| Holds(job, st.source, st.dest, st.cursor.value, k, h);
        HoldsLater(job, st.source, next.source, st.dest, st.cursor.value, k, h);
      }
    case DropReplica =>
      var k, h :| Holds(job, st.source, st.dest, st.cursor.value, k, h);
      assert Holds(job, next.source, next.dest, next.cursor.value, k, h);
    case ForgetReplica =>
  }

  lemma CommitKeepsSource<R, K>(job: Job<R, K>, s: Source<R>, version: Version<R>)
    requires ValidSource(job, s) && SourceKeepsContract(job, s, version)
    ensures ValidSource(job, s.(versions := s.versions + [version]))
  {
    var more := s.versions + [version];
    forall i | 0 < i < |more| ensures Follows(job, more[i - 1], more[i]) {
      assert i < |s.versions| ==> Follows(job, s.versions[i - 1], s.versions[i]);
    }
  }

  function Run<R(==), K(==)>(job: Job<R, K>, st: State<R>, events: seq<Event<R>>): (r: State<R>)
    requires st.source.versions != []
    ensures st.source.versions <= r.source.versions
    decreases |events|
  {
    if events == [] then st else Run(job, Apply(job, st, events[0]), events[1..])
  }

  ghost predicate RunAllowed<R, K>(job: Job<R, K>, st: State<R>, events: seq<Event<R>>)
    requires st.source.versions != []
    decreases |events|
  {
    events == [] || (Allowed(job, st, events[0]) && RunAllowed(job, Apply(job, st, events[0]), events[1..]))
  }

  lemma {:induction false} RunKeepsInv<R, K>(job: Job<R, K>, st: State<R>, events: seq<Event<R>>)
    requires Inv(job, st) && RunAllowed(job, st, events)
    ensures Inv(job, Run(job, st, events))
    decreases |events|
  {
    if events != [] {
      StepKeepsInv(job, st, events[0]);
      RunKeepsInv(job, Apply(job, st, events[0]), events[1..]);
    }
  }

  function Initial<R>(source: Source<R>): State<R> {
    State(source, None, None)
  }

  /** After any run whatsoever, with cycles that stopped before saving their cursor or failed, the next
      cycle leaves the destination equal to the source it read; with a NULL watermark in the source of
      a watermark job it changes nothing. */
  lemma EveryCycleIsExact<R, K>(job: Job<R, K>, source: Source<R>, events: seq<Event<R>>, delta: seq<Change<R>>, saved: bool)
    requires ValidSource(job, source) && RunAllowed(job, Initial(source), events)
    requires Allowed(job, Run(job, Initial(source), events), Cycle(delta, saved))
    ensures var st := Run(job, Initial(source), events);
            var after := Apply(job, st, Cycle(delta, saved));
            if job.strategy.Watermark? && exists r :: r in Newest(st.source).rows && job.wm(r) == None then after == st
            else after.source == st.source && after.dest.Some? && SameRows(after.dest.value, Newest(st.source).rows)
  {
    RunKeepsInv(job, Initial(source), events);
    CycleIsExact(job, Run(job, Initial(source), events), delta);
  }

  /** With no contract on the source but unique keys, a merge cycle that does not reseed is exact exactly when
      the destination stored no source row more than once. */
  lemma MergeCycleExactlyWhen<R, K>(job: Job<R, K>, st: State<R>, delta: seq<Change<R>>)
    requires job.strategy.Merge? && st.source.versions != [] && UniqueKeys(Newest(st.source).rows, job.key) && !Reseeds(job, st)
    ensures SameRows(Synced(job, st, delta).value, Newest(st.source).rows) <==>
            forall x :: x in Newest(st.source).rows ==> multiset(st.dest.value)[x] <= 1
  {
    MergeExactlyWhen(st.dest.value, Newest(st.source).rows, job.key);
  }

  /** A snapshot cycle that does not reseed is exact exactly when it finds a change at a later snapshot or has
      nothing to do: without changes the copy is neither written nor compared. */
  lemma SnapshotCycleExactlyWhen<R, K>(job: Job<R, K>, st: State<R>, delta: seq<Change<R>>)
    requires job.strategy.Snapshot? && st.source.versions != [] && !Reseeds(job, st)
    ensures SameRows(Synced(job, st, delta).value, Newest(st.source).rows) <==>
            || (st.cursor.value.snapshot.value < |st.source.versions| - 1 && delta != [])
            || SameRows(st.dest.value, Newest(st.source).rows)
    ensures !(st.cursor.value.snapshot.value < |st.source.versions| - 1 && delta != []) ==> Synced(job, st, delta) == st.dest
  {
    if delta != [] {
      DeltaAppliedIsSource(st.dest.value, delta, Newest(st.source).rows);
    }
  }

  /** Without any contract on the source, a watermark cycle that does not reseed is exact when the rows
      below the cursor agree, and with an emptied source only when the destination was empty too: an
      emptied source has no maximum, and its stale copy stays. */
  lemma WatermarkCycleExactlyWhen<R, K>(job: Job<R, K>, st: State<R>, delta: seq<Change<R>>)
    requires job.strategy.Watermark? && st.source.versions != [] && !HasNull(job, st.source) && !Reseeds(job, st)
    ensures SameRows(Synced(job, st, delta).value, Newest(st.source).rows) <==>
            if Newest(st.source).rows == [] then st.dest == Some([])
            else SameRows(Below(st.dest.value, job.wm, st.cursor.value.watermark.value),
                          Below(Newest(st.source).rows, job.wm, st.cursor.value.watermark.value))
  {
    var source, high := Newest(st.source).rows, HighWatermark(job, st.source);
    NoNullsWithout(job, st.source);
    if high.None? {
      NoMaximumOfNothing(source, job.wm);
      if SameRows(st.dest.value, []) {
        SameRowsSize(st.dest.value, []);
      }
    } else {
      ExtremumIs(source, job.wm, true);
      WindowExactlyWhen(st.dest.value, source, job.wm, st.cursor.value.watermark.value, high.value);
    }
  }

  /** A source that held row 7 and was emptied: the copy keeps the row. */
  lemma StaleCopyStays(job: Job<int, int>)
    requires job.strategy.Watermark? && job.wm == ((r: int) => Some(r))
    ensures var st := State(Source([Version(0, [7]), Version(0, [])], 0), Some([7]), Some(Cursor(Some(7), None, Some(0))));
            !Reseeds(job, st) && Synced(job, st, []) == Some([7]) && Newest(st.source).rows == []
  {
  }
}
