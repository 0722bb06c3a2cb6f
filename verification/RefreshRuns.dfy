/**
 Refreshing one single-table view over whole runs: base commits, and refresh transactions that
 read a snapshot, may write the base themselves before and after refreshing, and commit while
 other commits land in between.  The view carries its rows, the snapshot they were computed at
 and whether the refreshing transaction had written the base before it refreshed.
 */
module RefreshRuns {
  import opened Tables
  import opened ViewDefinition
  import opened DeltaRefresh
  import opened KeyedRefresh

  /** One transaction's changes to the base; touched is what the change log records. */
  datatype Change<R> = Change(ins: seq<R>, del: seq<R>, touched: bool)

  datatype View = View(rows: seq<ViewRow>, cursor: Option<nat>, ownWrites: bool, refreshedAt: nat)

  /** history[i] is the base at snapshot i; changes[i] is the commit that produced it. */
  datatype Lake<R> = Lake(history: seq<seq<R>>, changes: seq<Change<R>>, view: View)

  /** A refresh transaction: the snapshot it reads, what it wrote before refreshing, the base it
      then sees, and what it writes afterwards. */
  datatype Transaction<R> = Transaction(snapshot: nat, before: Change<R>, seen: seq<R>, after: Change<R>)

  datatype Mode = Skipped | Full | Delta | Incremental | Failed

  datatype Event<R> =
    | BaseCommit(change: Change<R>, base: seq<R>)
    | Refresh(tx: Transaction<R>, ifStale: bool, repaired: bool, rows: seq<ViewRow>, base: seq<R>)

  // ---- the change feed ----

  ghost predicate Moves<R>(old_: seq<R>, c: Change<R>, new_: seq<R>) {
    && SameRows(old_ + c.ins, new_ + c.del)
    && (!c.touched ==> c.ins == [] && c.del == [])
  }

  ghost predicate ValidHistory<R>(s: Lake<R>) {
    && |s.history| == |s.changes| > 0
    && forall i :: 0 < i < |s.history| ==> Moves(s.history[i - 1], s.changes[i], s.history[i])
  }

  /** Rows inserted by the commits in (from, to]. */
  function FeedIns<R>(changes: seq<Change<R>>, from: nat, upto: nat): seq<R>
    requires from <= upto < |changes|
  {
    if from == upto then [] else FeedIns(changes, from, upto - 1) + changes[upto].ins
  }

  /** Rows deleted by the commits in (from, to]. */
  function FeedDel<R>(changes: seq<Change<R>>, from: nat, upto: nat): seq<R>
    requires from <= upto < |changes|
  {
    if from == upto then [] else FeedDel(changes, from, upto - 1) + changes[upto].del
  }

  /** DependenciesChanged over (from, to]. */
  predicate Changed<R>(changes: seq<Change<R>>, from: nat, upto: nat)
    requires upto < |changes|
  {
    exists i :: from < i <= upto && changes[i].touched
  }

  /** The keys a changed-key refresh from one snapshot to another recomputes. */
  ghost function WindowKeys<R>(d: Definition<R>, changes: seq<Change<R>>, from: nat, upto: nat): Key -> bool
    requires WellFormed(d) && from <= upto < |changes|
  {
    CarriesKey(d, FeedIns(changes, from, upto) + FeedDel(changes, from, upto))
  }

  lemma Rebalance<T>(a: seq<T>, i: seq<T>, b: seq<T>, e: seq<T>, i2: seq<T>, c: seq<T>, e2: seq<T>)
    requires SameRows(a + i, b + e) && SameRows(b + i2, c + e2)
    ensures SameRows(a + (i + i2), c + (e + e2))
  {
    assert multiset(a) + multiset(i) == multiset(b) + multiset(e);
    assert multiset(b) + multiset(i2) == multiset(c) + multiset(e2);
    assert multiset(a + (i + i2)) == multiset(a) + multiset(i) + multiset(i2);
    assert multiset(c + (e + e2)) == multiset(c) + multiset(e2) + multiset(e);
  }

  /** The change-feed equation over any window of commits. */
  lemma {:induction false} FeedBalances<R>(s: Lake<R>, from: nat, upto: nat)
    requires ValidHistory(s) && from <= upto < |s.history|
    ensures SameRows(s.history[from] + FeedIns(s.changes, from, upto), s.history[upto] + FeedDel(s.changes, from, upto))
    decreases upto
  {
    if from < upto {
      FeedBalances(s, from, upto - 1);
      assert Moves(s.history[upto - 1], s.changes[upto], s.history[upto]);
      Rebalance(s.history[from], FeedIns(s.changes, from, upto - 1), s.history[upto - 1], FeedDel(s.changes, from, upto - 1),
                s.changes[upto].ins, s.history[upto], s.changes[upto].del);
    }
  }

  lemma {:induction false} QuietFeed<R>(s: Lake<R>, from: nat, upto: nat)
    requires ValidHistory(s) && from <= upto < |s.history| && !Changed(s.changes, from, upto)
    ensures FeedIns(s.changes, from, upto) == [] && FeedDel(s.changes, from, upto) == []
    decreases upto
  {
    if from < upto {
      QuietFeed(s, from, upto - 1);
      assert Moves(s.history[upto - 1], s.changes[upto], s.history[upto]);
    }
  }

  /** Some commit of the window inserted r. */
  ghost predicate InsertedIn<R>(changes: seq<Change<R>>, from: nat, upto: nat, r: R)
    requires upto < |changes|
  {
    exists i :: from < i <= upto && r in changes[i].ins
  }

  ghost predicate DeletedIn<R>(changes: seq<Change<R>>, from: nat, upto: nat, r: R)
    requires upto < |changes|
  {
    exists i :: from < i <= upto && r in changes[i].del
  }

  lemma OneCommitMore<R>(changes: seq<Change<R>>, from: nat, upto: nat, r: R)
    requires from < upto < |changes|
    ensures InsertedIn(changes, from, upto, r) <==> InsertedIn(changes, from, upto - 1, r) || r in changes[upto].ins
    ensures DeletedIn(changes, from, upto, r) <==> DeletedIn(changes, from, upto - 1, r) || r in changes[upto].del
  {
  }

  /** The feed of a window holds exactly the rows its commits inserted, and those they deleted. */
  lemma {:induction false} FeedMeans<R>(changes: seq<Change<R>>, from: nat, upto: nat, r: R)
    requires from <= upto < |changes|
    ensures r in FeedIns(changes, from, upto) <==> InsertedIn(changes, from, upto, r)
    ensures r in FeedDel(changes, from, upto) <==> DeletedIn(changes, from, upto, r)
    decreases upto
  {
    if from < upto {
      OneCommitMore(changes, from, upto, r);
      FeedMeans(changes, from, upto - 1, r);
    }
  }

  /** And each as often as the commits did. */
  lemma {:induction false} FeedSizes<R>(changes: seq<Change<R>>, from: nat, mid: nat, upto: nat)
    requires from <= mid <= upto < |changes|
    ensures FeedIns(changes, from, upto) == FeedIns(changes, from, mid) + FeedIns(changes, mid, upto)
    ensures FeedDel(changes, from, upto) == FeedDel(changes, from, mid) + FeedDel(changes, mid, upto)
    ensures mid + 1 == upto ==> FeedIns(changes, mid, upto) == changes[upto].ins && FeedDel(changes, mid, upto) == changes[upto].del
    decreases upto
  {
    if mid < upto {
      FeedSizes(changes, from, mid, upto - 1);
    }
  }

  /** Appending a commit leaves earlier windows as they were. */
  lemma {:induction false} FeedPrefix<R>(changes: seq<Change<R>>, c: Change<R>, from: nat, upto: nat)
    requires from <= upto < |changes|
    ensures FeedIns(changes + [c], from, upto) == FeedIns(changes, from, upto)
    ensures FeedDel(changes + [c], from, upto) == FeedDel(changes, from, upto)
    decreases upto
  {
    if from < upto {
      FeedPrefix(changes, c, from, upto - 1);
    }
  }

  lemma {:induction false} WindowGrows<R>(d: Definition<R>, changes: seq<Change<R>>, from: nat, upto: nat, k: Key)
    requires WellFormed(d) && from <= upto && upto + 1 < |changes|
    ensures WindowKeys(d, changes, from, upto + 1)(k) <==>
            WindowKeys(d, changes, from, upto)(k) || CarriesKey(d, changes[upto + 1].ins)(k) || CarriesKey(d, changes[upto + 1].del)(k)
  {
    var i, e, c := FeedIns(changes, from, upto), FeedDel(changes, from, upto), changes[upto + 1];
    CarriesEither(d, i, e, k);
    CarriesEither(d, i + c.ins, e + c.del, k);
    CarriesEither(d, i, c.ins, k);
    CarriesEither(d, e, c.del, k);
  }

  // ---- one refresh ----

  /** Both changes of a transaction, as its commit records them. */
  function Both<R>(a: Change<R>, b: Change<R>): Change<R> {
    Change(a.ins + b.ins, a.del + b.del, a.touched || b.touched)
  }

  /** The refresh mode, in the order the code decides it. */
  ghost function ModeOf<R>(d: Definition<R>, s: Lake<R>, tx: Transaction<R>, ifStale: bool, repaired: bool, eligible: bool): Mode
    requires WellFormed(d) && tx.snapshot < |s.changes|
  {
    var v := s.view;
    var sourceChanged := v.cursor.None? || tx.before.touched ||
                         (v.cursor.value != tx.snapshot && Changed(s.changes, v.cursor.value, tx.snapshot));
    if ifStale && !sourceChanged then Skipped
    else
      var forceFull := (!ifStale && !sourceChanged) || (!ifStale && repaired);
      if !forceFull && eligible && !tx.before.touched && v.cursor.Some? then
        if (DeltaEligible(d.columns) || ConditionalDeltaEligible(d.columns)) && !v.ownWrites && FillsSelectList(d)
        then (if Distinct(d.groups) then Delta else Failed)
        else Incremental
      else Full
  }

  /** A commit after the cursor, up to the snapshot read, or the transaction itself touched the base, or
      there is no cursor yet. */
  ghost predicate Stale<R>(s: Lake<R>, tx: Transaction<R>)
    requires tx.snapshot < |s.changes|
  {
    || s.view.cursor.None? || tx.before.touched
    || exists i :: s.view.cursor.value < i <= tx.snapshot && s.changes[i].touched
  }

  /** When each mode is chosen.  A refresh is skipped exactly when it is IF STALE and nothing changed; it is
      full when a plain one meets nothing new or a repaired table, for a view that is not eligible or
      was never filled, and after own writes; the forms that read the change feed share the rest. */
  lemma ModeExactlyWhen<R>(d: Definition<R>, s: Lake<R>, tx: Transaction<R>, ifStale: bool, repaired: bool, eligible: bool)
    requires WellFormed(d) && tx.snapshot < |s.changes|
    ensures var mode := ModeOf(d, s, tx, ifStale, repaired, eligible);
            var feed := Stale(s, tx) && !tx.before.touched && s.view.cursor.Some? && eligible && (ifStale || !repaired);
            var delta := (DeltaEligible(d.columns) || ConditionalDeltaEligible(d.columns)) && FillsSelectList(d) && !s.view.ownWrites;
            && (mode == Skipped <==> ifStale && !Stale(s, tx))
            && (mode == Full <==>
                  || (!ifStale && (!Stale(s, tx) || repaired))
                  || (Stale(s, tx) && (tx.before.touched || s.view.cursor.None? || !eligible)))
            && (mode == Delta <==> feed && delta && Distinct(d.groups))
            && (mode == Failed <==> feed && delta && !Distinct(d.groups))
            && (mode == Incremental <==> feed && !delta)
  {
  }

  /** What the chosen statement may leave in the backing table, in any row order. */
  ghost predicate Produces<R>(d: Definition<R>, s: Lake<R>, tx: Transaction<R>, mode: Mode, rows: seq<ViewRow>)
    requires WellFormed(d) && ValidHistory(s) && tx.snapshot < |s.history|
    requires (mode == Delta || mode == Incremental) ==> s.view.cursor.Some? && s.view.cursor.value <= tx.snapshot
  {
    match mode
    case Skipped => rows == s.view.rows
    case Failed => false
    case Full => IsView(d, rows, tx.seen)
    case Delta =>
      var from := s.view.cursor.value;
      var ins, del := FeedIns(s.changes, from, tx.snapshot), FeedDel(s.changes, from, tx.snapshot);
      DeltaEligibleNow(d) &&
      exists up, re :: ListsTouched(d, ins, del, up) && ListsTouched(d, ins, del, re) &&
                       SameRows(rows, DeltaRows(d, s.view.rows, ins, del, tx.seen, up, re))
    case Incremental =>
      var changed := WindowKeys(d, s.changes, s.view.cursor.value, tx.snapshot);
      exists keys :: ListsChanged(d, changed, keys) && SameRows(rows, KeyedRows(d, s.view.rows, changed, tx.seen, keys))
  }

  ghost predicate DeltaEligibleNow<R>(d: Definition<R>) {
    HasDerivedState(d.columns) && HasCountStar(d.columns)
  }

  /** A refresh transaction reads a snapshot no older than the view's last refresh commit (two
      overlapping refreshes conflict on the backing files) and sees its own earlier writes. */
  ghost predicate ReadsConsistently<R>(s: Lake<R>, tx: Transaction<R>) {
    && tx.snapshot < |s.history|
    && (s.view.cursor.Some? ==> s.view.refreshedAt <= tx.snapshot)
    && Moves(s.history[tx.snapshot], tx.before, tx.seen)
    && (!tx.after.touched ==> tx.after.ins == [] && tx.after.del == [])
  }

  ghost predicate Allowed<R>(d: Definition<R>, eligible: bool, s: Lake<R>, e: Event<R>)
    requires WellFormed(d) && ValidHistory(s)
  {
    var head := s.history[|s.history| - 1];
    match e
    case BaseCommit(c, base) => Moves(head, c, base)
    case Refresh(tx, ifStale, repaired, rows, base) =>
      && ReadsConsistently(s, tx)
      && Moves(head, Both(tx.before, tx.after), base)
      && (s.view.cursor.Some? ==> s.view.cursor.value <= s.view.refreshedAt)
      && Produces(d, s, tx, ModeOf(d, s, tx, ifStale, repaired, eligible), rows)
  }

  ghost function Apply<R>(d: Definition<R>, eligible: bool, s: Lake<R>, e: Event<R>): Lake<R>
    requires WellFormed(d) && ValidHistory(s) && Allowed(d, eligible, s, e)
  {
    match e
    case BaseCommit(c, base) => Lake(s.history + [base], s.changes + [c], s.view)
    case Refresh(tx, ifStale, repaired, rows, base) =>
      var mode := ModeOf(d, s, tx, ifStale, repaired, eligible);
      Lake(s.history + [base], s.changes + [Both(tx.before, tx.after)],
           if mode == Skipped then s.view else View(rows, Some(tx.snapshot), tx.before.touched, |s.history|))
  }

  // ---- the invariant ----

  ghost predicate Inv<R>(d: Definition<R>, s: Lake<R>)
    requires WellFormed(d)
  {
    && ValidHistory(s)
    && (s.view.cursor.Some? ==>
          && s.view.cursor.value <= s.view.refreshedAt < |s.history|
          && Widths(d, s.view.rows)
          // groups untouched since the cursor match the base
          && AgreesOutside(d, s.view.rows, WindowKeys(d, s.changes, s.view.cursor.value, s.view.refreshedAt), s.history[s.view.refreshedAt])
          // without own writes the rows are exactly the query at the cursor
          && (!s.view.ownWrites ==> IsView(d, s.view.rows, s.history[s.view.cursor.value])))
  }

  lemma AllWindowGrows<R>(d: Definition<R>, changes: seq<Change<R>>, from: nat, upto: nat)
    requires WellFormed(d) && from <= upto && upto + 1 < |changes|
    ensures forall k :: WindowKeys(d, changes, from, upto)(k) || CarriesKey(d, changes[upto + 1].ins)(k) || CarriesKey(d, changes[upto + 1].del)(k)
                        ==> WindowKeys(d, changes, from, upto + 1)(k)
  {
    var ch := changes[upto + 1];
    forall k ensures WindowKeys(d, changes, from, upto)(k) || CarriesKey(d, ch.ins)(k) || CarriesKey(d, ch.del)(k) ==>
                     WindowKeys(d, changes, from, upto + 1)(k)
    {
      WindowGrows(d, changes, from, upto, k);
    }
  }

  lemma {:induction false} AgreementLater<R>(d: Definition<R>, s: Lake<R>, rows: seq<ViewRow>, c: nat, from: nat, at: nat)
    requires WellFormed(d) && ValidHistory(s) && c <= from <= at < |s.history|
    requires AgreesOutside(d, rows, WindowKeys(d, s.changes, c, from), s.history[from])
    ensures AgreesOutside(d, rows, WindowKeys(d, s.changes, c, at), s.history[at])
    decreases at
  {
    if at > from {
      AgreementLater(d, s, rows, c, from, at - 1);
      AgreementOnce(d, s, rows, c, at);
    }
  }

  lemma AgreementOnce<R>(d: Definition<R>, s: Lake<R>, rows: seq<ViewRow>, c: nat, at: nat)
    requires WellFormed(d) && ValidHistory(s) && c < at < |s.history|
    requires AgreesOutside(d, rows, WindowKeys(d, s.changes, c, at - 1), s.history[at - 1])
    ensures AgreesOutside(d, rows, WindowKeys(d, s.changes, c, at), s.history[at])
  {
    var ch := s.changes[at];
    assert Moves(s.history[at - 1], ch, s.history[at]);
    AllWindowGrows(d, s.changes, c, at - 1);
    AgreementAdvances(d, rows, WindowKeys(d, s.changes, c, at - 1), s.history[at - 1], ch.ins, s.history[at], ch.del,
                      WindowKeys(d, s.changes, c, at));
  }

  /** Groups no commit has touched since the cursor match every later base. */
  lemma UntouchedGroupsMatch<R>(d: Definition<R>, s: Lake<R>, at: nat)
    requires WellFormed(d) && Inv(d, s) && s.view.cursor.Some? && s.view.refreshedAt <= at < |s.history|
    ensures AgreesOutside(d, s.view.rows, WindowKeys(d, s.changes, s.view.cursor.value, at), s.history[at])
  {
    AgreementLater(d, s, s.view.rows, s.view.cursor.value, s.view.refreshedAt, at);
  }

  /** Row order in the backing table is immaterial. */
  lemma IsViewPermuted<R>(d: Definition<R>, a: seq<ViewRow>, b: seq<ViewRow>, base: seq<R>)
    requires WellFormed(d) && SameRows(a, b) && IsView(d, b, base)
    ensures IsView(d, a, base)
  {
    forall row | row in a ensures |row| == |d.columns| {
      SameRowsMembers(a, b, row);
    }
    forall k ensures AgreesAt(d, a, base, k) {
      assert AgreesAt(d, b, base, k);
      if KeyShape(d, k) {
        SelectSameRows(a, b, WithKey(d, k));
        AtMostOneSame(RowsAt(d, a, k), RowsAt(d, b, k));
      }
    }
  }

  lemma AtMostOneSame<T>(a: seq<T>, b: seq<T>)
    requires SameRows(a, b) && |b| <= 1
    ensures a == b
  {
    SameRowsSize(a, b);
    if |a| == 1 {
      SameRowsMembers(a, b, a[0]);
    }
  }

  /** With an untouched prefix of writes the transaction sees its snapshot's rows. */
  lemma SeesSnapshot<R>(s: Lake<R>, tx: Transaction<R>)
    requires ValidHistory(s) && ReadsConsistently(s, tx) && !tx.before.touched
    ensures SameRows(s.history[tx.snapshot], tx.seen)
  {
    assert s.history[tx.snapshot] + tx.before.ins == s.history[tx.snapshot];
    assert tx.seen + tx.before.del == tx.seen;
  }

  /** A view nothing in the window touched is already the query at the later snapshot. */
  lemma QuietView<R>(d: Definition<R>, s: Lake<R>, at: nat)
    requires WellFormed(d) && Inv(d, s) && s.view.cursor.Some? && s.view.refreshedAt <= at < |s.history|
    requires s.view.cursor.value == at || !Changed(s.changes, s.view.cursor.value, at)
    ensures IsView(d, s.view.rows, s.history[at])
  {
    var c := s.view.cursor.value;
    UntouchedGroupsMatch(d, s, at);
    assert !Changed(s.changes, c, at);
    QuietFeed(s, c, at);
    forall k ensures AgreesAt(d, s.view.rows, s.history[at], k) {
      assert !WindowKeys(d, s.changes, c, at)(k);
    }
  }

  lemma DeltaIsExact<R>(d: Definition<R>, s: Lake<R>, tx: Transaction<R>, rows: seq<ViewRow>)
    requires WellFormed(d) && Inv(d, s) && s.view.cursor.Some? && s.view.cursor.value <= tx.snapshot
    requires Maintainable(d) && !s.view.ownWrites && !tx.before.touched && ReadsConsistently(s, tx)
    requires Produces(d, s, tx, Delta, rows)
    ensures IsView(d, rows, tx.seen)
  {
    var from, upto := s.view.cursor.value, tx.snapshot;
    var ins, del := FeedIns(s.changes, from, upto), FeedDel(s.changes, from, upto);
    var up, re :| ListsTouched(d, ins, del, up) && ListsTouched(d, ins, del, re) &&
                  SameRows(rows, DeltaRows(d, s.view.rows, ins, del, tx.seen, up, re));
    FeedBalances(s, from, upto);
    SeesSnapshot(s, tx);
    assert SameRows(s.history[from] + ins, tx.seen + del);
    DeltaRefreshIsRecompute(d, s.view.rows, s.history[from], ins, tx.seen, del, up, re);
    IsViewPermuted(d, rows, DeltaRows(d, s.view.rows, ins, del, tx.seen, up, re), tx.seen);
  }

  lemma AgreesSameRows<R>(d: Definition<R>, stored: seq<ViewRow>, changed: Key -> bool, a: seq<R>, b: seq<R>)
    requires WellFormed(d) && AgreesOutside(d, stored, changed, a) && SameRows(a, b)
    ensures AgreesOutside(d, stored, changed, b)
  {
    assert SameRows(a + [], b + []) by {
      assert a + [] == a && b + [] == b;
    }
    AgreementAdvances(d, stored, changed, a, [], b, [], changed);
  }

  lemma IncrementalIsExact<R>(d: Definition<R>, s: Lake<R>, tx: Transaction<R>, rows: seq<ViewRow>)
    requires WellFormed(d) && Inv(d, s) && s.view.cursor.Some? && s.view.cursor.value <= tx.snapshot
    requires !tx.before.touched && ReadsConsistently(s, tx)
    requires Produces(d, s, tx, Incremental, rows)
    ensures IsView(d, rows, tx.seen)
  {
    var changed := WindowKeys(d, s.changes, s.view.cursor.value, tx.snapshot);
    var keys :| ListsChanged(d, changed, keys) && SameRows(rows, KeyedRows(d, s.view.rows, changed, tx.seen, keys));
    UntouchedGroupsMatch(d, s, tx.snapshot);
    SeesSnapshot(s, tx);
    AgreesSameRows(d, s.view.rows, changed, s.history[tx.snapshot], tx.seen);
    KeyedRefreshExactlyWhen(d, s.view.rows, changed, tx.seen, keys);
    IsViewPermuted(d, rows, KeyedRows(d, s.view.rows, changed, tx.seen, keys), tx.seen);
  }

  /** Every refresh, skipped ones included, leaves the query over the base its transaction saw. */
  lemma RefreshIsExact<R>(d: Definition<R>, eligible: bool, s: Lake<R>, e: Event<R>)
    requires WellFormed(d) && Inv(d, s) && Allowed(d, eligible, s, e) && e.Refresh?
    ensures IsView(d, Apply(d, eligible, s, e).view.rows, e.tx.seen)
  {
    var tx := e.tx;
    match ModeOf(d, s, tx, e.ifStale, e.repaired, eligible)
    case Full =>
    case Delta => DeltaIsExact(d, s, tx, e.rows);
    case Incremental => IncrementalIsExact(d, s, tx, e.rows);
    case Skipped =>
      QuietView(d, s, tx.snapshot);
      SeesSnapshot(s, tx);
      IsViewSameRows(d, s.view.rows, s.history[tx.snapshot], tx.seen);
  }

  lemma HistoryGrows<R>(s: Lake<R>, c: Change<R>, base: seq<R>, view: View)
    requires ValidHistory(s) && Moves(s.history[|s.history| - 1], c, base)
    ensures ValidHistory(Lake(s.history + [base], s.changes + [c], view))
  {
    var h, ch := s.history + [base], s.changes + [c];
    forall i | 0 < i < |h| ensures Moves(h[i - 1], ch[i], h[i]) {
      if i < |s.history| {
        assert Moves(s.history[i - 1], s.changes[i], s.history[i]);
      }
    }
  }

  /** A commit that leaves the view alone keeps the invariant. */
  lemma ForeignCommit<R>(d: Definition<R>, s: Lake<R>, c: Change<R>, base: seq<R>)
    requires WellFormed(d) && Inv(d, s) && Moves(s.history[|s.history| - 1], c, base)
    ensures Inv(d, Lake(s.history + [base], s.changes + [c], s.view))
  {
    HistoryGrows(s, c, base, s.view);
    if s.view.cursor.Some? {
      FeedPrefix(s.changes, c, s.view.cursor.value, s.view.refreshedAt);
    }
  }

  /** The window a refresh opens: from the snapshot it read up to its own commit, which carries
      every key the transaction itself wrote before refreshing. */
  lemma OwnCommitInWindow<R>(d: Definition<R>, t: Lake<R>, tx: Transaction<R>, rows: seq<ViewRow>)
    requires WellFormed(d) && ValidHistory(t) && |t.history| >= 2 && tx.snapshot + 1 < |t.history|
    requires t.changes[|t.changes| - 1] == Both(tx.before, tx.after)
    requires Moves(t.history[tx.snapshot], tx.before, tx.seen) && IsView(d, rows, tx.seen)
    ensures AgreesOutside(d, rows, WindowKeys(d, t.changes, tx.snapshot, |t.history| - 1), t.history[|t.history| - 1])
  {
    var b, last := tx.snapshot, |t.history| - 1;
    var wide := WindowKeys(d, t.changes, b, last);
    var own := CarriesKey(d, tx.before.ins + tx.before.del);
    // back from what the transaction saw to its snapshot, then forward to its commit
    forall k ensures CarriesKey(d, tx.before.ins)(k) || CarriesKey(d, tx.before.del)(k) ==> own(k) {
      CarriesEither(d, tx.before.ins, tx.before.del, k);
    }
    AgreementAdvances(d, rows, (k: Key) => false, tx.seen, tx.before.del, t.history[b], tx.before.ins, own);
    FeedBalances(t, b, last);
    var ins, del := FeedIns(t.changes, b, last), FeedDel(t.changes, b, last);
    forall k ensures own(k) || CarriesKey(d, ins)(k) || CarriesKey(d, del)(k) ==> wide(k) {
      var i0, d0 := FeedIns(t.changes, b, last - 1), FeedDel(t.changes, b, last - 1);
      CarriesEither(d, ins, del, k);
      CarriesEither(d, tx.before.ins, tx.before.del, k);
      CarriesEither(d, tx.before.ins, tx.after.ins, k);
      CarriesEither(d, tx.before.del, tx.after.del, k);
      CarriesEither(d, i0, tx.before.ins + tx.after.ins, k);
      CarriesEither(d, d0, tx.before.del + tx.after.del, k);
    }
    AgreementAdvances(d, rows, own, t.history[b], ins, t.history[last], del, wide);
  }

  /** Without own writes the refreshed rows are the query at the snapshot the transaction read. */
  lemma CleanRefresh<R>(d: Definition<R>, s: Lake<R>, tx: Transaction<R>, rows: seq<ViewRow>)
    requires WellFormed(d) && ValidHistory(s) && ReadsConsistently(s, tx) && IsView(d, rows, tx.seen) && !tx.before.touched
    ensures IsView(d, rows, s.history[tx.snapshot])
  {
    SeesSnapshot(s, tx);
    IsViewSameRows(d, rows, tx.seen, s.history[tx.snapshot]);
  }

  lemma CommittedRefresh<R>(d: Definition<R>, s: Lake<R>, tx: Transaction<R>, rows: seq<ViewRow>, base: seq<R>, own: Change<R>, t: Lake<R>)
    requires WellFormed(d) && ValidHistory(s) && ReadsConsistently(s, tx) && IsView(d, rows, tx.seen)
    requires own == Both(tx.before, tx.after) && Moves(s.history[|s.history| - 1], own, base)
    requires t == Lake(s.history + [base], s.changes + [own], View(rows, Some(tx.snapshot), tx.before.touched, |s.history|))
    ensures Inv(d, t)
  {
    HistoryGrows(s, own, base, t.view);
    assert t.history[tx.snapshot] == s.history[tx.snapshot] && t.view.refreshedAt == |t.history| - 1;
    OwnCommitInWindow(d, t, tx, rows);
    if !tx.before.touched {
      CleanRefresh(d, s, tx, rows);
    }
  }

  lemma StepKeepsInv<R>(d: Definition<R>, eligible: bool, s: Lake<R>, e: Event<R>)
    requires WellFormed(d) && Inv(d, s) && Allowed(d, eligible, s, e)
    ensures Inv(d, Apply(d, eligible, s, e))
  {
    match e
    case BaseCommit(c, base) => ForeignCommit(d, s, c, base);
    case Refresh(tx, ifStale, repaired, rows, base) =>
      if ModeOf(d, s, tx, ifStale, repaired, eligible) == Skipped {
        ForeignCommit(d, s, Both(tx.before, tx.after), base);
      } else {
        RefreshIsExact(d, eligible, s, e);
        CommittedRefresh(d, s, tx, rows, base, Both(tx.before, tx.after), Apply(d, eligible, s, e));
      }
  }

  /** Every one of the first n events is allowed where it happens. */
  ghost predicate IsRun<R>(d: Definition<R>, eligible: bool, s: Lake<R>, run: seq<Event<R>>, n: nat)
    requires WellFormed(d) && n <= |run|
    decreases n, 1
  {
    n == 0 ||
    (IsRun(d, eligible, s, run, n - 1)
     && (var t := After(d, eligible, s, run, n - 1); ValidHistory(t) && Allowed(d, eligible, t, run[n - 1])))
  }

  /** The state after the first n events. */
  ghost function After<R>(d: Definition<R>, eligible: bool, s: Lake<R>, run: seq<Event<R>>, n: nat): Lake<R>
    requires WellFormed(d) && n <= |run| && IsRun(d, eligible, s, run, n)
    decreases n, 2
  {
    if n == 0 then s else Apply(d, eligible, After(d, eligible, s, run, n - 1), run[n - 1])
  }

  /** A lake whose view has not been filled yet. */
  ghost predicate Fresh<R>(s: Lake<R>) {
    ValidHistory(s) && s.view.cursor.None?
  }

  lemma {:induction false} RunKeepsInv<R>(d: Definition<R>, eligible: bool, s: Lake<R>, run: seq<Event<R>>, n: nat)
    requires WellFormed(d) && Inv(d, s) && n <= |run| && IsRun(d, eligible, s, run, n)
    ensures Inv(d, After(d, eligible, s, run, n))
    decreases n
  {
    if n > 0 {
      RunKeepsInv(d, eligible, s, run, n - 1);
      StepKeepsInv(d, eligible, After(d, eligible, s, run, n - 1), run[n - 1]);
    }
  }

  /** The view after an event: a refresh left the query over the base its own transaction saw; groups
      no commit has touched since the cursor match the current base; and a clear own-writes flag
      means the rows are the query at the cursor. */
  ghost predicate ExactAfter<R>(d: Definition<R>, e: Event<R>, t: Lake<R>)
    requires WellFormed(d)
  {
    && (e.Refresh? ==> IsView(d, t.view.rows, e.tx.seen))
    && (t.view.cursor.Some? ==>
          var last := |t.history| - 1;
          && t.view.cursor.value <= last && ValidHistory(t)
          && AgreesOutside(d, t.view.rows, WindowKeys(d, t.changes, t.view.cursor.value, last), t.history[last])
          && (!t.view.ownWrites ==> IsView(d, t.view.rows, t.history[t.view.cursor.value])))
  }

  lemma InvIsExact<R>(d: Definition<R>, e: Event<R>, t: Lake<R>)
    requires WellFormed(d) && Inv(d, t) && (e.Refresh? ==> IsView(d, t.view.rows, e.tx.seen))
    ensures ExactAfter(d, e, t)
  {
    if t.view.cursor.Some? {
      UntouchedGroupsMatch(d, t, |t.history| - 1);
    }
  }

  lemma StepIsExact<R>(d: Definition<R>, eligible: bool, s: Lake<R>, e: Event<R>)
    requires WellFormed(d) && Inv(d, s) && Allowed(d, eligible, s, e)
    ensures ExactAfter(d, e, Apply(d, eligible, s, e))
  {
    StepKeepsInv(d, eligible, s, e);
    if e.Refresh? {
      RefreshIsExact(d, eligible, s, e);
    }
    InvIsExact(d, e, Apply(d, eligible, s, e));
  }

  /** Every event of every run from a fresh view leaves the view exact. */
  lemma EveryRunIsExact<R>(d: Definition<R>, eligible: bool, s: Lake<R>, run: seq<Event<R>>, n: nat)
    requires WellFormed(d) && Fresh(s) && n < |run| && IsRun(d, eligible, s, run, n + 1)
    ensures ExactAfter(d, run[n], After(d, eligible, s, run, n + 1))
  {
    RunKeepsInv(d, eligible, s, run, n);
    StepIsExact(d, eligible, After(d, eligible, s, run, n), run[n]);
  }
}
