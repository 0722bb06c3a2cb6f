/**
 Refreshing one view over a fact table joined with a dimension over whole runs.  With the
 dimension held still, the joined rows behave like a single base table, and the run model of
 RefreshRuns applies to them; the gate of the join form is what makes sure of that.
 */
module JoinRuns {
  import opened Tables
  import opened ViewDefinition
  import opened KeyedRefresh
  import opened RefreshRuns

  /** Both tables at every snapshot, and the commits that produced them. */
  datatype JoinLake<F, D> = JoinLake(
    facts: seq<seq<F>>, factChanges: seq<Change<F>>, dims: seq<seq<D>>, dimChanges: seq<Change<D>>, view: View)

  /** A refresh transaction's snapshot, its writes to both tables before and after the refresh, and
      the tables it sees. */
  datatype JoinTransaction<F, D> = JoinTransaction(
    snapshot: nat, factsBefore: Change<F>, dimsBefore: Change<D>, seenFacts: seq<F>, seenDims: seq<D>,
    factsAfter: Change<F>, dimsAfter: Change<D>)

  datatype JoinMode = Skip | Recompute | FromFacts

  datatype JoinEvent<F, D> =
    | Commit(facts: Change<F>, dims: Change<D>, newFacts: seq<F>, newDims: seq<D>)
    | JoinRefresh(tx: JoinTransaction<F, D>, ifStale: bool, repaired: bool, rows: seq<ViewRow>, newFacts: seq<F>, newDims: seq<D>)

  function FactLake<F, D>(s: JoinLake<F, D>): Lake<F> {
    Lake(s.facts, s.factChanges, s.view)
  }

  function DimLake<F, D>(s: JoinLake<F, D>): Lake<D> {
    Lake(s.dims, s.dimChanges, s.view)
  }

  function FactTx<F, D>(tx: JoinTransaction<F, D>): Transaction<F> {
    Transaction(tx.snapshot, tx.factsBefore, tx.seenFacts, tx.factsAfter)
  }

  function DimTx<F, D>(tx: JoinTransaction<F, D>): Transaction<D> {
    Transaction(tx.snapshot, tx.dimsBefore, tx.seenDims, tx.dimsAfter)
  }

  ghost predicate ValidJoin<F, D>(s: JoinLake<F, D>) {
    ValidHistory(FactLake(s)) && ValidHistory(DimLake(s)) && |s.facts| == |s.dims|
  }

  /** The refresh mode of a view over two tables, in the order the code decides it. */
  ghost function JoinModeOf<F, D>(s: JoinLake<F, D>, tx: JoinTransaction<F, D>, ifStale: bool, repaired: bool, eligible: bool): JoinMode
    requires tx.snapshot < |s.factChanges| == |s.dimChanges|
  {
    var v := s.view;
    var localDirty := tx.factsBefore.touched || tx.dimsBefore.touched;
    var sourceChanged := v.cursor.None? || localDirty ||
                         (v.cursor.value != tx.snapshot &&
                          (Changed(s.factChanges, v.cursor.value, tx.snapshot) || Changed(s.dimChanges, v.cursor.value, tx.snapshot)));
    if ifStale && !sourceChanged then Skip
    else
      var forceFull := (!ifStale && !sourceChanged) || (!ifStale && repaired);
      // only local changes of the fact side are tested here
      if !forceFull && eligible && v.cursor.Some? && !Changed(s.dimChanges, v.cursor.value, tx.snapshot)
         && Changed(s.factChanges, v.cursor.value, tx.snapshot) && !tx.factsBefore.touched
      then FromFacts else Recompute
  }

  /** A commit after the cursor, up to the snapshot read, touched a table. */
  ghost predicate Committed<R>(changes: seq<Change<R>>, cursor: Option<nat>, upto: nat)
    requires upto < |changes|
  {
    cursor.Some? && exists i :: cursor.value < i <= upto && changes[i].touched
  }

  /** When each mode is chosen: only a commit to the fact table, with none to the dimension, no own write to
      the fact table and no reason for a full refresh, leads to a refresh from the fact side. */
  lemma JoinModeExactlyWhen<F, D>(s: JoinLake<F, D>, tx: JoinTransaction<F, D>, ifStale: bool, repaired: bool, eligible: bool)
    requires tx.snapshot < |s.factChanges| == |s.dimChanges|
    ensures var mode := JoinModeOf(s, tx, ifStale, repaired, eligible);
            var facts, dims := Committed(s.factChanges, s.view.cursor, tx.snapshot), Committed(s.dimChanges, s.view.cursor, tx.snapshot);
            var stale := s.view.cursor.None? || tx.factsBefore.touched || tx.dimsBefore.touched || facts || dims;
            && (mode == Skip <==> ifStale && !stale)
            && (mode == FromFacts <==> eligible && facts && !dims && !tx.factsBefore.touched && (ifStale || !repaired))
            && (mode == Recompute <==> mode != Skip && mode != FromFacts)
  {
  }

  /** What the chosen statement may leave in the backing table, in any row order. */
  ghost predicate JoinProduces<F, D>(d: Definition<(F, D)>, on: (F, D) -> bool, s: JoinLake<F, D>, tx: JoinTransaction<F, D>,
                                     mode: JoinMode, rows: seq<ViewRow>)
    requires WellFormed(d) && tx.snapshot < |s.factChanges|
    requires mode == FromFacts ==> s.view.cursor.Some? && s.view.cursor.value <= tx.snapshot
  {
    match mode
    case Skip => rows == s.view.rows
    case Recompute => IsView(d, rows, Join(tx.seenFacts, tx.seenDims, on))
    case FromFacts =>
      var ins, del := FeedIns(s.factChanges, s.view.cursor.value, tx.snapshot), FeedDel(s.factChanges, s.view.cursor.value, tx.snapshot);
      exists keys :: ListsChanged(d, JoinChanged(d, on, ins, del, tx.seenDims), keys) &&
                     SameRows(rows, JoinRows(d, on, s.view.rows, ins, del, tx.seenFacts, tx.seenDims, keys))
  }

  ghost predicate JoinAllowed<F, D>(d: Definition<(F, D)>, on: (F, D) -> bool, eligible: bool, s: JoinLake<F, D>, e: JoinEvent<F, D>)
    requires WellFormed(d) && ValidJoin(s)
  {
    var last := |s.facts| - 1;
    match e
    case Commit(facts, dims, newFacts, newDims) => Moves(s.facts[last], facts, newFacts) && Moves(s.dims[last], dims, newDims)
    case JoinRefresh(tx, ifStale, repaired, rows, newFacts, newDims) =>
      && ReadsConsistently(FactLake(s), FactTx(tx)) && ReadsConsistently(DimLake(s), DimTx(tx))
      && Moves(s.facts[last], Both(tx.factsBefore, tx.factsAfter), newFacts)
      && Moves(s.dims[last], Both(tx.dimsBefore, tx.dimsAfter), newDims)
      && (s.view.cursor.Some? ==> s.view.cursor.value <= s.view.refreshedAt)
      && JoinProduces(d, on, s, tx, JoinModeOf(s, tx, ifStale, repaired, eligible), rows)
  }

  ghost function Appended<F, D>(s: JoinLake<F, D>, facts: Change<F>, dims: Change<D>, newFacts: seq<F>, newDims: seq<D>, view: View): JoinLake<F, D> {
    JoinLake(s.facts + [newFacts], s.factChanges + [facts], s.dims + [newDims], s.dimChanges + [dims], view)
  }

  ghost function ViewAfter<F, D>(s: JoinLake<F, D>, tx: JoinTransaction<F, D>, mode: JoinMode, rows: seq<ViewRow>): View {
    if mode == Skip then s.view
    else View(rows, Some(tx.snapshot), tx.factsBefore.touched || tx.dimsBefore.touched, |s.facts|)
  }

  ghost function JoinApply<F, D>(d: Definition<(F, D)>, on: (F, D) -> bool, eligible: bool, s: JoinLake<F, D>, e: JoinEvent<F, D>): JoinLake<F, D>
    requires WellFormed(d) && ValidJoin(s) && JoinAllowed(d, on, eligible, s, e)
  {
    match e
    case Commit(facts, dims, newFacts, newDims) => Appended(s, facts, dims, newFacts, newDims, s.view)
    case JoinRefresh(tx, ifStale, repaired, rows, newFacts, newDims) =>
      Appended(s, Both(tx.factsBefore, tx.factsAfter), Both(tx.dimsBefore, tx.dimsAfter), newFacts, newDims,
                ViewAfter(s, tx, JoinModeOf(s, tx, ifStale, repaired, eligible), rows))
  }

  // ---- the fact table's past joined with one dimension ----

  function JoinedChange<F, D>(c: Change<F>, dims: seq<D>, on: (F, D) -> bool): Change<(F, D)> {
    Change(Join(c.ins, dims, on), Join(c.del, dims, on), c.touched)
  }

  function JoinedLake<F, D>(s: JoinLake<F, D>, dims: seq<D>, on: (F, D) -> bool): Lake<(F, D)> {
    Lake(seq(|s.facts|, i requires 0 <= i < |s.facts| => Join(s.facts[i], dims, on)),
         seq(|s.factChanges|, i requires 0 <= i < |s.factChanges| => JoinedChange(s.factChanges[i], dims, on)), s.view)
  }

  function JoinedTx<F, D>(tx: JoinTransaction<F, D>, dims: seq<D>, on: (F, D) -> bool): Transaction<(F, D)> {
    Transaction(tx.snapshot, JoinedChange(tx.factsBefore, dims, on), Join(tx.seenFacts, dims, on), JoinedChange(tx.factsAfter, dims, on))
  }

  lemma JoinedMoves<F, D>(old_: seq<F>, c: Change<F>, new_: seq<F>, dims: seq<D>, on: (F, D) -> bool)
    requires Moves(old_, c, new_)
    ensures Moves(Join(old_, dims, on), JoinedChange(c, dims, on), Join(new_, dims, on))
  {
    BalancedJoin(old_, c.ins, new_, c.del, dims, on);
  }

  lemma JoinedBoth<F, D>(a: Change<F>, b: Change<F>, dims: seq<D>, on: (F, D) -> bool)
    ensures JoinedChange(Both(a, b), dims, on) == Both(JoinedChange(a, dims, on), JoinedChange(b, dims, on))
  {
    JoinAppend(a.ins, b.ins, dims, on);
    JoinAppend(a.del, b.del, dims, on);
  }

  lemma JoinedIsValid<F, D>(s: JoinLake<F, D>, dims: seq<D>, on: (F, D) -> bool)
    requires ValidHistory(FactLake(s))
    ensures ValidHistory(JoinedLake(s, dims, on))
  {
    forall i | 0 < i < |s.facts|
      ensures Moves(Join(s.facts[i - 1], dims, on), JoinedChange(s.factChanges[i], dims, on), Join(s.facts[i], dims, on))
    {
      assert Moves(FactLake(s).history[i - 1], FactLake(s).changes[i], FactLake(s).history[i]);
      JoinedMoves(s.facts[i - 1], s.factChanges[i], s.facts[i], dims, on);
    }
  }

  /** The joined feed is the fact feed joined. */
  lemma {:induction false} JoinedFeed<F, D>(s: JoinLake<F, D>, dims: seq<D>, on: (F, D) -> bool, from: nat, upto: nat)
    requires from <= upto < |s.factChanges|
    ensures FeedIns(JoinedLake(s, dims, on).changes, from, upto) == Join(FeedIns(s.factChanges, from, upto), dims, on)
    ensures FeedDel(JoinedLake(s, dims, on).changes, from, upto) == Join(FeedDel(s.factChanges, from, upto), dims, on)
    decreases upto
  {
    if from < upto {
      JoinedFeed(s, dims, on, from, upto - 1);
      JoinAppend(FeedIns(s.factChanges, from, upto - 1), s.factChanges[upto].ins, dims, on);
      JoinAppend(FeedDel(s.factChanges, from, upto - 1), s.factChanges[upto].del, dims, on);
    }
  }

  lemma JoinedWindow<F, D>(d: Definition<(F, D)>, on: (F, D) -> bool, s: JoinLake<F, D>, dims: seq<D>, from: nat, upto: nat)
    requires WellFormed(d) && from <= upto < |s.factChanges|
    ensures WindowKeys(d, JoinedLake(s, dims, on).changes, from, upto) ==
            JoinChanged(d, on, FeedIns(s.factChanges, from, upto), FeedDel(s.factChanges, from, upto), dims)
  {
    JoinedFeed(s, dims, on, from, upto);
  }

  /** A commit appends to the joined past. */
  lemma JoinedCommit<F, D>(s: JoinLake<F, D>, facts: Change<F>, dims: Change<D>, newFacts: seq<F>, newDims: seq<D>, view: View,
                           held: seq<D>, on: (F, D) -> bool)
    ensures JoinedLake(Appended(s, facts, dims, newFacts, newDims, view), held, on) ==
            Lake(JoinedLake(s, held, on).history + [Join(newFacts, held, on)],
                 JoinedLake(s, held, on).changes + [JoinedChange(facts, held, on)], view)
  {
  }

  // ---- the invariant ----

  /** As long as no commit since the cursor touched the dimension, the view is one over the joined rows. */
  ghost predicate JoinInv<F, D>(d: Definition<(F, D)>, on: (F, D) -> bool, s: JoinLake<F, D>)
    requires WellFormed(d)
  {
    && ValidJoin(s)
    && (s.view.cursor.Some? ==>
          && s.view.cursor.value <= s.view.refreshedAt < |s.facts|
          && (!Changed(s.dimChanges, s.view.cursor.value, s.view.refreshedAt) ==>
                Inv(d, JoinedLake(s, s.dims[s.view.cursor.value], on))))
  }

  /** The dimension a transaction sees is the one at the cursor when no commit in between and no own write
      touched it. */
  lemma SeesCursorDims<F, D>(s: JoinLake<F, D>, tx: JoinTransaction<F, D>, from: nat)
    requires ValidJoin(s) && from <= tx.snapshot && ReadsConsistently(DimLake(s), DimTx(tx))
    requires !Changed(s.dimChanges, from, tx.snapshot) && !tx.dimsBefore.touched
    ensures SameRows(s.dims[from], tx.seenDims)
  {
    var lake := DimLake(s);
    FeedBalances(lake, from, tx.snapshot);
    QuietFeed(lake, from, tx.snapshot);
    assert s.dims[from] + [] == s.dims[from] && s.dims[tx.snapshot] + [] == s.dims[tx.snapshot];
    SeesSnapshot(lake, DimTx(tx));
  }

  lemma SeesJoin<F, D>(s: JoinLake<F, D>, tx: JoinTransaction<F, D>, from: nat, on: (F, D) -> bool)
    requires ValidJoin(s) && from <= tx.snapshot
    requires ReadsConsistently(FactLake(s), FactTx(tx)) && ReadsConsistently(DimLake(s), DimTx(tx))
    requires !Changed(s.dimChanges, from, tx.snapshot) && !tx.dimsBefore.touched && !tx.factsBefore.touched
    ensures SameRows(s.dims[from], tx.seenDims)
    ensures SameRows(Join(s.facts[tx.snapshot], s.dims[from], on), Join(tx.seenFacts, tx.seenDims, on))
  {
    SeesCursorDims(s, tx, from);
    SeesSnapshot(FactLake(s), FactTx(tx));
    JoinSameFacts(s.facts[tx.snapshot], tx.seenFacts, s.dims[from], on);
    JoinSameDims(tx.seenFacts, s.dims[from], tx.seenDims, on);
  }

  lemma SameDimsSameWindow<F, D>(d: Definition<(F, D)>, on: (F, D) -> bool, ins: seq<F>, del: seq<F>, a: seq<D>, b: seq<D>, k: Key)
    requires WellFormed(d) && SameRows(a, b)
    ensures JoinChanged(d, on, ins, del, a)(k) <==> JoinChanged(d, on, ins, del, b)(k)
  {
    forall e ensures e in a <==> e in b {
      SameRowsMembers(a, b, e);
    }
    WiderWindow(d, on, ins, del, a, b, k);
    WiderWindow(d, on, ins, del, b, a, k);
  }

  lemma FromFactsIsExact<F, D>(d: Definition<(F, D)>, on: (F, D) -> bool, s: JoinLake<F, D>, tx: JoinTransaction<F, D>, rows: seq<ViewRow>)
    requires WellFormed(d) && JoinInv(d, on, s) && s.view.cursor.Some? && s.view.refreshedAt <= tx.snapshot
    requires ReadsConsistently(FactLake(s), FactTx(tx)) && ReadsConsistently(DimLake(s), DimTx(tx))
    requires !Changed(s.dimChanges, s.view.cursor.value, tx.snapshot) && !tx.dimsBefore.touched && !tx.factsBefore.touched
    requires JoinProduces(d, on, s, tx, FromFacts, rows)
    ensures IsView(d, rows, Join(tx.seenFacts, tx.seenDims, on))
  {
    var from, at := s.view.cursor.value, tx.snapshot;
    var held, seen := s.dims[from], Join(tx.seenFacts, tx.seenDims, on);
    var joined := JoinedLake(s, held, on);
    var ins, del := FeedIns(s.factChanges, from, at), FeedDel(s.factChanges, from, at);
    var keys :| ListsChanged(d, JoinChanged(d, on, ins, del, tx.seenDims), keys) &&
                SameRows(rows, JoinRows(d, on, s.view.rows, ins, del, tx.seenFacts, tx.seenDims, keys));
    assert !Changed(s.dimChanges, from, s.view.refreshedAt);
    UntouchedGroupsMatch(d, joined, at);
    JoinedWindow(d, on, s, held, from, at);
    SeesJoin(s, tx, from, on);
    AgreesSameRows(d, s.view.rows, JoinChanged(d, on, ins, del, held), joined.history[at], seen);
    forall k ensures JoinChanged(d, on, ins, del, held)(k) <==> JoinChanged(d, on, ins, del, tx.seenDims)(k) {
      SameDimsSameWindow(d, on, ins, del, held, tx.seenDims, k);
    }
    KeyedRefreshExactlyWhen(d, s.view.rows, JoinChanged(d, on, ins, del, tx.seenDims), seen, keys);
    IsViewPermuted(d, rows, JoinRows(d, on, s.view.rows, ins, del, tx.seenFacts, tx.seenDims, keys), seen);
  }

  lemma SkipIsExact<F, D>(d: Definition<(F, D)>, on: (F, D) -> bool, s: JoinLake<F, D>, tx: JoinTransaction<F, D>)
    requires WellFormed(d) && JoinInv(d, on, s) && s.view.cursor.Some? && s.view.refreshedAt <= tx.snapshot
    requires ReadsConsistently(FactLake(s), FactTx(tx)) && ReadsConsistently(DimLake(s), DimTx(tx))
    requires !Changed(s.dimChanges, s.view.cursor.value, tx.snapshot) && !Changed(s.factChanges, s.view.cursor.value, tx.snapshot)
    requires !tx.dimsBefore.touched && !tx.factsBefore.touched
    ensures IsView(d, s.view.rows, Join(tx.seenFacts, tx.seenDims, on))
  {
    var from := s.view.cursor.value;
    var joined := JoinedLake(s, s.dims[from], on);
    assert !Changed(s.dimChanges, from, s.view.refreshedAt);
    assert !Changed(joined.changes, from, tx.snapshot);
    QuietView(d, joined, tx.snapshot);
    SeesJoin(s, tx, from, on);
    IsViewSameRows(d, s.view.rows, joined.history[tx.snapshot], Join(tx.seenFacts, tx.seenDims, on));
  }

  /** The one refresh that can go wrong: from the fact side's changes, in a transaction that changed the
      dimension itself. */
  ghost predicate MissesLocalDims<F, D>(eligible: bool, s: JoinLake<F, D>, e: JoinEvent<F, D>)
  {
    e.JoinRefresh? && e.tx.snapshot < |s.factChanges| == |s.dimChanges| && e.tx.dimsBefore.touched &&
    JoinModeOf(s, e.tx, e.ifStale, e.repaired, eligible) == FromFacts
  }

  /** Every other refresh leaves the query over the join its transaction saw. */
  lemma JoinRefreshIsExact<F, D>(d: Definition<(F, D)>, on: (F, D) -> bool, eligible: bool, s: JoinLake<F, D>, e: JoinEvent<F, D>)
    requires WellFormed(d) && JoinInv(d, on, s) && JoinAllowed(d, on, eligible, s, e) && e.JoinRefresh? && !MissesLocalDims(eligible, s, e)
    ensures IsView(d, e.rows, Join(e.tx.seenFacts, e.tx.seenDims, on))
  {
    match JoinModeOf(s, e.tx, e.ifStale, e.repaired, eligible)
    case Recompute =>
    case FromFacts => FromFactsIsExact(d, on, s, e.tx, e.rows);
    case Skip => SkipIsExact(d, on, s, e.tx);
  }

  lemma CommitKeepsValid<F, D>(s: JoinLake<F, D>, facts: Change<F>, dims: Change<D>, newFacts: seq<F>, newDims: seq<D>, view: View)
    requires ValidJoin(s) && Moves(s.facts[|s.facts| - 1], facts, newFacts) && Moves(s.dims[|s.dims| - 1], dims, newDims)
    ensures ValidJoin(Appended(s, facts, dims, newFacts, newDims, view))
  {
    HistoryGrows(FactLake(s), facts, newFacts, view);
    HistoryGrows(DimLake(s), dims, newDims, view);
  }

  lemma ForeignJoined<F, D>(d: Definition<(F, D)>, on: (F, D) -> bool, s: JoinLake<F, D>, facts: Change<F>, newFacts: seq<F>,
                            held: seq<D>, joined: Lake<(F, D)>)
    requires WellFormed(d) && ValidHistory(FactLake(s)) && Moves(s.facts[|s.facts| - 1], facts, newFacts)
    requires joined == JoinedLake(s, held, on) && Inv(d, joined)
    ensures Inv(d, Lake(joined.history + [Join(newFacts, held, on)], joined.changes + [JoinedChange(facts, held, on)], joined.view))
  {
    JoinedMoves(s.facts[|s.facts| - 1], facts, newFacts, held, on);
    ForeignCommit(d, joined, JoinedChange(facts, held, on), Join(newFacts, held, on));
  }

  lemma ChangedInPrefix<T>(a: seq<Change<T>>, b: seq<Change<T>>, from: nat, upto: nat)
    requires upto < |a| && a <= b
    ensures Changed(a, from, upto) <==> Changed(b, from, upto)
  {
    assert forall i :: 0 <= i < |a| ==> a[i] == b[i];
  }

  /** A commit that leaves the view alone keeps the invariant. */
  lemma ForeignJoinCommit<F, D>(d: Definition<(F, D)>, on: (F, D) -> bool, s: JoinLake<F, D>,
                                facts: Change<F>, dims: Change<D>, newFacts: seq<F>, newDims: seq<D>)
    requires WellFormed(d) && JoinInv(d, on, s)
    requires Moves(s.facts[|s.facts| - 1], facts, newFacts) && Moves(s.dims[|s.dims| - 1], dims, newDims)
    ensures JoinInv(d, on, Appended(s, facts, dims, newFacts, newDims, s.view))
  {
    CommitKeepsValid(s, facts, dims, newFacts, newDims, s.view);
    var t := Appended(s, facts, dims, newFacts, newDims, s.view);
    if s.view.cursor.Some? && !Changed(t.dimChanges, s.view.cursor.value, s.view.refreshedAt) {
      var held := s.dims[s.view.cursor.value];
      ChangedInPrefix(s.dimChanges, t.dimChanges, s.view.cursor.value, s.view.refreshedAt);
      ForeignJoined(d, on, s, facts, newFacts, held, JoinedLake(s, held, on));
      JoinedCommit(s, facts, dims, newFacts, newDims, s.view, held, on);
    }
  }

  lemma JoinedReads<F, D>(on: (F, D) -> bool, s: JoinLake<F, D>, tx: JoinTransaction<F, D>, held: seq<D>, joined: Lake<(F, D)>)
    requires ValidHistory(FactLake(s)) && ReadsConsistently(FactLake(s), FactTx(tx)) && joined == JoinedLake(s, held, on)
    ensures ValidHistory(joined) && ReadsConsistently(joined, JoinedTx(tx, held, on))
  {
    JoinedIsValid(s, held, on);
    JoinedMoves(s.facts[tx.snapshot], tx.factsBefore, tx.seenFacts, held, on);
  }

  lemma ViewOverHeld<F, D>(d: Definition<(F, D)>, on: (F, D) -> bool, s: JoinLake<F, D>, tx: JoinTransaction<F, D>, rows: seq<ViewRow>)
    requires WellFormed(d) && ValidJoin(s) && ReadsConsistently(DimLake(s), DimTx(tx)) && !tx.dimsBefore.touched
    requires IsView(d, rows, Join(tx.seenFacts, tx.seenDims, on))
    ensures IsView(d, rows, Join(tx.seenFacts, s.dims[tx.snapshot], on))
  {
    SeesSnapshot(DimLake(s), DimTx(tx));
    JoinSameDims(tx.seenFacts, tx.seenDims, s.dims[tx.snapshot], on);
    IsViewSameRows(d, rows, Join(tx.seenFacts, tx.seenDims, on), Join(tx.seenFacts, s.dims[tx.snapshot], on));
  }

  lemma JoinedHead<F, D>(s: JoinLake<F, D>, held: seq<D>, on: (F, D) -> bool, own: Change<F>, newFacts: seq<F>, joined: Lake<(F, D)>)
    requires ValidHistory(FactLake(s)) && joined == JoinedLake(s, held, on) && Moves(s.facts[|s.facts| - 1], own, newFacts)
    ensures |joined.history| == |s.facts|
    ensures Moves(joined.history[|joined.history| - 1], JoinedChange(own, held, on), Join(newFacts, held, on))
  {
    JoinedMoves(s.facts[|s.facts| - 1], own, newFacts, held, on);
  }

  lemma JoinedRefresh<F, D>(d: Definition<(F, D)>, on: (F, D) -> bool, s: JoinLake<F, D>, tx: JoinTransaction<F, D>, rows: seq<ViewRow>,
                            newFacts: seq<F>, held: seq<D>, own: Change<F>, joined: Lake<(F, D)>, joinedOwn: Change<(F, D)>, base: seq<(F, D)>)
    requires WellFormed(d) && ValidHistory(FactLake(s)) && ReadsConsistently(FactLake(s), FactTx(tx)) && joined == JoinedLake(s, held, on)
    requires own == Both(tx.factsBefore, tx.factsAfter) && Moves(s.facts[|s.facts| - 1], own, newFacts)
    requires joinedOwn == JoinedChange(own, held, on) && base == Join(newFacts, held, on)
    requires IsView(d, rows, Join(tx.seenFacts, held, on))
    ensures Inv(d, Lake(joined.history + [base], joined.changes + [joinedOwn],
                        View(rows, Some(tx.snapshot), tx.factsBefore.touched, |s.facts|)))
  {
    JoinedReads(on, s, tx, held, joined);
    JoinedHead(s, held, on, own, newFacts, joined);
    JoinedBoth(tx.factsBefore, tx.factsAfter, held, on);
    CommittedRefresh(d, joined, JoinedTx(tx, held, on), rows, base, joinedOwn,
                     Lake(joined.history + [base], joined.changes + [joinedOwn],
                          View(rows, Some(tx.snapshot), tx.factsBefore.touched, |s.facts|)));
  }

  /** A refresh that opens a window without dimension changes starts the joined view anew. */
  lemma RefreshedInv<F, D>(d: Definition<(F, D)>, on: (F, D) -> bool, s: JoinLake<F, D>, tx: JoinTransaction<F, D>,
                           rows: seq<ViewRow>, newFacts: seq<F>, t: JoinLake<F, D>, newDims: seq<D>)
    requires WellFormed(d) && ValidJoin(s)
    requires ReadsConsistently(FactLake(s), FactTx(tx)) && ReadsConsistently(DimLake(s), DimTx(tx)) && !tx.dimsBefore.touched
    requires Moves(s.facts[|s.facts| - 1], Both(tx.factsBefore, tx.factsAfter), newFacts)
    requires IsView(d, rows, Join(tx.seenFacts, tx.seenDims, on))
    requires t == Appended(s, Both(tx.factsBefore, tx.factsAfter), Both(tx.dimsBefore, tx.dimsAfter), newFacts, newDims,
                            View(rows, Some(tx.snapshot), tx.factsBefore.touched, |s.facts|))
    ensures Inv(d, JoinedLake(t, s.dims[tx.snapshot], on))
  {
    var held, own := s.dims[tx.snapshot], Both(tx.factsBefore, tx.factsAfter);
    ViewOverHeld(d, on, s, tx, rows);
    JoinedRefresh(d, on, s, tx, rows, newFacts, held, own, JoinedLake(s, held, on), JoinedChange(own, held, on), Join(newFacts, held, on));
    JoinedCommit(s, own, Both(tx.dimsBefore, tx.dimsAfter), newFacts, newDims, t.view, held, on);
  }

  /** A refresh that writes rows keeps the invariant, exact or not. */
  lemma RefreshKeepsJoinInv<F, D>(d: Definition<(F, D)>, on: (F, D) -> bool, eligible: bool, s: JoinLake<F, D>, e: JoinEvent<F, D>, t: JoinLake<F, D>)
    requires WellFormed(d) && JoinInv(d, on, s) && JoinAllowed(d, on, eligible, s, e) && e.JoinRefresh?
    requires JoinModeOf(s, e.tx, e.ifStale, e.repaired, eligible) != Skip && t == JoinApply(d, on, eligible, s, e)
    ensures JoinInv(d, on, t)
  {
    var tx, last := e.tx, |s.facts|;
    CommitKeepsValid(s, Both(tx.factsBefore, tx.factsAfter), Both(tx.dimsBefore, tx.dimsAfter), e.newFacts, e.newDims, t.view);
    assert t.dims[tx.snapshot] == s.dims[tx.snapshot];
    if !Changed(t.dimChanges, tx.snapshot, last) {
      assert !t.dimChanges[last].touched;
      JoinRefreshIsExact(d, on, eligible, s, e);
      RefreshedInv(d, on, s, tx, e.rows, e.newFacts, t, e.newDims);
    }
  }

  lemma JoinStepKeepsInv<F, D>(d: Definition<(F, D)>, on: (F, D) -> bool, eligible: bool, s: JoinLake<F, D>, e: JoinEvent<F, D>)
    requires WellFormed(d) && JoinInv(d, on, s) && JoinAllowed(d, on, eligible, s, e)
    ensures JoinInv(d, on, JoinApply(d, on, eligible, s, e))
  {
    match e
    case Commit(facts, dims, newFacts, newDims) => ForeignJoinCommit(d, on, s, facts, dims, newFacts, newDims);
    case JoinRefresh(tx, ifStale, repaired, _, newFacts, newDims) =>
      if JoinModeOf(s, tx, ifStale, repaired, eligible) == Skip {
        ForeignJoinCommit(d, on, s, Both(tx.factsBefore, tx.factsAfter), Both(tx.dimsBefore, tx.dimsAfter), newFacts, newDims);
      } else {
        RefreshKeepsJoinInv(d, on, eligible, s, e, JoinApply(d, on, eligible, s, e));
      }
  }

  // ---- whole runs ----

  ghost predicate JoinStep<F, D>(d: Definition<(F, D)>, on: (F, D) -> bool, eligible: bool, s: JoinLake<F, D>, e: JoinEvent<F, D>, t: JoinLake<F, D>)
    requires WellFormed(d)
  {
    ValidJoin(s) && JoinAllowed(d, on, eligible, s, e) && t == JoinApply(d, on, eligible, s, e)
  }

  lemma TakenStepKeepsInv<F, D>(d: Definition<(F, D)>, on: (F, D) -> bool, eligible: bool, s: JoinLake<F, D>, e: JoinEvent<F, D>, t: JoinLake<F, D>)
    requires WellFormed(d) && JoinInv(d, on, s) && JoinStep(d, on, eligible, s, e, t)
    ensures JoinInv(d, on, t)
  {
    JoinStepKeepsInv(d, on, eligible, s, e);
  }

  /** The states a run passes through, from an unfilled view on. */
  ghost predicate IsJoinRun<F, D>(d: Definition<(F, D)>, on: (F, D) -> bool, eligible: bool, run: seq<JoinEvent<F, D>>, states: seq<JoinLake<F, D>>)
    requires WellFormed(d)
  {
    && |states| == |run| + 1 && ValidJoin(states[0]) && states[0].view.cursor.None?
    && forall n :: 0 <= n < |run| ==> JoinStep(d, on, eligible, states[n], run[n], states[n + 1])
  }

  lemma {:induction false} JoinRunKeepsInv<F, D>(d: Definition<(F, D)>, on: (F, D) -> bool, eligible: bool, run: seq<JoinEvent<F, D>>,
                                                 states: seq<JoinLake<F, D>>, n: nat)
    requires WellFormed(d) && IsJoinRun(d, on, eligible, run, states) && n <= |run|
    ensures JoinInv(d, on, states[n])
  {
    if n > 0 {
      JoinRunKeepsInv(d, on, eligible, run, states, n - 1);
      TakenStepKeepsInv(d, on, eligible, states[n - 1], run[n - 1], states[n]);
    }
  }

  /** After a refresh that does not miss local dimension writes the view is the query over the join its
      transaction saw. */
  ghost predicate ExactJoin<F, D>(d: Definition<(F, D)>, on: (F, D) -> bool, eligible: bool, s: JoinLake<F, D>, e: JoinEvent<F, D>, t: JoinLake<F, D>)
    requires WellFormed(d)
  {
    e.JoinRefresh? && !MissesLocalDims(eligible, s, e) ==> IsView(d, t.view.rows, Join(e.tx.seenFacts, e.tx.seenDims, on))
  }

  /** In every run from an unfilled view, whatever went wrong before, every refresh leaves the query over the
      join its transaction saw, except one from fact changes in a transaction that changed the
      dimension itself. */
  lemma EveryJoinRunIsExact<F, D>(d: Definition<(F, D)>, on: (F, D) -> bool, eligible: bool, run: seq<JoinEvent<F, D>>,
                                  states: seq<JoinLake<F, D>>, n: nat)
    requires WellFormed(d) && IsJoinRun(d, on, eligible, run, states) && n < |run|
    ensures ExactJoin(d, on, eligible, states[n], run[n], states[n + 1])
  {
    JoinRunKeepsInv(d, on, eligible, run, states, n);
    assert JoinStep(d, on, eligible, states[n], run[n], states[n + 1]);
    if run[n].JoinRefresh? && !MissesLocalDims(eligible, states[n], run[n]) {
      JoinRefreshIsExact(d, on, eligible, states[n], run[n]);
    }
  }

  /** That one is exact exactly when the dimension it saw and the one at the cursor give the same row for
      every group it does not recompute; the stored rows being the query at the cursor. */
  lemma LocalDimsExactlyWhen<F, D>(d: Definition<(F, D)>, on: (F, D) -> bool, eligible: bool, s: JoinLake<F, D>, e: JoinEvent<F, D>)
    requires WellFormed(d) && JoinInv(d, on, s) && JoinAllowed(d, on, eligible, s, e) && MissesLocalDims(eligible, s, e)
    requires !s.view.ownWrites
    ensures var c, at := s.view.cursor.value, e.tx.snapshot;
            IsView(d, e.rows, Join(e.tx.seenFacts, e.tx.seenDims, on)) <==>
            SameResultOutside(d, JoinChanged(d, on, FeedIns(s.factChanges, c, at), FeedDel(s.factChanges, c, at), e.tx.seenDims),
                              Join(s.facts[c], s.dims[c], on), Join(s.facts[c], e.tx.seenDims, on))
  {
    var tx, c := e.tx, s.view.cursor.value;
    var ins, del, seen := FeedIns(s.factChanges, c, tx.snapshot), FeedDel(s.factChanges, c, tx.snapshot), Join(tx.seenFacts, tx.seenDims, on);
    var keys :| ListsChanged(d, JoinChanged(d, on, ins, del, tx.seenDims), keys) &&
                SameRows(e.rows, JoinRows(d, on, s.view.rows, ins, del, tx.seenFacts, tx.seenDims, keys));
    var refreshed := JoinRows(d, on, s.view.rows, ins, del, tx.seenFacts, tx.seenDims, keys);
    assert !Changed(s.dimChanges, c, s.view.refreshedAt);
    assert IsView(d, s.view.rows, JoinedLake(s, s.dims[c], on).history[c]);
    FeedBalances(FactLake(s), c, tx.snapshot);
    SeesSnapshot(FactLake(s), FactTx(tx));
    assert SameRows(s.facts[c] + ins, tx.seenFacts + del);
    JoinRefreshExactlyWhen(d, on, s.view.rows, s.facts[c], ins, tx.seenFacts, del, s.dims[c], tx.seenDims, keys);
    if IsView(d, refreshed, seen) {
      IsViewPermuted(d, e.rows, refreshed, seen);
    }
    if IsView(d, e.rows, seen) {
      IsViewPermuted(d, refreshed, e.rows, seen);
    }
  }

  /** The harm is not carried on: the transaction's own commit changed the dimension after the snapshot it
      read, so the next refresh, whatever commits come first, recomputes the view. */
  lemma NextRefreshRecomputes<F, D>(d: Definition<(F, D)>, on: (F, D) -> bool, eligible: bool, s: JoinLake<F, D>, e: JoinEvent<F, D>,
                                    t: JoinLake<F, D>, tx: JoinTransaction<F, D>, ifStale: bool, repaired: bool)
    requires WellFormed(d) && ValidJoin(s) && JoinAllowed(d, on, eligible, s, e) && MissesLocalDims(eligible, s, e)
    requires ValidJoin(t) && t.view == JoinApply(d, on, eligible, s, e).view
    requires JoinApply(d, on, eligible, s, e).dimChanges <= t.dimChanges
    requires ReadsConsistently(DimLake(t), DimTx(tx))
    ensures JoinModeOf(t, tx, ifStale, repaired, eligible) == Recompute
  {
    var last := |s.dimChanges|;
    assert JoinApply(d, on, eligible, s, e).dimChanges[last] == Both(e.tx.dimsBefore, e.tx.dimsAfter);
    assert t.dimChanges[last].touched && e.tx.snapshot < last <= tx.snapshot;
    assert Changed(t.dimChanges, e.tx.snapshot, tx.snapshot);
  }
}
