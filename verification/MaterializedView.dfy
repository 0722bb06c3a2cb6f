/**
 The refresh operator's state: the change log it consults, the backing rows, the cursor and the
 own-writes flag, updated in place by each committed refresh.
 */
module MaterializedView {
  import opened Tables
  import opened ViewDefinition
  import opened DeltaRefresh
  import opened KeyedRefresh
  import opened RefreshRuns

  /** The lake after a refresh commits, and what the run invariant says of it. */
  lemma Committed<R>(d: Definition<R>, eligible: bool, s: Lake<R>, tx: Transaction<R>, mode: Mode, result: seq<ViewRow>,
                     ifStale: bool, repaired: bool, base: seq<R>) returns (next: Lake<R>)
    requires WellFormed(d) && Inv(d, s) && Allowed(d, eligible, s, Event.Refresh(tx, ifStale, repaired, result, base))
    requires mode == ModeOf(d, s, tx, ifStale, repaired, eligible)
    ensures next == Apply(d, eligible, s, Event.Refresh(tx, ifStale, repaired, result, base))
    ensures Inv(d, next) && IsView(d, next.view.rows, tx.seen)
    ensures next.history == s.history + [base] && next.changes == s.changes + [Both(tx.before, tx.after)]
    ensures next.view == if mode == Skipped then s.view else View(result, Some(tx.snapshot), tx.before.touched, |s.history|)
  {
    var e := Event.Refresh(tx, ifStale, repaired, result, base);
    next := Apply(d, eligible, s, e);
    RefreshIsExact(d, eligible, s, e);
    StepKeepsInv(d, eligible, s, e);
  }

  class RefreshedView<R(==)> {
    const d: Definition<R>
    // what analysing the definition found
    const eligible: bool
    const deltaEligible: bool
    const fillsSelectList: bool
    const distinctGroups: bool

    ghost var history: seq<seq<R>>
    var changes: seq<Change<R>>
    var rows: seq<ViewRow>
    var cursor: Option<nat>
    var ownWrites: bool
    ghost var refreshedAt: nat

    ghost function State(): Lake<R>
      reads this
    {
      Lake(history, changes, View(rows, cursor, ownWrites, refreshedAt))
    }

    ghost predicate Valid()
      reads this
    {
      && WellFormed(d) && Inv(d, State())
      && (deltaEligible <==> DeltaEligible(d.columns) || ConditionalDeltaEligible(d.columns))
      && (fillsSelectList <==> FillsSelectList(d))
      && (distinctGroups <==> Distinct(d.groups))
    }

    /** A view just created, over a base with some past; it has not been refreshed. */
    constructor (d: Definition<R>, eligible: bool, deltaEligible: bool, fillsSelectList: bool, distinctGroups: bool,
                 ghost history: seq<seq<R>>, changes: seq<Change<R>>)
      requires WellFormed(d) && ValidHistory(Lake(history, changes, View([], None, false, 0)))
      requires deltaEligible <==> DeltaEligible(d.columns) || ConditionalDeltaEligible(d.columns)
      requires (fillsSelectList <==> FillsSelectList(d)) && (distinctGroups <==> Distinct(d.groups))
      ensures Valid() && cursor == None && this.d == d && this.eligible == eligible
      ensures this.history == history && this.changes == changes && rows == []
      ensures Fresh(State())
    {
      this.d, this.eligible, this.deltaEligible := d, eligible, deltaEligible;
      this.fillsSelectList, this.distinctGroups := fillsSelectList, distinctGroups;
      this.history, this.changes := history, changes;
      rows, cursor, ownWrites, refreshedAt := [], None, false, 0;
    }

    /** Scans the change log of (since, upto] for a commit that touched the base. */
    method DependenciesChanged(since: nat, upto: nat) returns (changed: bool)
      requires upto < |changes|
      ensures changed <==> exists i :: since < i <= upto && changes[i].touched
    {
      var i := since + 1;
      while i <= upto
        invariant since < i
        invariant forall j :: since < j < i && j <= upto ==> !changes[j].touched
        decreases upto - i
      {
        if changes[i].touched {
          return true;
        }
        i := i + 1;
      }
      changed := false;
    }

    /** Bind-time mode selection. */
    method ChooseMode(tx: Transaction<R>, ifStale: bool, repaired: bool) returns (mode: Mode)
      requires Valid() && tx.snapshot < |changes|
      ensures mode == ModeOf(d, State(), tx, ifStale, repaired, eligible)
    {
      var sourceChanged := cursor.None? || tx.before.touched;
      if !sourceChanged && cursor.value != tx.snapshot {
        sourceChanged := DependenciesChanged(cursor.value, tx.snapshot);
      }
      if ifStale && !sourceChanged {
        return Skipped;
      }
      var forceFull := !ifStale && !sourceChanged;
      if !ifStale && repaired {
        forceFull := true;
      }
      var incremental := !forceFull && eligible;
      if incremental && tx.before.touched {
        incremental := false;
      }
      if incremental && cursor.Some? {
        var suppressed := ownWrites;
        if deltaEligible && !suppressed && fillsSelectList {
          return if distinctGroups then Delta else Failed;
        }
        return Incremental;
      }
      mode := Full;
    }

    /** Another transaction changes the base. */
    method CommitBase(c: Change<R>, ghost base: seq<R>)
      requires Valid() && Moves(history[|history| - 1], c, base)
      modifies this
      ensures Valid() && rows == old(rows) && cursor == old(cursor) && ownWrites == old(ownWrites)
      ensures history == old(history) + [base] && changes == old(changes) + [c]
    {
      ForeignCommit(d, State(), c, base);
      history, changes := history + [base], changes + [c];
    }

    /** The writes of a committing refresh, on whatever state. */
    method Stamp(tx: Transaction<R>, mode: Mode, result: seq<ViewRow>, ghost base: seq<R>)
      modifies this
      ensures history == old(history) + [base] && changes == old(changes) + [Both(tx.before, tx.after)]
      ensures View(rows, cursor, ownWrites, refreshedAt) ==
              if mode == Skipped then old(State()).view else View(result, Some(tx.snapshot), tx.before.touched, |old(history)|)
    {
      history, changes := history + [base], changes + [Both(tx.before, tx.after)];
      if mode != Skipped {
        rows := result;
        ownWrites := tx.before.touched;
        cursor := Some(tx.snapshot);
        refreshedAt := |history| - 1;
      }
    }

    /** A refresh commits: the backing rows are replaced, and the view is stamped with the snapshot
        the rows were computed at and with whether the transaction had already written the base. */
    method Finalize(tx: Transaction<R>, mode: Mode, result: seq<ViewRow>, ghost ifStale: bool, ghost repaired: bool, ghost base: seq<R>)
      requires Valid() && tx.snapshot < |changes| && mode == ModeOf(d, State(), tx, ifStale, repaired, eligible)
      requires Allowed(d, eligible, State(), Event.Refresh(tx, ifStale, repaired, result, base))
      modifies this
      ensures Valid() && IsView(d, rows, tx.seen)
      ensures State() == Apply(d, eligible, old(State()), Event.Refresh(tx, ifStale, repaired, result, base))
      ensures mode != Skipped ==> rows == result && cursor == Some(tx.snapshot) && ownWrites == tx.before.touched
      ensures mode == Skipped ==> rows == old(rows) && cursor == old(cursor) && ownWrites == old(ownWrites)
    {
      ghost var next := Committed(d, eligible, State(), tx, mode, result, ifStale, repaired, base);
      Stamp(tx, mode, result, base);
      assert State() == next;
    }
  }
}
