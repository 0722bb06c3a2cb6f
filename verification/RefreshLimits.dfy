/**
 Where the refresh statements stop being a recompute: a second delta refresh of a view in one
 transaction (the cursor it reads is still the old one, the rows are already new), and a join
 refresh in a transaction that changed the dimension itself.
 */
module RefreshLimits {
  import opened Tables
  import opened ViewDefinition
  import opened DeltaRefresh
  import opened KeyedRefresh

  // ---- listing keys ----

  /** The changed keys can always be listed, so the refresh statements always have a result. */
  lemma {:induction false} ListCarriedKeys<R>(d: Definition<R>, rows: seq<R>) returns (keys: seq<Key>)
    requires WellFormed(d)
    ensures ListsChanged(d, CarriesKey(d, rows), keys)
  {
    if rows == [] {
      keys := [];
    } else {
      var rest := ListCarriedKeys(d, rows[1..]);
      var k := KeyOf(d, rows[0]);
      KeyOfShape(d, rows[0]);
      keys := if k in rest then rest else rest + [k];
      forall q ensures q in keys <==> KeyShape(d, q) && CarriesKey(d, rows)(q) {
        assert forall r :: r in rows <==> r == rows[0] || r in rows[1..];
        assert q in rest <==> KeyShape(d, q) && CarriesKey(d, rows[1..])(q);
      }
    }
  }

  lemma ListTouchedKeys<R>(d: Definition<R>, ins: seq<R>, del: seq<R>) returns (keys: seq<Key>)
    requires WellFormed(d)
    ensures ListsTouched(d, ins, del, keys)
  {
    var passing := Select(ins + del, d.where);
    keys := ListCarriedKeys(d, passing);
    SelectedRows(ins + del, d.where);
    forall k ensures CarriesKey(d, passing)(k) <==> Touched(d, ins, del, k) {
      SelectAppend(ins, del, InGroup(d, k));
      assert Touched(d, ins, del, k) <==> Group(d, ins + del, k) != [];
      SelectedRows(ins + del, InGroup(d, k));
      if Touched(d, ins, del, k) {
        var r := Group(d, ins + del, k)[0];
        assert r in Group(d, ins + del, k);
        SelectedIfPassing(ins + del, d.where, r);
      }
      if CarriesKey(d, passing)(k) {
        var r :| r in passing && KeyOf(d, r) == k;
        SelectedIfPassing(ins + del, InGroup(d, k), r);
      }
    }
  }

  // ---- a second delta refresh in one transaction ----

  /** The window's inserts and deletes cancel out in one group: as many rows, and for a live group as many
      arguments of every COUNT and the same total of every SUM that is not NULL. */
  ghost predicate Cancels<R>(d: Definition<R>, base: seq<R>, ins: seq<R>, del: seq<R>) {
    && |ins| == |del|
    && (base != [] ==> forall c :: 0 <= c < |d.columns| ==> CancelsIn(d, d.columns[c], base, ins, del))
  }

  ghost predicate CancelsIn<R>(d: Definition<R>, col: Column, base: seq<R>, ins: seq<R>, del: seq<R>) {
    col.Aggregate? ==>
      var a := d.arg(col.child);
      && (col.kind == CountCol ==> CountOf(ins, a) == CountOf(del, a))
      && (col.kind == Sum && CountOf(base, a) > 0 ==> SumOf(ins, a) == SumOf(del, a))
  }

  /** The window does not put an extremum right that the base does not have: an inserted row beyond the
      base's extremum is gone again, and its deletion invalidates the group. */
  lemma ReplayedExtremum<R>(d: Definition<R>, c: nat, k: Key, old_: seq<R>, base: seq<R>, ins: seq<R>, del: seq<R>)
    requires |k| == |d.groups| && HasDerivedState(d.columns)
    requires c < |d.columns| && IsExtremumColumn(d.columns[c]) && d.columns[c].plain
    requires SameRows(old_ + ins, base + del)
    requires !Invalidated(d, StoredRow(d, k, base), ins, del)
    ensures UpdatedCell(d, c, k, StoredRow(d, k, base), ins, del) == GroupCell(d, c, k, base)
  {
    var m, a, max := StoredRow(d, k, base), d.arg(d.columns[c].child), d.columns[c].kind == Max;
    StoredExtremum(d, k, base, c);
    var g, i := Extremum(base, a, max), Extremum(ins, a, max);
    assert ToOption(StoredCell(m, c)) == g;
    ExtremumIs(base, a, max);
    ExtremumIs(ins, a, max);
    if i.Some? && !(g.Some? && Beats(max, g.value, i.value)) {
      var r :| r in ins && a(r) == i;
      SameRowsMembers(old_ + ins, base + del, r);
      assert r in old_ + ins;
      assert r in base || r in del;
      assert r in del && UnsafeDelete(d, c, m, ins, r);
    }
  }

  /** A column of a live, valid group keeps its value under a second update exactly when the window
      cancels out in it; AVG follows its SUM and COUNT. */
  lemma ReplayedCell<R>(d: Definition<R>, c: nat, k: Key, old_: seq<R>, base: seq<R>, ins: seq<R>, del: seq<R>)
    requires |k| == |d.groups| && HasDerivedState(d.columns) && AllPlain(d.columns) && ScalarsAreKeys(d)
    requires SameRows(old_ + ins, base + del) && c < |d.columns| && base != [] && |ins| == |del|
    requires !Invalidated(d, StoredRow(d, k, base), ins, del)
    requires forall j :: 0 <= j < |d.columns| && d.columns[j].Aggregate? && d.columns[j].kind == CountCol ==>
               CancelsIn(d, d.columns[j], base, ins, del)
    ensures Cancels(d, base, ins, del) ==>
            UpdatedCell(d, c, k, StoredRow(d, k, base), ins, del) == GroupCell(d, c, k, base)
    ensures UpdatedCell(d, c, k, StoredRow(d, k, base), ins, del) == GroupCell(d, c, k, base) ==>
            CancelsIn(d, d.columns[c], base, ins, del)
  {
    var col := d.columns[c];
    if col.Scalar? {
      UpdatedScalar(d, c, k, base, [], base, []);
    } else if IsExtremumColumn(col) {
      ReplayedExtremum(d, c, k, old_, base, ins, del);
    } else {
      NoArgumentsNoSum(base, d.arg(col.child));
      StoredTotals(d, k, base, c);
      if col.kind == Sum {
        StoredTotals(d, k, base, FirstAgg(d.columns, CountCol, col.child));
      } else if col.kind == Avg {
        StoredTotals(d, k, base, LastAgg(d.columns, Sum, col.child));
        StoredTotals(d, k, base, LastAgg(d.columns, CountCol, col.child));
      }
    }
  }

  lemma ReplayedCount<R>(d: Definition<R>, c: nat, k: Key, base: seq<R>, ins: seq<R>, del: seq<R>)
    requires |k| == |d.groups| && HasDerivedState(d.columns) && AllPlain(d.columns)
    requires c < |d.columns| && d.columns[c].Aggregate? && d.columns[c].kind == CountCol
    requires UpdatedCell(d, c, k, StoredRow(d, k, base), ins, del) == GroupCell(d, c, k, base)
    ensures CancelsIn(d, d.columns[c], base, ins, del)
  {
    StoredTotals(d, k, base, c);
  }

  lemma ReplayedRow<R>(d: Definition<R>, k: Key, old_: seq<R>, base: seq<R>, ins: seq<R>, del: seq<R>)
    requires |k| == |d.groups| && HasDerivedState(d.columns) && AllPlain(d.columns) && ScalarsAreKeys(d)
    requires SameRows(old_ + ins, base + del) && base != [] && |ins| == |del|
    requires !Invalidated(d, StoredRow(d, k, base), ins, del)
    ensures UpdatedRow(d, k, StoredRow(d, k, base), ins, del) == GroupRow(d, k, base) <==> Cancels(d, base, ins, del)
  {
    var m := StoredRow(d, k, base);
    var updated, row := UpdatedRow(d, k, m, ins, del), GroupRow(d, k, base);
    if updated == row {
      forall c: nat | c < |d.columns|
        ensures UpdatedCell(d, c, k, m, ins, del) == GroupCell(d, c, k, base)
        ensures d.columns[c].Aggregate? && d.columns[c].kind == CountCol ==> CancelsIn(d, d.columns[c], base, ins, del)
      {
        assert updated[c] == row[c];
        if d.columns[c].Aggregate? && d.columns[c].kind == CountCol {
          ReplayedCount(d, c, k, base, ins, del);
        }
      }
      forall c: nat | c < |d.columns| ensures CancelsIn(d, d.columns[c], base, ins, del) {
        ReplayedCell(d, c, k, old_, base, ins, del);
      }
    }
    if Cancels(d, base, ins, del) {
      forall c: nat | c < |d.columns| ensures UpdatedCell(d, c, k, m, ins, del) == GroupCell(d, c, k, base) {
        ReplayedCell(d, c, k, old_, base, ins, del);
      }
      assert updated == row;
    }
  }

  /** The second update leaves one key's row right exactly when the group is rebuilt or the window cancels
      out in it. */
  ghost predicate Replayable<R>(d: Definition<R>, stored: seq<ViewRow>, base: seq<R>, ins: seq<R>, del: seq<R>, k: Key)
    requires WellFormed(d)
  {
    InvalidKey(d, stored, ins, del, k) || Cancels(d, Group(d, base, k), Group(d, ins, k), Group(d, del, k))
  }

  lemma ReplayedKey<R>(d: Definition<R>, stored: seq<ViewRow>, old_: seq<R>, base: seq<R>, ins: seq<R>, del: seq<R>, k: Key)
    requires Maintainable(d) && KeyShape(d, k) && AgreesAt(d, stored, base, k)
    requires SameRows(old_ + ins, base + del)
    ensures UpdatedAt(d, stored, ins, del, k) + RebuiltAt(d, stored, ins, del, base, k) == Expected(d, base, k)
            <==> Replayable(d, stored, base, ins, del, k)
  {
    var g, i, e := Group(d, base, k), Group(d, ins, k), Group(d, del, k);
    var m := StoredRow(d, k, g);
    assert LeftMatches(d, stored, k) == [m];
    if !InvalidKey(d, stored, ins, del, k) {
      assert m in LeftMatches(d, stored, k);
      assert !Invalidated(d, m, i, e);
      BalancedGroup(d, old_, ins, base, del, k);
      FilledSelectList(d);
      assert UpdatesFor(d, [m][1..], k, i, e) == [];
      ReplayedSize(d, k, g, i, e);
      if g != [] && |i| == |e| {
        ReplayedRow(d, k, Group(d, old_, k), g, i, e);
      }
    }
  }

  lemma ReplayedSize<R>(d: Definition<R>, k: Key, base: seq<R>, ins: seq<R>, del: seq<R>)
    requires |k| == |d.groups| && HasCountStar(d.columns) && AllPlain(d.columns) && HasDerivedState(d.columns)
    ensures LiveCount(d, StoredRow(d, k, base), ins, del) == |base| + (|ins| - |del|)
    ensures base != [] && UpdatedRow(d, k, StoredRow(d, k, base), ins, del) == GroupRow(d, k, base) ==> |ins| == |del|
  {
    var c, m := LastCountStar(d.columns), StoredRow(d, k, base);
    StoredTotals(d, k, base, c);
    assert UpdatedRow(d, k, m, ins, del)[c] == UpdatedCell(d, c, k, m, ins, del);
    assert GroupRow(d, k, base)[c] == GroupCell(d, c, k, base);
  }

  lemma ReplayedRowKey<R>(d: Definition<R>, stored: seq<ViewRow>, base: seq<R>, ins: seq<R>, del: seq<R>, k: Key, row: ViewRow)
    requires Maintainable(d) && IsView(d, stored, base) && KeyShape(d, k) && row in UpdatedPart(d, stored, ins, del)(k)
    ensures RowKey(d, row) == k && |row| == |d.columns|
  {
    var g, i, e := Group(d, base, k), Group(d, ins, k), Group(d, del, k);
    var m := StoredRow(d, k, g);
    assert AgreesAt(d, stored, base, k);
    assert LeftMatches(d, stored, k) == [m];
    assert UpdatesFor(d, [m][1..], k, i, e) == [];
    assert row == UpdatedRow(d, k, m, i, e);
    FilledSelectList(d);
    forall j | 0 <= j < |d.groups| ensures RowKey(d, row)[j] == k[j] {
      var c := d.groups[j];
      assert c in d.groups;
      assert row[c] == UpdatedCell(d, c, k, m, i, e);
      UpdatedScalar(d, c, k, g, [], g, []);
    }
  }

  lemma ReplayedAt<R>(d: Definition<R>, stored: seq<ViewRow>, old_: seq<R>, base: seq<R>, ins: seq<R>, del: seq<R>,
                      updated: seq<Key>, rebuilt: seq<Key>, up: Key -> seq<ViewRow>, re: Key -> seq<ViewRow>, k: Key)
    requires Maintainable(d) && KeyShape(d, k) && AgreesAt(d, stored, base, k)
    requires SameRows(old_ + ins, base + del)
    requires ListsTouched(d, ins, del, updated) && ListsTouched(d, ins, del, rebuilt)
    requires up == UpdatedPart(d, stored, ins, del) && re == RebuiltPart(d, stored, ins, del, base)
    requires EmitsOwnKeys(d, updated, up) && EmitsOwnKeys(d, rebuilt, re)
    ensures RowsAt(d, Select(stored, Untouched(d, ins, del)) + Emit(updated, up) + Emit(rebuilt, re), k) == Expected(d, base, k) <==>
            Replayable(d, stored, base, ins, del, k)
  {
    var touched := Touched(d, ins, del, k);
    RowsOfEmit(d, updated, up, k);
    RowsOfEmit(d, rebuilt, re, k);
    AssembledAt(d, Select(stored, Untouched(d, ins, del)), Emit(updated, up), Emit(rebuilt, re), k,
                if touched then up(k) else [], if touched then re(k) else []);
    RowsOfFiltered(d, stored, Untouched(d, ins, del), k, !touched);
    if touched {
      ReplayedKey(d, stored, old_, base, ins, del, k);
    } else {
      EmptyCancels(d, Group(d, base, k));
    }
  }

  lemma EmptyCancels<R>(d: Definition<R>, base: seq<R>)
    ensures Cancels(d, base, [], [])
  {
  }

  lemma ReplayedParts<R>(d: Definition<R>, stored: seq<ViewRow>, base: seq<R>, ins: seq<R>, del: seq<R>, updated: seq<Key>, rebuilt: seq<Key>,
                         up: Key -> seq<ViewRow>, re: Key -> seq<ViewRow>)
    requires Maintainable(d) && IsView(d, stored, base)
    requires ListsTouched(d, ins, del, updated) && ListsTouched(d, ins, del, rebuilt)
    requires up == UpdatedPart(d, stored, ins, del) && re == RebuiltPart(d, stored, ins, del, base)
    ensures EmitsOwnKeys(d, updated, up) && EmitsOwnKeys(d, rebuilt, re)
  {
    forall q, row | q in updated && row in up(q) ensures RowKey(d, row) == q && |row| == |d.columns| {
      ReplayedRowKey(d, stored, base, ins, del, q, row);
    }
    forall q, row | q in rebuilt && row in re(q) ensures RowKey(d, row) == q && |row| == |d.columns| {
      RowsOfExpected(d, base, q, row);
    }
  }

  /** Refreshing by delta a second time in the same transaction applies the same window to rows
      that already contain it.  For every view kept by the delta form the rows come out right exactly
      when the window cancels out in every group that is not rebuilt. */
  lemma SecondDeltaRefresh<R>(d: Definition<R>, stored: seq<ViewRow>, old_: seq<R>, base: seq<R>, ins: seq<R>, del: seq<R>,
                              updated: seq<Key>, rebuilt: seq<Key>)
    requires Maintainable(d) && IsView(d, stored, base)
    requires SameRows(old_ + ins, base + del)
    requires ListsTouched(d, ins, del, updated) && ListsTouched(d, ins, del, rebuilt)
    ensures IsView(d, DeltaRows(d, stored, ins, del, base, updated, rebuilt), base) <==>
            forall k :: KeyShape(d, k) ==> Replayable(d, stored, base, ins, del, k)
  {
    var up, re := UpdatedPart(d, stored, ins, del), RebuiltPart(d, stored, ins, del, base);
    var result := Select(stored, Untouched(d, ins, del)) + Emit(updated, up) + Emit(rebuilt, re);
    ReplayedParts(d, stored, base, ins, del, updated, rebuilt, up, re);
    forall k ensures AgreesAt(d, result, base, k) <==> (KeyShape(d, k) ==> Replayable(d, stored, base, ins, del, k)) {
      assert AgreesAt(d, stored, base, k);
      if KeyShape(d, k) {
        ReplayedAt(d, stored, old_, base, ins, del, updated, rebuilt, up, re, k);
      }
    }
    ResultWidths(d, Select(stored, Untouched(d, ins, del)), Emit(updated, up), Emit(rebuilt, re)) by {
      SelectedRows(stored, Untouched(d, ins, del));
      RowsOfEmit(d, updated, up, []);
      RowsOfEmit(d, rebuilt, re, []);
    }
  }

  /** In a window of inserts only, one inserted row that passes WHERE is enough: the first delta refresh
      is right and the second one wrong. */
  lemma InsertsCountTwice<R>(d: Definition<R>, stored: seq<ViewRow>, old_: seq<R>, base: seq<R>, ins: seq<R>, keys: seq<Key>, k: Key)
    requires Maintainable(d) && IsView(d, stored, old_) && SameRows(old_ + ins, base)
    requires ListsTouched(d, ins, [], keys) && KeyShape(d, k) && Group(d, ins, k) != []
    ensures var once := DeltaRows(d, stored, ins, [], base, keys, keys);
            IsView(d, once, base) && !IsView(d, DeltaRows(d, once, ins, [], base, keys, keys), base)
  {
    assert base + [] == base;
    DeltaRefreshIsRecompute(d, stored, old_, ins, base, [], keys, keys);
    var once := DeltaRows(d, stored, ins, [], base, keys, keys);
    SecondDeltaRefresh(d, once, old_, base, ins, [], keys, keys);
    NothingInvalidated(d, once, ins, k);
    assert !Replayable(d, once, base, ins, [], k);
  }

  lemma NothingInvalidated<R>(d: Definition<R>, stored: seq<ViewRow>, ins: seq<R>, k: Key)
    requires WellFormed(d)
    ensures Group(d, [], k) == [] && !InvalidKey(d, stored, ins, [], k)
  {
  }

  lemma ResultWidths<R>(d: Definition<R>, kept: seq<ViewRow>, up: seq<ViewRow>, re: seq<ViewRow>)
    requires Widths(d, kept) && Widths(d, up) && Widths(d, re)
    ensures forall row :: row in kept + up + re ==> |row| == |d.columns|
  {
  }

  // ---- concrete failures ----

  /** SELECT k, COUNT(*) ... GROUP BY k over integers. */
  function PerKeyCount<R>(key: R -> int): Definition<R> {
    Definition([Scalar("k"), Aggregate(CountStar, "", true)], [0], (r: R) => true, (e: string) => (r: R) => Int(key(r)),
               (e: string, k: Key) => Null, (e: string) => (r: R) => None, (c: nat, g: multiset<R>) => Null)
  }

  lemma PerKeyCountMaintainable<R>(key: R -> int)
    ensures Maintainable(PerKeyCount(key)) && !HasExtremum(PerKeyCount(key).columns)
  {
    var d := PerKeyCount(key);
    assert d.columns[1].Aggregate? && d.columns[1].kind == CountStar;
    assert CountAggregates(d.columns) == 1 by {
      assert d.columns[..1] == [Scalar("k")];
      assert CountAggregates([Scalar("k")]) == 0 by {
        assert [Scalar("k")][..0] == [];
      }
    }
  }

  /** One row inserted since the cursor, refreshed twice in one transaction: counted twice. */
  lemma SecondDeltaRefreshCountsTwice(d: Definition<int>, keys: seq<Key>)
    requires d == PerKeyCount((r: int) => r) && ListsTouched(d, [7], [], keys)
    ensures Maintainable(d)
    ensures var once := DeltaRows(d, [], [7], [], [7], keys, keys);
            IsView(d, once, [7]) && !IsView(d, DeltaRows(d, once, [7], [], [7], keys, keys), [7])
  {
    PerKeyCountMaintainable((r: int) => r);
    EmptyIsView(d);
    assert [] + [7] == [7];
    KeyOfShape(d, 7);
    assert Group(d, [7], KeyOf(d, 7)) == [7];
    InsertsCountTwice(d, [], [], [7], [7], keys, KeyOf(d, 7));
  }

  /** Facts 1 and 2 with a dimension holding 2; the refreshing transaction adds dimension row 1,
      and fact 2 arrived in the window.  The join form misses group 1. */
  lemma JoinRefreshMissesLocalDim(d: Definition<(int, int)>, on: (int, int) -> bool, keys: seq<Key>)
    requires d == PerKeyCount((p: (int, int)) => p.0) && forall f, e :: on(f, e) <==> f == e
    requires ListsChanged(d, JoinChanged(d, on, [2], [], [2] + [1]), keys)
    ensures IsView(d, [], Join([1], [2], on))
    ensures !IsView(d, JoinRows(d, on, [], [2], [], [1, 2], [2] + [1], keys), Join([1, 2], [2] + [1], on))
  {
    PerKeyCountMaintainable((p: (int, int)) => p.0);
    EmptyIsView(d);
    SmallJoins(on);
    JoinRefreshWithLocalDims(d, on, [], [1], [2], [1, 2], [], [2], [1], keys);
    OtherKey(d);
    assert !LocalPairsInWindow(d, on, JoinChanged(d, on, [2], [], [2] + [1]), [1, 2], [1]);
  }

  /** Fact 1 with a dimension holding 1 and 2; the refreshing transaction deletes dimension row 1, and
      fact 2 arrived in the window.  The join form keeps group 1. */
  lemma JoinRefreshKeepsRemovedDim(d: Definition<(int, int)>, on: (int, int) -> bool, stored: seq<ViewRow>, keys: seq<Key>)
    requires d == PerKeyCount((p: (int, int)) => p.0) && forall f, e :: on(f, e) <==> f == e
    requires IsView(d, stored, Join([1], [2] + [1], on))
    requires ListsChanged(d, JoinChanged(d, on, [2], [], [2]), keys)
    ensures !IsView(d, JoinRows(d, on, stored, [2], [], [1, 2], [2], keys), Join([1, 2], [2], on))
  {
    PerKeyCountMaintainable((p: (int, int)) => p.0);
    SmallJoins(on);
    JoinRefreshWithRemovedDims(d, on, stored, [1], [2], [1, 2], [], [2], [1], keys);
    OtherKey(d);
    assert !LocalPairsInWindow(d, on, JoinChanged(d, on, [2], [], [2]), [1], [1]);
  }

  lemma OtherKey(d: Definition<(int, int)>)
    requires d == PerKeyCount((p: (int, int)) => p.0) && WellFormed(d)
    ensures d.where((1, 1)) && !CarriesKey(d, [(2, 2)])(KeyOf(d, (1, 1)))
  {
    assert KeyOf(d, (1, 1))[0] == Int(1) && KeyOf(d, (2, 2))[0] == Int(2);
  }

  lemma EmptyIsView<R>(d: Definition<R>)
    requires WellFormed(d)
    ensures IsView(d, [], [])
  {
    forall k ensures AgreesAt(d, [], [], k) {
    }
  }

  lemma SmallJoins(on: (int, int) -> bool)
    requires forall f, e :: on(f, e) <==> f == e
    ensures Join([2], [2] + [1], on) + Join([], [2] + [1], on) == [(2, 2)]
    ensures Join([2], [2], on) + Join([], [2], on) == [(2, 2)]
    ensures (1, 1) in Join([1, 2], [1], on) && (1, 1) in Join([1], [1], on)
    ensures Join([1], [2], on) == [] && [1, 2] + [] == [1] + [2]
  {
    assert [2] + [1] == [2, 1] && [2, 1][1..] == [1] && [2][1..] == [] && [1, 2][1..] == [2] && [1][1..] == [];
    assert Pairs(2, [1], on) == [] && Pairs(2, [2, 1], on) == [(2, 2)] && Pairs(2, [2], on) == [(2, 2)];
    assert Pairs(1, [1], on) == [(1, 1)];
  }
}
