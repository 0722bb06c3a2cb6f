/**
 Pure-delta refresh of a grouped view: stored rows of untouched groups are kept, touched groups
 are updated from signed change-feed measures, and groups whose MIN or MAX may have been deleted
 are rebuilt from the base table.
 */
module DeltaRefresh {
  import opened Tables
  import opened ViewDefinition

  // ---- eligibility ----

  predicate IsAgg(col: Column, kind: AggKind, child: string) {
    col.Aggregate? && col.kind == kind && col.child == child
  }

  predicate IsExtremumColumn(col: Column) {
    col.Aggregate? && (col.kind == Min || col.kind == Max)
  }

  ghost predicate Computes(columns: seq<Column>, kind: AggKind, child: string) {
    exists i :: 0 <= i < |columns| && IsAgg(columns[i], kind, child)
  }

  /** Every SUM has COUNT of its argument, every AVG has SUM and COUNT of its argument. */
  ghost predicate HasDerivedState(columns: seq<Column>) {
    forall c :: 0 <= c < |columns| && columns[c].Aggregate? ==>
      && (columns[c].kind == Sum ==> Computes(columns, CountCol, columns[c].child))
      && (columns[c].kind == Avg ==> Computes(columns, CountCol, columns[c].child) && Computes(columns, Sum, columns[c].child))
  }

  ghost predicate AllPlain(columns: seq<Column>) {
    forall c :: 0 <= c < |columns| && columns[c].Aggregate? ==> columns[c].plain
  }

  ghost predicate HasCountStar(columns: seq<Column>) {
    exists c :: 0 <= c < |columns| && columns[c].Aggregate? && columns[c].kind == CountStar
  }

  ghost predicate HasExtremum(columns: seq<Column>) {
    exists c :: 0 <= c < |columns| && IsExtremumColumn(columns[c])
  }

  /** delta_eligible: no MIN or MAX. */
  ghost predicate DeltaEligible(columns: seq<Column>) {
    AllPlain(columns) && !HasExtremum(columns) && HasCountStar(columns) && HasDerivedState(columns)
  }

  /** conditional_delta_eligible: MIN or MAX present, invalidated groups rebuilt. */
  ghost predicate ConditionalDeltaEligible(columns: seq<Column>) {
    HasExtremum(columns) && AllPlain(columns) && HasCountStar(columns) && HasDerivedState(columns)
  }

  function CountAggregates(columns: seq<Column>): nat {
    if columns == [] then 0
    else CountAggregates(columns[..|columns| - 1]) + (if columns[|columns| - 1].Aggregate? then 1 else 0)
  }

  /** The bind-time check that keys and aggregates together fill the select list. */
  ghost predicate FillsSelectList<R>(d: Definition<R>) {
    CountAggregates(d.columns) + |d.groups| == |d.columns|
  }

  ghost predicate ScalarsAreKeys<R>(d: Definition<R>) {
    forall c: nat :: c < |d.columns| && d.columns[c].Scalar? ==> c in d.groups
  }

  // ---- one group's update ----

  /** Index of the first column computing this aggregate. */
  function FirstAgg(columns: seq<Column>, kind: AggKind, child: string): (i: nat)
    requires Computes(columns, kind, child)
    ensures i < |columns| && IsAgg(columns[i], kind, child)
  {
    if IsAgg(columns[0], kind, child) then 0 else
      assert Computes(columns[1..], kind, child) by {
        var j :| 0 <= j < |columns| && IsAgg(columns[j], kind, child);
        assert columns[1..][j - 1] == columns[j];
      }
      FirstAgg(columns[1..], kind, child) + 1
  }

  /** Index of the last column computing this aggregate. */
  function LastAgg(columns: seq<Column>, kind: AggKind, child: string): (i: nat)
    requires Computes(columns, kind, child)
    ensures i < |columns| && IsAgg(columns[i], kind, child)
  {
    var n := |columns| - 1;
    if IsAgg(columns[n], kind, child) then n else
      assert Computes(columns[..n], kind, child) by {
        var j :| 0 <= j < |columns| && IsAgg(columns[j], kind, child);
        assert columns[..n][j] == columns[j];
      }
      LastAgg(columns[..n], kind, child)
  }

  /** Index of the last COUNT(*) column. */
  function LastCountStar(columns: seq<Column>): (i: nat)
    requires HasCountStar(columns)
    ensures i < |columns| && columns[i].Aggregate? && columns[i].kind == CountStar
  {
    var n := |columns| - 1;
    if columns[n].Aggregate? && columns[n].kind == CountStar then n else
      assert HasCountStar(columns[..n]) by {
        var j :| 0 <= j < |columns| && columns[j].Aggregate? && columns[j].kind == CountStar;
        assert columns[..n][j] == columns[j];
      }
      LastCountStar(columns[..n])
  }

  /** A stored column, NULL when the left join found no stored row. */
  function StoredCell(m: Option<ViewRow>, c: nat): Cell {
    if m.Some? && c < |m.value| then m.value[c] else Null
  }

  /** coalesce(cell, 0) */
  function OrZero(cell: Cell): int {
    if cell.Int? then cell.n else 0
  }

  function ToOption(cell: Cell): Option<int> {
    if cell.Int? then Some(cell.n) else None
  }

  ghost function UpdatedCell<R>(d: Definition<R>, c: nat, k: Key, m: Option<ViewRow>, ins: seq<R>, del: seq<R>): Cell
    requires c < |d.columns| && |k| == |d.groups| && HasDerivedState(d.columns)
  {
    var stored := StoredCell(m, c);
    match d.columns[c]
    case Scalar(e) =>
      var i := KeyIndex(d.groups, c);
      if i.None? || stored != Null then stored else k[i.value]
    case Aggregate(kind, child, _) =>
      var a := d.arg(child);
      match kind
      case CountStar => Int(OrZero(stored) + (|ins| - |del|))
      case CountCol => Int(OrZero(stored) + (CountOf(ins, a) - CountOf(del, a)))
      case Sum =>
        var n := FirstAgg(d.columns, CountCol, child);
        if OrZero(StoredCell(m, n)) + (CountOf(ins, a) - CountOf(del, a)) > 0
        then Int(OrZero(stored) + (SumOf(ins, a) - SumOf(del, a)))
        else Null
      case Avg =>
        var s, n := LastAgg(d.columns, Sum, child), LastAgg(d.columns, CountCol, child);
        var sum := OrZero(StoredCell(m, s)) + (SumOf(ins, a) - SumOf(del, a));
        var count := OrZero(StoredCell(m, n)) + (CountOf(ins, a) - CountOf(del, a));
        if count > 0 then Ratio(sum as real / count as real) else Null
      case Min => Combine(stored, Extremum(ins, a, false), false)
      case Max => Combine(stored, Extremum(ins, a, true), true)
  }

  /** The stored extremum combined with the inserted one. */
  function Combine(stored: Cell, delta: Option<int>, max: bool): Cell {
    if delta.None? then stored
    else if stored == Null then Int(delta.value)
    else FromOption(Extremer(max, ToOption(stored), delta))
  }

  ghost function UpdatedRow<R>(d: Definition<R>, k: Key, m: Option<ViewRow>, ins: seq<R>, del: seq<R>): ViewRow
    requires |k| == |d.groups| && HasDerivedState(d.columns)
  {
    seq(|d.columns|, c requires 0 <= c < |d.columns| => UpdatedCell(d, c, k, m, ins, del))
  }

  /** The maintained COUNT(*) of a touched group; zero means the group is gone. */
  ghost function LiveCount<R>(d: Definition<R>, m: Option<ViewRow>, ins: seq<R>, del: seq<R>): int
    requires HasCountStar(d.columns)
  {
    OrZero(StoredCell(m, LastCountStar(d.columns))) + (|ins| - |del|)
  }

  /** A deleted argument may be the extremum itself: equal to the stored one, or at or beyond
      the stored one combined with the window's inserts. */
  ghost predicate UnsafeDelete<R>(d: Definition<R>, c: nat, m: Option<ViewRow>, ins: seq<R>, r: R)
    requires c < |d.columns| && IsExtremumColumn(d.columns[c])
  {
    var a, max := d.arg(d.columns[c].child), d.columns[c].kind == Max;
    var stored := ToOption(StoredCell(m, c));
    var bound := Extremer(max, stored, Extremum(ins, a, max));
    a(r) == stored || (a(r).Some? && bound.Some? && Beats(max, a(r).value, bound.value))
  }

  ghost predicate Invalidated<R>(d: Definition<R>, m: Option<ViewRow>, ins: seq<R>, del: seq<R>) {
    exists r, c :: r in del && 0 <= c < |d.columns| && IsExtremumColumn(d.columns[c]) && UnsafeDelete(d, c, m, ins, r)
  }

  // ---- the whole statement ----

  /** Some changed row of the window belongs to group k. */
  ghost predicate Touched<R>(d: Definition<R>, ins: seq<R>, del: seq<R>, k: Key)
    requires WellFormed(d)
  {
    Group(d, ins, k) != [] || Group(d, del, k) != []
  }

  ghost function Untouched<R>(d: Definition<R>, ins: seq<R>, del: seq<R>): ViewRow -> bool
    requires WellFormed(d)
  {
    row => !Touched(d, ins, del, RowKey(d, row))
  }

  /** Rows joined by a LEFT JOIN on the group key. */
  ghost function LeftMatches<R>(d: Definition<R>, stored: seq<ViewRow>, k: Key): seq<Option<ViewRow>>
    requires WellFormed(d)
  {
    var rows := RowsAt(d, stored, k);
    if rows == [] then [None] else seq(|rows|, i requires 0 <= i < |rows| => Some(rows[i]))
  }

  ghost predicate InvalidKey<R>(d: Definition<R>, stored: seq<ViewRow>, ins: seq<R>, del: seq<R>, k: Key)
    requires WellFormed(d)
  {
    exists m :: m in LeftMatches(d, stored, k) && Invalidated(d, m, Group(d, ins, k), Group(d, del, k))
  }

  ghost function UpdatesFor<R>(d: Definition<R>, ms: seq<Option<ViewRow>>, k: Key, ins: seq<R>, del: seq<R>): seq<ViewRow>
    requires |k| == |d.groups| && HasDerivedState(d.columns) && HasCountStar(d.columns)
  {
    if ms == [] then []
    else (if LiveCount(d, ms[0], ins, del) != 0 then [UpdatedRow(d, k, ms[0], ins, del)] else []) +
         UpdatesFor(d, ms[1..], k, ins, del)
  }

  /** The updated part for one touched key: nothing when the key is invalid. */
  ghost function UpdatedAt<R>(d: Definition<R>, stored: seq<ViewRow>, ins: seq<R>, del: seq<R>, k: Key): seq<ViewRow>
    requires WellFormed(d) && |k| == |d.groups| && HasDerivedState(d.columns) && HasCountStar(d.columns)
  {
    if InvalidKey(d, stored, ins, del, k) then []
    else UpdatesFor(d, LeftMatches(d, stored, k), k, Group(d, ins, k), Group(d, del, k))
  }

  /** The rebuilt part for one touched key: recomputed from the base table when invalid. */
  ghost function RebuiltAt<R>(d: Definition<R>, stored: seq<ViewRow>, ins: seq<R>, del: seq<R>, base: seq<R>, k: Key): seq<ViewRow>
    requires WellFormed(d) && |k| == |d.groups|
  {
    if InvalidKey(d, stored, ins, del, k) then Expected(d, base, k) else []
  }

  /** The rows a part of the statement emits, key by key in the order the keys come out. */
  ghost function Emit(keys: seq<Key>, part: Key -> seq<ViewRow>): seq<ViewRow> {
    if keys == [] then [] else part(keys[0]) + Emit(keys[1..], part)
  }

  ghost function UpdatedPart<R>(d: Definition<R>, stored: seq<ViewRow>, ins: seq<R>, del: seq<R>): Key -> seq<ViewRow>
    requires WellFormed(d) && HasDerivedState(d.columns) && HasCountStar(d.columns)
  {
    k => if |k| == |d.groups| then UpdatedAt(d, stored, ins, del, k) else []
  }

  ghost function RebuiltPart<R>(d: Definition<R>, stored: seq<ViewRow>, ins: seq<R>, del: seq<R>, base: seq<R>): Key -> seq<ViewRow>
    requires WellFormed(d)
  {
    k => if |k| == |d.groups| then RebuiltAt(d, stored, ins, del, base, k) else []
  }

  ghost predicate Distinct<T>(s: seq<T>) {
    forall i, j :: 0 <= i < j < |s| ==> s[i] != s[j]
  }

  /** keys lists the touched groups, once each, in any order. */
  ghost predicate ListsTouched<R>(d: Definition<R>, ins: seq<R>, del: seq<R>, keys: seq<Key>)
    requires WellFormed(d)
  {
    && Distinct(keys)
    && (forall k :: k in keys <==> KeyShape(d, k) && Touched(d, ins, del, k))
  }

  /** kept UNION ALL updated UNION ALL rebuilt; the two key lists are the orders in which the
      touched keys come out of the two grouped parts. */
  ghost function DeltaRows<R>(d: Definition<R>, stored: seq<ViewRow>, ins: seq<R>, del: seq<R>, base: seq<R>,
                                 updated: seq<Key>, rebuilt: seq<Key>): seq<ViewRow>
    requires WellFormed(d) && HasDerivedState(d.columns) && HasCountStar(d.columns)
  {
    Select(stored, Untouched(d, ins, del)) +
    Emit(updated, UpdatedPart(d, stored, ins, del)) +
    Emit(rebuilt, RebuiltPart(d, stored, ins, del, base))
  }

  // ---- the select list ----

  lemma {:induction false} ScalarPositions(columns: seq<Column>) returns (s: set<nat>)
    ensures s == set c: nat | c < |columns| && columns[c].Scalar?
    ensures |s| + CountAggregates(columns) == |columns|
  {
    if columns == [] {
      s := {};
    } else {
      var n := |columns| - 1;
      var t := ScalarPositions(columns[..n]);
      s := if columns[n].Scalar? then t + {n} else t;
      assert n !in t;
    }
  }

  lemma {:induction false} GroupPositions(groups: seq<nat>) returns (s: set<nat>)
    ensures s == set g | g in groups
    ensures |s| <= |groups|
    ensures |s| == |groups| <==> Distinct(groups)
  {
    if groups == [] {
      s := {};
    } else {
      var t := GroupPositions(groups[1..]);
      s := t + {groups[0]};
      assert forall g :: g in groups <==> g == groups[0] || g in groups[1..];
      if groups[0] in t {
        assert s == t;
        var j :| 0 <= j < |groups[1..]| && groups[1..][j] == groups[0];
        assert groups[0] == groups[j + 1];
      } else {
        assert forall i, j :: 0 <= i < j < |groups| && i > 0 ==> groups[i] == groups[1..][i - 1] && groups[j] == groups[1..][j - 1];
        assert forall j :: 0 < j < |groups| ==> groups[j] == groups[1..][j - 1];
      }
    }
  }

  lemma SubsetSize(a: set<nat>, b: set<nat>)
    requires a <= b
    ensures |a| <= |b|
    ensures |a| == |b| ==> a == b
  {
    assert b == a + (b - a);
  }

  /** A definition that fills its select list has only keys and aggregates there exactly when the
      group keys are distinct positions.  Otherwise the statement builder meets more non-key
      columns than aggregates and fails. */
  lemma FilledSelectList<R>(d: Definition<R>)
    requires WellFormed(d) && FillsSelectList(d)
    ensures ScalarsAreKeys(d) <==> Distinct(d.groups)
  {
    var scalars := ScalarPositions(d.columns);
    var keys := GroupPositions(d.groups);
    forall c | c in keys ensures c in scalars {
      var i :| 0 <= i < |d.groups| && d.groups[i] == c;
    }
    SubsetSize(keys, scalars);
    if Distinct(d.groups) {
      assert keys == scalars;
      forall c: nat | c < |d.columns| && d.columns[c].Scalar? ensures c in d.groups {
        assert c in scalars;
      }
    }
    if ScalarsAreKeys(d) {
      forall c | c in scalars ensures c in keys {
        assert c in d.groups;
      }
      assert keys == scalars;
      assert |keys| == |d.groups|;
      assert Distinct(d.groups);
    }
  }

  // ---- one group ----

  lemma {:induction false} NoArgumentsNoSum<R>(rows: seq<R>, a: R -> Option<int>)
    ensures CountOf(rows, a) >= 0
    ensures CountOf(rows, a) == 0 ==> SumOf(rows, a) == 0
  {
    if rows != [] {
      NoArgumentsNoSum(rows[1..], a);
    }
  }

  /** Counts and sums balance across the change-feed equation. */
  lemma BalancedTotals<R>(old_: seq<R>, ins: seq<R>, new_: seq<R>, del: seq<R>, a: R -> Option<int>)
    requires SameRows(old_ + ins, new_ + del)
    ensures CountOf(old_, a) + CountOf(ins, a) == CountOf(new_, a) + CountOf(del, a)
    ensures SumOf(old_, a) + SumOf(ins, a) == SumOf(new_, a) + SumOf(del, a)
    ensures |old_| + |ins| == |new_| + |del|
  {
    TotalSameRows(old_ + ins, new_ + del, Present(a));
    TotalSameRows(old_ + ins, new_ + del, Amount(a));
    TotalAppend(old_, ins, Present(a));
    TotalAppend(new_, del, Present(a));
    TotalAppend(old_, ins, Amount(a));
    TotalAppend(new_, del, Amount(a));
    SameRowsSize(old_ + ins, new_ + del);
  }

  /** The stored row of a group, if the group was live. */
  ghost function StoredRow<R>(d: Definition<R>, k: Key, old_: seq<R>): Option<ViewRow>
    requires |k| == |d.groups|
  {
    if old_ == [] then None else Some(GroupRow(d, k, old_))
  }

  lemma StoredTotals<R>(d: Definition<R>, k: Key, old_: seq<R>, c: nat)
    requires |k| == |d.groups| && c < |d.columns| && d.columns[c].Aggregate? && d.columns[c].plain
    ensures d.columns[c].kind == CountStar ==> OrZero(StoredCell(StoredRow(d, k, old_), c)) == |old_|
    ensures d.columns[c].kind == CountCol ==>
              OrZero(StoredCell(StoredRow(d, k, old_), c)) == CountOf(old_, d.arg(d.columns[c].child))
    ensures d.columns[c].kind == Sum ==>
              OrZero(StoredCell(StoredRow(d, k, old_), c)) == SumOf(old_, d.arg(d.columns[c].child))
  {
    NoArgumentsNoSum(old_, d.arg(d.columns[c].child));
    if old_ != [] {
      assert GroupRow(d, k, old_)[c] == GroupCell(d, c, k, old_);
    }
  }

  lemma StoredExtremum<R>(d: Definition<R>, k: Key, old_: seq<R>, c: nat)
    requires |k| == |d.groups| && c < |d.columns| && IsExtremumColumn(d.columns[c]) && d.columns[c].plain
    ensures StoredCell(StoredRow(d, k, old_), c) == FromOption(Extremum(old_, d.arg(d.columns[c].child), d.columns[c].kind == Max))
  {
    if old_ != [] {
      assert GroupRow(d, k, old_)[c] == GroupCell(d, c, k, old_);
    }
  }

  /** The heart of MIN/MAX maintenance: when no deleted argument reaches the stored extremum
      combined with the inserted one, that combination is the new extremum. */
  lemma ExtremumSurvives<R>(old_: seq<R>, ins: seq<R>, new_: seq<R>, del: seq<R>, a: R -> Option<int>, max: bool)
    requires SameRows(old_ + ins, new_ + del)
    requires var o, b := Extremum(old_, a, max), Extremer(max, Extremum(old_, a, max), Extremum(ins, a, max));
             forall r :: r in del ==> a(r) != o && !(a(r).Some? && b.Some? && Beats(max, a(r).value, b.value))
    ensures Extremum(new_, a, max) == Extremer(max, Extremum(old_, a, max), Extremum(ins, a, max))
  {
    var o, i := Extremum(old_, a, max), Extremum(ins, a, max);
    var b := Extremer(max, o, i);
    ExtremumIs(old_, a, max);
    ExtremumIs(ins, a, max);
    forall r ensures r in old_ || r in ins <==> r in new_ || r in del {
      SameRowsMembers(old_ + ins, new_ + del, r);
      assert r in old_ + ins <==> r in old_ || r in ins;
      assert r in new_ + del <==> r in new_ || r in del;
    }
    if b.Some? {
      var r: R;
      if b == o {
        r :| r in old_ && a(r) == b;
      } else {
        r :| r in ins && a(r) == b;
      }
      assert r in new_ || r in del;
      assert Beats(max, b.value, b.value);
      assert r in new_ && a(r) == b;
    }
    ExtremumUnique(new_, a, max, b);
  }

  lemma ExtremumOfBoth<R>(x: seq<R>, y: seq<R>, a: R -> Option<int>, max: bool)
    ensures Extremum(x + y, a, max) == Extremer(max, Extremum(x, a, max), Extremum(y, a, max))
  {
    var v := Extremer(max, Extremum(x, a, max), Extremum(y, a, max));
    ExtremumIs(x, a, max);
    ExtremumIs(y, a, max);
    assert forall r :: r in x + y <==> r in x || r in y;
    if v.Some? {
      var r: R;
      if v == Extremum(x, a, max) {
        r :| r in x && a(r) == v;
      } else {
        r :| r in y && a(r) == v;
      }
      assert r in x + y;
    }
    ExtremumUnique(x + y, a, max, v);
  }

  /** No argument of the rows is smaller than v, or larger; vacuous when all are NULL. */
  ghost predicate NoneBeyond<R>(rows: seq<R>, a: R -> Option<int>, max: bool, v: int) {
    forall x :: x in rows && a(x).Some? ==> if max then a(x).value <= v else v <= a(x).value
  }

  /** When a deletion makes a group be rebuilt: a NULL from a group whose arguments are all NULL, the stored
      MIN or MAX itself, or a value that no old and no inserted argument of the group goes beyond. */
  lemma UnsafeExactlyWhen<R>(d: Definition<R>, c: nat, k: Key, old_: seq<R>, ins: seq<R>, r: R)
    requires |k| == |d.groups| && c < |d.columns| && IsExtremumColumn(d.columns[c]) && d.columns[c].plain
    ensures var a, max := d.arg(d.columns[c].child), d.columns[c].kind == Max;
            UnsafeDelete(d, c, StoredRow(d, k, old_), ins, r) <==>
            if a(r).None? then forall x :: x in old_ ==> a(x).None?
            else
              || ((exists x :: x in old_ && a(x) == a(r)) && NoneBeyond(old_, a, max, a(r).value))
              || ((exists x :: x in old_ + ins && a(x).Some?) && NoneBeyond(old_ + ins, a, max, a(r).value))
  {
    var a, max := d.arg(d.columns[c].child), d.columns[c].kind == Max;
    StoredExtremum(d, k, old_, c);
    ExtremumOfBoth(old_, ins, a, max);
    ExtremumIs(old_, a, max);
    ExtremumIs(old_ + ins, a, max);
    if a(r).Some? && (exists x :: x in old_ && a(x) == a(r)) && NoneBeyond(old_, a, max, a(r).value) {
      ExtremumUnique(old_, a, max, a(r));
    }
  }

  /** Which views are kept by the delta form, with MIN or MAX or without: all aggregates are plain, one is
      COUNT(*), every SUM has a COUNT of its argument beside it, every AVG a COUNT and a SUM. */
  lemma EligibleExactlyWhen(columns: seq<Column>)
    ensures DeltaEligible(columns) || ConditionalDeltaEligible(columns) <==>
            && (forall c :: 0 <= c < |columns| && columns[c].Aggregate? ==> columns[c].plain)
            && (exists c :: 0 <= c < |columns| && columns[c].Aggregate? && columns[c].kind == CountStar)
            && (forall c :: 0 <= c < |columns| && columns[c].Aggregate? && (columns[c].kind == Sum || columns[c].kind == Avg) ==>
                  exists i :: 0 <= i < |columns| && columns[i].Aggregate? && columns[i].kind == CountCol && columns[i].child == columns[c].child)
            && (forall c :: 0 <= c < |columns| && columns[c].Aggregate? && columns[c].kind == Avg ==>
                  exists i :: 0 <= i < |columns| && columns[i].Aggregate? && columns[i].kind == Sum && columns[i].child == columns[c].child)
    ensures DeltaEligible(columns) ==> forall c :: 0 <= c < |columns| && columns[c].Aggregate? ==> columns[c].kind != Min && columns[c].kind != Max
    ensures ConditionalDeltaEligible(columns) ==> exists c :: 0 <= c < |columns| && columns[c].Aggregate? && (columns[c].kind == Min || columns[c].kind == Max)
  {
    forall kind: AggKind, child: string
      ensures Computes(columns, kind, child) <==>
              exists i :: 0 <= i < |columns| && columns[i].Aggregate? && columns[i].kind == kind && columns[i].child == child
    {
      if i :| 0 <= i < |columns| && columns[i].Aggregate? && columns[i].kind == kind && columns[i].child == child {
        assert IsAgg(columns[i], kind, child);
      }
    }
  }

  lemma UpdatedExtremum<R>(d: Definition<R>, c: nat, k: Key, old_: seq<R>, ins: seq<R>, new_: seq<R>, del: seq<R>)
    requires |k| == |d.groups| && HasDerivedState(d.columns)
    requires c < |d.columns| && IsExtremumColumn(d.columns[c]) && d.columns[c].plain
    requires SameRows(old_ + ins, new_ + del)
    requires !Invalidated(d, StoredRow(d, k, old_), ins, del)
    ensures UpdatedCell(d, c, k, StoredRow(d, k, old_), ins, del) == GroupCell(d, c, k, new_)
  {
    var m, a, max := StoredRow(d, k, old_), d.arg(d.columns[c].child), d.columns[c].kind == Max;
    StoredExtremum(d, k, old_, c);
    forall r | r in del ensures !UnsafeDelete(d, c, m, ins, r) {
    }
    assert ToOption(StoredCell(m, c)) == Extremum(old_, a, max);
    ExtremumSurvives(old_, ins, new_, del, a, max);
  }

  lemma UpdatedCount<R>(d: Definition<R>, c: nat, k: Key, old_: seq<R>, ins: seq<R>, new_: seq<R>, del: seq<R>)
    requires |k| == |d.groups| && HasDerivedState(d.columns) && SameRows(old_ + ins, new_ + del)
    requires c < |d.columns| && d.columns[c].Aggregate? && d.columns[c].plain
    requires d.columns[c].kind == CountStar || d.columns[c].kind == CountCol
    ensures UpdatedCell(d, c, k, StoredRow(d, k, old_), ins, del) == GroupCell(d, c, k, new_)
  {
    BalancedTotals(old_, ins, new_, del, d.arg(d.columns[c].child));
    StoredTotals(d, k, old_, c);
  }

  lemma UpdatedSum<R>(d: Definition<R>, c: nat, k: Key, old_: seq<R>, ins: seq<R>, new_: seq<R>, del: seq<R>)
    requires |k| == |d.groups| && HasDerivedState(d.columns) && AllPlain(d.columns) && SameRows(old_ + ins, new_ + del)
    requires c < |d.columns| && d.columns[c].Aggregate? && d.columns[c].kind == Sum
    ensures UpdatedCell(d, c, k, StoredRow(d, k, old_), ins, del) == GroupCell(d, c, k, new_)
  {
    var child := d.columns[c].child;
    BalancedTotals(old_, ins, new_, del, d.arg(child));
    StoredTotals(d, k, old_, c);
    StoredTotals(d, k, old_, FirstAgg(d.columns, CountCol, child));
  }

  lemma UpdatedAvg<R>(d: Definition<R>, c: nat, k: Key, old_: seq<R>, ins: seq<R>, new_: seq<R>, del: seq<R>)
    requires |k| == |d.groups| && HasDerivedState(d.columns) && AllPlain(d.columns) && SameRows(old_ + ins, new_ + del)
    requires c < |d.columns| && d.columns[c].Aggregate? && d.columns[c].kind == Avg
    ensures UpdatedCell(d, c, k, StoredRow(d, k, old_), ins, del) == GroupCell(d, c, k, new_)
  {
    var child := d.columns[c].child;
    var a, m := d.arg(child), StoredRow(d, k, old_);
    var s, n := LastAgg(d.columns, Sum, child), LastAgg(d.columns, CountCol, child);
    BalancedTotals(old_, ins, new_, del, a);
    StoredTotals(d, k, old_, s);
    StoredTotals(d, k, old_, n);
    assert OrZero(StoredCell(m, s)) + (SumOf(ins, a) - SumOf(del, a)) == SumOf(new_, a);
    assert OrZero(StoredCell(m, n)) + (CountOf(ins, a) - CountOf(del, a)) == CountOf(new_, a);
  }

  lemma UpdatedScalar<R>(d: Definition<R>, c: nat, k: Key, old_: seq<R>, ins: seq<R>, new_: seq<R>, del: seq<R>)
    requires |k| == |d.groups| && HasDerivedState(d.columns) && ScalarsAreKeys(d)
    requires c < |d.columns| && d.columns[c].Scalar?
    ensures UpdatedCell(d, c, k, StoredRow(d, k, old_), ins, del) == GroupCell(d, c, k, new_)
  {
    assert c in d.groups;
    if old_ != [] {
      assert GroupRow(d, k, old_)[c] == GroupCell(d, c, k, old_);
    }
  }

  /** The updated row of a live, valid group is the group's row over the new base. */
  lemma UpdatedRowIsGroupRow<R>(d: Definition<R>, k: Key, old_: seq<R>, ins: seq<R>, new_: seq<R>, del: seq<R>)
    requires |k| == |d.groups| && HasDerivedState(d.columns) && AllPlain(d.columns) && ScalarsAreKeys(d)
    requires SameRows(old_ + ins, new_ + del)
    requires !Invalidated(d, StoredRow(d, k, old_), ins, del)
    ensures UpdatedRow(d, k, StoredRow(d, k, old_), ins, del) == GroupRow(d, k, new_)
  {
    forall c: nat | c < |d.columns|
      ensures UpdatedCell(d, c, k, StoredRow(d, k, old_), ins, del) == GroupCell(d, c, k, new_)
    {
      if d.columns[c].Scalar? {
        UpdatedScalar(d, c, k, old_, ins, new_, del);
      } else if IsExtremumColumn(d.columns[c]) {
        UpdatedExtremum(d, c, k, old_, ins, new_, del);
      } else if d.columns[c].kind == Sum {
        UpdatedSum(d, c, k, old_, ins, new_, del);
      } else if d.columns[c].kind == Avg {
        UpdatedAvg(d, c, k, old_, ins, new_, del);
      } else {
        UpdatedCount(d, c, k, old_, ins, new_, del);
      }
    }
  }

  lemma LiveCountIsSize<R>(d: Definition<R>, k: Key, old_: seq<R>, ins: seq<R>, new_: seq<R>, del: seq<R>)
    requires |k| == |d.groups| && HasCountStar(d.columns) && AllPlain(d.columns)
    requires SameRows(old_ + ins, new_ + del)
    ensures LiveCount(d, StoredRow(d, k, old_), ins, del) == |new_|
  {
    SameRowsSize(old_ + ins, new_ + del);
    StoredTotals(d, k, old_, LastCountStar(d.columns));
  }

  // ---- all groups ----

  lemma RowsOfExpected<R>(d: Definition<R>, base: seq<R>, k: Key, row: ViewRow)
    requires WellFormed(d) && KeyShape(d, k) && row in Expected(d, base, k)
    ensures RowKey(d, row) == k && |row| == |d.columns|
  {
    GroupRowKey(d, k, Group(d, base, k));
  }

  /** A key's share of an emitted part. */
  lemma {:induction false} RowsOfEmit<R>(d: Definition<R>, keys: seq<Key>, part: Key -> seq<ViewRow>, k: Key)
    requires WellFormed(d)
    requires Distinct(keys)
    requires EmitsOwnKeys(d, keys, part)
    ensures RowsAt(d, Emit(keys, part), k) == if k in keys then part(k) else []
    ensures forall row :: row in Emit(keys, part) ==> |row| == |d.columns|
  {
    if keys != [] {
      var q, rest := keys[0], keys[1..];
      assert forall x :: x in keys <==> x == q || x in rest;
      RowsOfEmit(d, rest, part, k);
      SelectAppend(part(q), Emit(rest, part), WithKey(d, k));
      AllOrNothing(d, part(q), q, k);
      assert q !in rest by {
        forall j | 0 <= j < |rest| ensures rest[j] != q {
          assert keys[j + 1] == rest[j];
        }
      }
    }
  }

  lemma {:induction false} AllOrNothing<R>(d: Definition<R>, rows: seq<ViewRow>, q: Key, k: Key)
    requires WellFormed(d)
    requires forall row :: row in rows ==> RowKey(d, row) == q
    ensures RowsAt(d, rows, k) == if k == q then rows else []
  {
    if rows != [] {
      assert rows == [rows[0]] + rows[1..];
      AllOrNothing(d, rows[1..], q, k);
    }
  }

  /** Filtering on a property of the key keeps or drops each key's rows as a whole. */
  lemma {:induction false} RowsOfFiltered<R>(d: Definition<R>, rows: seq<ViewRow>, p: ViewRow -> bool, k: Key, keep: bool)
    requires WellFormed(d)
    requires forall row :: RowKey(d, row) == k ==> p(row) == keep
    ensures RowsAt(d, Select(rows, p), k) == if keep then RowsAt(d, rows, k) else []
  {
    if rows != [] {
      assert rows == [rows[0]] + rows[1..];
      RowsOfFiltered(d, rows[1..], p, k, keep);
      SelectAppend([rows[0]], Select(rows[1..], p), WithKey(d, k));
    }
  }

  lemma {:induction false} SelectedRows<T>(rows: seq<T>, p: T -> bool)
    ensures forall r :: r in Select(rows, p) ==> r in rows && p(r)
  {
    if rows != [] {
      SelectedRows(rows[1..], p);
    }
  }

  /** The change-feed equation holds group by group. */
  lemma BalancedGroup<R>(d: Definition<R>, old_: seq<R>, ins: seq<R>, new_: seq<R>, del: seq<R>, k: Key)
    requires WellFormed(d) && SameRows(old_ + ins, new_ + del)
    ensures SameRows(Group(d, old_, k) + Group(d, ins, k), Group(d, new_, k) + Group(d, del, k))
  {
    SelectSameRows(old_ + ins, new_ + del, InGroup(d, k));
    SelectAppend(old_, ins, InGroup(d, k));
    SelectAppend(new_, del, InGroup(d, k));
  }

  /** A group without changed rows is the same group in both bases. */
  lemma UntouchedGroup<R>(d: Definition<R>, old_: seq<R>, ins: seq<R>, new_: seq<R>, del: seq<R>, k: Key)
    requires WellFormed(d) && |k| == |d.groups| && SameRows(old_ + ins, new_ + del) && !Touched(d, ins, del, k)
    ensures Expected(d, old_, k) == Expected(d, new_, k)
  {
    BalancedGroup(d, old_, ins, new_, del, k);
    assert Group(d, old_, k) + Group(d, ins, k) == Group(d, old_, k);
    assert Group(d, new_, k) + Group(d, del, k) == Group(d, new_, k);
    ExpectedSameGroup(d, old_, new_, k);
  }

  ghost predicate Maintainable<R>(d: Definition<R>) {
    && WellFormed(d) && FillsSelectList(d) && Distinct(d.groups)
    && (DeltaEligible(d.columns) || ConditionalDeltaEligible(d.columns))
  }

  /** For a touched key, updated and rebuilt together emit exactly the group's new row. */
  lemma TouchedKey<R>(d: Definition<R>, stored: seq<ViewRow>, old_: seq<R>, ins: seq<R>, new_: seq<R>, del: seq<R>, k: Key)
    requires Maintainable(d) && KeyShape(d, k) && AgreesAt(d, stored, old_, k)
    requires SameRows(old_ + ins, new_ + del)
    ensures UpdatedAt(d, stored, ins, del, k) + RebuiltAt(d, stored, ins, del, new_, k) == Expected(d, new_, k)
  {
    FilledSelectList(d);
    var o, i, n, e := Group(d, old_, k), Group(d, ins, k), Group(d, new_, k), Group(d, del, k);
    BalancedGroup(d, old_, ins, new_, del, k);
    var m := StoredRow(d, k, o);
    assert LeftMatches(d, stored, k) == [m];
    if !InvalidKey(d, stored, ins, del, k) {
      assert m in LeftMatches(d, stored, k);
      assert !Invalidated(d, m, i, e);
      LiveCountIsSize(d, k, o, i, n, e);
      UpdatedRowIsGroupRow(d, k, o, i, n, e);
      assert UpdatesFor(d, [m][1..], k, i, e) == [];
    }
  }

  ghost predicate EmitsOwnKeys<R>(d: Definition<R>, keys: seq<Key>, part: Key -> seq<ViewRow>)
    requires WellFormed(d)
  {
    forall q, row :: q in keys && row in part(q) ==> RowKey(d, row) == q && |row| == |d.columns|
  }

  lemma PartsAt<R>(d: Definition<R>, stored: seq<ViewRow>, old_: seq<R>, ins: seq<R>, new_: seq<R>, del: seq<R>, k: Key)
    requires Maintainable(d) && KeyShape(d, k) && AgreesAt(d, stored, old_, k)
    requires SameRows(old_ + ins, new_ + del)
    ensures UpdatedPart(d, stored, ins, del)(k) + RebuiltPart(d, stored, ins, del, new_)(k) == Expected(d, new_, k)
  {
    TouchedKey(d, stored, old_, ins, new_, del, k);
  }

  lemma PartsEmitOwnKeys<R>(d: Definition<R>, base: seq<R>, up: Key -> seq<ViewRow>, re: Key -> seq<ViewRow>, keys: seq<Key>)
    requires WellFormed(d)
    requires forall k :: k in keys ==> KeyShape(d, k) && up(k) + re(k) == Expected(d, base, k)
    ensures EmitsOwnKeys(d, keys, up) && EmitsOwnKeys(d, keys, re)
  {
    forall q, row | q in keys && (row in up(q) || row in re(q)) ensures RowKey(d, row) == q && |row| == |d.columns| {
      RowOfPart(d, up(q), re(q), base, q, row);
    }
  }

  lemma RowOfPart<R>(d: Definition<R>, a: seq<ViewRow>, b: seq<ViewRow>, base: seq<R>, k: Key, row: ViewRow)
    requires WellFormed(d) && KeyShape(d, k) && a + b == Expected(d, base, k) && (row in a || row in b)
    ensures RowKey(d, row) == k && |row| == |d.columns|
  {
    assert row in a + b;
    RowsOfExpected(d, base, k, row);
  }

  /** Key k's rows in kept + up + re, from its rows in each. */
  lemma ThreeParts<R>(d: Definition<R>, kept: seq<ViewRow>, up: seq<ViewRow>, re: seq<ViewRow>, k: Key)
    requires WellFormed(d)
    ensures RowsAt(d, kept + up + re, k) == RowsAt(d, kept, k) + RowsAt(d, up, k) + RowsAt(d, re, k)
  {
    SelectAppend(kept, up, WithKey(d, k));
    SelectAppend(kept + up, re, WithKey(d, k));
  }

  /** Key k's rows in kept rows plus two emitted parts, from its rows in each. */
  lemma AssembledAt<R>(d: Definition<R>, kept: seq<ViewRow>, up: seq<ViewRow>, re: seq<ViewRow>, k: Key,
                       atUp: seq<ViewRow>, atRe: seq<ViewRow>)
    requires WellFormed(d) && RowsAt(d, up, k) == atUp && RowsAt(d, re, k) == atRe
    ensures RowsAt(d, kept + up + re, k) == RowsAt(d, kept, k) + (atUp + atRe)
  {
    ThreeParts(d, kept, up, re, k);
    assert RowsAt(d, kept, k) + atUp + atRe == RowsAt(d, kept, k) + (atUp + atRe);
  }

  lemma RefreshedKey<R>(d: Definition<R>, stored: seq<ViewRow>, old_: seq<R>, ins: seq<R>, new_: seq<R>, del: seq<R>,
                        updated: seq<Key>, rebuilt: seq<Key>, up: Key -> seq<ViewRow>, re: Key -> seq<ViewRow>, k: Key)
    requires Maintainable(d) && KeyShape(d, k) && AgreesAt(d, stored, old_, k)
    requires SameRows(old_ + ins, new_ + del)
    requires ListsTouched(d, ins, del, updated) && ListsTouched(d, ins, del, rebuilt)
    requires up == UpdatedPart(d, stored, ins, del) && re == RebuiltPart(d, stored, ins, del, new_)
    requires EmitsOwnKeys(d, updated, up) && EmitsOwnKeys(d, rebuilt, re)
    ensures RowsAt(d, Select(stored, Untouched(d, ins, del)) + Emit(updated, up) + Emit(rebuilt, re), k) == Expected(d, new_, k)
  {
    var touched := Touched(d, ins, del, k);
    RowsOfEmit(d, updated, up, k);
    RowsOfEmit(d, rebuilt, re, k);
    AssembledAt(d, Select(stored, Untouched(d, ins, del)), Emit(updated, up), Emit(rebuilt, re), k,
                if touched then up(k) else [], if touched then re(k) else []);
    RowsOfFiltered(d, stored, Untouched(d, ins, del), k, !touched);
    if touched {
      PartsAt(d, stored, old_, ins, new_, del, k);
    } else {
      UntouchedGroup(d, old_, ins, new_, del, k);
    }
  }

  /** Delta refresh equals recompute: if the stored rows are the query over the old base, and
      old base plus inserted rows is new base plus deleted rows, the refreshed rows are the query
      over the new base, whatever the order in which touched keys come out. */
  lemma DeltaRefreshIsRecompute<R>(d: Definition<R>, stored: seq<ViewRow>, old_: seq<R>, ins: seq<R>, new_: seq<R>, del: seq<R>,
                                   updated: seq<Key>, rebuilt: seq<Key>)
    requires Maintainable(d) && IsView(d, stored, old_)
    requires SameRows(old_ + ins, new_ + del)
    requires ListsTouched(d, ins, del, updated) && ListsTouched(d, ins, del, rebuilt)
    ensures IsView(d, DeltaRows(d, stored, ins, del, new_, updated, rebuilt), new_)
  {
    var up, re := UpdatedPart(d, stored, ins, del), RebuiltPart(d, stored, ins, del, new_);
    forall k | KeyShape(d, k) ensures up(k) + re(k) == Expected(d, new_, k) {
      assert AgreesAt(d, stored, old_, k);
      PartsAt(d, stored, old_, ins, new_, del, k);
    }
    PartsEmitOwnKeys(d, new_, up, re, updated);
    PartsEmitOwnKeys(d, new_, up, re, rebuilt);
    forall k ensures AgreesAt(d, DeltaRows(d, stored, ins, del, new_, updated, rebuilt), new_, k) {
      assert AgreesAt(d, stored, old_, k);
      if KeyShape(d, k) {
        RefreshedKey(d, stored, old_, ins, new_, del, updated, rebuilt, up, re, k);
      }
    }
    SelectedRows(stored, Untouched(d, ins, del));
    RowsOfEmit(d, updated, up, []);
    RowsOfEmit(d, rebuilt, re, []);
  }
}
