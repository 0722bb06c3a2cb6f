/**
 Grouped materialized-view definitions and what their stored rows mean.

 A definition is a select list over one relation (a base table, or the pairs of a two-table
 join), a WHERE predicate and the select-list positions of the GROUP BY keys.  Group keys are
 compared NULL-safely, aggregates skip NULL arguments, and AVG is the exact quotient.
 */
module ViewDefinition {
  import opened Tables

  /** A value stored in a view column. */
  datatype Cell = Null | Int(n: int) | Ratio(q: real)

  type Key = seq<Cell>
  type ViewRow = seq<Cell>

  datatype AggKind = Sum | CountStar | CountCol | Min | Max | Avg

  /** One select-list item.  An aggregate that is not plain carries FILTER, ORDER BY or state
      export: its value is some function of the group's rows. */
  datatype Column =
    | Scalar(expr: string)
    | Aggregate(kind: AggKind, child: string, plain: bool)

  datatype Definition<!R> = Definition(
    columns: seq<Column>,
    groups: seq<nat>,                      // select positions of the group keys, in group order
    where: R -> bool,
    scalar: string -> R -> Cell,           // a key expression on a row
    derived: (string, Key) -> Cell,        // a scalar item that is not itself a key
    arg: string -> R -> Option<int>,       // an aggregate argument on a row
    special: (nat, multiset<R>) -> Cell)   // a non-plain aggregate, by column

  /** What name resolution and the analyser guarantee: at least one key, each key a scalar item. */
  ghost predicate WellFormed<R>(d: Definition<R>) {
    && d.groups != []
    && forall i :: 0 <= i < |d.groups| ==> d.groups[i] < |d.columns| && d.columns[d.groups[i]].Scalar?
  }

  ghost function KeyOf<R>(d: Definition<R>, r: R): Key
    requires WellFormed(d)
  {
    seq(|d.groups|, i requires 0 <= i < |d.groups| => d.scalar(d.columns[d.groups[i]].expr)(r))
  }

  /** Keys a definition can produce: repeated positions carry the same value. */
  ghost predicate KeyShape<R>(d: Definition<R>, k: Key) {
    && |k| == |d.groups|
    && forall i, j :: 0 <= i < |k| && 0 <= j < |k| && d.groups[i] == d.groups[j] ==> k[i] == k[j]
  }

  ghost function InGroup<R>(d: Definition<R>, k: Key): R -> bool
    requires WellFormed(d)
  {
    r => d.where(r) && KeyOf(d, r) == k
  }

  /** The rows of one group, after WHERE. */
  ghost function Group<R>(d: Definition<R>, rows: seq<R>, k: Key): seq<R>
    requires WellFormed(d)
  {
    Select(rows, InGroup(d, k))
  }

  function Present<R>(arg: R -> Option<int>): R -> int {
    r => if arg(r).Some? then 1 else 0
  }

  function Amount<R>(arg: R -> Option<int>): R -> int {
    r => if arg(r).Some? then arg(r).value else 0
  }

  /** COUNT(arg) */
  function CountOf<R>(rows: seq<R>, arg: R -> Option<int>): int {
    Total(rows, Present(arg))
  }

  /** SUM(arg) with NULLs read as zero. */
  function SumOf<R>(rows: seq<R>, arg: R -> Option<int>): int {
    Total(rows, Amount(arg))
  }

  function FromOption(v: Option<int>): Cell {
    if v.Some? then Int(v.value) else Null
  }

  /** SQL's value of a plain aggregate over the rows of one group. */
  function AggValue<R>(kind: AggKind, arg: R -> Option<int>, rows: seq<R>): Cell {
    match kind
    case CountStar => Int(|rows|)
    case CountCol => Int(CountOf(rows, arg))
    case Sum => if CountOf(rows, arg) > 0 then Int(SumOf(rows, arg)) else Null
    case Avg => if CountOf(rows, arg) > 0 then Ratio(SumOf(rows, arg) as real / CountOf(rows, arg) as real) else Null
    case Min => FromOption(Extremum(rows, arg, false))
    case Max => FromOption(Extremum(rows, arg, true))
  }

  /** The first group key stored at select position c, if any. */
  function KeyIndex(groups: seq<nat>, c: nat): (r: Option<nat>)
    ensures r.Some? ==> r.value < |groups| && groups[r.value] == c
    ensures r.None? ==> c !in groups
  {
    if groups == [] then None
    else if groups[0] == c then Some(0)
    else
      var rest := KeyIndex(groups[1..], c);
      if rest.Some? then Some(rest.value + 1) else None
  }

  ghost function GroupCell<R>(d: Definition<R>, c: nat, k: Key, rows: seq<R>): Cell
    requires c < |d.columns| && |k| == |d.groups|
  {
    match d.columns[c]
    case Scalar(e) =>
      var i := KeyIndex(d.groups, c);
      if i.Some? then k[i.value] else d.derived(e, k)
    case Aggregate(kind, child, plain) =>
      if plain then AggValue(kind, d.arg(child), rows) else d.special(c, multiset(rows))
  }

  /** The output row of one non-empty group. */
  ghost function GroupRow<R>(d: Definition<R>, k: Key, rows: seq<R>): ViewRow
    requires |k| == |d.groups|
  {
    seq(|d.columns|, c requires 0 <= c < |d.columns| => GroupCell(d, c, k, rows))
  }

  /** What the definition's query returns for one key: one row for a live group, none otherwise. */
  ghost function Expected<R>(d: Definition<R>, base: seq<R>, k: Key): seq<ViewRow>
    requires WellFormed(d) && |k| == |d.groups|
  {
    var g := Group(d, base, k);
    if g == [] then [] else [GroupRow(d, k, g)]
  }

  ghost function RowKey<R>(d: Definition<R>, row: ViewRow): Key
    requires WellFormed(d)
  {
    seq(|d.groups|, i requires 0 <= i < |d.groups| => if d.groups[i] < |row| then row[d.groups[i]] else Null)
  }

  ghost function WithKey<R>(d: Definition<R>, k: Key): ViewRow -> bool
    requires WellFormed(d)
  {
    row => RowKey(d, row) == k
  }

  /** The stored rows whose key columns hold k. */
  ghost function RowsAt<R>(d: Definition<R>, rows: seq<ViewRow>, k: Key): seq<ViewRow>
    requires WellFormed(d)
  {
    Select(rows, WithKey(d, k))
  }

  ghost predicate AgreesAt<R>(d: Definition<R>, rows: seq<ViewRow>, base: seq<R>, k: Key)
    requires WellFormed(d)
  {
    KeyShape(d, k) ==> RowsAt(d, rows, k) == Expected(d, base, k)
  }

  /** The stored rows are exactly the result of the definition's query over base. */
  ghost predicate IsView<R>(d: Definition<R>, rows: seq<ViewRow>, base: seq<R>)
    requires WellFormed(d)
  {
    && (forall row :: row in rows ==> |row| == |d.columns|)
    && (forall k :: AgreesAt(d, rows, base, k))
  }

  // ---- keys and rows fit together ----

  lemma KeyOfShape<R>(d: Definition<R>, r: R)
    requires WellFormed(d)
    ensures KeyShape(d, KeyOf(d, r))
  {
  }

  lemma RowKeyShape<R>(d: Definition<R>, row: ViewRow)
    requires WellFormed(d)
    ensures KeyShape(d, RowKey(d, row))
  {
  }

  lemma GroupRowKey<R>(d: Definition<R>, k: Key, rows: seq<R>)
    requires WellFormed(d) && KeyShape(d, k)
    ensures RowKey(d, GroupRow(d, k, rows)) == k
  {
    var row := GroupRow(d, k, rows);
    forall i | 0 <= i < |d.groups| ensures RowKey(d, row)[i] == k[i] {
      assert row[d.groups[i]] == GroupCell(d, d.groups[i], k, rows);
      assert d.groups[i] in d.groups;
    }
  }

  /** A group's row depends only on which rows the group holds. */
  lemma GroupRowSameRows<R>(d: Definition<R>, k: Key, a: seq<R>, b: seq<R>)
    requires |k| == |d.groups| && SameRows(a, b)
    ensures GroupRow(d, k, a) == GroupRow(d, k, b)
  {
    forall c: nat | c < |d.columns| ensures GroupCell(d, c, k, a) == GroupCell(d, c, k, b) {
      match d.columns[c]
      case Scalar(_) =>
      case Aggregate(_, child, _) =>
        SameRowsSize(a, b);
        TotalSameRows(a, b, Present(d.arg(child)));
        TotalSameRows(a, b, Amount(d.arg(child)));
        ExtremumSameRows(a, b, d.arg(child), false);
        ExtremumSameRows(a, b, d.arg(child), true);
    }
  }

  lemma ExpectedSameGroup<R>(d: Definition<R>, a: seq<R>, b: seq<R>, k: Key)
    requires WellFormed(d) && |k| == |d.groups|
    requires SameRows(Group(d, a, k), Group(d, b, k))
    ensures Expected(d, a, k) == Expected(d, b, k)
  {
    SameRowsSize(Group(d, a, k), Group(d, b, k));
    GroupRowSameRows(d, k, Group(d, a, k), Group(d, b, k));
  }

  /** The view's contents do not depend on how the base table is ordered. */
  lemma IsViewSameRows<R>(d: Definition<R>, rows: seq<ViewRow>, a: seq<R>, b: seq<R>)
    requires WellFormed(d) && SameRows(a, b) && IsView(d, rows, a)
    ensures IsView(d, rows, b)
  {
    forall k ensures AgreesAt(d, rows, b, k) {
      if KeyShape(d, k) {
        SelectSameRows(a, b, InGroup(d, k));
        ExpectedSameGroup(d, a, b, k);
        assert AgreesAt(d, rows, a, k);
      }
    }
  }

  /** IsView pins the stored rows down: two views of one base hold the same rows. */
  lemma {:induction false} IsViewUnique<R>(d: Definition<R>, a: seq<ViewRow>, b: seq<ViewRow>, base: seq<R>)
    requires WellFormed(d) && IsView(d, a, base) && IsView(d, b, base)
    ensures SameRows(a, b)
  {
    forall row: ViewRow ensures multiset(a)[row] == multiset(b)[row] {
      var k := RowKey(d, row);
      RowKeyShape(d, row);
      assert AgreesAt(d, a, base, k) && AgreesAt(d, b, base, k);
      SelectCounts(a, WithKey(d, k), row);
      SelectCounts(b, WithKey(d, k), row);
    }
  }

  // ---- what the aggregates and a stored view mean ----

  /** MIN is the smallest argument of the rows, MAX the largest, and both are NULL exactly when every
      argument is. */
  lemma ExtremaMean<R>(rows: seq<R>, a: R -> Option<int>, v: int)
    ensures AggValue(Min, a, rows) == Int(v) <==>
            (exists x :: x in rows && a(x) == Some(v)) && (forall x :: x in rows && a(x).Some? ==> v <= a(x).value)
    ensures AggValue(Max, a, rows) == Int(v) <==>
            (exists x :: x in rows && a(x) == Some(v)) && (forall x :: x in rows && a(x).Some? ==> a(x).value <= v)
    ensures AggValue(Min, a, rows) == Null <==> forall x :: x in rows ==> a(x) == None
    ensures AggValue(Max, a, rows) == Null <==> forall x :: x in rows ==> a(x) == None
  {
    ExtremumIs(rows, a, false);
    ExtremumIs(rows, a, true);
    if (exists x :: x in rows && a(x) == Some(v)) && (forall x :: x in rows && a(x).Some? ==> v <= a(x).value) {
      ExtremumUnique(rows, a, false, Some(v));
    }
    if (exists x :: x in rows && a(x) == Some(v)) && (forall x :: x in rows && a(x).Some? ==> a(x).value <= v) {
      ExtremumUnique(rows, a, true, Some(v));
    }
  }

  /** The positions of the rows whose argument is not NULL. */
  ghost function Counted<R>(rows: seq<R>, a: R -> Option<int>): set<nat> {
    set i: nat | i < |rows| && a(rows[i]).Some?
  }

  /** COUNT(*) is the number of rows, COUNT(arg) that of the rows whose argument is not NULL. */
  lemma {:induction false} CountMeans<R>(rows: seq<R>, a: R -> Option<int>)
    ensures AggValue(CountStar, a, rows) == Int(|rows|)
    ensures AggValue(CountCol, a, rows) == Int(CountOf(rows, a)) && CountOf(rows, a) == |Counted(rows, a)|
  {
    if rows != [] {
      var n := |rows| - 1;
      CountMeans(rows[..n], a);
      TotalAppend(rows[..n], [rows[n]], Present(a));
      assert rows == rows[..n] + [rows[n]];
      CountedLast(rows, a);
    }
  }

  lemma CountedLast<R>(rows: seq<R>, a: R -> Option<int>)
    requires rows != []
    ensures var n := |rows| - 1;
            |Counted(rows, a)| == |Counted(rows[..n], a)| + (if a(rows[n]).Some? then 1 else 0)
            && CountOf([rows[n]], a) == if a(rows[n]).Some? then 1 else 0
  {
    var n := |rows| - 1;
    var before := Counted(rows[..n], a);
    assert Counted(rows, a) == before + if a(rows[n]).Some? then {n} else {};
    assert n !in before;
    assert Total([rows[n]], Present(a)) == Present(a)(rows[n]) + Total([], Present(a)) by {
      assert [rows[n]][1..] == [];
    }
  }

  /** SUM is NULL without arguments; else it is that of the single arguments, added up. */
  lemma SumMeans<R>(a: R -> Option<int>, r: R, rows: seq<R>, more: seq<R>)
    ensures SumOf<R>([], a) == 0 && SumOf([r], a) == if a(r).Some? then a(r).value else 0
    ensures SumOf(rows + more, a) == SumOf(rows, a) + SumOf(more, a)
    ensures AggValue(Sum, a, rows) == if (exists x :: x in rows && a(x).Some?) then Int(SumOf(rows, a)) else Null
  {
    assert [r][1..] == [];
    TotalAppend(rows, more, Amount(a));
    CountedExists(rows, a);
  }

  /** AVG times COUNT is SUM. */
  lemma AvgMeans<R>(rows: seq<R>, a: R -> Option<int>)
    ensures AggValue(Avg, a, rows) == Null <==> forall x :: x in rows ==> a(x) == None
    ensures AggValue(Avg, a, rows) != Null ==>
              AggValue(Avg, a, rows).Ratio? && AggValue(Avg, a, rows).q * CountOf(rows, a) as real == SumOf(rows, a) as real
  {
    CountedExists(rows, a);
  }

  lemma {:induction false} CountedExists<R>(rows: seq<R>, a: R -> Option<int>)
    ensures CountOf(rows, a) >= 0
    ensures CountOf(rows, a) > 0 <==> exists x :: x in rows && a(x).Some?
  {
    if rows != [] {
      CountedExists(rows[1..], a);
      assert forall x :: x in rows <==> x == rows[0] || x in rows[1..];
    }
  }

  /** What one stored row says: r's value in every key column, and in every plain aggregate column the
      aggregate over the rows that share r's key. */
  ghost predicate RowMeans<R>(d: Definition<R>, row: ViewRow, r: R, group: seq<R>)
    requires WellFormed(d)
  {
    && |row| == |d.columns|
    && (forall i :: 0 <= i < |d.groups| ==> row[d.groups[i]] == d.scalar(d.columns[d.groups[i]].expr)(r))
    && (forall c :: 0 <= c < |d.columns| && d.columns[c].Aggregate? && d.columns[c].plain ==>
          row[c] == AggValue(d.columns[c].kind, d.arg(d.columns[c].child), group))
  }

  /** A stored view has exactly one row for the key of every base row that passes WHERE, with the values
      the rows of that key call for. */
  lemma ViewMeans<R>(d: Definition<R>, rows: seq<ViewRow>, base: seq<R>, r: R) returns (row: ViewRow, group: seq<R>)
    requires WellFormed(d) && IsView(d, rows, base) && r in base && d.where(r)
    ensures forall x :: multiset(group)[x] == if d.where(x) && KeyOf(d, x) == KeyOf(d, r) then multiset(base)[x] else 0
    ensures RowMeans(d, row, r, group)
    ensures RowsAt(d, rows, KeyOf(d, r)) == [row] && row in rows
  {
    var k := KeyOf(d, r);
    KeyOfShape(d, r);
    group := Group(d, base, k);
    forall x ensures multiset(group)[x] == if d.where(x) && KeyOf(d, x) == k then multiset(base)[x] else 0 {
      SelectCounts(base, InGroup(d, k), x);
    }
    assert multiset(group)[r] > 0;
    assert AgreesAt(d, rows, base, k);
    row := GroupRow(d, k, group);
    SelectCounts(rows, WithKey(d, k), row);
    assert multiset([row])[row] == 1;
    forall i | 0 <= i < |d.groups| ensures row[d.groups[i]] == d.scalar(d.columns[d.groups[i]].expr)(r) {
      assert row[d.groups[i]] == GroupCell(d, d.groups[i], k, group);
      assert d.groups[i] in d.groups;
    }
    forall c | 0 <= c < |d.columns| && d.columns[c].Aggregate? && d.columns[c].plain
      ensures row[c] == AggValue(d.columns[c].kind, d.arg(d.columns[c].child), group)
    {
      assert row[c] == GroupCell(d, c, k, group);
    }
  }

  /** And it has no other rows. */
  lemma ViewRowsAreGroups<R>(d: Definition<R>, rows: seq<ViewRow>, base: seq<R>, row: ViewRow) returns (r: R)
    requires WellFormed(d) && IsView(d, rows, base) && row in rows
    ensures r in base && d.where(r) && KeyOf(d, r) == RowKey(d, row)
  {
    var k := RowKey(d, row);
    RowKeyShape(d, row);
    assert AgreesAt(d, rows, base, k);
    SelectCounts(rows, WithKey(d, k), row);
    assert multiset(RowsAt(d, rows, k))[row] > 0;
    var g := Group(d, base, k);
    assert g != [];
    r := g[0];
    assert multiset(g)[r] > 0;
    SelectCounts(base, InGroup(d, k), r);
  }
}
