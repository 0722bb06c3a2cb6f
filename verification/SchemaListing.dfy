/**
 Preorder schema listings and the decoder that rebuilds their trees: every row carries its number
 of children, and a stack of columns with a parallel stack of remaining child counts says where the
 next row belongs.  A parent leaves the stacks when its last child's row is read, before the
 subtree of that child.
 */
module SchemaListing {
  import opened Tables

  /** Sibling trees: the first one's payload and children, then the other siblings. */
  datatype Forest<T> = Empty | Trees(info: T, kids: Forest<T>, rest: Forest<T>)

  datatype Row<T> = Row(info: T, childCount: nat)

  function Width<T>(f: Forest<T>): nat {
    if f.Empty? then 0 else 1 + Width(f.rest)
  }

  function Size<T>(f: Forest<T>): nat {
    if f.Empty? then 0 else 1 + Size(f.kids) + Size(f.rest)
  }

  function Leaves<T>(f: Forest<T>): nat {
    if f.Empty? then 0 else (if f.kids.Empty? then 1 else Leaves(f.kids)) + Leaves(f.rest)
  }

  /** The preorder listing of a forest, without the root row. */
  function Preorder<T>(f: Forest<T>): seq<Row<T>> {
    if f.Empty? then [] else [Row(f.info, Width(f.kids))] + Preorder(f.kids) + Preorder(f.rest)
  }

  /** A file's listing: a synthetic root, then the columns. */
  function Listing<T>(root: T, f: Forest<T>): seq<Row<T>> {
    [Row(root, Width(f))] + Preorder(f)
  }

  // ---- the decoder ----

  /** A created column: leaves are numbered, inner columns are not; the parent by creation order. */
  datatype Entry<T> = Entry(info: T, columnId: Option<nat>, parent: Option<nat>)

  /** Both stacks, the number of columns created and the next leaf number. */
  datatype Control = Control(stack: seq<nat>, counts: seq<nat>, created: nat, nextId: nat)

  function Last<X>(s: seq<X>): X
    requires s != []
  {
    s[|s| - 1]
  }

  function Front<X>(s: seq<X>): seq<X>
    requires s != []
  {
    s[..|s| - 1]
  }

  /** A 64-bit counter going down by one. */
  function Decremented(count: nat): nat {
    if count == 0 then 0xFFFF_FFFF_FFFF_FFFF else count - 1
  }

  /** The column the next row belongs to, if any is on the stack. */
  function Parent(c: Control): Option<nat> {
    if c.stack == [] then None else Some(Last(c.stack))
  }

  /** Leaves the open column: both stacks drop their tops. */
  function Leave(c: Control): Control
    requires c.counts != []
  {
    c.(counts := Front(c.counts), stack := if c.stack == [] then [] else Front(c.stack))
  }

  /** Counts one child of the open column, leaving it after the last. */
  function CountChild(c: Control): Control
    requires c.counts != []
  {
    var left := Decremented(Last(c.counts));
    if left == 0 then Leave(c) else c.(counts := Front(c.counts) + [left])
  }

  function Open(c: Control, column: nat, childCount: nat): Control {
    if childCount == 0 then c else c.(stack := c.stack + [column], counts := c.counts + [childCount])
  }

  function Step<T>(c: Control, row: Row<T>): Control
    requires c.counts != []
  {
    var counted := CountChild(c);
    Open(counted.(created := c.created + 1, nextId := if row.childCount == 0 then c.nextId + 1 else c.nextId), c.created, row.childCount)
  }

  /** The column a row creates. */
  function Created<T>(c: Control, row: Row<T>): Entry<T> {
    Entry(row.info, if row.childCount == 0 then Some(c.nextId) else None, Parent(c))
  }

  /** The decoder after the rows that follow the root; none when a row arrives after all counts are
      used up. */
  function End<T>(c: Control, rows: seq<Row<T>>): Option<Control>
    decreases |rows|
  {
    if rows == [] then Some(c)
    else if c.counts == [] then None
    else End(Step(c, rows[0]), rows[1..])
  }

  /** The columns created by the rows that follow the root. */
  function Output<T>(c: Control, rows: seq<Row<T>>): seq<Entry<T>>
    decreases |rows|
  {
    if rows == [] || c.counts == [] then []
    else [Created(c, rows[0])] + Output(Step(c, rows[0]), rows[1..])
  }

  function Start(rootCount: nat): Control {
    Control([], [rootCount], 0, 0)
  }

  // ---- what decoding a listing yields ----

  /** The columns of a forest in creation order, the first one being number n, leaves from id. */
  function Trace<T>(f: Forest<T>, parent: Option<nat>, n: nat, id: nat): (r: seq<Entry<T>>)
    ensures |r| == Size(f)
  {
    if f.Empty? then []
    else if f.kids.Empty? then
      [Entry(f.info, Some(id), parent)] + Trace(f.rest, parent, n + 1, id + 1)
    else
      [Entry(f.info, None, parent)] + Trace(f.kids, Some(n), n + 1, id)
      + Trace(f.rest, parent, n + 1 + Size(f.kids), id + Leaves(f.kids))
  }

  /** After k children of the open column and all their descendants. */
  function Advance(c: Control, k: nat, size: nat, leaves: nat): Control
    requires c.counts != [] && k <= Last(c.counts)
  {
    var d := c.(created := c.created + size, nextId := c.nextId + leaves);
    if k == 0 then d
    else if k == Last(c.counts) then Leave(d)
    else d.(counts := Front(c.counts) + [Last(c.counts) - k])
  }

  lemma RunRow<T>(c: Control, row: Row<T>, rows: seq<Row<T>>)
    requires c.counts != []
    ensures End(c, [row] + rows) == End(Step(c, row), rows)
    ensures Output(c, [row] + rows) == [Created(c, row)] + Output(Step(c, row), rows)
  {
    assert ([row] + rows)[1..] == rows;
  }

  lemma {:induction false} EndAppend<T>(c: Control, a: seq<Row<T>>, b: seq<Row<T>>)
    ensures End(c, a + b) == if End(c, a).None? then None else End(End(c, a).value, b)
    decreases |a|
  {
    if a == [] {
      assert a + b == b;
    } else if c.counts != [] {
      var d := Step(c, a[0]);
      EndAppend(d, a[1..], b);
      assert (a + b)[1..] == a[1..] + b;
    }
  }

  lemma {:induction false} OutputAppend<T>(c: Control, a: seq<Row<T>>, b: seq<Row<T>>)
    requires End(c, a).Some?
    ensures Output(c, a + b) == Output(c, a) + Output(End(c, a).value, b)
    decreases |a|
  {
    if a == [] {
      assert a + b == b;
    } else {
      var d := Step(c, a[0]);
      calc {
        Output(c, a + b);
        { assert (a + b)[1..] == a[1..] + b; }
        [Created(c, a[0])] + Output(d, a[1..] + b);
        { OutputAppend(d, a[1..], b); }
        [Created(c, a[0])] + (Output(d, a[1..]) + Output(End(c, a).value, b));
        [Created(c, a[0])] + Output(d, a[1..]) + Output(End(c, a).value, b);
        Output(c, a) + Output(End(c, a).value, b);
      }
    }
  }

  lemma RunBoth<T>(c: Control, a: seq<Row<T>>, d: Control, b: seq<Row<T>>)
    requires End(c, a) == Some(d)
    ensures End(c, a + b) == End(d, b) && Output(c, a + b) == Output(c, a) + Output(d, b)
  {
    EndAppend(c, a, b);
    OutputAppend(c, a, b);
  }

  /** Siblings one after the other: after the first, the same column is still open. */
  lemma AdvanceTwice(c: Control, size: nat, leaves: nat, k: nat, moreSize: nat, moreLeaves: nat)
    requires c.counts != [] && 1 + k <= Last(c.counts) && k >= 1
    ensures var d := Advance(c, 1, size, leaves);
            && d.counts != [] && k <= Last(d.counts) && Parent(d) == Parent(c)
            && Advance(d, k, moreSize, moreLeaves) == Advance(c, 1 + k, size + moreSize, leaves + moreLeaves)
  {
    var d := Advance(c, 1, size, leaves);
    assert Front(d.counts) == Front(c.counts);
  }

  /** A subtree under its own column: the column's stack entries come and go. */
  lemma AdvanceInside<T>(c: Control, row: Row<T>, size: nat, leaves: nat)
    requires c.counts != [] && 1 <= Last(c.counts) && row.childCount >= 1
    ensures var d := Step(c, row);
            && d.counts != [] && Last(d.counts) == row.childCount && Parent(d) == Some(c.created)
            && d.created == c.created + 1 && d.nextId == c.nextId
            && Advance(d, row.childCount, size, leaves) == Advance(c, 1, 1 + size, leaves)
  {
    var d, counted := Step(c, row), CountChild(c);
    assert Front(d.stack) == counted.stack && Front(d.counts) == counted.counts;
  }

  /** A forest is its first tree and its rest, in the listing, the columns and the counts. */
  lemma FirstThenRest<T>(f: Forest<T>, parent: Option<nat>, n: nat, id: nat)
    requires !f.Empty?
    ensures Preorder(f) == PreorderFirst(f) + Preorder(f.rest)
    ensures Trace(f, parent, n, id) == TraceFirst(f, parent, n, id) + Trace(f.rest, parent, n + SizeFirst(f), id + LeavesFirst(f))
    ensures Width(f) == 1 + Width(f.rest) && Size(f) == SizeFirst(f) + Size(f.rest) && Leaves(f) == LeavesFirst(f) + Leaves(f.rest)
  {
  }

  /** Reading the preorder listing of any forest under an open column with room for it creates
      exactly its columns, each under its own parent, with the leaves numbered left to right. */
  lemma {:induction false} RunForest<T>(c: Control, f: Forest<T>)
    requires c.counts != [] && Width(f) <= Last(c.counts)
    ensures End(c, Preorder(f)) == Some(Advance(c, Width(f), Size(f), Leaves(f)))
    ensures Output(c, Preorder(f)) == Trace(f, Parent(c), c.created, c.nextId)
    decreases f, 1
  {
    if !f.Empty? {
      RunTree(c, f);
      if f.rest.Empty? {
        LastTree(c, f);
      } else {
        var size, leaves, d, end := RunRest(c, f);
        RunForest(d, f.rest);
        RunSiblings(c, Preorder(f), PreorderFirst(f), d, Preorder(f.rest),
                    TraceFirst(f, Parent(c), c.created, c.nextId), Trace(f.rest, Parent(d), d.created, d.nextId));
      }
    }
  }

  /** Where the first tree leaves off, and where the whole forest does. */
  lemma RunRest<T>(c: Control, f: Forest<T>) returns (size: nat, leaves: nat, d: Control, end: Control)
    requires c.counts != [] && Width(f) <= Last(c.counts) && !f.Empty? && !f.rest.Empty?
    ensures size == SizeFirst(f) && leaves == LeavesFirst(f) && d == Advance(c, 1, size, leaves)
    ensures d.counts != [] && Width(f.rest) <= Last(d.counts) && Parent(d) == Parent(c)
    ensures d.created == c.created + size && d.nextId == c.nextId + leaves
    ensures end == Advance(d, Width(f.rest), Size(f.rest), Leaves(f.rest)) == Advance(c, Width(f), Size(f), Leaves(f))
    ensures Preorder(f) == PreorderFirst(f) + Preorder(f.rest)
    ensures Trace(f, Parent(c), c.created, c.nextId) ==
            TraceFirst(f, Parent(c), c.created, c.nextId) + Trace(f.rest, Parent(d), d.created, d.nextId)
  {
    FirstThenRest(f, Parent(c), c.created, c.nextId);
    size, leaves := SizeFirst(f), LeavesFirst(f);
    d := Advance(c, 1, size, leaves);
    AdvanceTwice(c, size, leaves, Width(f.rest), Size(f.rest), Leaves(f.rest));
    end := Advance(d, Width(f.rest), Size(f.rest), Leaves(f.rest));
  }

  lemma RunSiblings<T>(c: Control, rows: seq<Row<T>>, a: seq<Row<T>>, d: Control, b: seq<Row<T>>, x: seq<Entry<T>>, y: seq<Entry<T>>)
    requires rows == a + b && End(c, a) == Some(d) && Output(c, a) == x && Output(d, b) == y
    ensures End(c, rows) == End(d, b) && Output(c, rows) == x + y
  {
    RunBoth(c, a, d, b);
  }

  lemma LastTree<T>(c: Control, f: Forest<T>)
    requires c.counts != [] && Width(f) <= Last(c.counts) && !f.Empty? && f.rest.Empty?
    ensures Preorder(f) == PreorderFirst(f) && Width(f) == 1 && Size(f) == SizeFirst(f) && Leaves(f) == LeavesFirst(f)
    ensures Trace(f, Parent(c), c.created, c.nextId) == TraceFirst(f, Parent(c), c.created, c.nextId)
  {
  }

  function SizeFirst<T>(f: Forest<T>): nat
    requires !f.Empty?
  {
    1 + Size(f.kids)
  }

  function PreorderFirst<T>(f: Forest<T>): seq<Row<T>>
    requires !f.Empty?
  {
    [Row(f.info, Width(f.kids))] + Preorder(f.kids)
  }

  function LeavesFirst<T>(f: Forest<T>): nat
    requires !f.Empty?
  {
    if f.kids.Empty? then 1 else Leaves(f.kids)
  }

  function TraceFirst<T>(f: Forest<T>, parent: Option<nat>, n: nat, id: nat): seq<Entry<T>>
    requires !f.Empty?
  {
    if f.kids.Empty? then [Entry(f.info, Some(id), parent)]
    else [Entry(f.info, None, parent)] + Trace(f.kids, Some(n), n + 1, id)
  }

  lemma {:induction false} RunTree<T>(c: Control, f: Forest<T>)
    requires c.counts != [] && 1 <= Last(c.counts) && !f.Empty?
    ensures End(c, PreorderFirst(f)) == Some(Advance(c, 1, SizeFirst(f), LeavesFirst(f)))
    ensures Output(c, PreorderFirst(f)) == TraceFirst(f, Parent(c), c.created, c.nextId)
    decreases f, 0
  {
    var row := Row(f.info, Width(f.kids));
    RunRow(c, row, Preorder(f.kids));
    if !f.kids.Empty? {
      AdvanceInside(c, row, Size(f.kids), Leaves(f.kids));
      RunForest(Step(c, row), f.kids);
    }
  }

  /** The leaf numbers of the columns, in creation order. */
  function LeafIds<T>(entries: seq<Entry<T>>): seq<nat> {
    if entries == [] then []
    else (if entries[0].columnId.Some? then [entries[0].columnId.value] else []) + LeafIds(entries[1..])
  }

  lemma {:induction false} LeafIdsAppend<T>(a: seq<Entry<T>>, b: seq<Entry<T>>)
    ensures LeafIds(a + b) == LeafIds(a) + LeafIds(b)
  {
    if a == [] {
      assert a + b == b;
    } else {
      assert (a + b)[1..] == a[1..] + b && (a + b)[0] == a[0];
      LeafIdsAppend(a[1..], b);
      var head := if a[0].columnId.Some? then [a[0].columnId.value] else [];
      assert head + (LeafIds(a[1..]) + LeafIds(b)) == (head + LeafIds(a[1..])) + LeafIds(b);
    }
  }

  function UpFrom(id: nat, n: nat): seq<nat> {
    seq(n, i => id + i)
  }

  lemma NumberedBoth<T>(a: seq<Entry<T>>, b: seq<Entry<T>>, id: nat, m: nat, n: nat)
    requires LeafIds(a) == UpFrom(id, m) && LeafIds(b) == UpFrom(id + m, n)
    ensures LeafIds(a + b) == UpFrom(id, m + n)
  {
    LeafIdsAppend(a, b);
    assert UpFrom(id, m + n) == UpFrom(id, m) + UpFrom(id + m, n);
  }

  lemma OneEntry<T>(e: Entry<T>)
    ensures LeafIds([e]) == if e.columnId.Some? then [e.columnId.value] else []
  {
    assert [e][1..] == [];
  }

  /** Leaves are numbered from the first number on without gaps, in the order of the listing. */
  lemma {:induction false} LeavesNumbered<T>(f: Forest<T>, parent: Option<nat>, n: nat, id: nat)
    ensures LeafIds(Trace(f, parent, n, id)) == UpFrom(id, Leaves(f))
    decreases f, 1
  {
    if !f.Empty? {
      LeavesOfFirst(f, parent, n, id);
      LeavesNumbered(f.rest, parent, n + SizeFirst(f), id + LeavesFirst(f));
      NumberedBoth(TraceFirst(f, parent, n, id), Trace(f.rest, parent, n + SizeFirst(f), id + LeavesFirst(f)), id, LeavesFirst(f), Leaves(f.rest));
      FirstThenRest(f, parent, n, id);
    }
  }

  lemma {:induction false} LeavesOfFirst<T>(f: Forest<T>, parent: Option<nat>, n: nat, id: nat)
    requires !f.Empty?
    ensures LeafIds(TraceFirst(f, parent, n, id)) == UpFrom(id, LeavesFirst(f))
    decreases f, 0
  {
    var head := Entry(f.info, if f.kids.Empty? then Some(id) else None, parent);
    OneEntry(head);
    if f.kids.Empty? {
      assert UpFrom(id, 1) == [id];
    } else {
      LeavesNumbered(f.kids, Some(n), n + 1, id);
      NumberedBoth([head], Trace(f.kids, Some(n), n + 1, id), id, 0, Leaves(f.kids));
    }
  }

  /** The columns come in the order of the rows, each with its row's payload, and exactly those of rows
      without children have a leaf number. */
  ghost predicate ColumnsFollow<T>(entries: seq<Entry<T>>, rows: seq<Row<T>>) {
    |entries| == |rows| &&
    forall k :: 0 <= k < |rows| ==> entries[k].info == rows[k].info && (entries[k].columnId.Some? <==> rows[k].childCount == 0)
  }

  lemma FollowBoth<T>(a: seq<Entry<T>>, x: seq<Row<T>>, b: seq<Entry<T>>, y: seq<Row<T>>)
    requires ColumnsFollow(a, x) && ColumnsFollow(b, y)
    ensures ColumnsFollow(a + b, x + y)
  {
  }

  lemma {:induction false} ColumnsAreRows<T>(f: Forest<T>, parent: Option<nat>, n: nat, id: nat)
    ensures ColumnsFollow(Trace(f, parent, n, id), Preorder(f))
    decreases f
  {
    if !f.Empty? {
      var head, row := Entry(f.info, if f.kids.Empty? then Some(id) else None, parent), Row(f.info, Width(f.kids));
      ColumnsAreRows(f.kids, Some(n), n + 1, id);
      ColumnsAreRows(f.rest, parent, n + SizeFirst(f), id + LeavesFirst(f));
      FollowBoth([head], [row], Trace(f.kids, Some(n), n + 1, id), Preorder(f.kids));
      FollowBoth(TraceFirst(f, parent, n, id), PreorderFirst(f), Trace(f.rest, parent, n + SizeFirst(f), id + LeavesFirst(f)), Preorder(f.rest));
      FirstThenRest(f, parent, n, id);
    }
  }

  // ---- whole listings, cut listings and listings with too many rows ----

  /** Decoding a file's listing creates exactly its forest. */
  lemma ListingRebuilds<T>(f: Forest<T>)
    ensures End(Start(Width(f)), Preorder(f)).Some?
    ensures Output(Start(Width(f)), Preorder(f)) == Trace(f, None, 0, 0)
  {
    RunForest(Start(Width(f)), f);
  }

  /** A listing cut short is accepted without complaint. */
  lemma CutListingAccepted<T>(f: Forest<T>, k: nat)
    requires k <= |Preorder(f)|
    ensures End(Start(Width(f)), Preorder(f)[..k]).Some?
  {
    RunForest(Start(Width(f)), f);
    assert Preorder(f) == Preorder(f)[..k] + Preorder(f)[k..];
    EndAppend(Start(Width(f)), Preorder(f)[..k], Preorder(f)[k..]);
  }

  /** A row beyond the listing is refused exactly when the file has columns: without any, the root's
      count of zero wraps around and the row is taken as a column. */
  lemma ExtraRowRefused<T>(f: Forest<T>, extra: Row<T>)
    ensures End(Start(Width(f)), Preorder(f) + [extra]).None? <==> !f.Empty?
  {
    RunForest(Start(Width(f)), f);
    EndAppend(Start(Width(f)), Preorder(f), [extra]);
    var c := Advance(Start(Width(f)), Width(f), Size(f), Leaves(f));
    if f.Empty? {
      assert End(Step(c, extra), [extra][1..]).Some?;
    }
  }
}
