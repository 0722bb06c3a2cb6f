/** The schema decoder as the file readers run it, appending heap columns to their parents in place. */
module SchemaTree {
  import opened Tables
  import opened SchemaListing

  class Column<T> {
    const info: T
    const columnId: Option<nat>
    var children: seq<Column<T>>

    constructor (info: T, columnId: Option<nat>)
      ensures this.info == info && this.columnId == columnId && children == []
    {
      this.info, this.columnId, children := info, columnId, [];
    }
  }

  /** The columns are the roots of the forest, with its leaves numbered from id left to right. */
  ghost predicate Represents<T(!new)>(columns: seq<Column<T>>, f: Forest<T>, id: nat, nodes: seq<Column<T>>)
    reads nodes
    decreases f
  {
    match f
    case Empty => columns == []
    case Trees(info, kids, rest) =>
      && columns != [] && columns[0] in nodes && columns[0].info == info
      && columns[0].columnId == (if kids.Empty? then Some(id) else None)
      && Represents(columns[0].children, kids, id, nodes)
      && Represents(columns[1..], rest, id + LeavesFirst(f), nodes)
  }

  /** The entries of a stretch of the creation order that have the given parent. */
  function ChildrenIn<T>(entries: seq<Entry<T>>, offset: nat, parent: Option<nat>): seq<nat> {
    if entries == [] then []
    else ChildrenIn(Front(entries), offset, parent) + if Last(entries).parent == parent then [offset + |entries| - 1] else []
  }

  lemma {:induction false} ChildrenAppend<T>(a: seq<Entry<T>>, b: seq<Entry<T>>, offset: nat, parent: Option<nat>)
    ensures ChildrenIn(a + b, offset, parent) == ChildrenIn(a, offset, parent) + ChildrenIn(b, offset + |a|, parent)
    decreases |b|
  {
    if b == [] {
      assert a + b == a;
    } else {
      ChildrenAppend(a, Front(b), offset, parent);
      assert Front(a + b) == a + Front(b);
    }
  }

  /** The picked columns are the numbered nodes, in order. */
  ghost predicate IsPick<X>(picked: seq<X>, nodes: seq<X>, numbers: seq<nat>) {
    |picked| == |numbers| && forall k {:trigger numbers[k]} :: 0 <= k < |numbers| ==> numbers[k] < |nodes| && picked[k] == nodes[numbers[k]]
  }

  /** The numbers of a forest's own trees. */
  function Roots<T>(f: Forest<T>, n: nat): seq<nat> {
    if f.Empty? then [] else [n] + Roots(f.rest, n + SizeFirst(f))
  }

  lemma ChildrenOfHead<T>(e: Entry<T>, rest: seq<Entry<T>>, n: nat, p: Option<nat>)
    ensures ChildrenIn([e] + rest, n, p) == (if e.parent == p then [n] else []) + ChildrenIn(rest, n + 1, p)
  {
    ChildrenAppend([e], rest, n, p);
    assert Front([e]) == [];
  }

  /** In a forest's columns the children of p are: the first column when p is the forest's parent,
      those in its subtree, and those among the other siblings. */
  lemma ChildrenSplit<T>(f: Forest<T>, parent: Option<nat>, n: nat, id: nat, p: Option<nat>)
    requires !f.Empty?
    ensures ChildrenIn(Trace(f, parent, n, id), n, p) ==
            (if parent == p then [n] else [])
            + ChildrenIn(Trace(f.kids, Some(n), n + 1, id), n + 1, p)
            + ChildrenIn(Trace(f.rest, parent, n + SizeFirst(f), id + LeavesFirst(f)), n + SizeFirst(f), p)
  {
    var head := Entry(f.info, if f.kids.Empty? then Some(id) else None, parent);
    var kids, rest := Trace(f.kids, Some(n), n + 1, id), Trace(f.rest, parent, n + SizeFirst(f), id + LeavesFirst(f));
    TraceParts(f, parent, n, id, head, kids, rest);
    ChildrenAppend([head] + kids, rest, n, p);
    ChildrenOfHead(head, kids, n, p);
  }

  lemma TraceParts<T>(f: Forest<T>, parent: Option<nat>, n: nat, id: nat, head: Entry<T>, kids: seq<Entry<T>>, rest: seq<Entry<T>>)
    requires !f.Empty? && head == Entry(f.info, if f.kids.Empty? then Some(id) else None, parent)
    requires kids == Trace(f.kids, Some(n), n + 1, id)
    requires rest == Trace(f.rest, parent, n + SizeFirst(f), id + LeavesFirst(f))
    ensures Trace(f, parent, n, id) == [head] + kids + rest
    ensures |kids| == Size(f.kids) && |rest| == Size(f.rest) && Size(f) == SizeFirst(f) + Size(f.rest)
  {
  }

  /** The children of p among a forest's columns, the first one being number n. */
  function Under<T>(f: Forest<T>, parent: Option<nat>, n: nat, p: Option<nat>): seq<nat> {
    if f.Empty? then []
    else (if parent == p then [n] else []) + Under(f.kids, Some(n), n + 1, p) + Under(f.rest, parent, n + SizeFirst(f), p)
  }

  lemma {:induction false} ChildrenAreUnder<T>(f: Forest<T>, parent: Option<nat>, n: nat, id: nat, p: Option<nat>)
    ensures ChildrenIn(Trace(f, parent, n, id), n, p) == Under(f, parent, n, p)
    decreases f
  {
    if !f.Empty? {
      ChildrenSplit(f, parent, n, id, p);
      ChildrenAreUnder(f.kids, Some(n), n + 1, id, p);
      ChildrenAreUnder(f.rest, parent, n + SizeFirst(f), id + LeavesFirst(f), p);
    }
  }

  /** Under the forest's own parent are its trees; a parent outside has none. */
  lemma {:induction false} UnderOutside<T>(f: Forest<T>, parent: Option<nat>, n: nat, p: Option<nat>)
    requires parent.Some? ==> parent.value < n
    requires p.None? || !(n <= p.value < n + Size(f))
    ensures Under(f, parent, n, p) == if p == parent then Roots(f, n) else []
    decreases f
  {
    if !f.Empty? {
      UnderOutside(f.kids, Some(n), n + 1, p);
      UnderOutside(f.rest, parent, n + SizeFirst(f), p);
    }
  }

  /** Under the first column are the roots of its subtree; a parent inside that subtree has its
      children there, and one among the other siblings' columns has them there. */
  lemma UnderInside<T>(f: Forest<T>, parent: Option<nat>, n: nat, j: nat)
    requires !f.Empty? && (parent.Some? ==> parent.value < n) && n <= j
    ensures j == n ==> Under(f, parent, n, Some(j)) == Roots(f.kids, n + 1)
    ensures n < j < n + SizeFirst(f) ==> Under(f, parent, n, Some(j)) == Under(f.kids, Some(n), n + 1, Some(j))
    ensures n + SizeFirst(f) <= j ==> Under(f, parent, n, Some(j)) == Under(f.rest, parent, n + SizeFirst(f), Some(j))
  {
    if j < n + SizeFirst(f) {
      UnderOutside(f.rest, parent, n + SizeFirst(f), Some(j));
    }
    if j == n || n + SizeFirst(f) <= j {
      UnderOutside(f.kids, Some(n), n + 1, Some(j));
    }
  }

  // ---- heap columns ----

  /** The children each node holds. */
  ghost predicate Linked<T(!new)>(nodes: seq<Column<T>>, children: seq<seq<Column<T>>>)
    reads nodes
  {
    |children| == |nodes| && forall j :: 0 <= j < |nodes| ==> nodes[j].children == children[j]
  }

  ghost predicate IsNode<T(!new)>(node: Column<T>, children: seq<Column<T>>, e: Entry<T>, nodes: seq<Column<T>>, numbers: seq<nat>) {
    node.info == e.info && node.columnId == e.columnId && IsPick(children, nodes, numbers)
  }

  /** The nodes are the created columns with their children. */
  ghost predicate Mirrors<T(!new)>(nodes: seq<Column<T>>, children: seq<seq<Column<T>>>, entries: seq<Entry<T>>) {
    && |nodes| == |entries| == |children|
    && forall j {:trigger entries[j]} :: 0 <= j < |entries| ==> IsNode(nodes[j], children[j], entries[j], nodes, ChildrenIn(entries, 0, Some(j)))
  }

  /** Nodes from n on are the given entries, their children the given numbers. */
  ghost predicate Holds<T(!new)>(nodes: seq<Column<T>>, children: seq<seq<Column<T>>>, n: nat, entries: seq<Entry<T>>, numbers: seq<seq<nat>>) {
    && |entries| == |numbers| && n + |entries| <= |nodes| == |children|
    && forall k :: 0 <= k < |entries| ==> IsNode(nodes[n + k], children[n + k], entries[k], nodes, numbers[k])
  }

  /** The children's numbers of every column of a forest. */
  function Numbers<T>(f: Forest<T>, n: nat): (r: seq<seq<nat>>)
    ensures |r| == Size(f)
  {
    if f.Empty? then [] else [Roots(f.kids, n + 1)] + Numbers(f.kids, n + 1) + Numbers(f.rest, n + SizeFirst(f))
  }

  lemma HoldsParts<T(!new)>(
      nodes: seq<Column<T>>, children: seq<seq<Column<T>>>, n: nat, e: Entry<T>, a: seq<Entry<T>>, b: seq<Entry<T>>,
      r: seq<nat>, x: seq<seq<nat>>, y: seq<seq<nat>>)
    requires |a| == |x| && |b| == |y| && Holds(nodes, children, n, [e] + a + b, [r] + x + y)
    ensures n < |nodes| && IsNode(nodes[n], children[n], e, nodes, r)
    ensures Holds(nodes, children, n + 1, a, x) && Holds(nodes, children, n + 1 + |a|, b, y)
  {
    var entries, numbers := [e] + a + b, [r] + x + y;
    assert entries[0] == e && numbers[0] == r && nodes[n + 0] == nodes[n];
    forall k | 0 <= k < |a| ensures IsNode(nodes[n + 1 + k], children[n + 1 + k], a[k], nodes, x[k]) {
      assert entries[1 + k] == a[k] && numbers[1 + k] == x[k];
      assert IsNode(nodes[n + (1 + k)], children[n + (1 + k)], entries[1 + k], nodes, numbers[1 + k]);
    }
    forall k | 0 <= k < |b| ensures IsNode(nodes[n + 1 + |a| + k], children[n + 1 + |a| + k], b[k], nodes, y[k]) {
      assert entries[1 + |a| + k] == b[k] && numbers[1 + |a| + k] == y[k];
      assert IsNode(nodes[n + (1 + |a| + k)], children[n + (1 + |a| + k)], entries[1 + |a| + k], nodes, numbers[1 + |a| + k]);
    }
  }

  lemma HoldsForest<T(!new)>(nodes: seq<Column<T>>, children: seq<seq<Column<T>>>, f: Forest<T>, parent: Option<nat>, n: nat, id: nat)
    requires !f.Empty? && Holds(nodes, children, n, Trace(f, parent, n, id), Numbers(f, n))
    ensures n < |nodes| == |children| && IsNode(nodes[n], children[n], Head(f, parent, id), nodes, Roots(f.kids, n + 1))
    ensures Holds(nodes, children, n + 1, Trace(f.kids, Some(n), n + 1, id), Numbers(f.kids, n + 1))
    ensures Holds(nodes, children, n + SizeFirst(f), Trace(f.rest, parent, n + SizeFirst(f), id + LeavesFirst(f)), Numbers(f.rest, n + SizeFirst(f)))
  {
    var kids, rest := Trace(f.kids, Some(n), n + 1, id), Trace(f.rest, parent, n + SizeFirst(f), id + LeavesFirst(f));
    TraceParts(f, parent, n, id, Head(f, parent, id), kids, rest);
    HoldsParts(nodes, children, n, Head(f, parent, id), kids, rest, Roots(f.kids, n + 1), Numbers(f.kids, n + 1), Numbers(f.rest, n + SizeFirst(f)));
  }

  function Head<T>(f: Forest<T>, parent: Option<nat>, id: nat): Entry<T>
    requires !f.Empty?
  {
    Entry(f.info, if f.kids.Empty? then Some(id) else None, parent)
  }

  lemma {:induction false} HoldsRepresents<T(!new)>(
      nodes: seq<Column<T>>, children: seq<seq<Column<T>>>, columns: seq<Column<T>>, f: Forest<T>, parent: Option<nat>, n: nat, id: nat)
    requires Linked(nodes, children) && Holds(nodes, children, n, Trace(f, parent, n, id), Numbers(f, n))
    requires IsPick(columns, nodes, Roots(f, n))
    ensures Represents(columns, f, id, nodes)
    decreases f
  {
    if !f.Empty? {
      HoldsForest(nodes, children, f, parent, n, id);
      PickRest(nodes, columns, f, n);
      HoldsRepresents(nodes, children, children[n], f.kids, Some(n), n + 1, id);
      HoldsRepresents(nodes, children, columns[1..], f.rest, parent, n + SizeFirst(f), id + LeavesFirst(f));
      RepresentsBoth(nodes, columns, f, id);
    }
  }

  lemma PickRest<T(!new)>(nodes: seq<Column<T>>, columns: seq<Column<T>>, f: Forest<T>, n: nat)
    requires !f.Empty? && n < |nodes| && IsPick(columns, nodes, Roots(f, n))
    ensures columns != [] && columns[0] == nodes[n] && IsPick(columns[1..], nodes, Roots(f.rest, n + SizeFirst(f)))
  {
    var all, rest := Roots(f, n), Roots(f.rest, n + SizeFirst(f));
    assert all[0] == n;
    forall k | 0 <= k < |rest| ensures rest[k] < |nodes| && columns[1..][k] == nodes[rest[k]] {
      assert rest[k] == all[k + 1];
    }
  }

  lemma RepresentsBoth<T(!new)>(nodes: seq<Column<T>>, columns: seq<Column<T>>, f: Forest<T>, id: nat)
    requires !f.Empty? && columns != [] && columns[0] in nodes && columns[0].info == f.info
    requires columns[0].columnId == (if f.kids.Empty? then Some(id) else None)
    requires Represents(columns[0].children, f.kids, id, nodes) && Represents(columns[1..], f.rest, id + LeavesFirst(f), nodes)
    ensures Represents(columns, f, id, nodes)
  {
  }

  ghost predicate NumbersAgree<T>(f: Forest<T>, parent: Option<nat>, n: nat, k: nat) {
    k < Size(f) && Numbers(f, n)[k] == Under(f, parent, n, Some(n + k))
  }

  lemma FirstNumber<T>(f: Forest<T>, parent: Option<nat>, n: nat)
    requires !f.Empty? && (parent.Some? ==> parent.value < n)
    ensures NumbersAgree(f, parent, n, 0)
  {
    UnderInside(f, parent, n, n);
  }

  lemma KidNumber<T>(f: Forest<T>, parent: Option<nat>, n: nat, k: nat)
    requires !f.Empty? && 1 <= k < SizeFirst(f) && (parent.Some? ==> parent.value < n)
    requires NumbersAgree(f.kids, Some(n), n + 1, k - 1)
    ensures NumbersAgree(f, parent, n, k)
  {
    UnderInside(f, parent, n, n + k);
  }

  lemma RestNumber<T>(f: Forest<T>, parent: Option<nat>, n: nat, k: nat)
    requires !f.Empty? && SizeFirst(f) <= k < Size(f) && (parent.Some? ==> parent.value < n)
    requires NumbersAgree(f.rest, parent, n + SizeFirst(f), k - SizeFirst(f))
    ensures NumbersAgree(f, parent, n, k)
  {
    UnderInside(f, parent, n, n + k);
  }

  lemma {:induction false} NumbersAreUnder<T>(f: Forest<T>, parent: Option<nat>, n: nat, k: nat)
    requires k < Size(f) && (parent.Some? ==> parent.value < n)
    ensures NumbersAgree(f, parent, n, k)
    decreases f
  {
    if k == 0 {
      FirstNumber(f, parent, n);
    } else if k < SizeFirst(f) {
      NumbersAreUnder(f.kids, Some(n), n + 1, k - 1);
      KidNumber(f, parent, n, k);
    } else {
      NumbersAreUnder(f.rest, parent, n + SizeFirst(f), k - SizeFirst(f));
      RestNumber(f, parent, n, k);
    }
  }

  lemma NodeNumbers<T>(f: Forest<T>, k: nat)
    requires k < Size(f)
    ensures Numbers(f, 0)[k] == ChildrenIn(Trace(f, None, 0, 0), 0, Some(k))
  {
    ChildrenAreUnder(f, None, 0, 0, Some(k));
    NumbersAreUnder(f, None, 0, k);
  }

  /** Columns mirroring the trace of a forest represent it. */
  lemma MirrorsRepresents<T(!new)>(nodes: seq<Column<T>>, children: seq<seq<Column<T>>>, columns: seq<Column<T>>, f: Forest<T>)
    requires Linked(nodes, children) && Mirrors(nodes, children, Trace(f, None, 0, 0))
    requires IsPick(columns, nodes, ChildrenIn(Trace(f, None, 0, 0), 0, None))
    ensures Represents(columns, f, 0, nodes)
  {
    var all, numbers := Trace(f, None, 0, 0), Numbers(f, 0);
    ChildrenAreUnder(f, None, 0, 0, None);
    UnderOutside(f, None, 0, None);
    forall k | 0 <= k < |all| ensures IsNode(nodes[0 + k], children[0 + k], all[k], nodes, numbers[k]) {
      NodeNumbers(f, k);
      assert IsNode(nodes[k], children[k], all[k], nodes, ChildrenIn(all, 0, Some(k)));
    }
    HoldsRepresents(nodes, children, columns, f, None, 0, 0);
  }

  // ---- appending in place ----

  lemma ChildrenMore<T>(entries: seq<Entry<T>>, e: Entry<T>, p: Option<nat>)
    ensures ChildrenIn(entries + [e], 0, p) == ChildrenIn(entries, 0, p) + if e.parent == p then [|entries|] else []
  {
    assert Front(entries + [e]) == entries;
  }

  /** Every parent is created before its children. */
  ghost predicate ParentsFirst<T>(entries: seq<Entry<T>>, p: nat) {
    forall k :: 0 <= k < |entries| && entries[k].parent.Some? ==> entries[k].parent.value < p
  }

  lemma {:induction false} NoChildrenYet<T>(entries: seq<Entry<T>>, p: nat)
    requires ParentsFirst(entries, p)
    ensures ChildrenIn(entries, 0, Some(p)) == []
  {
    if entries != [] {
      NoChildrenYet(Front(entries), p);
    }
  }

  lemma PickMore<X>(picked: seq<X>, nodes: seq<X>, numbers: seq<nat>, x: X)
    requires IsPick(picked, nodes, numbers)
    ensures IsPick(picked, nodes + [x], numbers) && IsPick(picked + [x], nodes + [x], numbers + [|nodes|])
  {
  }

  lemma OldNode<T(!new)>(node: Column<T>, before: seq<Column<T>>, after: seq<Column<T>>, entries: seq<Entry<T>>, e: Entry<T>, j: nat,
                         nodes: seq<Column<T>>, column: Column<T>)
    requires j < |entries| == |nodes| && IsNode(node, before, entries[j], nodes, ChildrenIn(entries, 0, Some(j)))
    requires after == if e.parent == Some(j) then before + [column] else before
    ensures IsNode(node, after, entries[j], nodes + [column], ChildrenIn(entries + [e], 0, Some(j)))
  {
    ChildrenMore(entries, e, Some(j));
    PickMore(before, nodes, ChildrenIn(entries, 0, Some(j)), column);
  }

  lemma NewNode<T(!new)>(nodes: seq<Column<T>>, entries: seq<Entry<T>>, column: Column<T>, e: Entry<T>)
    requires ParentsFirst(entries, |entries|) && (e.parent.Some? ==> e.parent.value < |entries|)
    requires column.info == e.info && column.columnId == e.columnId
    ensures IsNode(column, [], e, nodes + [column], ChildrenIn(entries + [e], 0, Some(|entries|)))
  {
    NoChildrenYet(entries, |entries|);
    ChildrenMore(entries, e, Some(|entries|));
  }

  /** The children after a column was attached to its parent: the column is last there, and has none itself. */
  ghost predicate Attached<T(!new)>(children: seq<seq<Column<T>>>, more: seq<seq<Column<T>>>, p: Option<nat>, column: Column<T>) {
    && |more| == |children| + 1 && more[|children|] == []
    && forall j :: 0 <= j < |children| ==> more[j] == if p == Some(j) then children[j] + [column] else children[j]
  }

  lemma MirrorsMore<T(!new)>(nodes: seq<Column<T>>, children: seq<seq<Column<T>>>, entries: seq<Entry<T>>, column: Column<T>, e: Entry<T>,
                             more: seq<seq<Column<T>>>)
    requires Mirrors(nodes, children, entries) && ParentsFirst(entries, |entries|) && (e.parent.Some? ==> e.parent.value < |nodes|)
    requires column.info == e.info && column.columnId == e.columnId
    requires Attached(children, more, e.parent, column)
    ensures Mirrors(nodes + [column], more, entries + [e])
  {
    var newNodes, newEntries := nodes + [column], entries + [e];
    NewNode(nodes, entries, column, e);
    forall j | 0 <= j < |nodes| ensures IsNode(newNodes[j], more[j], newEntries[j], newNodes, ChildrenIn(newEntries, 0, Some(j))) {
      assert newNodes[j] == nodes[j] && newEntries[j] == entries[j];
      assert IsNode(nodes[j], children[j], entries[j], nodes, ChildrenIn(entries, 0, Some(j)));
      OldNode(nodes[j], children[j], more[j], entries, e, j, nodes, column);
    }
  }

  ghost predicate Distinct<X>(s: seq<X>) {
    s == [] || (Last(s) !in Front(s) && Distinct(Front(s)))
  }

  lemma {:induction false} DistinctAt<X>(s: seq<X>, p: nat)
    requires Distinct(s) && p < |s|
    ensures forall j :: 0 <= j < |s| && s[j] == s[p] ==> j == p
  {
    if p < |s| - 1 {
      DistinctAt(Front(s), p);
    }
  }

  lemma DistinctMore<X>(s: seq<X>, x: X)
    requires Distinct(s) && x !in s
    ensures Distinct(s + [x])
  {
    assert Front(s + [x]) == s;
  }

  /** The open columns after a row: the counted one may be left, the new one may be opened. */
  lemma StackMore<T(!new)>(nodes: seq<Column<T>>, c: Control, stack: seq<Column<T>>, row: Row<T>, column: Column<T>, counted: seq<Column<T>>)
    requires c.counts != [] && IsPick(stack, nodes, c.stack) && c.created == |nodes|
    requires counted == if Decremented(Last(c.counts)) == 0 && stack != [] then Front(stack) else stack
    ensures IsPick(if row.childCount > 0 then counted + [column] else counted, nodes + [column], Step(c, row).stack)
  {
    PickMore(counted, nodes, CountChild(c).stack, column);
  }

  /** The decoder's heap state: columns created so far, the open ones, and the top-level ones. */
  ghost predicate Tracks<T(!new)>(
      nodes: seq<Column<T>>, children: seq<seq<Column<T>>>, entries: seq<Entry<T>>, c: Control, columns: seq<Column<T>>) {
    && Mirrors(nodes, children, entries) && ParentsFirst(entries, |entries|)
    && c.created == |nodes| && IsPick(columns, nodes, ChildrenIn(entries, 0, None))
  }

  lemma TracksMore<T(!new)>(
      nodes: seq<Column<T>>, children: seq<seq<Column<T>>>, entries: seq<Entry<T>>, c: Control,
      columns: seq<Column<T>>, row: Row<T>, column: Column<T>, more: seq<seq<Column<T>>>)
    requires Tracks(nodes, children, entries, c, columns) && c.counts != []
    requires forall k :: 0 <= k < |c.stack| ==> c.stack[k] < |nodes|
    requires column.info == row.info && column.columnId == if row.childCount == 0 then Some(c.nextId) else None
    requires Attached(children, more, Parent(c), column)
    ensures Tracks(nodes + [column], more, entries + [Created(c, row)], Step(c, row), if c.stack == [] then columns + [column] else columns)
  {
    var e := Created(c, row);
    MirrorsMore(nodes, children, entries, column, e, more);
    ChildrenMore(entries, e, None);
    PickMore(columns, nodes, ChildrenIn(entries, 0, None), column);
  }

  /** Appends a column to the one on top of the stack, or to the file's columns. */
  method Append<T(!new)>(column: Column<T>, stack: seq<Column<T>>, columns: seq<Column<T>>,
                         ghost nodes: seq<Column<T>>, ghost children: seq<seq<Column<T>>>, ghost p: Option<nat>)
    returns (newColumns: seq<Column<T>>, ghost more: seq<seq<Column<T>>>)
    requires Linked(nodes, children) && Distinct(nodes) && column !in nodes && column.children == []
    requires if stack == [] then p.None? else p.Some? && p.value < |nodes| && stack[|stack| - 1] == nodes[p.value]
    modifies nodes
    ensures Linked(nodes + [column], more) && Attached(children, more, p, column)
    ensures newColumns == if stack == [] then columns + [column] else columns
  {
    newColumns, more := columns, children + [[]];
    if stack == [] {
      newColumns := columns + [column];
    } else {
      var top := stack[|stack| - 1];
      DistinctAt(nodes, p.value);
      top.children := top.children + [column];
      more := more[p.value := children[p.value] + [column]];
    }
  }

  /** Counts a child of the open column and opens the new one if it has children itself. */
  method UpdateStacks<T(!new)>(row: Row<T>, column: Column<T>, stack: seq<Column<T>>, counts: seq<nat>,
                               ghost nodes: seq<Column<T>>, ghost c: Control)
    returns (newStack: seq<Column<T>>, newCounts: seq<nat>)
    requires counts != [] && counts == c.counts && IsPick(stack, nodes, c.stack) && c.created == |nodes|
    ensures IsPick(newStack, nodes + [column], Step(c, row).stack) && newCounts == Step(c, row).counts
  {
    newStack, newCounts := stack, counts[..|counts| - 1] + [Decremented(counts[|counts| - 1])];
    if newCounts[|newCounts| - 1] == 0 {
      if stack != [] {
        newStack := stack[..|stack| - 1];
      }
      newCounts := newCounts[..|newCounts| - 1];
    }
    StackMore(nodes, c, stack, row, column, newStack);
    if row.childCount > 0 {
      newStack, newCounts := newStack + [column], newCounts + [row.childCount];
    }
  }

  /** The decoder's whole state: the nodes with the children they hold, and the open columns. */
  ghost predicate State<T(!new)>(
      nodes: seq<Column<T>>, children: seq<seq<Column<T>>>, entries: seq<Entry<T>>, c: Control, stack: seq<Column<T>>, columns: seq<Column<T>>)
    reads nodes
  {
    Linked(nodes, children) && Distinct(nodes) && Tracks(nodes, children, entries, c, columns) && IsPick(stack, nodes, c.stack)
  }

  /** Creates the column of a row and attaches it. */
  method Create<T(!new)>(row: Row<T>, nextId: nat, stack: seq<Column<T>>, columns: seq<Column<T>>,
                         ghost nodes: seq<Column<T>>, ghost children: seq<seq<Column<T>>>, ghost p: Option<nat>)
    returns (column: Column<T>, newColumns: seq<Column<T>>, ghost more: seq<seq<Column<T>>>)
    requires Linked(nodes, children) && Distinct(nodes)
    requires if stack == [] then p.None? else p.Some? && p.value < |nodes| && stack[|stack| - 1] == nodes[p.value]
    modifies nodes
    ensures fresh(column) && column.info == row.info && column.columnId == if row.childCount == 0 then Some(nextId) else None
    ensures Distinct(nodes + [column]) && Linked(nodes + [column], more) && Attached(children, more, p, column)
    ensures newColumns == if stack == [] then columns + [column] else columns
  {
    column := new Column(row.info, if row.childCount == 0 then Some(nextId) else None);
    DistinctMore(nodes, column);
    newColumns, more := Append(column, stack, columns, nodes, children, p);
  }

  /** Reads one row: creates its column, attaches it and updates both stacks. */
  method ReadRow<T(!new)>(row: Row<T>, stack: seq<Column<T>>, counts: seq<nat>, nextId: nat, columns: seq<Column<T>>,
                          ghost nodes: seq<Column<T>>, ghost children: seq<seq<Column<T>>>, ghost entries: seq<Entry<T>>, ghost c: Control)
    returns (newStack: seq<Column<T>>, newCounts: seq<nat>, newId: nat, newColumns: seq<Column<T>>, column: Column<T>,
             ghost more: seq<seq<Column<T>>>)
    requires counts != [] && counts == c.counts && nextId == c.nextId && State(nodes, children, entries, c, stack, columns)
    modifies nodes
    ensures fresh(column) && State(nodes + [column], more, entries + [Created(c, row)], Step(c, row), newStack, newColumns)
    ensures newCounts == Step(c, row).counts && newId == Step(c, row).nextId
  {
    newId := if row.childCount == 0 then nextId + 1 else nextId;
    column, newColumns, more := Create(row, nextId, stack, columns, nodes, children, Parent(c));
    newStack, newCounts := UpdateStacks(row, column, stack, counts, nodes, c);
    TracksMore(nodes, children, entries, c, columns, row, column, more);
  }

  /** The readers' loop over the rows after the root. */
  method ReadRows<T(!new)>(rootCount: nat, rows: seq<Row<T>>)
    returns (ok: bool, columns: seq<Column<T>>, ghost nodes: seq<Column<T>>, ghost children: seq<seq<Column<T>>>)
    ensures ok <==> End(Start(rootCount), rows).Some?
    ensures ok ==> Linked(nodes, children) && Mirrors(nodes, children, Output(Start(rootCount), rows))
    ensures ok ==> IsPick(columns, nodes, ChildrenIn(Output(Start(rootCount), rows), 0, None))
  {
    columns, nodes, children := [], [], [];
    var stack: seq<Column<T>>, counts, nextId, i := [], [rootCount], 0, 0;
    ghost var entries: seq<Entry<T>>, c := [], Start(rootCount);
    NothingRead<T>(rootCount);
    while i < |rows|
      invariant 0 <= i <= |rows| && counts == c.counts && nextId == c.nextId
      invariant fresh(nodes) && State(nodes, children, entries, c, stack, columns)
      invariant Remaining(Start(rootCount), rows, i, entries, c)
    {
      if counts == [] {
        return false, columns, nodes, children;
      }
      ghost var more;
      var column;
      stack, counts, nextId, columns, column, more := ReadRow(rows[i], stack, counts, nextId, columns, nodes, children, entries, c);
      RemainingMore(Start(rootCount), rows, i, entries, c);
      nodes, children, entries, c := nodes + [column], more, entries + [Created(c, rows[i])], Step(c, rows[i]);
      i := i + 1;
    }
    NothingLeft(Start(rootCount), rows, entries, c);
    ok := true;
  }

  lemma NothingRead<T(!new)>(rootCount: nat)
    ensures State<T>([], [], [], Start(rootCount), [], [])
  {
  }

  lemma NothingLeft<T>(start: Control, rows: seq<Row<T>>, entries: seq<Entry<T>>, c: Control)
    requires Remaining(start, rows, |rows|, entries, c)
    ensures End(start, rows).Some? && entries == Output(start, rows)
  {
  }

  /** What is left to read completes what was read. */
  ghost predicate Remaining<T>(start: Control, rows: seq<Row<T>>, i: nat, entries: seq<Entry<T>>, c: Control)
    requires i <= |rows|
  {
    End(start, rows) == End(c, rows[i..]) && Output(start, rows) == entries + Output(c, rows[i..])
  }

  lemma RemainingMore<T>(start: Control, rows: seq<Row<T>>, i: nat, entries: seq<Entry<T>>, c: Control)
    requires i < |rows| && c.counts != [] && Remaining(start, rows, i, entries, c)
    ensures Remaining(start, rows, i + 1, entries + [Created(c, rows[i])], Step(c, rows[i]))
  {
    assert rows[i..] == [rows[i]] + rows[i + 1..];
    RunRow(c, rows[i], rows[i + 1..]);
  }

  /** Rebuilds the column trees of a file from its schema listing; false when a row arrives after
      all child counts are used up. */
  method Decode<T(!new)>(rows: seq<Row<T>>) returns (ok: bool, columns: seq<Column<T>>, ghost nodes: seq<Column<T>>)
    ensures rows == [] ==> ok && columns == []
    ensures rows != [] ==> (ok <==> End(Start(rows[0].childCount), rows[1..]).Some?)
    ensures ok ==> forall root, f :: rows == Listing(root, f) ==> Represents(columns, f, 0, nodes)
  {
    if rows == [] {
      return true, [], [];
    }
    ghost var children;
    ok, columns, nodes, children := ReadRows(rows[0].childCount, rows[1..]);
    if ok {
      forall root, f | rows == Listing(root, f) ensures Represents(columns, f, 0, nodes) {
        assert rows[1..] == Preorder(f) && rows[0].childCount == Width(f);
        ListingRebuilds(f);
        MirrorsRepresents(nodes, children, columns, f);
      }
    }
  }
}
