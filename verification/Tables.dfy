/**
 A stored table is a sequence of rows in no particular order: two tables hold the same data
 when their rows form the same multiset.  This module collects what the relational parts of
 the model need: row selection, integer totals and extrema, and the fact that none of them
 depends on row order.
 */
module Tables {

  datatype Option<+T> = None | Some(value: T)

  /** The two tables hold the same rows, with the same multiplicities. */
  ghost predicate SameRows<T>(a: seq<T>, b: seq<T>) {
    multiset(a) == multiset(b)
  }

  /** SELECT * FROM rows WHERE p */
  function Select<T>(rows: seq<T>, p: T -> bool): seq<T> {
    if rows == [] then []
    else if p(rows[0]) then [rows[0]] + Select(rows[1..], p)
    else Select(rows[1..], p)
  }

  /** The sum of f over the rows. */
  function Total<T>(rows: seq<T>, f: T -> int): int {
    if rows == [] then 0 else f(rows[0]) + Total(rows[1..], f)
  }

  lemma {:induction false} SelectAppend<T>(a: seq<T>, b: seq<T>, p: T -> bool)
    ensures Select(a + b, p) == Select(a, p) + Select(b, p)
  {
    if a == [] {
      assert a + b == b;
    } else {
      assert (a + b)[1..] == a[1..] + b;
      SelectAppend(a[1..], b, p);
    }
  }

  /** Selection keeps every copy of a row that passes and no copy of one that does not. */
  lemma {:induction false} SelectCounts<T>(rows: seq<T>, p: T -> bool, x: T)
    ensures multiset(Select(rows, p))[x] == if p(x) then multiset(rows)[x] else 0
  {
    if rows == [] {
    } else {
      assert rows == [rows[0]] + rows[1..];
      SelectCounts(rows[1..], p, x);
    }
  }

  /** Tables with equal multiplicities hold the same rows. */
  lemma SameCounts<T>(a: seq<T>, b: seq<T>)
    requires forall x :: multiset(a)[x] == multiset(b)[x]
    ensures SameRows(a, b)
  {
  }

  lemma SameRowsMembers<T>(a: seq<T>, b: seq<T>, x: T)
    requires SameRows(a, b)
    ensures x in a <==> x in b
  {
    assert x in a <==> x in multiset(a);
    assert x in b <==> x in multiset(b);
  }

  lemma SameRowsSize<T>(a: seq<T>, b: seq<T>)
    requires SameRows(a, b)
    ensures |a| == |b|
  {
    assert |multiset(a)| == |a| && |multiset(b)| == |b|;
  }

  lemma {:induction false} TotalAppend<T>(a: seq<T>, b: seq<T>, f: T -> int)
    ensures Total(a + b, f) == Total(a, f) + Total(b, f)
  {
    if a == [] {
      assert a + b == b;
    } else {
      assert (a + b)[1..] == a[1..] + b;
      TotalAppend(a[1..], b, f);
    }
  }

  lemma TotalWithout<T>(rows: seq<T>, f: T -> int, i: nat)
    requires i < |rows|
    ensures Total(rows, f) == f(rows[i]) + Total(rows[..i] + rows[i + 1..], f)
  {
    assert rows == rows[..i] + ([rows[i]] + rows[i + 1..]);
    TotalAppend(rows[..i], [rows[i]] + rows[i + 1..], f);
    TotalAppend(rows[..i], rows[i + 1..], f);
  }

  /** Dropping one occurrence of the same row from both sides keeps them equal. */
  lemma DropHead<T>(a: seq<T>, b: seq<T>) returns (i: nat)
    requires SameRows(a, b) && a != []
    ensures i < |b| && b[i] == a[0] && SameRows(a[1..], b[..i] + b[i + 1..])
  {
    SameRowsMembers(a, b, a[0]);
    i :| 0 <= i < |b| && b[i] == a[0];
    assert b == b[..i] + ([b[i]] + b[i + 1..]);
    assert a == [a[0]] + a[1..];
    assert multiset(a[1..]) == multiset(a) - multiset{a[0]};
    assert multiset(b[..i] + b[i + 1..]) == multiset(b) - multiset{a[0]};
  }

  /** Selection does not depend on row order. */
  lemma {:induction false} SelectSameRows<T>(a: seq<T>, b: seq<T>, p: T -> bool)
    requires SameRows(a, b)
    ensures SameRows(Select(a, p), Select(b, p))
    decreases |a|
  {
    SameRowsSize(a, b);
    if a != [] {
      var i := DropHead(a, b);
      var pre, post := b[..i], b[i + 1..];
      SelectSameRows(a[1..], pre + post, p);
      assert b == pre + ([b[i]] + post);
      SelectAppend(pre, [b[i]] + post, p);
      SelectAppend([b[i]], post, p);
      SelectAppend(pre, post, p);
      assert multiset(Select(b, p)) == multiset(Select(pre, p)) + multiset(Select([b[i]], p)) + multiset(Select(post, p));
      assert Select([b[i]], p) == if p(b[i]) then [b[i]] else [];
    }
  }

  /** Totals do not depend on row order. */
  lemma {:induction false} TotalSameRows<T>(a: seq<T>, b: seq<T>, f: T -> int)
    requires SameRows(a, b)
    ensures Total(a, f) == Total(b, f)
    decreases |a|
  {
    SameRowsSize(a, b);
    if a != [] {
      var i := DropHead(a, b);
      TotalSameRows(a[1..], b[..i] + b[i + 1..], f);
      TotalWithout(b, f, i);
    }
  }

  /** x is at least as extreme as y: at most y when looking for minima, at least y for maxima. */
  predicate Beats(max: bool, x: int, y: int) {
    if max then x >= y else x <= y
  }

  /** LEAST / GREATEST of two SQL values; NULL operands are ignored. */
  function Extremer(max: bool, x: Option<int>, y: Option<int>): Option<int> {
    if x.None? then y
    else if y.None? then x
    else if Beats(max, x.value, y.value) then x else y
  }

  /** MIN(arg) or MAX(arg) over the rows, skipping NULL arguments. */
  function Extremum<T>(rows: seq<T>, arg: T -> Option<int>, max: bool): Option<int> {
    if rows == [] then None
    else Extremer(max, arg(rows[0]), Extremum(rows[1..], arg, max))
  }

  /** What MIN and MAX promise: NULL exactly for all-NULL input, else an attained bound. */
  ghost predicate IsExtremum<T>(rows: seq<T>, arg: T -> Option<int>, max: bool, v: Option<int>) {
    && (v.Some? ==> exists x :: x in rows && arg(x) == v)
    && (forall x :: x in rows && arg(x).Some? ==> v.Some? && Beats(max, v.value, arg(x).value))
  }

  lemma {:induction false} ExtremumIs<T>(rows: seq<T>, arg: T -> Option<int>, max: bool)
    ensures IsExtremum(rows, arg, max, Extremum(rows, arg, max))
  {
    if rows != [] {
      ExtremumIs(rows[1..], arg, max);
      var rest := Extremum(rows[1..], arg, max);
      var v := Extremum(rows, arg, max);
      assert forall x :: x in rows <==> x == rows[0] || x in rows[1..];
      if v.Some? {
        if v == arg(rows[0]) {
          assert rows[0] in rows && arg(rows[0]) == v;
        } else {
          assert v == rest;
          var x :| x in rows[1..] && arg(x) == rest;
          assert x in rows && arg(x) == v;
        }
      }
    }
  }

  /** The characterisation determines the value. */
  lemma ExtremumUnique<T>(rows: seq<T>, arg: T -> Option<int>, max: bool, v: Option<int>)
    requires IsExtremum(rows, arg, max, v)
    ensures v == Extremum(rows, arg, max)
  {
    ExtremumIs(rows, arg, max);
  }

  lemma ExtremumSameRows<T>(a: seq<T>, b: seq<T>, arg: T -> Option<int>, max: bool)
    requires SameRows(a, b)
    ensures Extremum(a, arg, max) == Extremum(b, arg, max)
  {
    forall x ensures x in a <==> x in b { SameRowsMembers(a, b, x); }
    ExtremumIs(a, arg, max);
    var v := Extremum(a, arg, max);
    if v.Some? {
      var x :| x in a && arg(x) == v;
      assert x in b;
    }
    ExtremumUnique(b, arg, max, v);
  }
}
