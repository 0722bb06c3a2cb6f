/**
 Changed-key refresh: stored rows whose key no change-feed row carries are kept, every other
 group is recomputed from the base.  The join form takes the changed keys from the fact side's
 change feed joined with the dimension and recomputes over the whole join.
 */
module KeyedRefresh {
  import opened Tables
  import opened ViewDefinition
  import opened DeltaRefresh

  /** The keys carried by rows of the window; the WHERE predicate is not applied here. */
  ghost function CarriesKey<R>(d: Definition<R>, rows: seq<R>): Key -> bool
    requires WellFormed(d)
  {
    k => exists r :: r in rows && KeyOf(d, r) == k
  }

  ghost function NotIn(changed: Key -> bool, key: ViewRow -> Key): ViewRow -> bool {
    row => !changed(key(row))
  }

  ghost function RowKeys<R>(d: Definition<R>): ViewRow -> Key
    requires WellFormed(d)
  {
    row => RowKey(d, row)
  }

  ghost function RecomputePart<R>(d: Definition<R>, base: seq<R>): Key -> seq<ViewRow>
    requires WellFormed(d)
  {
    k => if |k| == |d.groups| then Expected(d, base, k) else []
  }

  /** kept UNION ALL recomputed, the recomputed groups coming out in the order of keys. */
  ghost function KeyedRows<R>(d: Definition<R>, stored: seq<ViewRow>, changed: Key -> bool, base: seq<R>, keys: seq<Key>): seq<ViewRow>
    requires WellFormed(d)
  {
    Select(stored, NotIn(changed, RowKeys(d))) + Emit(keys, RecomputePart(d, base))
  }

  /** keys lists the changed keys, once each, in any order. */
  ghost predicate ListsChanged<R>(d: Definition<R>, changed: Key -> bool, keys: seq<Key>) {
    && Distinct(keys)
    && (forall k :: k in keys <==> KeyShape(d, k) && changed(k))
  }

  ghost predicate Widths<R>(d: Definition<R>, rows: seq<ViewRow>) {
    forall row :: row in rows ==> |row| == |d.columns|
  }

  /** The stored rows agree with base on every key outside changed. */
  ghost predicate AgreesOutside<R>(d: Definition<R>, stored: seq<ViewRow>, changed: Key -> bool, base: seq<R>)
    requires WellFormed(d)
  {
    forall k :: !changed(k) ==> AgreesAt(d, stored, base, k)
  }

  lemma RefreshedRowsAt<R>(d: Definition<R>, stored: seq<ViewRow>, changed: Key -> bool, base: seq<R>, keys: seq<Key>, k: Key)
    requires WellFormed(d) && ListsChanged(d, changed, keys) && KeyShape(d, k)
    ensures RowsAt(d, KeyedRows(d, stored, changed, base, keys), k) ==
            if changed(k) then Expected(d, base, k) else RowsAt(d, stored, k)
  {
    var part := RecomputePart(d, base);
    forall q, row | q in keys && row in part(q) ensures RowKey(d, row) == q && |row| == |d.columns| {
      RowsOfExpected(d, base, q, row);
    }
    RowsOfEmit(d, keys, part, k);
    SelectAppend(Select(stored, NotIn(changed, RowKeys(d))), Emit(keys, part), WithKey(d, k));
    RowsOfFiltered(d, stored, NotIn(changed, RowKeys(d)), k, !changed(k));
  }

  /** Changed-key refresh yields the query over base exactly when the stored rows already agree
      with base on every key outside the window.  They need not be the query at the cursor. */
  lemma KeyedRefreshExactlyWhen<R>(d: Definition<R>, stored: seq<ViewRow>, changed: Key -> bool, base: seq<R>, keys: seq<Key>)
    requires WellFormed(d) && Widths(d, stored) && ListsChanged(d, changed, keys)
    ensures IsView(d, KeyedRows(d, stored, changed, base, keys), base) <==> AgreesOutside(d, stored, changed, base)
  {
    var result := KeyedRows(d, stored, changed, base, keys);
    forall k ensures AgreesAt(d, result, base, k) <==> (changed(k) || AgreesAt(d, stored, base, k)) {
      if KeyShape(d, k) {
        RefreshedRowsAt(d, stored, changed, base, keys, k);
      }
    }
    var part := RecomputePart(d, base);
    forall q, row | q in keys && row in part(q) ensures RowKey(d, row) == q && |row| == |d.columns| {
      RowsOfExpected(d, base, q, row);
    }
    RowsOfEmit(d, keys, part, []);
    SelectedRows(stored, NotIn(changed, RowKeys(d)));
    assert Widths(d, result);
    if AgreesOutside(d, stored, changed, base) {
      assert forall k :: AgreesAt(d, result, base, k);
    }
  }

  /** Only rows that carry a key can belong to its group. */
  lemma GroupCarriesKey<R>(d: Definition<R>, rows: seq<R>, k: Key)
    requires WellFormed(d)
    ensures Group(d, rows, k) != [] ==> CarriesKey(d, rows)(k)
  {
    SelectedRows(rows, InGroup(d, k));
    if Group(d, rows, k) != [] {
      var r := Group(d, rows, k)[0];
      assert r in Group(d, rows, k);
      assert r in rows && KeyOf(d, r) == k;
    }
  }

  /** Agreement moves along the change feed: it may only be lost on keys the feed carries. */
  lemma AgreementAdvances<R>(d: Definition<R>, stored: seq<ViewRow>, changed: Key -> bool,
                             old_: seq<R>, ins: seq<R>, new_: seq<R>, del: seq<R>, wider: Key -> bool)
    requires WellFormed(d) && SameRows(old_ + ins, new_ + del) && AgreesOutside(d, stored, changed, old_)
    requires forall k :: changed(k) || CarriesKey(d, ins)(k) || CarriesKey(d, del)(k) ==> wider(k)
    ensures AgreesOutside(d, stored, wider, new_)
  {
    forall k | !wider(k) ensures AgreesAt(d, stored, new_, k) {
      assert AgreesAt(d, stored, old_, k);
      if KeyShape(d, k) {
        GroupCarriesKey(d, ins, k);
        GroupCarriesKey(d, del, k);
        UntouchedGroup(d, old_, ins, new_, del, k);
      }
    }
  }

  // ---- joins ----

  function Pairs<F, D>(f: F, dims: seq<D>, on: (F, D) -> bool): seq<(F, D)> {
    if dims == [] then []
    else (if on(f, dims[0]) then [(f, dims[0])] else []) + Pairs(f, dims[1..], on)
  }

  /** facts JOIN dims ON on */
  function Join<F, D>(facts: seq<F>, dims: seq<D>, on: (F, D) -> bool): seq<(F, D)> {
    if facts == [] then [] else Pairs(facts[0], dims, on) + Join(facts[1..], dims, on)
  }

  lemma {:induction false} JoinAppend<F, D>(a: seq<F>, b: seq<F>, dims: seq<D>, on: (F, D) -> bool)
    ensures Join(a + b, dims, on) == Join(a, dims, on) + Join(b, dims, on)
  {
    if a == [] {
      assert a + b == b;
    } else {
      assert (a + b)[1..] == a[1..] + b;
      JoinAppend(a[1..], b, dims, on);
    }
  }

  lemma JoinAround<F, D>(pre: seq<F>, f: F, post: seq<F>, dims: seq<D>, on: (F, D) -> bool)
    ensures SameRows(Join(pre + ([f] + post), dims, on), Pairs(f, dims, on) + Join(pre + post, dims, on))
  {
    JoinAppend(pre, [f] + post, dims, on);
    assert ([f] + post)[1..] == post;
    JoinAppend(pre, post, dims, on);
  }

  /** The join does not depend on the order of the facts. */
  lemma {:induction false} JoinSameFacts<F, D>(a: seq<F>, b: seq<F>, dims: seq<D>, on: (F, D) -> bool)
    requires SameRows(a, b)
    ensures SameRows(Join(a, dims, on), Join(b, dims, on))
    decreases |a|
  {
    SameRowsSize(a, b);
    if a != [] {
      var i := DropHead(a, b);
      JoinSameFacts(a[1..], b[..i] + b[i + 1..], dims, on);
      assert b == b[..i] + ([b[i]] + b[i + 1..]);
      JoinAround(b[..i], b[i], b[i + 1..], dims, on);
    }
  }

  lemma {:induction false} PairsAppend<F, D>(f: F, a: seq<D>, b: seq<D>, on: (F, D) -> bool)
    ensures Pairs(f, a + b, on) == Pairs(f, a, on) + Pairs(f, b, on)
  {
    if a == [] {
      assert a + b == b;
    } else {
      assert (a + b)[1..] == a[1..] + b && (a + b)[0] == a[0];
      PairsAppend(f, a[1..], b, on);
      var head := if on(f, a[0]) then [(f, a[0])] else [];
      assert head + (Pairs(f, a[1..], on) + Pairs(f, b, on)) == (head + Pairs(f, a[1..], on)) + Pairs(f, b, on);
    }
  }

  /** Dimension rows added to the join contribute their own pairs. */
  lemma {:induction false} JoinMoreDims<F, D>(facts: seq<F>, dims: seq<D>, extra: seq<D>, on: (F, D) -> bool)
    ensures SameRows(Join(facts, dims + extra, on), Join(facts, dims, on) + Join(facts, extra, on))
  {
    if facts != [] {
      PairsAppend(facts[0], dims, extra, on);
      JoinMoreDims(facts[1..], dims, extra, on);
    }
  }

  lemma {:induction false} PairsSameDims<F, D>(f: F, a: seq<D>, b: seq<D>, on: (F, D) -> bool)
    requires SameRows(a, b)
    ensures SameRows(Pairs(f, a, on), Pairs(f, b, on))
    decreases |a|
  {
    SameRowsSize(a, b);
    if a != [] {
      var i := DropHead(a, b);
      PairsSameDims(f, a[1..], b[..i] + b[i + 1..], on);
      assert b == b[..i] + ([b[i]] + b[i + 1..]);
      PairsAppend(f, b[..i], [b[i]] + b[i + 1..], on);
      PairsAppend(f, b[..i], b[i + 1..], on);
    }
  }

  /** The join does not depend on the order of the dimension rows. */
  lemma {:induction false} JoinSameDims<F, D>(facts: seq<F>, a: seq<D>, b: seq<D>, on: (F, D) -> bool)
    requires SameRows(a, b)
    ensures SameRows(Join(facts, a, on), Join(facts, b, on))
  {
    if facts != [] {
      PairsSameDims(facts[0], a, b, on);
      JoinSameDims(facts[1..], a, b, on);
    }
  }

  /** The fact side's change-feed equation carries over to the join. */
  lemma BalancedJoin<F, D>(old_: seq<F>, ins: seq<F>, new_: seq<F>, del: seq<F>, dims: seq<D>, on: (F, D) -> bool)
    requires SameRows(old_ + ins, new_ + del)
    ensures SameRows(Join(old_, dims, on) + Join(ins, dims, on), Join(new_, dims, on) + Join(del, dims, on))
  {
    JoinSameFacts(old_ + ins, new_ + del, dims, on);
    JoinAppend(old_, ins, dims, on);
    JoinAppend(new_, del, dims, on);
  }

  /** The changed keys of a join refresh: changed facts joined with the dimension as it is now. */
  ghost function JoinChanged<F, D>(d: Definition<(F, D)>, on: (F, D) -> bool, ins: seq<F>, del: seq<F>, dims: seq<D>): Key -> bool
    requires WellFormed(d)
  {
    CarriesKey(d, Join(ins, dims, on) + Join(del, dims, on))
  }

  ghost function JoinRows<F, D>(d: Definition<(F, D)>, on: (F, D) -> bool, stored: seq<ViewRow>,
                                   ins: seq<F>, del: seq<F>, facts: seq<F>, dims: seq<D>, keys: seq<Key>): seq<ViewRow>
    requires WellFormed(d)
  {
    KeyedRows(d, stored, JoinChanged(d, on, ins, del, dims), Join(facts, dims, on), keys)
  }

  lemma CarriesEither<R>(d: Definition<R>, a: seq<R>, b: seq<R>, k: Key)
    requires WellFormed(d)
    ensures CarriesKey(d, a + b)(k) <==> CarriesKey(d, a)(k) || CarriesKey(d, b)(k)
  {
    assert forall r :: r in a + b <==> r in a || r in b;
  }

  /** With the dimension unchanged, fact-side changes alone locate every stale group. */
  lemma JoinAgreesOutside<F, D>(d: Definition<(F, D)>, on: (F, D) -> bool, stored: seq<ViewRow>,
                                old_: seq<F>, ins: seq<F>, new_: seq<F>, del: seq<F>, dims: seq<D>)
    requires WellFormed(d) && IsView(d, stored, Join(old_, dims, on)) && SameRows(old_ + ins, new_ + del)
    ensures AgreesOutside(d, stored, JoinChanged(d, on, ins, del, dims), Join(new_, dims, on))
  {
    var changed := JoinChanged(d, on, ins, del, dims);
    BalancedJoin(old_, ins, new_, del, dims, on);
    forall k ensures CarriesKey(d, Join(ins, dims, on))(k) || CarriesKey(d, Join(del, dims, on))(k) ==> changed(k) {
      CarriesEither(d, Join(ins, dims, on), Join(del, dims, on), k);
    }
    AgreementAdvances(d, stored, (k: Key) => false, Join(old_, dims, on), Join(ins, dims, on), Join(new_, dims, on), Join(del, dims, on), changed);
  }

  /** Join refresh from fact-side changes equals recomputing the whole join, for any join
      multiplicities and keys on either side, when the dimension holds the same rows. */
  lemma JoinRefreshIsRecompute<F, D>(d: Definition<(F, D)>, on: (F, D) -> bool, stored: seq<ViewRow>,
                                     old_: seq<F>, ins: seq<F>, new_: seq<F>, del: seq<F>, before: seq<D>, dims: seq<D>, keys: seq<Key>)
    requires WellFormed(d) && IsView(d, stored, Join(old_, before, on))
    requires SameRows(old_ + ins, new_ + del) && SameRows(before, dims)
    requires ListsChanged(d, JoinChanged(d, on, ins, del, dims), keys)
    ensures IsView(d, JoinRows(d, on, stored, ins, del, new_, dims, keys), Join(new_, dims, on))
  {
    JoinSameDims(old_, before, dims, on);
    IsViewSameRows(d, stored, Join(old_, before, on), Join(old_, dims, on));
    JoinAgreesOutside(d, on, stored, old_, ins, new_, del, dims);
    KeyedRefreshExactlyWhen(d, stored, JoinChanged(d, on, ins, del, dims), Join(new_, dims, on), keys);
  }

  // ---- the gate tests uncommitted changes on the fact side only ----

  lemma GroupOfParts<R>(d: Definition<R>, whole: seq<R>, a: seq<R>, b: seq<R>, k: Key)
    requires WellFormed(d) && SameRows(whole, a + b)
    ensures SameRows(Group(d, whole, k), Group(d, a, k) + Group(d, b, k))
  {
    SelectSameRows(whole, a + b, InGroup(d, k));
    SelectAppend(a, b, InGroup(d, k));
  }

  lemma CountSeparates<R>(d: Definition<R>, a: seq<R>, b: seq<R>, k: Key)
    requires WellFormed(d) && |k| == |d.groups| && HasCountStar(d.columns) && AllPlain(d.columns)
    requires Expected(d, a, k) == Expected(d, b, k)
    ensures |Group(d, a, k)| == |Group(d, b, k)|
  {
    var c := LastCountStar(d.columns);
    var x, y := Group(d, a, k), Group(d, b, k);
    if x != [] && y != [] {
      assert GroupRow(d, k, x)[c] == GroupCell(d, c, k, x);
      assert GroupRow(d, k, y)[c] == GroupCell(d, c, k, y);
    }
  }

  /** Every row that passes WHERE falls into a recomputed group. */
  ghost predicate RowsInWindow<R>(d: Definition<R>, changed: Key -> bool, rows: seq<R>)
    requires WellFormed(d)
  {
    forall p :: p in rows && d.where(p) ==> changed(KeyOf(d, p))
  }

  ghost predicate LocalPairsInWindow<F, D>(d: Definition<(F, D)>, on: (F, D) -> bool, changed: Key -> bool, facts: seq<F>, extra: seq<D>)
    requires WellFormed(d)
  {
    RowsInWindow(d, changed, Join(facts, extra, on))
  }

  lemma {:induction false} SelectedIfPassing<T>(rows: seq<T>, p: T -> bool, x: T)
    requires x in rows && p(x)
    ensures x in Select(rows, p)
  {
    if rows[0] != x {
      SelectedIfPassing(rows[1..], p, x);
    }
  }

  lemma {:induction false} PairsMembers<F, D>(f: F, dims: seq<D>, on: (F, D) -> bool, p: (F, D))
    ensures p in Pairs(f, dims, on) <==> p.0 == f && p.1 in dims && on(p.0, p.1)
  {
    if dims != [] {
      PairsMembers(f, dims[1..], on, p);
      assert p.1 in dims <==> p.1 == dims[0] || p.1 in dims[1..];
    }
  }

  lemma {:induction false} JoinMembers<F, D>(facts: seq<F>, dims: seq<D>, on: (F, D) -> bool, p: (F, D))
    ensures p in Join(facts, dims, on) <==> p.0 in facts && p.1 in dims && on(p.0, p.1)
  {
    if facts != [] {
      PairsMembers(facts[0], dims, on, p);
      JoinMembers(facts[1..], dims, on, p);
      assert p.0 in facts <==> p.0 == facts[0] || p.0 in facts[1..];
    }
  }

  lemma {:induction false} PairsCounts<F, D>(f: F, dims: seq<D>, on: (F, D) -> bool, p: (F, D))
    ensures multiset(Pairs(f, dims, on))[p] == if p.0 == f && on(p.0, p.1) then multiset(dims)[p.1] else 0
  {
    if dims != [] {
      PairsCounts(f, dims[1..], on, p);
      assert dims == [dims[0]] + dims[1..];
    }
  }

  /** How often a pair is in the join. */
  function PairCount<F(==), D(==)>(facts: seq<F>, dims: seq<D>, on: (F, D) -> bool, p: (F, D)): nat {
    if on(p.0, p.1) then multiset(facts)[p.0] * multiset(dims)[p.1] else 0
  }

  /** A pair occurs as often as its fact times as often as its dimension row. */
  lemma {:induction false} JoinCounts<F, D>(facts: seq<F>, dims: seq<D>, on: (F, D) -> bool, p: (F, D))
    ensures multiset(Join(facts, dims, on))[p] == PairCount(facts, dims, on, p)
  {
    if facts != [] {
      PairsCounts(facts[0], dims, on, p);
      JoinCounts(facts[1..], dims, on, p);
      FirstPairs(facts, dims, on, p);
    }
  }

  lemma FirstPairs<F, D>(facts: seq<F>, dims: seq<D>, on: (F, D) -> bool, p: (F, D))
    requires facts != []
    ensures PairCount(facts, dims, on, p) ==
            (if p.0 == facts[0] && on(p.0, p.1) then multiset(dims)[p.1] else 0) + PairCount(facts[1..], dims, on, p)
  {
    assert facts == [facts[0]] + facts[1..];
    var first, n, times := if facts[0] == p.0 then 1 else 0, multiset(facts[1..])[p.0], multiset(dims)[p.1];
    assert multiset(facts)[p.0] == first + n;
    assert (first + n) * times == first * times + n * times;
  }

  /** More dimension rows only widen the set of changed keys. */
  lemma WiderWindow<F, D>(d: Definition<(F, D)>, on: (F, D) -> bool, ins: seq<F>, del: seq<F>, part: seq<D>, dims: seq<D>, k: Key)
    requires WellFormed(d) && forall e :: e in part ==> e in dims
    ensures JoinChanged(d, on, ins, del, part)(k) ==> JoinChanged(d, on, ins, del, dims)(k)
  {
    if JoinChanged(d, on, ins, del, part)(k) {
      var p :| p in Join(ins, part, on) + Join(del, part, on) && KeyOf(d, p) == k;
      JoinMembers(ins, part, on, p);
      JoinMembers(del, part, on, p);
      JoinMembers(ins, dims, on, p);
      JoinMembers(del, dims, on, p);
      assert p in Join(ins, dims, on) + Join(del, dims, on);
    }
  }

  /** Outside the window a group of pairs is the same before and after the fact changes. */
  lemma UnchangedPairs<F, D>(d: Definition<(F, D)>, on: (F, D) -> bool, old_: seq<F>, ins: seq<F>, new_: seq<F>, del: seq<F>,
                             part: seq<D>, dims: seq<D>, k: Key)
    requires WellFormed(d) && SameRows(old_ + ins, new_ + del) && (forall e :: e in part ==> e in dims)
    requires !JoinChanged(d, on, ins, del, dims)(k)
    ensures SameRows(Group(d, Join(old_, part, on), k), Group(d, Join(new_, part, on), k))
  {
    WiderWindow(d, on, ins, del, part, dims, k);
    CarriesEither(d, Join(ins, part, on), Join(del, part, on), k);
    GroupCarriesKey(d, Join(ins, part, on), k);
    GroupCarriesKey(d, Join(del, part, on), k);
    BalancedJoin(old_, ins, new_, del, part, on);
    BalancedGroup(d, Join(old_, part, on), Join(ins, part, on), Join(new_, part, on), Join(del, part, on), k);
    assert Group(d, Join(old_, part, on), k) + Group(d, Join(ins, part, on), k) == Group(d, Join(old_, part, on), k);
    assert Group(d, Join(new_, part, on), k) + Group(d, Join(del, part, on), k) == Group(d, Join(new_, part, on), k);
  }

  ghost predicate SameResultOutside<R>(d: Definition<R>, changed: Key -> bool, a: seq<R>, b: seq<R>)
    requires WellFormed(d)
  {
    forall k :: KeyShape(d, k) && !changed(k) ==> Expected(d, a, k) == Expected(d, b, k)
  }

  /** Whatever the refreshing transaction did to the dimension, the join form recomputes correctly exactly
      when, joined with the facts at the cursor, the two dimensions give the same row for every group
      the fact-side window does not recompute. */
  lemma JoinRefreshExactlyWhen<F, D>(d: Definition<(F, D)>, on: (F, D) -> bool, stored: seq<ViewRow>,
                                     old_: seq<F>, ins: seq<F>, new_: seq<F>, del: seq<F>, before: seq<D>, dims: seq<D>, keys: seq<Key>)
    requires WellFormed(d)
    requires IsView(d, stored, Join(old_, before, on)) && SameRows(old_ + ins, new_ + del)
    requires ListsChanged(d, JoinChanged(d, on, ins, del, dims), keys)
    ensures IsView(d, JoinRows(d, on, stored, ins, del, new_, dims, keys), Join(new_, dims, on)) <==>
            SameResultOutside(d, JoinChanged(d, on, ins, del, dims), Join(old_, before, on), Join(old_, dims, on))
  {
    var changed := JoinChanged(d, on, ins, del, dims);
    KeyedRefreshExactlyWhen(d, stored, changed, Join(new_, dims, on), keys);
    forall k | KeyShape(d, k) && !changed(k)
      ensures AgreesAt(d, stored, Join(new_, dims, on), k) <==>
              Expected(d, Join(old_, before, on), k) == Expected(d, Join(old_, dims, on), k)
    {
      assert AgreesAt(d, stored, Join(old_, before, on), k);
      UnchangedPairs(d, on, old_, ins, new_, del, dims, dims, k);
      ExpectedSameGroup(d, Join(old_, dims, on), Join(new_, dims, on), k);
    }
  }

  /** More rows leave a group's result as it is exactly when none of them falls into the group. */
  lemma MoreRowsAt<R>(d: Definition<R>, whole: seq<R>, part: seq<R>, more: seq<R>, k: Key)
    requires WellFormed(d) && HasCountStar(d.columns) && AllPlain(d.columns)
    requires SameRows(whole, part + more) && KeyShape(d, k)
    ensures Expected(d, whole, k) == Expected(d, part, k) <==> Group(d, more, k) == []
  {
    GroupOfParts(d, whole, part, more, k);
    SameRowsSize(Group(d, whole, k), Group(d, part, k) + Group(d, more, k));
    if Group(d, more, k) == [] {
      assert Group(d, part, k) + Group(d, more, k) == Group(d, part, k);
      ExpectedSameGroup(d, whole, part, k);
    } else if Expected(d, whole, k) == Expected(d, part, k) {
      CountSeparates(d, whole, part, k);
    }
  }

  /** So more rows change no result outside the window exactly when all of them fall into it. */
  lemma MoreRowsOutside<R>(d: Definition<R>, changed: Key -> bool, whole: seq<R>, part: seq<R>, more: seq<R>)
    requires WellFormed(d) && HasCountStar(d.columns) && AllPlain(d.columns)
    requires SameRows(whole, part + more)
    ensures SameResultOutside(d, changed, whole, part) <==> RowsInWindow(d, changed, more)
  {
    forall k | !changed(k)
      ensures (KeyShape(d, k) ==> Expected(d, whole, k) == Expected(d, part, k)) <==> Group(d, more, k) == []
    {
      StrayKeyHasNoGroup(d, more, k);
      if KeyShape(d, k) {
        MoreRowsAt(d, whole, part, more, k);
      }
    }
    LocalPairsByGroup(d, changed, more);
  }

  /** Local pairs fall into the window or not at either end of the fact changes. */
  lemma LocalPairsEitherEnd<F, D>(d: Definition<(F, D)>, on: (F, D) -> bool, old_: seq<F>, ins: seq<F>, new_: seq<F>, del: seq<F>,
                                  extra: seq<D>, dims: seq<D>)
    requires WellFormed(d) && SameRows(old_ + ins, new_ + del) && forall e :: e in extra ==> e in dims
    ensures LocalPairsInWindow(d, on, JoinChanged(d, on, ins, del, dims), old_, extra) <==>
            LocalPairsInWindow(d, on, JoinChanged(d, on, ins, del, dims), new_, extra)
  {
    var changed := JoinChanged(d, on, ins, del, dims);
    forall k | !changed(k) ensures Group(d, Join(old_, extra, on), k) == [] <==> Group(d, Join(new_, extra, on), k) == [] {
      UnchangedPairs(d, on, old_, ins, new_, del, extra, dims, k);
      SameRowsSize(Group(d, Join(old_, extra, on), k), Group(d, Join(new_, extra, on), k));
    }
    LocalPairsByGroup(d, changed, Join(old_, extra, on));
    LocalPairsByGroup(d, changed, Join(new_, extra, on));
  }

  /** A pair of the added rows outside the window exists exactly when some group outside it grows. */
  lemma LocalPairsByGroup<R>(d: Definition<R>, changed: Key -> bool, added: seq<R>)
    requires WellFormed(d)
    ensures RowsInWindow(d, changed, added) <==> (forall k :: !changed(k) ==> Group(d, added, k) == [])
  {
    forall p | p in added && d.where(p) ensures Group(d, added, KeyOf(d, p)) != [] {
      SelectedIfPassing(added, InGroup(d, KeyOf(d, p)), p);
    }
    forall k | Group(d, added, k) != []
      ensures exists p :: p in added && d.where(p) && KeyOf(d, p) == k
    {
      SelectedRows(added, InGroup(d, k));
      var p := Group(d, added, k)[0];
      assert p in Group(d, added, k);
      assert p in added && d.where(p) && KeyOf(d, p) == k;
    }
  }

  lemma StrayKeyHasNoGroup<R>(d: Definition<R>, rows: seq<R>, k: Key)
    requires WellFormed(d)
    ensures !KeyShape(d, k) ==> Group(d, rows, k) == []
  {
    GroupCarriesKey(d, rows, k);
    if Group(d, rows, k) != [] {
      var r :| r in rows && KeyOf(d, r) == k;
      KeyOfShape(d, r);
    }
  }

  /** When the refreshing transaction itself added dimension rows, the gate lets the join form
      through, and it then recomputes correctly exactly when every pair those rows form with a
      current fact belongs to a group the fact-side window recomputes anyway. */
  lemma JoinRefreshWithLocalDims<F, D>(d: Definition<(F, D)>, on: (F, D) -> bool, stored: seq<ViewRow>,
                                       old_: seq<F>, ins: seq<F>, new_: seq<F>, del: seq<F>, dims: seq<D>, extra: seq<D>, keys: seq<Key>)
    requires WellFormed(d) && HasCountStar(d.columns) && AllPlain(d.columns)
    requires IsView(d, stored, Join(old_, dims, on)) && SameRows(old_ + ins, new_ + del)
    requires ListsChanged(d, JoinChanged(d, on, ins, del, dims + extra), keys)
    ensures IsView(d, JoinRows(d, on, stored, ins, del, new_, dims + extra, keys), Join(new_, dims + extra, on)) <==>
            LocalPairsInWindow(d, on, JoinChanged(d, on, ins, del, dims + extra), new_, extra)
  {
    var changed := JoinChanged(d, on, ins, del, dims + extra);
    JoinRefreshExactlyWhen(d, on, stored, old_, ins, new_, del, dims, dims + extra, keys);
    JoinMoreDims(old_, dims, extra, on);
    MoreRowsOutside(d, changed, Join(old_, dims + extra, on), Join(old_, dims, on), Join(old_, extra, on));
    LocalPairsEitherEnd(d, on, old_, ins, new_, del, extra, dims + extra);
  }

  /** When it deleted dimension rows, the join form is right exactly when every pair those rows formed with
      a fact at the cursor belongs to a group the window recomputes anyway. */
  lemma JoinRefreshWithRemovedDims<F, D>(d: Definition<(F, D)>, on: (F, D) -> bool, stored: seq<ViewRow>,
                                         old_: seq<F>, ins: seq<F>, new_: seq<F>, del: seq<F>, dims: seq<D>, removed: seq<D>, keys: seq<Key>)
    requires WellFormed(d) && HasCountStar(d.columns) && AllPlain(d.columns)
    requires IsView(d, stored, Join(old_, dims + removed, on)) && SameRows(old_ + ins, new_ + del)
    requires ListsChanged(d, JoinChanged(d, on, ins, del, dims), keys)
    ensures IsView(d, JoinRows(d, on, stored, ins, del, new_, dims, keys), Join(new_, dims, on)) <==>
            LocalPairsInWindow(d, on, JoinChanged(d, on, ins, del, dims), old_, removed)
  {
    JoinRefreshExactlyWhen(d, on, stored, old_, ins, new_, del, dims + removed, dims, keys);
    JoinMoreDims(old_, dims, removed, on);
    MoreRowsOutside(d, JoinChanged(d, on, ins, del, dims), Join(old_, dims + removed, on), Join(old_, dims, on), Join(old_, removed, on));
  }

  ghost predicate SameSizesOutside<R>(d: Definition<R>, changed: Key -> bool, a: seq<R>, b: seq<R>)
    requires WellFormed(d)
  {
    forall k :: KeyShape(d, k) && !changed(k) ==> |Group(d, a, k)| == |Group(d, b, k)|
  }

  lemma ReplacedSizes<R>(d: Definition<R>, changed: Key -> bool, before: seq<R>, now: seq<R>, both: seq<R>, removed: seq<R>, added: seq<R>)
    requires WellFormed(d) && HasCountStar(d.columns) && AllPlain(d.columns)
    requires SameRows(before, both + removed) && SameRows(now, both + added)
    ensures SameResultOutside(d, changed, before, now) ==> SameSizesOutside(d, changed, removed, added)
  {
    forall k | KeyShape(d, k) && Expected(d, before, k) == Expected(d, now, k)
      ensures |Group(d, removed, k)| == |Group(d, added, k)|
    {
      CountSeparates(d, before, now, k);
      GroupOfParts(d, before, both, removed, k);
      GroupOfParts(d, now, both, added, k);
      SameRowsSize(Group(d, before, k), Group(d, both, k) + Group(d, removed, k));
      SameRowsSize(Group(d, now, k), Group(d, both, k) + Group(d, added, k));
    }
  }

  lemma ReplacedInWindow<R>(d: Definition<R>, changed: Key -> bool, before: seq<R>, now: seq<R>, both: seq<R>, removed: seq<R>, added: seq<R>)
    requires WellFormed(d) && HasCountStar(d.columns) && AllPlain(d.columns)
    requires SameRows(before, both + removed) && SameRows(now, both + added)
    ensures RowsInWindow(d, changed, removed) && RowsInWindow(d, changed, added) ==> SameResultOutside(d, changed, before, now)
  {
    MoreRowsOutside(d, changed, before, both, removed);
    MoreRowsOutside(d, changed, now, both, added);
  }

  /** When it replaced dimension rows, the join form is right if the pairs of the removed and of the added
      rows all fall into the window. */
  lemma JoinRefreshWithReplacedDims<F, D>(d: Definition<(F, D)>, on: (F, D) -> bool, stored: seq<ViewRow>,
                                          old_: seq<F>, ins: seq<F>, new_: seq<F>, del: seq<F>,
                                          common: seq<D>, removed: seq<D>, added: seq<D>, dims: seq<D>, keys: seq<Key>)
    requires WellFormed(d) && HasCountStar(d.columns) && AllPlain(d.columns)
    requires IsView(d, stored, Join(old_, common + removed, on)) && SameRows(old_ + ins, new_ + del) && dims == common + added
    requires ListsChanged(d, JoinChanged(d, on, ins, del, dims), keys)
    requires LocalPairsInWindow(d, on, JoinChanged(d, on, ins, del, dims), old_, removed)
    requires LocalPairsInWindow(d, on, JoinChanged(d, on, ins, del, dims), new_, added)
    ensures IsView(d, JoinRows(d, on, stored, ins, del, new_, dims, keys), Join(new_, dims, on))
  {
    var changed := JoinChanged(d, on, ins, del, dims);
    JoinMoreDims(old_, common, removed, on);
    JoinMoreDims(old_, common, added, on);
    LocalPairsEitherEnd(d, on, old_, ins, new_, del, added, dims);
    ReplacedInWindow(d, changed, Join(old_, common + removed, on), Join(old_, dims, on), Join(old_, common, on),
                     Join(old_, removed, on), Join(old_, added, on));
    JoinRefreshExactlyWhen(d, on, stored, old_, ins, new_, del, common + removed, dims, keys);
  }

  /** If it is right, each group outside the window lost as many pairs as it gained. */
  lemma ReplacedDimsKeepSizes<F, D>(d: Definition<(F, D)>, on: (F, D) -> bool, stored: seq<ViewRow>,
                                    old_: seq<F>, ins: seq<F>, new_: seq<F>, del: seq<F>,
                                    common: seq<D>, removed: seq<D>, added: seq<D>, dims: seq<D>, keys: seq<Key>)
    requires WellFormed(d) && HasCountStar(d.columns) && AllPlain(d.columns)
    requires IsView(d, stored, Join(old_, common + removed, on)) && SameRows(old_ + ins, new_ + del) && dims == common + added
    requires ListsChanged(d, JoinChanged(d, on, ins, del, dims), keys)
    requires IsView(d, JoinRows(d, on, stored, ins, del, new_, dims, keys), Join(new_, dims, on))
    ensures SameSizesOutside(d, JoinChanged(d, on, ins, del, dims), Join(old_, removed, on), Join(old_, added, on))
  {
    JoinMoreDims(old_, common, removed, on);
    JoinMoreDims(old_, common, added, on);
    ReplacedSizes(d, JoinChanged(d, on, ins, del, dims), Join(old_, common + removed, on), Join(old_, dims, on), Join(old_, common, on),
                  Join(old_, removed, on), Join(old_, added, on));
    JoinRefreshExactlyWhen(d, on, stored, old_, ins, new_, del, common + removed, dims, keys);
  }
}
