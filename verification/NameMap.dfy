/**
 Name maps from the columns of a data file to table fields: two maps are compatible when they agree
 up to the order of the columns at every depth, and compatible maps have the same hash.
 */
module NameMap {
  import opened Tables

  datatype Entry = Entry(name: string, field: nat, hivePartition: bool, kids: seq<Entry>)

  ghost predicate DistinctNames(l: seq<Entry>) {
    forall i, j :: 0 <= i < j < |l| ==> l[i].name != l[j].name
  }

  /** The entries agree, and so do their children, whatever their order. */
  ghost predicate Compatible(a: Entry, b: Entry)
    decreases a, 1
  {
    a.name == b.name && a.field == b.field && a.hivePartition == b.hivePartition && ListCompatible(a.kids, b.kids)
  }

  /** Distinct sibling names, as many on both sides, and a compatible partner for each. */
  ghost predicate ListCompatible(l: seq<Entry>, r: seq<Entry>)
    decreases l
  {
    && |l| == |r| && DistinctNames(l) && DistinctNames(r)
    && forall i :: 0 <= i < |l| ==> HasPartner(l[i], r)
  }

  ghost predicate HasPartner(e: Entry, r: seq<Entry>)
    decreases e, 2
  {
    exists j :: 0 <= j < |r| && Compatible(e, r[j])
  }

  // ---- the comparison as the code does it ----

  /** The first position of each name among the first n entries. */
  ghost predicate FirstPositions(r: seq<Entry>, n: nat, positions: map<string, nat>)
    requires n <= |r|
  {
    && (forall name :: name in positions ==> positions[name] < n && r[positions[name]].name == name)
    && (forall j :: 0 <= j < n ==> r[j].name in positions && positions[r[j].name] <= j)
  }

  method IndexNames(r: seq<Entry>) returns (positions: map<string, nat>)
    ensures FirstPositions(r, |r|, positions)
  {
    positions := map[];
    var j := 0;
    while j < |r|
      invariant 0 <= j <= |r| && FirstPositions(r, j, positions)
    {
      if r[j].name !in positions {
        positions := positions[r[j].name := j];
      }
      j := j + 1;
    }
  }

  function Names(l: seq<Entry>): set<string> {
    set e | e in l :: e.name
  }

  lemma LastName(rest: seq<Entry>, last: Entry)
    ensures Names(rest + [last]) == Names(rest) + {last.name}
    ensures DistinctNames(rest + [last]) <==> DistinctNames(rest) && last.name !in Names(rest)
  {
    var l, n := rest + [last], |rest|;
    if last.name in Names(rest) {
      var e :| e in rest && e.name == last.name;
      var i :| 0 <= i < n && rest[i] == e;
      assert l[i].name == l[n].name;
    } else {
      assert forall i :: 0 <= i < n ==> rest[i] in rest && l[i] == rest[i];
    }
    assert DistinctNames(l) ==> DistinctNames(l[..n]) && l[..n] == rest;
  }

  lemma {:induction false} NamesCount(l: seq<Entry>)
    ensures |Names(l)| <= |l|
    ensures |Names(l)| == |l| <==> DistinctNames(l)
  {
    if l != [] {
      var n := |l| - 1;
      NamesCount(l[..n]);
      LastName(l[..n], l[n]);
      assert l == l[..n] + [l[n]];
    }
  }

  /** As many distinct names on the right, all of them on the left. */
  lemma SameNames(l: seq<Entry>, r: seq<Entry>)
    requires |l| == |r| && DistinctNames(l) && Names(l) <= Names(r)
    ensures DistinctNames(r) && Names(l) == Names(r)
  {
    NamesCount(l);
    NamesCount(r);
    SubsetSize(Names(l), Names(r));
  }

  lemma SubsetSize(a: set<string>, b: set<string>)
    requires a <= b
    ensures |a| <= |b| && (|a| == |b| ==> a == b)
  {
    assert b == a + (b - a);
  }

  lemma PartnersShareNames(l: seq<Entry>, r: seq<Entry>)
    requires forall i :: 0 <= i < |l| ==> HasPartner(l[i], r)
    ensures Names(l) <= Names(r)
  {
    forall x | x in Names(l) ensures x in Names(r) {
      var e :| e in l && e.name == x;
      var i :| 0 <= i < |l| && l[i] == e;
      assert HasPartner(l[i], r);
      var j :| 0 <= j < |r| && Compatible(e, r[j]);
      assert r[j] in r;
    }
  }

  // ---- symmetry, transitivity, distinct names ----

  lemma {:induction false} Symmetric(a: Entry, b: Entry)
    requires Compatible(a, b)
    ensures Compatible(b, a)
    decreases a, 1
  {
    ListSymmetric(a.kids, b.kids);
  }

  lemma {:induction false} ListSymmetric(l: seq<Entry>, r: seq<Entry>)
    requires ListCompatible(l, r)
    ensures ListCompatible(r, l)
    decreases l
  {
    PartnersShareNames(l, r);
    SameNames(l, r);
    forall j | 0 <= j < |r| ensures HasPartner(r[j], l) {
      assert r[j] in r && r[j].name in Names(l);
      var e :| e in l && e.name == r[j].name;
      var i :| 0 <= i < |l| && l[i] == e;
      PartnerByName(l, r, i, j);
      Symmetric(l[i], r[j]);
    }
  }

  /** The partner of an entry is the one of its name. */
  lemma PartnerByName(l: seq<Entry>, r: seq<Entry>, i: nat, j: nat)
    requires ListCompatible(l, r) && i < |l| && j < |r| && l[i].name == r[j].name
    ensures Compatible(l[i], r[j])
  {
    assert HasPartner(l[i], r);
    var k :| 0 <= k < |r| && Compatible(l[i], r[k]);
    assert k == j;
  }

  lemma {:induction false} Transitive(a: Entry, b: Entry, c: Entry)
    requires Compatible(a, b) && Compatible(b, c)
    ensures Compatible(a, c)
    decreases a, 1
  {
    ListTransitive(a.kids, b.kids, c.kids);
  }

  lemma {:induction false} ListTransitive(a: seq<Entry>, b: seq<Entry>, c: seq<Entry>)
    requires ListCompatible(a, b) && ListCompatible(b, c)
    ensures ListCompatible(a, c)
    decreases a
  {
    forall i | 0 <= i < |a| ensures HasPartner(a[i], c) {
      assert HasPartner(a[i], b);
      var j :| 0 <= j < |b| && Compatible(a[i], b[j]);
      assert HasPartner(b[j], c);
      var k :| 0 <= k < |c| && Compatible(b[j], c[k]);
      Transitive(a[i], b[j], c[k]);
    }
  }

  /** No two siblings share a name, at any depth. */
  ghost predicate AllDistinct(e: Entry) {
    DistinctNames(e.kids) && forall k :: 0 <= k < |e.kids| ==> AllDistinct(e.kids[k])
  }

  /** An entry is compatible with itself exactly when its sibling names are distinct throughout. */
  lemma {:induction false} ReflexiveExactlyWhen(e: Entry)
    ensures Compatible(e, e) <==> AllDistinct(e)
    decreases e
  {
    forall k | 0 <= k < |e.kids| ensures Compatible(e.kids[k], e.kids[k]) <==> AllDistinct(e.kids[k]) {
      ReflexiveExactlyWhen(e.kids[k]);
    }
    if AllDistinct(e) {
      forall k | 0 <= k < |e.kids| ensures HasPartner(e.kids[k], e.kids) {
        assert Compatible(e.kids[k], e.kids[k]);
      }
    }
    if Compatible(e, e) {
      forall k | 0 <= k < |e.kids| ensures Compatible(e.kids[k], e.kids[k]) {
        PartnerByName(e.kids, e.kids, k, k);
      }
    }
  }

  /** Being compatible with anything forces distinct sibling names throughout, on both sides. */
  lemma CompatibleAreDistinct(a: Entry, b: Entry)
    requires Compatible(a, b)
    ensures AllDistinct(a) && AllDistinct(b)
  {
    Symmetric(a, b);
    Transitive(a, b, a);
    Transitive(b, a, b);
    ReflexiveExactlyWhen(a);
    ReflexiveExactlyWhen(b);
  }

  // ---- the order of the children ----

  ghost predicate IsPermutation(p: seq<nat>, n: nat) {
    && |p| == n && (forall i :: 0 <= i < n ==> p[i] < n)
    && forall i, j :: 0 <= i < j < n ==> p[i] != p[j]
  }

  /** The same entry up to the order of children at any depth. */
  ghost predicate Shuffled(a: Entry, b: Entry)
    decreases a, 1
  {
    && a.name == b.name && a.field == b.field && a.hivePartition == b.hivePartition
    && exists p :: ShuffledBy(a.kids, b.kids, p)
  }

  ghost predicate ShuffledBy(l: seq<Entry>, r: seq<Entry>, p: seq<nat>)
    decreases l
  {
    |l| == |r| && IsPermutation(p, |l|) && forall i :: 0 <= i < |l| ==> Shuffled(l[i], r[p[i]])
  }

  lemma {:induction false} ShuffledAreCompatible(a: Entry, b: Entry)
    requires Shuffled(a, b) && AllDistinct(a)
    ensures Compatible(a, b)
    decreases a
  {
    var p :| ShuffledBy(a.kids, b.kids, p);
    forall i | 0 <= i < |a.kids| ensures HasPartner(a.kids[i], b.kids) {
      ShuffledAreCompatible(a.kids[i], b.kids[p[i]]);
    }
    PartnersShareNames(a.kids, b.kids);
    SameNames(a.kids, b.kids);
  }

  lemma {:induction false} ShuffledFromDistinct(a: Entry, b: Entry)
    requires Shuffled(a, b) && AllDistinct(b)
    ensures AllDistinct(a)
    decreases a
  {
    var p :| ShuffledBy(a.kids, b.kids, p);
    forall i | 0 <= i < |a.kids| ensures AllDistinct(a.kids[i]) && a.kids[i].name == b.kids[p[i]].name {
      ShuffledFromDistinct(a.kids[i], b.kids[p[i]]);
    }
  }

  /** Reordering children at any depth changes no comparison. */
  lemma ChildOrderIgnored(a: Entry, b: Entry, other: Entry)
    requires Shuffled(a, b)
    ensures Compatible(other, a) <==> Compatible(other, b)
  {
    if Compatible(other, a) {
      CompatibleAreDistinct(other, a);
      ShuffledAreCompatible(a, b);
      Transitive(other, a, b);
    }
    if Compatible(other, b) {
      CompatibleAreDistinct(other, b);
      ShuffledFromDistinct(a, b);
      ShuffledAreCompatible(a, b);
      Symmetric(a, b);
      Transitive(other, b, a);
    }
  }

  // ---- what a name map says ----

  /** The first entry of that name. */
  function Named(l: seq<Entry>, name: string): (e: Option<Entry>)
    ensures e.Some? ==> e.value in l && e.value.name == name
    ensures e.None? ==> forall x :: x in l ==> x.name != name
  {
    if l == [] then None else if l[0].name == name then Some(l[0]) else Named(l[1..], name)
  }

  /** What is said of the column found by following the names: its field and whether it is a partition. */
  function Lookup(l: seq<Entry>, path: seq<string>): Option<(nat, bool)>
    decreases |path|
  {
    if path == [] then None
    else
      var e := Named(l, path[0]);
      if e.None? then None
      else if |path| == 1 then Some((e.value.field, e.value.hivePartition))
      else Lookup(e.value.kids, path[1..])
  }

  /** No two siblings share a name, at any depth of the list. */
  ghost predicate AllDistinctIn(l: seq<Entry>) {
    DistinctNames(l) && forall k :: 0 <= k < |l| ==> AllDistinct(l[k])
  }

  lemma NamedIsPartner(l: seq<Entry>, i: nat)
    requires i < |l| && DistinctNames(l)
    ensures Named(l, l[i].name) == Some(l[i])
  {
    var e := Named(l, l[i].name);
    assert l[i] in l;
    var k :| 0 <= k < |l| && l[k] == e.value;
    assert k == i;
  }

  /** Compatible lists say the same of every column. */
  lemma {:induction false} CompatibleLookup(l: seq<Entry>, r: seq<Entry>, path: seq<string>)
    requires ListCompatible(l, r)
    ensures Lookup(l, path) == Lookup(r, path)
    decreases |path|
  {
    if path != [] {
      var name := path[0];
      PartnersShareNames(l, r);
      SameNames(l, r);
      if e :| e in l && e.name == name {
        var i :| 0 <= i < |l| && l[i] == e;
        assert HasPartner(l[i], r);
        var j :| 0 <= j < |r| && Compatible(l[i], r[j]);
        NamedIsPartner(l, i);
        NamedIsPartner(r, j);
        CompatibleLookup(l[i].kids, r[j].kids, path[1..]);
      } else {
        assert name !in Names(l);
        assert forall x :: x in r ==> x.name in Names(r);
      }
    }
  }

  lemma PathBelow(l: seq<Entry>, e: Entry, path: seq<string>)
    requires Named(l, e.name) == Some(e) && path != []
    ensures Lookup(l, [e.name] + path) == Lookup(e.kids, path)
  {
    assert ([e.name] + path)[1..] == path;
  }

  /** Both lists say the same of every column. */
  ghost predicate SayTheSame(l: seq<Entry>, r: seq<Entry>) {
    forall path :: Lookup(l, path) == Lookup(r, path)
  }

  /** Lists that say the same name the same columns. */
  lemma SameLookupNames(l: seq<Entry>, r: seq<Entry>)
    requires SayTheSame(l, r)
    ensures Names(l) <= Names(r)
  {
    forall e | e in l ensures e.name in Names(r) {
      assert Lookup(l, [e.name]).Some?;
      assert Lookup(r, [e.name]).Some?;
    }
  }

  lemma {:induction false} SameLookupCompatible(l: seq<Entry>, r: seq<Entry>)
    requires AllDistinctIn(l) && AllDistinctIn(r) && SayTheSame(l, r)
    ensures ListCompatible(l, r)
    decreases l
  {
    SameLookupNames(l, r);
    SameLookupNames(r, l);
    NamesCount(l);
    NamesCount(r);
    assert Names(l) == Names(r);
    forall i | 0 <= i < |l| ensures HasPartner(l[i], r) {
      PartnerByLookup(l, r, i);
    }
  }

  lemma {:induction false} PartnerByLookup(l: seq<Entry>, r: seq<Entry>, i: nat)
    requires AllDistinctIn(l) && AllDistinctIn(r) && i < |l| && SayTheSame(l, r)
    ensures HasPartner(l[i], r)
    decreases l[i], 3
  {
    var e := l[i];
    NamedIsPartner(l, i);
    assert Lookup(l, [e.name]) == Some((e.field, e.hivePartition)) == Lookup(r, [e.name]);
    var f := Named(r, e.name).value;
    var j :| 0 <= j < |r| && r[j] == f;
    forall path ensures Lookup(e.kids, path) == Lookup(f.kids, path) {
      if path != [] {
        PathBelow(l, e, path);
        PathBelow(r, f, path);
      }
    }
    assert AllDistinct(e) && AllDistinct(r[j]);
    SameLookupCompatible(e.kids, f.kids);
    assert Compatible(e, r[j]);
  }

  lemma CompatibleListsAreDistinct(l: seq<Entry>, r: seq<Entry>)
    requires ListCompatible(l, r)
    ensures AllDistinctIn(l) && AllDistinctIn(r)
  {
    ListSymmetric(l, r);
    forall i | 0 <= i < |l| ensures AllDistinct(l[i]) {
      assert HasPartner(l[i], r);
      var j :| 0 <= j < |r| && Compatible(l[i], r[j]);
      CompatibleAreDistinct(l[i], r[j]);
    }
    forall j | 0 <= j < |r| ensures AllDistinct(r[j]) {
      assert HasPartner(r[j], l);
      var i :| 0 <= i < |l| && Compatible(r[j], l[i]);
      CompatibleAreDistinct(r[j], l[i]);
    }
  }

  /** Two name maps are compatible exactly when sibling names are distinct in both and they say the same of
      every column, found by the names from the top down: which field it is and whether it is a
      partition. */
  lemma CompatibleExactlyWhen(l: seq<Entry>, r: seq<Entry>)
    ensures ListCompatible(l, r) <==>
            AllDistinctIn(l) && AllDistinctIn(r) && SayTheSame(l, r)
  {
    if ListCompatible(l, r) {
      CompatibleListsAreDistinct(l, r);
      forall path ensures Lookup(l, path) == Lookup(r, path) {
        CompatibleLookup(l, r, path);
      }
    }
    if AllDistinctIn(l) && AllDistinctIn(r) && SayTheSame(l, r) {
      SameLookupCompatible(l, r);
    }
  }

  // ---- hashing ----

  /** A hash as the set of its one bits. */
  type Word = set<nat>

  function Xor(a: Word, b: Word): Word {
    (a - b) + (b - a)
  }

  function EntryHash(hash: string -> Word, e: Entry): Word
    decreases e, 1
  {
    Xor(hash(e.name), ListHash(hash, e.kids))
  }

  function ListHash(hash: string -> Word, l: seq<Entry>): Word
    decreases l
  {
    if l == [] then {} else Xor(ListHash(hash, l[..|l| - 1]), EntryHash(hash, l[|l| - 1]))
  }

  /** How many entries of a list, at any depth, have a name whose hash has bit n. */
  function Hits(hash: string -> Word, l: seq<Entry>, n: nat): nat
    decreases l
  {
    if l == [] then 0 else Hits(hash, l[..|l| - 1], n) + HitsOf(hash, l[|l| - 1], n)
  }

  function HitsOf(hash: string -> Word, e: Entry, n: nat): nat
    decreases e, 1
  {
    (if n in hash(e.name) then 1 else 0) + Hits(hash, e.kids, n)
  }

  /** The hash of a list has a bit exactly when an odd number of its names, at any depth, hash to it. */
  lemma {:induction false} HashMeans(hash: string -> Word, l: seq<Entry>, n: nat)
    ensures n in ListHash(hash, l) <==> Hits(hash, l, n) % 2 == 1
    decreases l
  {
    if l != [] {
      HashMeans(hash, l[..|l| - 1], n);
      EntryHashMeans(hash, l[|l| - 1], n);
    }
  }

  lemma {:induction false} EntryHashMeans(hash: string -> Word, e: Entry, n: nat)
    ensures n in EntryHash(hash, e) <==> HitsOf(hash, e, n) % 2 == 1
    decreases e, 1
  {
    HashMeans(hash, e.kids, n);
  }

  lemma XorSwap(a: Word, b: Word, c: Word)
    ensures Xor(Xor(a, b), c) == Xor(Xor(a, c), b)
  {
  }

  function Without(r: seq<Entry>, j: nat): seq<Entry>
    requires j < |r|
  {
    r[..j] + r[j + 1..]
  }

  /** An entry can be taken out of the hash of a list from any position. */
  lemma {:induction false} HashWithout(hash: string -> Word, r: seq<Entry>, j: nat)
    requires j < |r|
    ensures ListHash(hash, r) == Xor(ListHash(hash, Without(r, j)), EntryHash(hash, r[j]))
    decreases |r|
  {
    var n := |r| - 1;
    if j < n {
      HashWithout(hash, r[..n], j);
      assert Without(r, j)[..n - 1] == Without(r[..n], j);
      XorSwap(ListHash(hash, Without(r[..n], j)), EntryHash(hash, r[j]), EntryHash(hash, r[n]));
    } else {
      assert Without(r, j) == r[..n];
    }
  }

  /** Compatible entries have equal hashes. */
  lemma {:induction false} CompatibleHashesEqual(hash: string -> Word, a: Entry, b: Entry)
    requires Compatible(a, b)
    ensures EntryHash(hash, a) == EntryHash(hash, b)
    decreases a, 1
  {
    ListHashesEqual(hash, a.kids, b.kids);
  }

  lemma {:induction false} ListHashesEqual(hash: string -> Word, l: seq<Entry>, r: seq<Entry>)
    requires ListCompatible(l, r)
    ensures ListHash(hash, l) == ListHash(hash, r)
    decreases l
  {
    if l != [] {
      var n := |l| - 1;
      assert HasPartner(l[n], r);
      var j :| 0 <= j < |r| && Compatible(l[n], r[j]);
      CompatibleHashesEqual(hash, l[n], r[j]);
      WithoutPartners(l, r, j);
      ListHashesEqual(hash, l[..n], Without(r, j));
      HashWithout(hash, r, j);
    }
  }

  lemma DistinctWithout(r: seq<Entry>, j: nat)
    requires j < |r| && DistinctNames(r)
    ensures DistinctNames(Without(r, j))
  {
  }

  lemma PartnerWithout(e: Entry, r: seq<Entry>, j: nat)
    requires j < |r| && HasPartner(e, r) && e.name != r[j].name
    ensures HasPartner(e, Without(r, j))
  {
    var k :| 0 <= k < |r| && Compatible(e, r[k]);
    assert Without(r, j)[if k < j then k else k - 1] == r[k];
  }

  lemma WithoutPartners(l: seq<Entry>, r: seq<Entry>, j: nat)
    requires ListCompatible(l, r) && l != [] && j < |r| && l[|l| - 1].name == r[j].name
    ensures ListCompatible(l[..|l| - 1], Without(r, j))
  {
    var n := |l| - 1;
    DistinctWithout(r, j);
    forall i | 0 <= i < n ensures HasPartner(l[..n][i], Without(r, j)) {
      assert HasPartner(l[i], r);
      PartnerWithout(l[i], r, j);
    }
  }

  // ---- the comparison ----

  method IsCompatibleWith(a: Entry, b: Entry) returns (ok: bool)
    ensures ok <==> Compatible(a, b)
    decreases a, 1
  {
    if a.name != b.name {
      return false;
    }
    if a.field != b.field {
      return false;
    }
    if a.hivePartition != b.hivePartition {
      return false;
    }
    ok := ListIsCompatible(a.kids, b.kids);
  }

  lemma NameRepeated(l: seq<Entry>, i: nat)
    requires i < |l| && l[i].name in Names(l[..i])
    ensures !DistinctNames(l)
  {
    var e :| e in l[..i] && e.name == l[i].name;
    var k :| 0 <= k < i && l[..i][k] == e;
    assert l[k].name == l[i].name;
  }

  lemma PartnerIndexed(e: Entry, r: seq<Entry>, all: map<string, nat>)
    requires HasPartner(e, r) && FirstPositions(r, |r|, all)
    ensures e.name in all
  {
    var j :| 0 <= j < |r| && Compatible(e, r[j]);
    assert r[j].name == e.name;
  }

  /** A name not on the right, or matched before, rules compatibility out. */
  lemma NameMissing(l: seq<Entry>, r: seq<Entry>, i: nat, all: map<string, nat>)
    requires i < |l| && FirstPositions(r, |r|, all) && (l[i].name !in all || l[i].name in Names(l[..i]))
    ensures !ListCompatible(l, r)
  {
    if l[i].name in Names(l[..i]) {
      NameRepeated(l, i);
    } else if HasPartner(l[i], r) {
      PartnerIndexed(l[i], r, all);
    }
  }

  lemma WrongPartner(l: seq<Entry>, r: seq<Entry>, i: nat, j: nat)
    requires i < |l| && j < |r| && l[i].name == r[j].name && !Compatible(l[i], r[j])
    ensures !ListCompatible(l, r)
  {
    if ListCompatible(l, r) {
      PartnerByName(l, r, i, j);
    }
  }

  lemma NamesMore(l: seq<Entry>, i: nat)
    requires i < |l|
    ensures Names(l[..i + 1]) == Names(l[..i]) + {l[i].name}
    ensures DistinctNames(l[..i]) && l[i].name !in Names(l[..i]) ==> DistinctNames(l[..i + 1])
  {
    assert l[..i + 1] == l[..i] + [l[i]];
    LastName(l[..i], l[i]);
  }

  /** With every entry matched nothing on the right is left over. */
  lemma AllMatched(l: seq<Entry>, r: seq<Entry>, all: map<string, nat>, open: map<string, nat>)
    requires |l| == |r| && FirstPositions(r, |r|, all) && DistinctNames(l) && forall k :: 0 <= k < |l| ==> HasPartner(l[k], r)
    requires forall name :: name in open ==> name in all && name !in Names(l)
    ensures ListCompatible(l, r) && open == map[]
  {
    PartnersShareNames(l, r);
    SameNames(l, r);
    forall name | name in all ensures name in Names(r) {
      assert r[all[name]] in r;
    }
    assert forall name :: name !in open;
  }

  /** Compares two lists by taking matched names out of an index of the right-hand one. */
  method ListIsCompatible(l: seq<Entry>, r: seq<Entry>) returns (ok: bool)
    ensures ok <==> ListCompatible(l, r)
    decreases l
  {
    if |l| != |r| {
      return false;
    }
    var open := IndexNames(r);
    ghost var all := open;
    var i := 0;
    while i < |l|
      invariant 0 <= i <= |l| && FirstPositions(r, |r|, all)
      invariant forall name :: name in open ==> name in all && open[name] == all[name]
      invariant forall name :: name in all ==> (name in open <==> name !in Names(l[..i]))
      invariant DistinctNames(l[..i]) && forall k :: 0 <= k < i ==> HasPartner(l[k], r) && l[k].name in all
    {
      if l[i].name !in open {
        NameMissing(l, r, i, all);
        return false;
      }
      var j := open[l[i].name];
      var agree := IsCompatibleWith(l[i], r[j]);
      if !agree {
        WrongPartner(l, r, i, j);
        return false;
      }
      NamesMore(l, i);
      open := open - {l[i].name};
      i := i + 1;
    }
    assert l[..i] == l;
    AllMatched(l, r, all, open);
    ok := open == map[];
  }
}
