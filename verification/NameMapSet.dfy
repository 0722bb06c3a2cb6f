/** The registered name maps of a transaction, looked up by hash up to compatibility. */
module NameMapSet {
  import opened Tables
  import opened NameMap

  datatype Mapping = Mapping(id: nat, table: nat, columns: seq<Entry>)

  ghost predicate SameMapping(a: Mapping, b: Mapping) {
    a.table == b.table && ListCompatible(a.columns, b.columns)
  }

  /** Two registered maps stand for each other exactly when they belong to the same table and say the same of
      every column, with distinct sibling names. */
  lemma SameMappingExactlyWhen(a: Mapping, b: Mapping)
    ensures SameMapping(a, b) <==>
            a.table == b.table && AllDistinctIn(a.columns) && AllDistinctIn(b.columns)
            && SayTheSame(a.columns, b.columns)
  {
    CompatibleExactlyWhen(a.columns, b.columns);
  }

  /** Sibling names are distinct throughout, so that the mapping is compatible with itself. */
  ghost predicate WellNamed(m: Mapping) {
    SameMapping(m, m)
  }

  lemma SameMappingSymmetric(a: Mapping, b: Mapping)
    requires SameMapping(a, b)
    ensures SameMapping(b, a)
  {
    ListSymmetric(a.columns, b.columns);
  }

  lemma SameMappingTransitive(a: Mapping, b: Mapping, c: Mapping)
    requires SameMapping(a, b) && SameMapping(b, c)
    ensures SameMapping(a, c)
  {
    ListTransitive(a.columns, b.columns, c.columns);
  }

  function MappingHash(hash: string -> Word, tableHash: nat -> Word, m: Mapping): Word {
    Xor(tableHash(m.table), ListHash(hash, m.columns))
  }

  lemma SameMappingsHashEqual(hash: string -> Word, tableHash: nat -> Word, a: Mapping, b: Mapping)
    requires SameMapping(a, b)
    ensures MappingHash(hash, tableHash, a) == MappingHash(hash, tableHash, b)
  {
    ListHashesEqual(hash, a.columns, b.columns);
  }

  method IsSameMapping(a: Mapping, b: Mapping) returns (ok: bool)
    ensures ok <==> SameMapping(a, b)
  {
    if a.table != b.table {
      return false;
    }
    ok := ListIsCompatible(a.columns, b.columns);
  }

  // ---- registered mappings and their representatives ----

  ghost predicate Covered(representatives: set<Mapping>, m: Mapping) {
    exists r :: r in representatives && SameMapping(m, r)
  }

  /** Representatives are registered and pairwise incompatible. */
  ghost predicate Consistent(maps: map<nat, Mapping>, representatives: set<Mapping>) {
    && (forall id :: id in maps ==> maps[id].id == id && WellNamed(maps[id]))
    && (forall r :: r in representatives ==> r.id in maps && maps[r.id] == r)
    && (forall a, b :: a in representatives && b in representatives && SameMapping(a, b) ==> a == b)
  }

  /** Every registered mapping is compatible with a representative. */
  ghost predicate AllCovered(maps: map<nat, Mapping>, representatives: set<Mapping>) {
    forall id :: id in maps ==> Covered(representatives, maps[id])
  }

  lemma AddedConsistent(maps: map<nat, Mapping>, representatives: set<Mapping>, m: Mapping)
    requires Consistent(maps, representatives) && WellNamed(m) && m.id !in maps
    ensures Consistent(maps[m.id := m], if Covered(representatives, m) then representatives else representatives + {m})
    ensures AllCovered(maps, representatives) ==>
              AllCovered(maps[m.id := m], if Covered(representatives, m) then representatives else representatives + {m})
  {
    forall r | r in representatives && SameMapping(r, m) ensures Covered(representatives, m) {
      SameMappingSymmetric(r, m);
    }
    var more := if Covered(representatives, m) then representatives else representatives + {m};
    forall x | Covered(representatives, x) ensures Covered(more, x) {
      var r :| r in representatives && SameMapping(x, r);
      assert r in more;
    }
    assert m in representatives + {m};
  }

  /** Some other registered mapping is compatible with the one under this id. */
  ghost predicate HasTwin(maps: map<nat, Mapping>, id: nat) {
    id in maps && exists k :: k in maps && k != id && SameMapping(maps[k], maps[id])
  }

  lemma RemovedConsistent(maps: map<nat, Mapping>, representatives: set<Mapping>, id: nat)
    requires Consistent(maps, representatives) && id in maps
    ensures Consistent(maps - {id}, representatives - {maps[id]})
  {
    forall r | r in representatives - {maps[id]} ensures r.id != id {
    }
  }

  /** After a removal everything left is covered exactly when it was covered before and the removed mapping
      was no representative or had no twin. */
  lemma RemovedCoveredExactlyWhen(maps: map<nat, Mapping>, representatives: set<Mapping>, id: nat)
    requires Consistent(maps, representatives) && id in maps
    ensures AllCovered(maps - {id}, representatives - {maps[id]}) <==>
            AllCovered(maps - {id}, representatives) && !(maps[id] in representatives && HasTwin(maps, id))
  {
    var m, left, others := maps[id], maps - {id}, representatives - {maps[id]};
    if m in representatives && HasTwin(maps, id) {
      var k :| k in maps && k != id && SameMapping(maps[k], m);
      TwinUncovered(maps, representatives, id, k);
      assert k in left;
    } else {
      forall k | k in left && Covered(others, left[k]) ensures Covered(representatives, left[k]) {
        var r :| r in others && SameMapping(left[k], r);
        assert r in representatives;
      }
      forall k | k in left && Covered(representatives, left[k]) ensures Covered(others, left[k]) {
        assert Covered(representatives, maps[k]);
        var r :| r in representatives && SameMapping(maps[k], r);
        assert r != m;
        assert r in others;
      }
    }
  }

  lemma TwinUncovered(maps: map<nat, Mapping>, representatives: set<Mapping>, id: nat, k: nat)
    requires Consistent(maps, representatives) && id in maps && k in maps && maps[id] in representatives && SameMapping(maps[k], maps[id])
    ensures !Covered(representatives - {maps[id]}, maps[k])
  {
    forall r | r in representatives - {maps[id]} ensures !SameMapping(maps[k], r) {
      if SameMapping(maps[k], r) {
        SameMappingSymmetric(maps[k], maps[id]);
        SameMappingTransitive(maps[id], maps[k], r);
      }
    }
  }

  // ---- buckets ----

  function Bucket(buckets: map<Word, seq<Mapping>>, h: Word): seq<Mapping> {
    if h in buckets then buckets[h] else []
  }

  /** Each representative is in the bucket of its hash, and nothing else is in a bucket. */
  ghost predicate Indexed(hash: string -> Word, tableHash: nat -> Word, buckets: map<Word, seq<Mapping>>, representatives: set<Mapping>) {
    forall h, m {:trigger m in Bucket(buckets, h)} ::
      m in Bucket(buckets, h) <==> m in representatives && MappingHash(hash, tableHash, m) == h
  }

  lemma IndexedMore(hash: string -> Word, tableHash: nat -> Word, buckets: map<Word, seq<Mapping>>, representatives: set<Mapping>, m: Mapping)
    requires Indexed(hash, tableHash, buckets, representatives)
    ensures var h := MappingHash(hash, tableHash, m);
            Indexed(hash, tableHash, buckets[h := Bucket(buckets, h) + [m]], representatives + {m})
  {
    var h := MappingHash(hash, tableHash, m);
    var more := buckets[h := Bucket(buckets, h) + [m]];
    forall g, x ensures x in Bucket(more, g) <==> x in representatives + {m} && MappingHash(hash, tableHash, x) == g {
      assert x in Bucket(buckets, g) <==> x in representatives && MappingHash(hash, tableHash, x) == g;
    }
  }

  lemma IndexedLess(hash: string -> Word, tableHash: nat -> Word, buckets: map<Word, seq<Mapping>>, representatives: set<Mapping>, m: Mapping)
    requires Indexed(hash, tableHash, buckets, representatives)
    ensures var h := MappingHash(hash, tableHash, m);
            Indexed(hash, tableHash, buckets[h := Drop(Bucket(buckets, h), m)], representatives - {m})
  {
    var h := MappingHash(hash, tableHash, m);
    var less := buckets[h := Drop(Bucket(buckets, h), m)];
    forall g, x ensures x in Bucket(less, g) <==> x in representatives - {m} && MappingHash(hash, tableHash, x) == g {
      assert x in Bucket(buckets, g) <==> x in representatives && MappingHash(hash, tableHash, x) == g;
    }
  }

  class MappingSet {
    const hash: string -> Word
    const tableHash: nat -> Word
    var maps: map<nat, Mapping>
    /** The hashed set: the representatives by hash. */
    var buckets: map<Word, seq<Mapping>>
    ghost var representatives: set<Mapping>

    ghost predicate Valid()
      reads this
    {
      Consistent(maps, representatives) && Indexed(hash, tableHash, buckets, representatives)
    }

    /** Lookups see every registered mapping. */
    ghost predicate Faithful()
      reads this
    {
      AllCovered(maps, representatives)
    }

    constructor (hash: string -> Word, tableHash: nat -> Word)
      ensures Valid() && Faithful() && maps == map[]
    {
      this.hash, this.tableHash, this.maps, this.buckets, this.representatives := hash, tableHash, map[], map[], {};
    }

    /** Finds the representative compatible with m by looking only into its bucket. */
    method Find(m: Mapping) returns (found: Option<Mapping>)
      requires Valid()
      ensures found.Some? ==> found.value in representatives && SameMapping(m, found.value)
      ensures found.None? <==> !Covered(representatives, m)
    {
      var bucket := Bucket(buckets, MappingHash(hash, tableHash, m));
      var i := 0;
      while i < |bucket|
        invariant 0 <= i <= |bucket|
        invariant forall k :: 0 <= k < i ==> !SameMapping(m, bucket[k])
      {
        var same := IsSameMapping(m, bucket[i]);
        if same {
          assert bucket[i] in bucket;
          return Some(bucket[i]);
        }
        i := i + 1;
      }
      forall r | r in representatives ensures !SameMapping(m, r) {
        if MappingHash(hash, tableHash, r) == MappingHash(hash, tableHash, m) {
          assert r in bucket;
        } else if SameMapping(m, r) {
          SameMappingsHashEqual(hash, tableHash, m, r);
        }
      }
      found := None;
    }

    /** The hashed lookup agrees with a linear search over the registered mappings. */
    method TryGetCompatible(m: Mapping) returns (id: Option<nat>)
      requires Valid()
      ensures id.Some? ==> id.value in maps && SameMapping(m, maps[id.value])
      ensures Faithful() && id.None? ==> forall k :: k in maps ==> !SameMapping(m, maps[k])
      ensures id.None? <==> !Covered(representatives, m)
    {
      var found := Find(m);
      if found.Some? {
        return Some(found.value.id);
      }
      if Faithful() {
        forall k | k in maps ensures !SameMapping(m, maps[k]) {
          assert Covered(representatives, maps[k]);
          var r :| r in representatives && SameMapping(maps[k], r);
          if SameMapping(m, maps[k]) {
            SameMappingTransitive(m, maps[k], r);
          }
        }
      }
      id := None;
    }

    /** Registers a mapping under a new id; the hashed set keeps the first of compatible ones. */
    method Add(m: Mapping)
      requires Valid() && WellNamed(m) && m.id !in maps
      modifies this
      ensures Valid() && maps == old(maps)[m.id := m]
      ensures representatives == if Covered(old(representatives), m) then old(representatives) else old(representatives) + {m}
      ensures old(Faithful()) ==> Faithful()
    {
      AddedConsistent(maps, representatives, m);
      IndexedMore(hash, tableHash, buckets, representatives, m);
      var found := Find(m);
      maps := maps[m.id := m];
      if found.None? {
        var h := MappingHash(hash, tableHash, m);
        buckets := buckets[h := Bucket(buckets, h) + [m]];
        representatives := representatives + {m};
      }
    }

    /** Takes a mapping out of both indexes.  Lookups then see every registered mapping exactly when they saw
        the ones that are left before, and the removed one was not a representative with a twin: the
        twin stays registered but is lost. */
    method Remove(id: nat)
      requires Valid()
      modifies this
      ensures Valid() && maps == old(maps) - {id}
      ensures Faithful() <==> AllCovered(old(maps) - {id}, old(representatives)) &&
                              !(id in old(maps) && old(maps)[id] in old(representatives) && HasTwin(old(maps), id))
    {
      if id !in maps {
        assert maps - {id} == maps;
        return;
      }
      var m := maps[id];
      RemovedConsistent(maps, representatives, id);
      RemovedCoveredExactlyWhen(maps, representatives, id);
      IndexedLess(hash, tableHash, buckets, representatives, m);
      var found := Find(m);
      if found.None? || found.value.id != id {
        assert m !in representatives;
        assert representatives - {m} == representatives;
      }
      if found.Some? && found.value.id == id {
        var h := MappingHash(hash, tableHash, m);
        buckets := buckets[h := Drop(Bucket(buckets, h), m)];
      }
      representatives := representatives - {m};
      maps := maps - {id};
    }
  }

  function Drop(s: seq<Mapping>, m: Mapping): (r: seq<Mapping>)
    ensures forall x :: x in r <==> x in s && x != m
  {
    if s == [] then [] else Drop(s[..|s| - 1], m) + if s[|s| - 1] == m then [] else [s[|s| - 1]]
  }

  /** Two compatible mappings registered, the first removed: the second is no longer found. */
  method TwinIsLost(hash: string -> Word, tableHash: nat -> Word) returns (found: Option<nat>)
    ensures found == None
  {
    var a, b := Mapping(1, 0, []), Mapping(2, 0, []);
    var maps := new MappingSet(hash, tableHash);
    maps.Add(a);
    assert Covered(maps.representatives, b) by {
      assert a in maps.representatives && SameMapping(b, a);
    }
    maps.Add(b);
    assert HasTwin(maps.maps, 1) by {
      assert 2 in maps.maps && SameMapping(maps.maps[2], maps.maps[1]);
    }
    maps.Remove(1);
    found := maps.TryGetCompatible(b);
  }
}
