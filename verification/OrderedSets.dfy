/** Finite sets of numbers listed in ascending order. */
module OrderedSets {
  lemma {:induction false} LeastExists(s: set<nat>)
    requires s != {}
    ensures exists m :: m in s && forall x :: x in s ==> m <= x
  {
    var m :| m in s;
    if s - {m} != {} {
      LeastExists(s - {m});
      var n :| n in s - {m} && forall x :: x in s - {m} ==> n <= x;
      var k := if m < n then m else n;
      assert forall x :: x in s ==> x == m || x in s - {m};
      assert k in s && forall x :: x in s ==> k <= x;
    } else {
      assert s == {m};
    }
  }

  function Least(s: set<nat>): (m: nat)
    requires s != {}
    ensures m in s && forall x :: x in s ==> m <= x
  {
    LeastExists(s);
    var m :| m in s && forall x :: x in s ==> m <= x;
    m
  }

  ghost predicate Increasing(s: seq<nat>) {
    forall i, j :: 0 <= i < j < |s| ==> s[i] < s[j]
  }

  /** The elements of an ordered set, smallest first. */
  function Ascending(s: set<nat>): (r: seq<nat>)
    ensures Increasing(r) && (forall x :: x in r <==> x in s) && |r| == |s|
  {
    if s == {} then [] else
      var m := Least(s);
      var rest := Ascending(s - {m});
      assert forall i :: 0 <= i < |rest| ==> rest[i] in rest;
      [m] + rest
  }
}
