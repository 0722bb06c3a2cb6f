/**
 Which schemas must be skipped at load time because an ancestor is missing.  Parent chains are
 walked once with two memo sets; a chain that runs into itself is an error.
 */
module SchemaReachability {
  import opened Tables

  datatype Schema = Schema(id: nat, parent: Option<nat>)

  datatype Outcome = Unreachable(ids: set<nat>) | CyclicChain(id: nat)

  ghost predicate DistinctIds(schemas: seq<Schema>) {
    forall i, j :: 0 <= i < j < |schemas| ==> schemas[i].id != schemas[j].id
  }

  function ById(schemas: seq<Schema>): map<nat, Schema> {
    if schemas == [] then map[]
    else
      var n := |schemas| - 1;
      ById(schemas[..n])[schemas[n].id := schemas[n]]
  }

  /** The ancestor n levels up, as long as every step leads to a known schema. */
  function Ancestor(byId: map<nat, Schema>, id: nat, n: nat): Option<nat>
    decreases n
  {
    if id !in byId then None
    else if n == 0 then Some(id)
    else if byId[id].parent.None? then None
    else Ancestor(byId, byId[id].parent.value, n - 1)
  }

  /** The chain stops at x, at the top or below a missing parent. */
  predicate Stops(byId: map<nat, Schema>, x: nat, missing: bool) {
    x in byId && if missing then byId[x].parent.Some? && byId[x].parent.value !in byId else byId[x].parent.None?
  }

  ghost predicate StopsAfter(byId: map<nat, Schema>, id: nat, n: nat, missing: bool) {
    Ancestor(byId, id, n).Some? && Stops(byId, Ancestor(byId, id, n).value, missing)
  }

  ghost predicate HasMissingAncestor(byId: map<nat, Schema>, id: nat) {
    exists n: nat :: StopsAfter(byId, id, n, true)
  }

  ghost predicate ReachesTop(byId: map<nat, Schema>, id: nat) {
    exists n: nat :: StopsAfter(byId, id, n, false)
  }

  ghost predicate Meets(byId: map<nat, Schema>, id: nat, m: nat, n: nat) {
    m < n && Ancestor(byId, id, m).Some? && Ancestor(byId, id, m) == Ancestor(byId, id, n)
  }

  /** The chain comes back to a schema it already passed. */
  ghost predicate Cyclic(byId: map<nat, Schema>, id: nat) {
    exists m: nat, n: nat :: Meets(byId, id, m, n)
  }

  // ---- walking ----

  lemma {:induction false} AncestorAdd(byId: map<nat, Schema>, id: nat, a: nat, b: nat)
    ensures Ancestor(byId, id, a + b) ==
            if Ancestor(byId, id, a).Some? then Ancestor(byId, Ancestor(byId, id, a).value, b) else None
    decreases a
  {
    if id in byId && a > 0 && byId[id].parent.Some? {
      AncestorAdd(byId, byId[id].parent.value, a - 1, b);
    }
  }

  /** A chain stops at most once: there is nothing beyond the stop. */
  lemma StopsOnce(byId: map<nat, Schema>, id: nat, n: nat, missing: bool, k: nat)
    requires StopsAfter(byId, id, n, missing) && k > n
    ensures Ancestor(byId, id, k).None?
  {
    AncestorAdd(byId, id, n, k - n);
  }

  /** The three fates of a chain exclude each other. */
  lemma FatesExclude(byId: map<nat, Schema>, id: nat)
    ensures !(HasMissingAncestor(byId, id) && ReachesTop(byId, id))
    ensures Cyclic(byId, id) ==> !HasMissingAncestor(byId, id) && !ReachesTop(byId, id)
  {
    if HasMissingAncestor(byId, id) && ReachesTop(byId, id) {
      var n: nat :| StopsAfter(byId, id, n, true);
      var k: nat :| StopsAfter(byId, id, k, false);
      if n < k {
        StopsOnce(byId, id, n, true, k);
      } else if k < n {
        StopsOnce(byId, id, k, false, n);
      }
    }
    if Cyclic(byId, id) {
      var m: nat, n: nat :| Meets(byId, id, m, n);
      forall k: nat, missing: bool ensures !StopsAfter(byId, id, k, missing) {
        CycleNeverStops(byId, id, m, n, k, missing);
      }
    }
  }

  lemma CycleNeverStops(byId: map<nat, Schema>, id: nat, m: nat, n: nat, k: nat, missing: bool)
    requires Meets(byId, id, m, n)
    ensures !StopsAfter(byId, id, k, missing)
  {
    if StopsAfter(byId, id, k, missing) {
      if k < n {
        StopsOnce(byId, id, k, missing, n);
      } else {
        AncestorAdd(byId, id, m, k - n);
        AncestorAdd(byId, id, n, k - n);
        assert StopsAfter(byId, id, m + (k - n), missing);
        StopsOnce(byId, id, m + (k - n), missing, k);
      }
    }
  }

  /** A schema shares the fate of its parent. */
  lemma ParentFate(byId: map<nat, Schema>, x: nat)
    requires x in byId && byId[x].parent.Some? && byId[x].parent.value in byId
    ensures HasMissingAncestor(byId, byId[x].parent.value) ==> HasMissingAncestor(byId, x)
    ensures ReachesTop(byId, byId[x].parent.value) ==> ReachesTop(byId, x)
  {
    var p := byId[x].parent.value;
    forall n: nat, missing: bool | StopsAfter(byId, p, n, missing) ensures StopsAfter(byId, x, n + 1, missing) {
    }
  }

  /** A schema has a missing ancestor exactly when its parent is missing or has one, and its chain reaches
      the top exactly when it is a root or its parent's chain does. */
  lemma FateExactlyWhen(byId: map<nat, Schema>, x: nat)
    ensures HasMissingAncestor(byId, x) <==>
            x in byId && byId[x].parent.Some? && (byId[x].parent.value !in byId || HasMissingAncestor(byId, byId[x].parent.value))
    ensures ReachesTop(byId, x) <==> x in byId && (byId[x].parent.None? || ReachesTop(byId, byId[x].parent.value))
  {
    forall n: nat, missing: bool | StopsAfter(byId, x, n, missing) && n > 0
      ensures byId[x].parent.Some? && StopsAfter(byId, byId[x].parent.value, n - 1, missing)
    {
    }
    forall n: nat, missing: bool | x in byId && byId[x].parent.Some? && StopsAfter(byId, byId[x].parent.value, n, missing)
      ensures StopsAfter(byId, x, n + 1, missing)
    {
    }
    if x in byId {
      assert StopsAfter(byId, x, 0, true) <==> Stops(byId, x, true);
      assert StopsAfter(byId, x, 0, false) <==> Stops(byId, x, false);
    }
  }

  // ---- one chain ----

  /** The chain lists the first ancestors of its start; next is the one to look at. */
  ghost predicate IsChain(byId: map<nat, Schema>, start: nat, chain: seq<nat>, next: nat) {
    Ancestor(byId, start, |chain|) == Some(next) && forall k :: 0 <= k < |chain| ==> Ancestor(byId, start, k) == Some(chain[k])
  }

  ghost predicate HasFate(byId: map<nat, Schema>, x: nat, missing: bool) {
    if missing then HasMissingAncestor(byId, x) else ReachesTop(byId, x)
  }

  /** The fate of the schema after a chain is that of all its members. */
  lemma {:induction false} ChainFate(byId: map<nat, Schema>, start: nat, chain: seq<nat>, next: nat, missing: bool, k: nat)
    requires IsChain(byId, start, chain, next) && HasFate(byId, next, missing) && k < |chain|
    ensures HasFate(byId, chain[k], missing)
    decreases |chain| - k
  {
    AncestorAdd(byId, start, k, 1);
    AncestorInMap(byId, start, k);
    AncestorInMap(byId, start, k + 1);
    if k < |chain| - 1 {
      ChainFate(byId, start, chain, next, missing, k + 1);
    }
    ParentFate(byId, chain[k]);
  }

  lemma ChainFates(byId: map<nat, Schema>, start: nat, chain: seq<nat>, next: nat, missing: bool)
    requires IsChain(byId, start, chain, next) && HasFate(byId, next, missing)
    ensures forall x :: x in chain ==> HasFate(byId, x, missing)
    ensures chain == [] ==> start == next
    ensures chain != [] ==> start == chain[0]
  {
    forall k | 0 <= k < |chain| ensures HasFate(byId, chain[k], missing) {
      ChainFate(byId, start, chain, next, missing, k);
    }
  }

  /** Coming back to a member closes a loop. */
  lemma ChainLoops(byId: map<nat, Schema>, start: nat, chain: seq<nat>, next: nat)
    requires IsChain(byId, start, chain, next) && next in chain
    ensures Cyclic(byId, start) && OnLoop(byId, next)
  {
    var k :| 0 <= k < |chain| && chain[k] == next;
    assert Meets(byId, start, k, |chain|);
    AncestorAdd(byId, start, k, |chain| - k);
    assert ComesBack(byId, next, |chain| - k);
  }

  ghost predicate ComesBack(byId: map<nat, Schema>, id: nat, n: nat) {
    n > 0 && Ancestor(byId, id, n) == Some(id)
  }

  /** The schema is its own ancestor. */
  ghost predicate OnLoop(byId: map<nat, Schema>, id: nat) {
    exists n: nat :: ComesBack(byId, id, n)
  }

  lemma {:induction false} AncestorInMap(byId: map<nat, Schema>, id: nat, n: nat)
    ensures Ancestor(byId, id, n).Some? ==> Ancestor(byId, id, n).value in byId
    decreases n
  {
    if id in byId && n > 0 && byId[id].parent.Some? {
      AncestorInMap(byId, byId[id].parent.value, n - 1);
    }
  }

  datatype Walk = Top(chain: seq<nat>) | Missing(chain: seq<nat>) | Loop(id: nat)

  ghost predicate AllHaveFate(byId: map<nat, Schema>, ids: set<nat>, missing: bool) {
    forall x :: x in ids ==> HasFate(byId, x, missing)
  }

  function Members(chain: seq<nat>): set<nat> {
    set x | x in chain
  }

  /** What a walk found out, given what was known of other schemas. */
  ghost predicate Settled(byId: map<nat, Schema>, start: nat, walk: Walk, reachable: set<nat>, unreachable: set<nat>) {
    match walk
    case Top(chain) => AllHaveFate(byId, Members(chain), false) && start in Members(chain) + reachable
    case Missing(chain) => AllHaveFate(byId, Members(chain), true) && start in Members(chain) + unreachable
    case Loop(id) => Cyclic(byId, start) && OnLoop(byId, id)
  }

  /** Follows one schema's parents until the fate of its chain is known. */
  method WalkUp(byId: map<nat, Schema>, start: nat, reachable: set<nat>, unreachable: set<nat>) returns (walk: Walk)
    requires start in byId
    requires AllHaveFate(byId, reachable, false) && AllHaveFate(byId, unreachable, true)
    ensures Settled(byId, start, walk, reachable, unreachable)
  {
    var chain: seq<nat>, visited: set<nat>, current := [], {}, start;
    while true
      invariant IsChain(byId, start, chain, current) && current in byId
      invariant visited == (set x | x in chain) && visited <= byId.Keys
      decreases byId.Keys - visited
    {
      if current in reachable {
        ChainFates(byId, start, chain, current, false);
        return Top(chain);
      }
      if current in unreachable {
        ChainFates(byId, start, chain, current, true);
        return Missing(chain);
      }
      if current in visited {
        ChainLoops(byId, start, chain, current);
        return Loop(current);
      }
      var parent := byId[current].parent;
      assert Ancestor(byId, current, 0) == Some(current);
      if parent.None? {
        assert StopsAfter(byId, current, 0, false);
        ChainFates(byId, start, chain, current, false);
        return Top(chain + [current]);
      }
      if parent.value !in byId {
        assert StopsAfter(byId, current, 0, true);
        ChainFates(byId, start, chain, current, true);
        return Missing(chain + [current]);
      }
      AncestorAdd(byId, start, |chain|, 1);
      visited := visited + {current};
      chain := chain + [current];
      current := parent.value;
    }
  }

  method Index(schemas: seq<Schema>) returns (byId: map<nat, Schema>)
    ensures byId == ById(schemas)
  {
    byId := map[];
    var i := 0;
    while i < |schemas|
      invariant 0 <= i <= |schemas| && byId == ById(schemas[..i])
    {
      assert schemas[..i + 1][..i] == schemas[..i];
      byId := byId[schemas[i].id := schemas[i]];
      i := i + 1;
    }
    assert schemas[..i] == schemas;
  }

  /** Every schema is settled, so the memo sets hold exactly the fates. */
  lemma AllSettled(byId: map<nat, Schema>, reachable: set<nat>, unreachable: set<nat>)
    requires AllHaveFate(byId, reachable, false) && AllHaveFate(byId, unreachable, true)
    requires byId.Keys <= reachable + unreachable
    ensures forall x :: x in byId ==> !Cyclic(byId, x)
    ensures forall x :: x in unreachable <==> HasMissingAncestor(byId, x)
  {
    forall x | x in byId ensures !Cyclic(byId, x) && (x in unreachable <==> HasMissingAncestor(byId, x)) {
      FatesExclude(byId, x);
    }
    forall x | HasMissingAncestor(byId, x) ensures x in byId {
    }
  }

  /** The schemas to skip, or the error for a chain that runs into itself. */
  method FindUnreachableSchemas(schemas: seq<Schema>) returns (outcome: Outcome)
    requires DistinctIds(schemas)
    ensures outcome.CyclicChain? <==> exists x :: x in ById(schemas) && Cyclic(ById(schemas), x)
    ensures outcome.CyclicChain? ==> OnLoop(ById(schemas), outcome.id)
    ensures outcome.Unreachable? ==> forall x :: x in outcome.ids <==> HasMissingAncestor(ById(schemas), x)
  {
    var byId := Index(schemas);
    ByIdHas(schemas);
    var unreachable: set<nat>, reachable: set<nat>, i := {}, {}, 0;
    while i < |schemas|
      invariant 0 <= i <= |schemas|
      invariant AllHaveFate(byId, reachable, false) && AllHaveFate(byId, unreachable, true)
      invariant forall k :: 0 <= k < i ==> schemas[k].id in reachable + unreachable
    {
      assert schemas[i].id in byId;
      var walk := WalkUp(byId, schemas[i].id, reachable, unreachable);
      match walk {
        case Loop(id) =>
          return CyclicChain(id);
        case Top(chain) =>
          reachable := reachable + Members(chain);
        case Missing(chain) =>
          unreachable := unreachable + Members(chain);
      }
      i := i + 1;
    }
    AllSettled(byId, reachable, unreachable);
    outcome := Unreachable(unreachable);
  }

  lemma {:induction false} ByIdHas(schemas: seq<Schema>)
    ensures forall x :: x in ById(schemas) <==> exists k :: 0 <= k < |schemas| && schemas[k].id == x
    ensures forall x :: x in ById(schemas) ==> ById(schemas)[x] in schemas && ById(schemas)[x].id == x
  {
    if schemas != [] {
      ByIdHas(schemas[..|schemas| - 1]);
    }
  }

  /** Only which schemas there are matters, not their order. */
  lemma OrderIrrelevant(a: seq<Schema>, b: seq<Schema>)
    requires DistinctIds(a) && DistinctIds(b) && forall s :: s in a <==> s in b
    ensures ById(a) == ById(b)
  {
    ByIdHas(a);
    ByIdHas(b);
    forall x ensures x in ById(a) <==> x in ById(b) {
      if x in ById(a) {
        assert ById(a)[x] in b;
      }
      if x in ById(b) {
        assert ById(b)[x] in a;
      }
    }
    forall x | x in ById(a) ensures ById(a)[x] == ById(b)[x] {
      assert ById(b)[x] in a;
    }
  }
}
