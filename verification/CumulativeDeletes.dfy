/**
 Deletion-vector files that remember when each row was deleted: one cumulative vector per
 snapshot, and the reader that recovers the first snapshot of every position within bounds.
 A file with a single vector is stored bare, without its snapshot.
 */
module CumulativeDeletes {
  import opened OrderedSets
  import opened Tables

  datatype Delete = Delete(position: nat, snapshot: nat)

  datatype Blob = Blob(snapshot: Option<nat>, positions: set<nat>)

  /** What the writer leaves on disk. */
  datatype File = Bare(positions: set<nat>) | Container(blobs: seq<Blob>)

  datatype Scan =
    | Scanned(rows: seq<nat>, snapshots: seq<nat>, embedded: bool)
    | NoVectors
    | MixedVectors

  // ---- writing ----

  function Snapshots(deletes: seq<Delete>): set<nat> {
    set d | d in deletes :: d.snapshot
  }

  /** Positions deleted at exactly snapshot s. */
  function DeletedAt(deletes: seq<Delete>, s: nat): set<nat> {
    set d | d in deletes && d.snapshot == s :: d.position
  }

  /** Positions deleted at or before snapshot s. */
  function DeletedUpTo(deletes: seq<Delete>, s: nat): set<nat> {
    set d | d in deletes && d.snapshot <= s :: d.position
  }

  /** Groups the deletes by snapshot. */
  method Deltas(deletes: seq<Delete>) returns (deltas: map<nat, set<nat>>)
    ensures deltas.Keys == Snapshots(deletes)
    ensures forall s :: s in deltas ==> deltas[s] == DeletedAt(deletes, s)
  {
    deltas := map[];
    var i := 0;
    while i < |deletes|
      invariant 0 <= i <= |deletes|
      invariant deltas.Keys == Snapshots(deletes[..i])
      invariant forall s :: s in deltas ==> deltas[s] == DeletedAt(deletes[..i], s)
    {
      var d := deletes[i];
      assert forall x :: x in deletes[..i + 1] <==> x in deletes[..i] || x == d;
      assert d.snapshot !in deltas ==> DeletedAt(deletes[..i], d.snapshot) == {};
      deltas := deltas[d.snapshot := (if d.snapshot in deltas then deltas[d.snapshot] else {}) + {d.position}];
      i := i + 1;
    }
    assert deletes[..i] == deletes;
  }

  /** The vectors of the first |blobs| snapshots of the order. */
  ghost predicate CumulativeIn(deletes: seq<Delete>, order: seq<nat>, blobs: seq<Blob>) {
    && |blobs| <= |order|
    && forall i :: 0 <= i < |blobs| ==> blobs[i] == Blob(Some(order[i]), DeletedUpTo(deletes, order[i]))
  }

  /** The blobs a cumulative file consists of: one vector per snapshot, in snapshot order. */
  ghost predicate IsCumulative(deletes: seq<Delete>, blobs: seq<Blob>) {
    |blobs| == |Snapshots(deletes)| && CumulativeIn(deletes, Ascending(Snapshots(deletes)), blobs)
  }

  /** Positions deleted in the first i snapshots of the order. */
  function DeletedBefore(deletes: seq<Delete>, order: seq<nat>, i: nat): set<nat>
    requires i <= |order|
  {
    if i == 0 then {} else DeletedUpTo(deletes, order[i - 1])
  }

  lemma NextSnapshot(deletes: seq<Delete>, order: seq<nat>, i: nat)
    requires Increasing(order) && (forall d :: d in deletes ==> d.snapshot in order) && i < |order|
    ensures DeletedBefore(deletes, order, i) + DeletedAt(deletes, order[i]) == DeletedUpTo(deletes, order[i])
  {
    forall d | d in deletes && d.snapshot <= order[i]
      ensures d.snapshot == order[i] || (i > 0 && d.snapshot <= order[i - 1])
    {
      var k :| 0 <= k < |order| && order[k] == d.snapshot;
      assert k <= i;
    }
  }

  /** One cumulative vector per snapshot, in snapshot order. */
  method Cumulate(deletes: seq<Delete>, order: seq<nat>, deltas: map<nat, set<nat>>) returns (blobs: seq<Blob>)
    requires Increasing(order)
    requires forall d :: d in deletes ==> d.snapshot in order
    requires forall s :: s in order ==> s in deltas && deltas[s] == DeletedAt(deletes, s)
    ensures |blobs| == |order| && CumulativeIn(deletes, order, blobs)
  {
    var running: set<nat> := {};
    blobs := [];
    var i := 0;
    while i < |order|
      invariant 0 <= i <= |order| && |blobs| == i && running == DeletedBefore(deletes, order, i)
      invariant CumulativeIn(deletes, order, blobs)
    {
      NextSnapshot(deletes, order, i);
      running := running + deltas[order[i]];
      blobs := blobs + [Blob(Some(order[i]), running)];
      i := i + 1;
    }
  }

  function AllPositions(deletes: seq<Delete>): set<nat> {
    set d | d in deletes :: d.position
  }

  /** With one snapshot its vector holds every position. */
  lemma OneSnapshot(deletes: seq<Delete>)
    requires |Snapshots(deletes)| == 1
    ensures DeletedUpTo(deletes, Ascending(Snapshots(deletes))[0]) == AllPositions(deletes)
  {
    var order := Ascending(Snapshots(deletes));
    forall d | d in deletes ensures d.snapshot <= order[0] {
      assert d.snapshot in Snapshots(deletes);
      assert d.snapshot in order;
    }
  }

  lemma SnapshotsListed(deletes: seq<Delete>)
    ensures forall d :: d in deletes ==> d.snapshot in Ascending(Snapshots(deletes))
  {
    forall d | d in deletes ensures d.snapshot in Ascending(Snapshots(deletes)) {
      assert d.snapshot in Snapshots(deletes);
    }
  }

  /** Writes one cumulative vector per snapshot; a lone vector is written bare.  The first snapshot
      becomes the file's begin snapshot in the catalog. */
  method WriteWithSnapshots(deletes: seq<Delete>) returns (file: File, begin: Option<nat>)
    ensures |Snapshots(deletes)| == 1 ==> file == Bare(AllPositions(deletes))
    ensures |Snapshots(deletes)| != 1 ==> file.Container? && IsCumulative(deletes, file.blobs)
    ensures begin == if Snapshots(deletes) == {} then None else Some(Least(Snapshots(deletes)))
  {
    var deltas := Deltas(deletes);
    var order := Ascending(deltas.Keys);
    SnapshotsListed(deletes);
    var blobs := Cumulate(deletes, order, deltas);
    if |blobs| == 1 {
      OneSnapshot(deletes);
      file := Bare(blobs[0].positions);
    } else {
      file := Container(blobs);
    }
    begin := None;
    if order != [] {
      begin := Some(order[0]);
      FirstIsLeast(Snapshots(deletes));
    }
  }

  lemma FirstIsLeast(s: set<nat>)
    requires s != {}
    ensures Ascending(s) != [] && Ascending(s)[0] == Least(s)
  {
    assert Least(s) in Ascending(s);
    assert Ascending(s)[0] in s;
  }

  // ---- scanning ----

  function BlobsOf(file: File): seq<Blob> {
    match file
    case Bare(positions) => [Blob(None, positions)]
    case Container(blobs) => blobs
  }

  /** The reader's tests of the bounds, both of which may be met exactly. */
  predicate Above(bound: Option<nat>, s: nat) {
    bound.Some? && s > bound.value
  }

  predicate Below(bound: Option<nat>, s: nat) {
    bound.Some? && s < bound.value
  }

  /** Snapshots within the upper bound whose vector holds p. */
  function Holding(blobs: seq<Blob>, p: nat, max: Option<nat>): set<nat> {
    set b | b in blobs && b.snapshot.Some? && (max.Some? ==> b.snapshot.value <= max.value) && p in b.positions :: b.snapshot.value
  }

  /** What a scan of vectors with snapshots returns: positions in increasing order, each with the
      first snapshot that holds it, when that snapshot is within the bounds. */
  ghost predicate IsScan(blobs: seq<Blob>, min: Option<nat>, max: Option<nat>, scan: Scan) {
    && scan.Scanned? && scan.embedded && Increasing(scan.rows) && |scan.snapshots| == |scan.rows|
    && (forall p :: p in scan.rows <==> Holding(blobs, p, max) != {} && (min.Some? ==> min.value <= Least(Holding(blobs, p, max))))
    && (forall i :: 0 <= i < |scan.rows| ==>
          Holding(blobs, scan.rows[i], max) != {} && scan.snapshots[i] == Least(Holding(blobs, scan.rows[i], max)))
  }

  /** For given vectors: a position is returned exactly when some vector at or before the upper bound holds it
      and none before the lower one does. */
  lemma ScanReturnsExactlyWhen(blobs: seq<Blob>, min: Option<nat>, max: Option<nat>, scan: Scan, p: nat)
    requires AllSnapshots(blobs) && IsScan(blobs, min, max, scan)
    ensures p in scan.rows <==>
            && (exists b :: b in blobs && p in b.positions && (max.Some? ==> b.snapshot.value <= max.value))
            && (forall b :: b in blobs && p in b.positions && min.Some? ==> min.value <= b.snapshot.value)
  {
    forall b | b in blobs && p in b.positions && (max.Some? ==> b.snapshot.value <= max.value)
      ensures b.snapshot.value in Holding(blobs, p, max)
    {
    }
    if Holding(blobs, p, max) != {} {
      var b :| b in blobs && b.snapshot == Some(Least(Holding(blobs, p, max))) && p in b.positions;
    }
  }

  function SnapshotOf(b: Blob): nat {
    if b.snapshot.Some? then b.snapshot.value else 0
  }

  ghost predicate BySnapshot(sorted: seq<Blob>) {
    forall i, j :: 0 <= i < j < |sorted| ==> SnapshotOf(sorted[i]) <= SnapshotOf(sorted[j])
  }

  function InsertBlob(sorted: seq<Blob>, b: Blob): (r: seq<Blob>)
    ensures |r| == |sorted| + 1 && forall x :: x in r <==> x in sorted || x == b
  {
    if sorted == [] || SnapshotOf(b) < SnapshotOf(sorted[0]) then [b] + sorted
    else
      assert sorted == [sorted[0]] + sorted[1..];
      [sorted[0]] + InsertBlob(sorted[1..], b)
  }

  /** The library sort: the blobs in ascending snapshot order. */
  function SortBySnapshot(blobs: seq<Blob>): (r: seq<Blob>)
    ensures |r| == |blobs| && forall x :: x in r <==> x in blobs
  {
    if blobs == [] then []
    else
      assert blobs == [blobs[0]] + blobs[1..];
      InsertBlob(SortBySnapshot(blobs[1..]), blobs[0])
  }

  lemma {:induction false} InsertBlobSorted(sorted: seq<Blob>, b: Blob)
    requires BySnapshot(sorted)
    ensures BySnapshot(InsertBlob(sorted, b))
  {
    if sorted != [] && SnapshotOf(b) >= SnapshotOf(sorted[0]) {
      var rest := InsertBlob(sorted[1..], b);
      InsertBlobSorted(sorted[1..], b);
      forall j | 0 <= j < |rest| ensures SnapshotOf(sorted[0]) <= SnapshotOf(rest[j]) {
        assert rest[j] in rest;
      }
    }
  }

  lemma {:induction false} SortBySnapshotSorted(blobs: seq<Blob>)
    ensures BySnapshot(SortBySnapshot(blobs))
  {
    if blobs != [] {
      SortBySnapshotSorted(blobs[1..]);
      InsertBlobSorted(SortBySnapshot(blobs[1..]), blobs[0]);
    }
  }

  lemma HoldingMore(blobs: seq<Blob>, i: nat, p: nat, max: Option<nat>)
    requires i < |blobs| && blobs[i].snapshot.Some?
    ensures Holding(blobs[..i + 1], p, max) ==
            Holding(blobs[..i], p, max) + (if !Above(max, blobs[i].snapshot.value) && p in blobs[i].positions then {blobs[i].snapshot.value} else {})
  {
    assert forall b :: b in blobs[..i + 1] <==> b in blobs[..i] || b == blobs[i];
  }

  /** Each held position is recorded with its first snapshot. */
  ghost predicate Recorded(first: map<nat, nat>, blobs: seq<Blob>, max: Option<nat>) {
    forall p :: if p in first
                then Holding(blobs, p, max) != {} && first[p] == Least(Holding(blobs, p, max))
                else Holding(blobs, p, max) == {}
  }

  lemma RecordedMore(first: map<nat, nat>, sorted: seq<Blob>, i: nat, max: Option<nat>, more: map<nat, nat>)
    requires BySnapshot(sorted) && AllSnapshots(sorted) && i < |sorted| && !Above(max, SnapshotOf(sorted[i]))
    requires Recorded(first, sorted[..i], max)
    requires more == (map p | p in sorted[i].positions :: SnapshotOf(sorted[i])) + first
    ensures Recorded(more, sorted[..i + 1], max)
  {
    var upTo, earlier := sorted[..i + 1], sorted[..i];
    forall p ensures if p in more then Holding(upTo, p, max) != {} && more[p] == Least(Holding(upTo, p, max)) else Holding(upTo, p, max) == {} {
      HoldingMore(sorted, i, p, max);
      if p in first {
        EarlierFirst(sorted, i, p, max);
        LeastOfMore(Holding(earlier, p, max), SnapshotOf(sorted[i]), Holding(upTo, p, max));
      } else {
        assert Holding(earlier, p, max) == {};
      }
    }
  }

  /** Adding a larger element keeps the least one. */
  lemma LeastOfMore(s: set<nat>, x: nat, more: set<nat>)
    requires s != {} && Least(s) <= x && s <= more <= s + {x}
    ensures Least(more) == Least(s)
  {
  }

  /** Records for every position the first vector, in snapshot order, that holds it. */
  method FirstSnapshots(sorted: seq<Blob>, max: Option<nat>) returns (first: map<nat, nat>)
    requires BySnapshot(sorted) && AllSnapshots(sorted)
    ensures Recorded(first, sorted, max)
  {
    first := map[];
    var i := 0;
    while i < |sorted|
      invariant 0 <= i <= |sorted|
      invariant Recorded(first, sorted[..i], max)
    {
      var s := SnapshotOf(sorted[i]);
      if Above(max, s) {
        NoneBeyond(sorted, i, max);
        return;
      }
      var more := (map p | p in sorted[i].positions :: s) + first;
      RecordedMore(first, sorted, i, max, more);
      first := more;
      i := i + 1;
    }
    assert sorted[..i] == sorted;
  }

  ghost predicate AllSnapshots(blobs: seq<Blob>) {
    forall b :: b in blobs ==> b.snapshot.Some?
  }

  /** Once a snapshot exceeds the bound, so do all later ones. */
  lemma NoneBeyond(sorted: seq<Blob>, i: nat, max: Option<nat>)
    requires BySnapshot(sorted) && AllSnapshots(sorted) && i < |sorted| && Above(max, SnapshotOf(sorted[i]))
    ensures forall p :: Holding(sorted, p, max) == Holding(sorted[..i], p, max)
  {
    forall b | b in sorted && !Above(max, SnapshotOf(b)) ensures b in sorted[..i] {
      var k :| 0 <= k < |sorted| && sorted[k] == b;
      assert k < i;
      assert sorted[..i][k] == b;
    }
    assert forall b :: b in sorted[..i] ==> b in sorted;
  }

  /** A position already recorded keeps its earlier snapshot. */
  lemma EarlierFirst(sorted: seq<Blob>, i: nat, p: nat, max: Option<nat>)
    requires BySnapshot(sorted) && i < |sorted| && Holding(sorted[..i], p, max) != {}
    ensures Least(Holding(sorted[..i], p, max)) <= SnapshotOf(sorted[i])
  {
    var s := Least(Holding(sorted[..i], p, max));
    var b :| b in sorted[..i] && b.snapshot == Some(s);
    var k :| 0 <= k < i && sorted[..i][k] == b;
    assert sorted[k] == b;
  }

  /** What a scan of vectors without snapshots returns: every position of any of them, in order. */
  ghost predicate IsUnionScan(blobs: seq<Blob>, scan: Scan) {
    && scan.Scanned? && !scan.embedded && scan.snapshots == [] && Increasing(scan.rows)
    && forall p :: p in scan.rows <==> exists b :: b in blobs && p in b.positions
  }

  /** Scans a deletion-vector file within optional snapshot bounds. */
  method ScanFile(file: File, min: Option<nat>, max: Option<nat>) returns (scan: Scan)
    ensures file == Container([]) ==> scan == NoVectors
    ensures file.Bare? ==> scan == Scanned(Ascending(file.positions), [], false)
    ensures BlobsOf(file) != [] && (forall b :: b in BlobsOf(file) ==> b.snapshot.None?) ==> IsUnionScan(BlobsOf(file), scan)
    ensures file.Container? && file.blobs != [] && AllSnapshots(file.blobs) ==> IsScan(file.blobs, min, max, scan)
    ensures (exists b :: b in BlobsOf(file) && b.snapshot.Some?) && (exists b :: b in BlobsOf(file) && b.snapshot.None?)
            <==> scan == MixedVectors
  {
    var blobs := BlobsOf(file);
    if blobs == [] {
      return NoVectors;
    }
    var withSnapshot := CountSnapshots(blobs);
    if withSnapshot == 0 {
      var all := Union(blobs);
      assert blobs[0] in blobs;
      assert file.Bare? ==> all == file.positions;
      return Scanned(Ascending(all), [], false);
    }
    if withSnapshot != |blobs| {
      return MixedVectors;
    }
    scan := ScanSnapshots(blobs, min, max);
  }

  /** The scan of vectors that all carry a snapshot. */
  method ScanSnapshots(blobs: seq<Blob>, min: Option<nat>, max: Option<nat>) returns (scan: Scan)
    requires AllSnapshots(blobs)
    ensures IsScan(blobs, min, max, scan)
  {
    SortBySnapshotSorted(blobs);
    var sorted := SortBySnapshot(blobs);
    var first := FirstSnapshots(sorted, max);
    SameHolding(sorted, blobs, max);
    scan := WithinLowerBound(first, min);
    forall i | 0 <= i < |scan.rows|
      ensures Holding(blobs, scan.rows[i], max) != {} && scan.snapshots[i] == Least(Holding(blobs, scan.rows[i], max))
    {
      assert scan.rows[i] in first;
    }
  }

  lemma SameHolding(a: seq<Blob>, b: seq<Blob>, max: Option<nat>)
    requires forall x :: x in a <==> x in b
    ensures forall p :: Holding(a, p, max) == Holding(b, p, max)
  {
  }

  method CountSnapshots(blobs: seq<Blob>) returns (n: nat)
    ensures n == 0 <==> forall b :: b in blobs ==> b.snapshot.None?
    ensures n == |blobs| <==> forall b :: b in blobs ==> b.snapshot.Some?
  {
    n := 0;
    var i := 0;
    while i < |blobs|
      invariant 0 <= i <= |blobs| && n <= i
      invariant n == 0 <==> forall b :: b in blobs[..i] ==> b.snapshot.None?
      invariant n == i <==> forall b :: b in blobs[..i] ==> b.snapshot.Some?
    {
      assert forall b :: b in blobs[..i + 1] <==> b in blobs[..i] || b == blobs[i];
      if blobs[i].snapshot.Some? {
        n := n + 1;
      }
      i := i + 1;
    }
    assert blobs[..i] == blobs;
  }

  method Union(blobs: seq<Blob>) returns (all: set<nat>)
    ensures forall p :: p in all <==> exists b :: b in blobs && p in b.positions
  {
    all := {};
    var i := 0;
    while i < |blobs|
      invariant 0 <= i <= |blobs|
      invariant forall p :: p in all <==> exists b :: b in blobs[..i] && p in b.positions
    {
      assert forall b :: b in blobs[..i + 1] <==> b in blobs[..i] || b == blobs[i];
      all := all + blobs[i].positions;
      i := i + 1;
    }
    assert blobs[..i] == blobs;
  }

  /** The positions of a prefix that reach the lower bound, each with its snapshot. */
  ghost predicate Reaching(first: map<nat, nat>, prefix: seq<nat>, min: Option<nat>, rows: seq<nat>, snapshots: seq<nat>) {
    && Increasing(rows) && |snapshots| == |rows|
    && (forall p :: p in rows <==> p in prefix && p in first && !Below(min, first[p]))
    && (forall k :: 0 <= k < |rows| ==> rows[k] in first && snapshots[k] == first[rows[k]])
  }

  lemma ReachingMore(first: map<nat, nat>, order: seq<nat>, i: nat, min: Option<nat>, rows: seq<nat>, snapshots: seq<nat>)
    requires Increasing(order) && i < |order| && order[i] in first
    requires Reaching(first, order[..i], min, rows, snapshots)
    ensures if Below(min, first[order[i]]) then Reaching(first, order[..i + 1], min, rows, snapshots)
            else Reaching(first, order[..i + 1], min, rows + [order[i]], snapshots + [first[order[i]]])
  {
    var p := order[i];
    assert order[..i + 1] == order[..i] + [p];
    forall k | 0 <= k < |rows| ensures rows[k] < p {
      assert rows[k] in rows;
    }
  }

  method CollectReaching(first: map<nat, nat>, order: seq<nat>, min: Option<nat>) returns (rows: seq<nat>, snapshots: seq<nat>)
    requires Increasing(order) && forall p :: p in order ==> p in first
    ensures Reaching(first, order, min, rows, snapshots)
  {
    rows, snapshots := [], [];
    var i := 0;
    while i < |order|
      invariant 0 <= i <= |order|
      invariant Reaching(first, order[..i], min, rows, snapshots)
    {
      assert order[i] in order;
      ReachingMore(first, order, i, min, rows, snapshots);
      if !Below(min, first[order[i]]) {
        rows, snapshots := rows + [order[i]], snapshots + [first[order[i]]];
      }
      i := i + 1;
    }
    assert order[..i] == order;
  }

  /** Drops positions whose first snapshot lies below the lower bound. */
  method WithinLowerBound(first: map<nat, nat>, min: Option<nat>) returns (scan: Scan)
    ensures scan.Scanned? && scan.embedded && Increasing(scan.rows) && |scan.snapshots| == |scan.rows|
    ensures forall p :: p in scan.rows <==> p in first && !Below(min, first[p])
    ensures forall i :: 0 <= i < |scan.rows| ==> scan.rows[i] in first && scan.snapshots[i] == first[scan.rows[i]]
  {
    var rows, snapshots := CollectReaching(first, Ascending(first.Keys), min);
    scan := Scanned(rows, snapshots, true);
  }

  // ---- writing, then scanning ----

  /** The first snapshot at which p was deleted. */
  function Deletions(deletes: seq<Delete>, p: nat): set<nat> {
    set d | d in deletes && d.position == p :: d.snapshot
  }

  /** The earliest deletion of p lies within the bounds. */
  ghost predicate Returned(deletes: seq<Delete>, min: Option<nat>, max: Option<nat>, p: nat) {
    Deletions(deletes, p) != {} &&
    var e := Least(Deletions(deletes, p)); (min.Some? ==> min.value <= e) && (max.Some? ==> e <= max.value)
  }

  /** What a bounded scan should return: each deleted position whose earliest snapshot lies within
      the bounds, in increasing order, with that snapshot. */
  ghost predicate IsExpected(deletes: seq<Delete>, min: Option<nat>, max: Option<nat>, scan: Scan) {
    && scan.Scanned? && scan.embedded && Increasing(scan.rows) && |scan.snapshots| == |scan.rows|
    && (forall p :: p in scan.rows <==> Returned(deletes, min, max, p))
    && (forall i :: 0 <= i < |scan.rows| ==>
          Deletions(deletes, scan.rows[i]) != {} && scan.snapshots[i] == Least(Deletions(deletes, scan.rows[i])))
  }

  /** p was deleted at or before the upper bound, and never before the lower one. */
  ghost predicate DeletedWithin(deletes: seq<Delete>, min: Option<nat>, max: Option<nat>, p: nat) {
    && (exists d :: d in deletes && d.position == p && (max.Some? ==> d.snapshot <= max.value))
    && (forall d :: d in deletes && d.position == p && min.Some? ==> min.value <= d.snapshot)
  }

  lemma ReturnedExactlyWhen(deletes: seq<Delete>, min: Option<nat>, max: Option<nat>, p: nat)
    ensures Returned(deletes, min, max, p) <==> DeletedWithin(deletes, min, max, p)
  {
    forall d | d in deletes && d.position == p ensures d.snapshot in Deletions(deletes, p) {
    }
    if Deletions(deletes, p) != {} {
      var d :| d in deletes && d.position == p && d.snapshot == Least(Deletions(deletes, p));
    }
  }

  /** In cumulative vectors the first one that holds p belongs to p's earliest deletion. */
  lemma FirstHolderIsEarliest(deletes: seq<Delete>, blobs: seq<Blob>, p: nat, max: Option<nat>)
    requires IsCumulative(deletes, blobs)
    ensures Holding(blobs, p, max) != {} <==> Deletions(deletes, p) != {} && (max.Some? ==> Least(Deletions(deletes, p)) <= max.value)
    ensures Holding(blobs, p, max) != {} ==> Least(Holding(blobs, p, max)) == Least(Deletions(deletes, p))
  {
    var order := Ascending(Snapshots(deletes));
    forall s | s in Holding(blobs, p, max)
      ensures (max.Some? ==> s <= max.value) && Deletions(deletes, p) != {} && Least(Deletions(deletes, p)) <= s
    {
      var b :| b in blobs && b.snapshot == Some(s) && p in b.positions && (max.Some? ==> s <= max.value);
      var k :| 0 <= k < |blobs| && blobs[k] == b;
      var d :| d in deletes && d.snapshot <= s && d.position == p;
      assert d.snapshot in Deletions(deletes, p);
    }
    if Deletions(deletes, p) != {} {
      var e := Least(Deletions(deletes, p));
      var d :| d in deletes && d.position == p && d.snapshot == e;
      assert e in Snapshots(deletes);
      var k :| 0 <= k < |order| && order[k] == e;
      assert p in DeletedUpTo(deletes, e);
      assert blobs[k] in blobs && blobs[k] == Blob(Some(e), DeletedUpTo(deletes, e));
      if max.Some? ==> e <= max.value {
        assert e in Holding(blobs, p, max);
      }
    }
  }

  lemma CumulativeScan(deletes: seq<Delete>, blobs: seq<Blob>, min: Option<nat>, max: Option<nat>, scan: Scan)
    requires IsCumulative(deletes, blobs)
    ensures IsScan(blobs, min, max, scan) ==> IsExpected(deletes, min, max, scan)
  {
    forall p ensures Holding(blobs, p, max) != {} <==> Deletions(deletes, p) != {} && (max.Some? ==> Least(Deletions(deletes, p)) <= max.value)
      ensures Holding(blobs, p, max) != {} ==> Least(Holding(blobs, p, max)) == Least(Deletions(deletes, p))
    {
      FirstHolderIsEarliest(deletes, blobs, p, max);
    }
  }

  /** With a single snapshot every deletion happened at the file's begin snapshot. */
  lemma LoneSnapshot(deletes: seq<Delete>, p: nat)
    requires |Snapshots(deletes)| == 1 && p in AllPositions(deletes)
    ensures Deletions(deletes, p) == {Least(Snapshots(deletes))}
  {
    var begin := Least(Snapshots(deletes));
    var others := Snapshots(deletes) - {begin};
    assert others + {begin} == Snapshots(deletes) && |others| == 0;
    forall d | d in deletes ensures d.snapshot == begin {
      assert d.snapshot in Snapshots(deletes) && d.snapshot !in others;
    }
    var d :| d in deletes && d.position == p;
    assert begin in Deletions(deletes, p);
  }

  /** A non-empty set of deletes written and scanned back with any bounds comes back as expected
      exactly when it spans at least two snapshots.  A lone vector loses its snapshot: the scan
      ignores the bounds and returns every position without one, and only the catalog's begin
      snapshot still tells when these rows were deleted. */
  method WriteThenScan(deletes: seq<Delete>, min: Option<nat>, max: Option<nat>) returns (scan: Scan, begin: Option<nat>)
    requires deletes != []
    ensures IsExpected(deletes, min, max, scan) <==> |Snapshots(deletes)| >= 2
    ensures |Snapshots(deletes)| >= 2 ==> scan.Scanned? && forall p :: p in scan.rows <==> DeletedWithin(deletes, min, max, p)
    ensures |Snapshots(deletes)| == 1 ==>
              && scan == Scanned(Ascending(AllPositions(deletes)), [], false)
              && begin.Some? && forall p :: p in scan.rows ==> Deletions(deletes, p) == {begin.value}
  {
    assert deletes[0].snapshot in Snapshots(deletes);
    var file;
    file, begin := WriteWithSnapshots(deletes);
    scan := ScanFile(file, min, max);
    if |Snapshots(deletes)| != 1 {
      CumulativeHasSnapshots(deletes, file.blobs);
      CumulativeScan(deletes, file.blobs, min, max, scan);
      forall p ensures p in scan.rows <==> DeletedWithin(deletes, min, max, p) {
        ReturnedExactlyWhen(deletes, min, max, p);
      }
    } else {
      forall p | p in scan.rows ensures Deletions(deletes, p) == {begin.value} {
        LoneSnapshot(deletes, p);
      }
    }
  }

  /** Row 4 deleted at snapshot 9 only: a scan from snapshot 10 on still returns it. */
  method LoneSnapshotIsScanned() returns (scan: Scan)
    ensures scan == Scanned([4], [], false) && !IsExpected([Delete(4, 9)], Some(10), None, scan)
  {
    var begin;
    LoneDelete();
    scan, begin := WriteThenScan([Delete(4, 9)], Some(10), None);
  }

  lemma LoneDelete()
    ensures |Snapshots([Delete(4, 9)])| == 1 && Ascending(AllPositions([Delete(4, 9)])) == [4]
  {
    assert Snapshots([Delete(4, 9)]) == {9} && AllPositions([Delete(4, 9)]) == {4};
  }

  lemma CumulativeHasSnapshots(deletes: seq<Delete>, blobs: seq<Blob>)
    requires IsCumulative(deletes, blobs)
    ensures AllSnapshots(blobs)
  {
    forall b | b in blobs ensures b.snapshot.Some? {
      var k :| 0 <= k < |blobs| && blobs[k] == b;
    }
  }
}
