/**
 The greedy choice of file runs in merge compaction: from a start file on, neighbours are added as
 long as that brings the run's size closer to the target.
 */
module CompactionRuns {
  /** The size of files [a, b). */
  function Span(sizes: seq<nat>, a: nat, b: nat): nat
    requires b <= |sizes|
    decreases b
  {
    if b <= a then 0 else Span(sizes, a, b - 1) + sizes[b - 1]
  }

  function Distance(size: nat, target: nat): nat {
    if size >= target then size - target else target - size
  }

  lemma DistanceIsDifference(size: nat, target: nat)
    ensures size + Distance(size, target) == target || target + Distance(size, target) == size
  {
  }

  /** The run starting at start stops before file i when it holds something already and file i would
      not bring it closer to the target. */
  predicate StopsAt(sizes: seq<nat>, start: nat, i: nat, target: nat)
    requires start <= i < |sizes|
  {
    Span(sizes, start, i) > 0 && Distance(Span(sizes, start, i + 1), target) >= Distance(Span(sizes, start, i), target)
  }

  /** The end of the run that starts at start. */
  ghost predicate IsRunEnd(sizes: seq<nat>, start: nat, end: nat, target: nat) {
    && start < end <= |sizes|
    && (forall i :: start <= i < end ==> !StopsAt(sizes, start, i, target))
    && (end < |sizes| ==> StopsAt(sizes, start, end, target))
  }

  method RunEnd(sizes: seq<nat>, start: nat, target: nat) returns (end: nat)
    requires start < |sizes|
    ensures IsRunEnd(sizes, start, end, target)
  {
    var current := 0;
    end := start;
    while end < |sizes|
      invariant start <= end <= |sizes| && current == Span(sizes, start, end)
      invariant forall i :: start <= i < end ==> !StopsAt(sizes, start, i, target)
    {
      var size := sizes[end];
      if current > 0 && Distance(current + size, target) >= Distance(current, target) {
        break;
      }
      current := current + size;
      end := end + 1;
    }
  }

  lemma {:induction false} SpanMonotonic(sizes: seq<nat>, a: nat, b: nat, c: nat)
    requires a <= b <= c <= |sizes|
    ensures Span(sizes, a, b) <= Span(sizes, a, c)
    ensures Span(sizes, a, c) == Span(sizes, a, b) + Span(sizes, b, c)
    decreases c
  {
    if b < c {
      SpanMonotonic(sizes, a, b, c - 1);
    }
  }

  /** Files at or above the target are no candidates. */
  ghost predicate AllBelow(sizes: seq<nat>, target: nat) {
    forall i :: 0 <= i < |sizes| ==> sizes[i] < target
  }

  /** A run of files below the target stays below twice the target. */
  lemma RunBelowTwiceTarget(sizes: seq<nat>, start: nat, end: nat, target: nat)
    requires IsRunEnd(sizes, start, end, target) && AllBelow(sizes, target)
    ensures Span(sizes, start, end) < 2 * target
  {
    assert !StopsAt(sizes, start, end - 1, target);
    assert Span(sizes, start, end) == Span(sizes, start, end - 1) + sizes[end - 1];
  }

  /** Every longer prefix of the run is strictly closer to the target than the ones before it that
      hold something. */
  lemma {:induction false} CloserWithin(sizes: seq<nat>, start: nat, end: nat, target: nat, a: nat, b: nat)
    requires IsRunEnd(sizes, start, end, target) && start < a < b <= end && Span(sizes, start, a) > 0
    ensures Distance(Span(sizes, start, b), target) < Distance(Span(sizes, start, a), target)
    decreases b
  {
    assert !StopsAt(sizes, start, b - 1, target);
    SpanMonotonic(sizes, start, a, b - 1);
    if a < b - 1 {
      CloserWithin(sizes, start, end, target, a, b - 1);
    }
  }

  /** The chosen run is the prefix of the remaining files closest to the target. */
  ghost predicate Closest(sizes: seq<nat>, start: nat, end: nat, target: nat)
    requires start < end <= |sizes|
  {
    forall e :: start < e <= |sizes| ==> Distance(Span(sizes, start, end), target) <= Distance(Span(sizes, start, e), target)
  }

  /** The first file at or after i that is not empty. */
  function NextNonEmpty(sizes: seq<nat>, i: nat): (k: nat)
    requires i <= |sizes|
    ensures i <= k <= |sizes| && (k < |sizes| ==> sizes[k] > 0) && forall j :: i <= j < k ==> sizes[j] == 0
    decreases |sizes| - i
  {
    if i == |sizes| || sizes[i] > 0 then i else NextNonEmpty(sizes, i + 1)
  }

  lemma {:induction false} SpanOfEmpty(sizes: seq<nat>, a: nat, b: nat, c: nat)
    requires a <= b <= c <= |sizes| && forall j :: b <= j < c ==> sizes[j] == 0
    ensures Span(sizes, a, c) == Span(sizes, a, b)
    decreases c
  {
    if b < c {
      SpanOfEmpty(sizes, a, b, c - 1);
    }
  }

  /** Adding the next non-empty file would bring a stopped run closer. */
  predicate StopsTooEarly(sizes: seq<nat>, start: nat, end: nat, target: nat)
    requires start < end <= |sizes|
  {
    var k := NextNonEmpty(sizes, end);
    k < |sizes| && Distance(Span(sizes, start, end) + sizes[k], target) < Distance(Span(sizes, start, end), target)
  }

  /** The chosen run is the closest prefix exactly when the next non-empty file would not bring it
      closer; an empty file in between is what can stop a run too early. */
  lemma ClosestExactlyWhen(sizes: seq<nat>, start: nat, end: nat, target: nat)
    requires IsRunEnd(sizes, start, end, target) && AllBelow(sizes, target)
    ensures Closest(sizes, start, end, target) <==> !StopsTooEarly(sizes, start, end, target)
  {
    var k, size := NextNonEmpty(sizes, end), Span(sizes, start, end);
    SpanOfEmpty(sizes, start, end, k);
    if StopsTooEarly(sizes, start, end, target) {
      assert Span(sizes, start, k + 1) == size + sizes[k];
    } else {
      forall e | start < e <= |sizes| ensures Distance(size, target) <= Distance(Span(sizes, start, e), target) {
        if e <= end {
          ClosestWithin(sizes, start, end, target, e);
        } else if e <= k {
          SpanMonotonic(sizes, start, end, e);
          SpanMonotonic(sizes, start, e, k);
        } else {
          SpanMonotonic(sizes, start, k + 1, e);
        }
      }
    }
  }

  lemma ClosestWithin(sizes: seq<nat>, start: nat, end: nat, target: nat, e: nat)
    requires IsRunEnd(sizes, start, end, target) && start < e <= end
    requires AllBelow(sizes, target)
    ensures Distance(Span(sizes, start, end), target) <= Distance(Span(sizes, start, e), target)
  {
    RunBelowTwiceTarget(sizes, start, end, target);
    if e < end && Span(sizes, start, e) > 0 {
      CloserWithin(sizes, start, end, target, e, end);
    }
  }

  /** With no empty files every run is the closest prefix. */
  lemma PositiveSizesClosest(sizes: seq<nat>, start: nat, end: nat, target: nat)
    requires IsRunEnd(sizes, start, end, target) && AllBelow(sizes, target) && forall i :: 0 <= i < |sizes| ==> sizes[i] > 0
    ensures Closest(sizes, start, end, target)
  {
    ClosestExactlyWhen(sizes, start, end, target);
    if end < |sizes| {
      assert NextNonEmpty(sizes, end) == end;
    }
  }

  /** Sizes 5, 0, 4 with target 10: the empty file ends the run at 5 although 9 is closer. */
  lemma EmptyFileStopsRun()
    ensures IsRunEnd([5, 0, 4], 0, 1, 10) && !Closest([5, 0, 4], 0, 1, 10)
  {
    var sizes := [5, 0, 4];
    assert Span(sizes, 0, 1) == 5 && Span(sizes, 0, 2) == 5 && Span(sizes, 0, 3) == 9;
    assert Distance(Span(sizes, 0, 3), 10) < Distance(Span(sizes, 0, 1), 10);
  }
}
