/**
 * What the heap's placement search chooses, stated over the occupancy bits
 * alone. The search walks the maximal runs of clear bits, keeps the run whose
 * length is closest to an "ideal" size (the first one on ties), and places
 * the block inside that run.
 */
module Placement {
  import opened BaseTypes

  /**
   * The ideal run length for a block of `spanSize` bytes: 1.62 times the
   * block, truncated. The heap computes it in single-precision floating
   * point; here it is the exact rational product, truncated.
   */
  function IdealSize(spanSize: nat): (ideal: nat)
    ensures spanSize <= ideal
  {
    162 * spanSize / 100
  }

  /** `[start, start + len)` is a maximal non-empty run of clear bits. */
  ghost predicate IsFreeRun(bits: seq<bool>, start: nat, len: nat)
  {
    0 < len && start + len <= |bits| &&
    (forall k :: start <= k < start + len ==> !bits[k]) &&
    (start == 0 || bits[start - 1]) &&
    (start + len == |bits| || bits[start + len])
  }

  /** A maximal free run long enough for a block of `minSize` bytes. */
  ghost predicate Qualifies(bits: seq<bool>, start: nat, len: nat, minSize: nat)
  {
    IsFreeRun(bits, start, len) && minSize <= len
  }

  /** Some maximal free run can hold a block of `minSize` bytes. */
  ghost predicate Fits(bits: seq<bool>, minSize: nat)
  {
    exists start: nat, len: nat :: Qualifies(bits, start, len, minSize)
  }

  /** Distance between a run length and the ideal length. */
  function Delta(len: nat, ideal: nat): (d: nat)
  {
    if len <= ideal then ideal - len else len - ideal
  }

  /**
   * Among the qualifying runs that start before `bound`, the run at `start`
   * is closest to the ideal length, and strictly closer than every run to
   * its left.
   */
  ghost predicate BestBefore(bits: seq<bool>, start: nat, len: nat, minSize: nat, ideal: nat, bound: nat)
  {
    Qualifies(bits, start, len, minSize) && start < bound &&
    forall s: nat, l: nat :: Qualifies(bits, s, l, minSize) && s < bound ==>
      Delta(len, ideal) <= Delta(l, ideal) && (s < start ==> Delta(len, ideal) < Delta(l, ideal))
  }

  /** No qualifying run starts before `bound`. */
  ghost predicate NoneBefore(bits: seq<bool>, minSize: nat, bound: nat)
  {
    forall s: nat, l: nat :: Qualifies(bits, s, l, minSize) ==> bound <= s
  }

  /** The run the search chooses: the best among all qualifying runs. */
  ghost predicate IsBest(bits: seq<bool>, start: nat, len: nat, minSize: nat, ideal: nat)
  {
    BestBefore(bits, start, len, minSize, ideal, |bits|)
  }

  /**
   * Where a block of `minSize` bytes goes inside the chosen run: flush with
   * the run's right end when the run is shorter than the ideal length,
   * otherwise ending `ideal` bytes after the run's start.
   */
  function Place(start: nat, len: nat, minSize: nat, ideal: nat): (index: nat)
    requires minSize <= len && minSize <= ideal
    ensures start <= index && index + minSize <= start + len
  {
    if len < ideal then start + (len - minSize) else start + (ideal - minSize)
  }

  /** `index` is where the search places a block of `minSize` bytes. */
  ghost predicate IsPlacement(bits: seq<bool>, minSize: nat, ideal: nat, index: nat)
  {
    exists start: nat, len: nat :: IsBest(bits, start, len, minSize, ideal) &&
      minSize <= ideal && index == Place(start, len, minSize, ideal)
  }

  /** `[start, start + n)` lies within the bits and is all clear. */
  ghost predicate FreeWindow(bits: seq<bool>, start: nat, n: nat)
  {
    start + n <= |bits| && forall k :: start <= k < start + n ==> !bits[k]
  }

  /** A free run is determined by its start. */
  lemma FreeRunLength(bits: seq<bool>, start: nat, len1: nat, len2: nat)
    requires IsFreeRun(bits, start, len1) && IsFreeRun(bits, start, len2)
    ensures len1 == len2
  {
  }

  /**
   * One step of the left-to-right scan. Between a run boundary `cursor`
   * (the start, or just after a set bit) and the next set bit `next` (or the
   * end), the only maximal free run that can start is the one at `cursor`,
   * of length `next - cursor`.
   */
  lemma ScanStep(bits: seq<bool>, cursor: nat, next: nat)
    requires cursor <= next <= |bits|
    requires cursor == 0 || (cursor <= |bits| && bits[cursor - 1])
    requires forall k :: cursor <= k < next ==> !bits[k]
    requires next < |bits| ==> bits[next]
    ensures cursor < next ==> IsFreeRun(bits, cursor, next - cursor)
    ensures forall s: nat, l: nat :: IsFreeRun(bits, s, l) && cursor <= s <= next ==>
      s == cursor && l == next - cursor
  {
    forall s: nat, l: nat | IsFreeRun(bits, s, l) && cursor <= s <= next
      ensures s == cursor && l == next - cursor
    {
      if cursor < next {
        FreeRunLength(bits, s, l, next - cursor);
      }
    }
  }

  /**
   * One step of the scan. The run between the boundary `cursor` and the next
   * set bit `next` is taken as the new best when it is non-empty, long
   * enough, and strictly closer to the ideal length than the best so far
   * (whose distance is `bestDelta`); otherwise the best so far, or the
   * absence of any qualifying run, carries over past `next`.
   */
  lemma ScanAdvance(bits: seq<bool>, minSize: nat, ideal: nat, cursor: nat, next: nat,
                    found: bool, start: nat, len: nat, bestDelta: nat)
    requires cursor <= next <= |bits|
    requires cursor == 0 || bits[cursor - 1]
    requires forall k :: cursor <= k < next ==> !bits[k]
    requires next < |bits| ==> bits[next]
    requires found ==> BestBefore(bits, start, len, minSize, ideal, cursor) && bestDelta == Delta(len, ideal)
    requires !found ==> NoneBefore(bits, minSize, cursor) && (cursor < next ==> Delta(next - cursor, ideal) < bestDelta)
    ensures cursor < next && minSize <= next - cursor && Delta(next - cursor, ideal) < bestDelta ==>
      BestBefore(bits, cursor, next - cursor, minSize, ideal, next + 1)
    ensures !(cursor < next && minSize <= next - cursor && Delta(next - cursor, ideal) < bestDelta) ==>
      (found ==> BestBefore(bits, start, len, minSize, ideal, next + 1)) &&
      (!found ==> NoneBefore(bits, minSize, next + 1))
  {
    ScanStep(bits, cursor, next);
  }

  /** A run of the bitmap: its start index and its length. */
  datatype Run = Run(start: nat, len: nat)

  /** The first set bit at or after `i`, or the length when there is none. */
  function NextSet(bits: seq<bool>, i: nat): (j: nat)
    requires i <= |bits|
    ensures i <= j <= |bits|
    decreases |bits| - i
  {
    if i == |bits| || bits[i] then i else NextSet(bits, i + 1)
  }

  /** `NextSet` finds clear bits up to a set bit or the end. */
  lemma {:induction false} NextSetStopsAtSet(bits: seq<bool>, i: nat)
    requires i <= |bits|
    ensures forall k :: i <= k < NextSet(bits, i) ==> !bits[k]
    ensures NextSet(bits, i) < |bits| ==> bits[NextSet(bits, i)]
    decreases |bits| - i
  {
    if i < |bits| && !bits[i] {
      NextSetStopsAtSet(bits, i + 1);
    }
  }

  /** Any index with clear bits before it and a set bit (or the end) at it is `NextSet`. */
  lemma {:induction false} NextSetIsFirst(bits: seq<bool>, i: nat, j: nat)
    requires i <= j <= |bits|
    requires forall k :: i <= k < j ==> !bits[k]
    requires j < |bits| ==> bits[j]
    ensures NextSet(bits, i) == j
    decreases j - i
  {
    if i < j {
      NextSetIsFirst(bits, i + 1, j);
    }
  }

  /**
   * The scan's update for one run: it becomes the best when it is non-empty,
   * long enough, and strictly closer to the ideal length than the best so far.
   */
  function Consider(best: Option<Run>, run: Run, minSize: nat, ideal: nat): (best': Option<Run>)
  {
    if 0 < run.len && minSize <= run.len &&
       (best.None? || Delta(run.len, ideal) < Delta(best.value.len, ideal))
    then Some(run) else best
  }

  /**
   * The scan from run boundary `cursor` on, carrying the best run so far:
   * the run up to the next set bit is considered, and the scan goes on just
   * past that bit while that is still inside the bitmap.
   */
  function ScanFrom(bits: seq<bool>, minSize: nat, ideal: nat, cursor: nat, best: Option<Run>): (chosen: Option<Run>)
    requires cursor <= |bits|
    decreases |bits| - cursor
  {
    var next := NextSet(bits, cursor);
    var best' := Consider(best, Run(cursor, next - cursor), minSize, ideal);
    if next + 1 < |bits| then ScanFrom(bits, minSize, ideal, next + 1, best') else best'
  }

  /** One pass of the scan at `cursor`. */
  lemma ScanFromStep(bits: seq<bool>, minSize: nat, ideal: nat, cursor: nat, next: nat, best: Option<Run>)
    requires cursor <= |bits| && (cursor == 0 || cursor < |bits|)
    requires next == NextSet(bits, cursor)
    ensures Remaining(bits, minSize, ideal, cursor, best) ==
      Remaining(bits, minSize, ideal, next + 1, Consider(best, Run(cursor, next - cursor), minSize, ideal))
  {
  }

  /** What the scan still returns when it is at `cursor`: it stops once past the end. */
  function Remaining(bits: seq<bool>, minSize: nat, ideal: nat, cursor: nat, best: Option<Run>): (chosen: Option<Run>)
  {
    if cursor == 0 || cursor < |bits| then ScanFrom(bits, minSize, ideal, cursor, best) else best
  }

  /**
   * The scan chooses the best run: the qualifying maximal free run closest
   * to the ideal length, the leftmost on ties; and it finds none exactly
   * when no maximal free run is long enough.
   */
  lemma {:induction false} ScanFromIsBest(bits: seq<bool>, minSize: nat, ideal: nat, cursor: nat, best: Option<Run>)
    requires cursor <= |bits|
    requires cursor == 0 || bits[cursor - 1]
    requires best.Some? ==> BestBefore(bits, best.value.start, best.value.len, minSize, ideal, cursor)
    requires best.None? ==> NoneBefore(bits, minSize, cursor)
    ensures var r := ScanFrom(bits, minSize, ideal, cursor, best);
      (r.Some? ==> IsBest(bits, r.value.start, r.value.len, minSize, ideal)) &&
      (r.None? <==> !Fits(bits, minSize))
    decreases |bits| - cursor
  {
    var next := NextSet(bits, cursor);
    NextSetStopsAtSet(bits, cursor);
    var run := Run(cursor, next - cursor);
    var best' := Consider(best, run, minSize, ideal);
    var current := if best.Some? then best.value else Run(0, 0);
    var bestDelta := if best.Some? then Delta(current.len, ideal) else Delta(run.len, ideal) + 1;
    ScanAdvance(bits, minSize, ideal, cursor, next, best.Some?, current.start, current.len, bestDelta);
    if next + 1 < |bits| {
      ScanFromIsBest(bits, minSize, ideal, next + 1, best');
    } else if best'.Some? {
      ScanDone(bits, minSize, ideal, next + 1, best'.value.start, best'.value.len);
      BestFits(bits, minSize, ideal, best'.value.start, best'.value.len);
    } else {
      ScanDoneNone(bits, minSize, next + 1);
    }
  }

  /**
   * The scan's outcome, as the placement search reports it: no run exactly
   * when nothing fits, and otherwise a run long enough for the block whose
   * placement is the one chosen and lies in clear bits.
   */
  lemma ScanOutcome(bits: seq<bool>, minSize: nat, ideal: nat)
    requires minSize <= ideal
    ensures ScanFrom(bits, minSize, ideal, 0, None).None? <==> !Fits(bits, minSize)
    ensures var r := ScanFrom(bits, minSize, ideal, 0, None);
      r.Some? ==> (
        0 < r.value.len && minSize <= r.value.len && r.value.start + r.value.len <= |bits| &&
        IsPlacement(bits, minSize, ideal, Place(r.value.start, r.value.len, minSize, ideal)) &&
        FreeWindow(bits, Place(r.value.start, r.value.len, minSize, ideal), minSize))
  {
    var r := ScanFrom(bits, minSize, ideal, 0, None);
    ScanFromIsBest(bits, minSize, ideal, 0, None);
    if r.Some? {
      ScanResult(bits, minSize, ideal, |bits|, r.value.start, r.value.len);
    }
  }

  /**
   * The placement the search reports for a block of `minSize` bytes: where
   * the block goes in the run the scan chooses, or none. (The chosen run is
   * always long enough; `ScanOutcome` proves it.)
   */
  function FindPlacement(bits: seq<bool>, minSize: nat, ideal: nat): (index: Option<nat>)
    requires minSize <= ideal
  {
    var r := ScanFrom(bits, minSize, ideal, 0, None);
    if r.Some? && minSize <= r.value.len then Some(Place(r.value.start, r.value.len, minSize, ideal)) else None
  }

  /**
   * The reported placement is the golden-ratio placement: there is none
   * exactly when no free run is long enough, and otherwise it is the
   * placement in the best run and lies in clear bits.
   */
  lemma FindPlacementIsBest(bits: seq<bool>, minSize: nat, ideal: nat)
    requires minSize <= ideal
    ensures FindPlacement(bits, minSize, ideal).None? <==> !Fits(bits, minSize)
    ensures var p := FindPlacement(bits, minSize, ideal);
      p.Some? ==> IsPlacement(bits, minSize, ideal, p.value) && FreeWindow(bits, p.value, minSize)
  {
    ScanOutcome(bits, minSize, ideal);
  }

  /** Once the scan has passed the end, the best so far is the best. */
  lemma ScanDone(bits: seq<bool>, minSize: nat, ideal: nat, bound: nat, start: nat, len: nat)
    requires |bits| <= bound
    requires BestBefore(bits, start, len, minSize, ideal, bound)
    ensures IsBest(bits, start, len, minSize, ideal)
  {
  }

  /** Once the scan has passed the end with nothing found, nothing fits. */
  lemma ScanDoneNone(bits: seq<bool>, minSize: nat, bound: nat)
    requires |bits| <= bound
    requires NoneBefore(bits, minSize, bound)
    ensures !Fits(bits, minSize)
  {
  }

  /**
   * What the scan reports once it has passed the end with a best run: the
   * block fits, and its placement in that run is a free window.
   */
  lemma ScanResult(bits: seq<bool>, minSize: nat, ideal: nat, bound: nat, start: nat, len: nat)
    requires |bits| <= bound && minSize <= ideal
    requires BestBefore(bits, start, len, minSize, ideal, bound)
    ensures Fits(bits, minSize)
    ensures IsPlacement(bits, minSize, ideal, Place(start, len, minSize, ideal))
    ensures FreeWindow(bits, Place(start, len, minSize, ideal), minSize)
  {
    assert IsBest(bits, start, len, minSize, ideal);
  }

  /** The best run makes the block fit. */
  lemma BestFits(bits: seq<bool>, minSize: nat, ideal: nat, start: nat, len: nat)
    requires IsBest(bits, start, len, minSize, ideal)
    ensures Fits(bits, minSize)
  {
  }

  /** At most one run is the best. */
  lemma BestIsUnique(bits: seq<bool>, minSize: nat, ideal: nat, s1: nat, l1: nat, s2: nat, l2: nat)
    requires IsBest(bits, s1, l1, minSize, ideal) && IsBest(bits, s2, l2, minSize, ideal)
    ensures s1 == s2 && l1 == l2
  {
    FreeRunLength(bits, s1, l1, l2);
  }

  /** The placement of a block is unique. */
  lemma PlacementIsUnique(bits: seq<bool>, minSize: nat, ideal: nat, i1: nat, i2: nat)
    requires IsPlacement(bits, minSize, ideal, i1) && IsPlacement(bits, minSize, ideal, i2)
    ensures i1 == i2
  {
    var s1: nat, l1: nat :| IsBest(bits, s1, l1, minSize, ideal) &&
      minSize <= ideal && i1 == Place(s1, l1, minSize, ideal);
    var s2: nat, l2: nat :| IsBest(bits, s2, l2, minSize, ideal) &&
      minSize <= ideal && i2 == Place(s2, l2, minSize, ideal);
    BestIsUnique(bits, minSize, ideal, s1, l1, s2, l2);
  }

  /** A placed block lies in clear bits: its whole range is a free window. */
  lemma PlacementIsFree(bits: seq<bool>, minSize: nat, ideal: nat, index: nat)
    requires IsPlacement(bits, minSize, ideal, index)
    ensures FreeWindow(bits, index, minSize)
  {
    var s: nat, l: nat :| IsBest(bits, s, l, minSize, ideal) &&
      minSize <= ideal && index == Place(s, l, minSize, ideal);
  }

  /** A free window grows to a maximal free run that contains it. */
  lemma {:induction false} ExtendToRun(bits: seq<bool>, start: nat, n: nat)
    requires 0 < n && FreeWindow(bits, start, n)
    ensures exists s: nat, l: nat :: IsFreeRun(bits, s, l) && s <= start && start + n <= s + l
    decreases |bits| - n
  {
    if start > 0 && !bits[start - 1] {
      ExtendToRun(bits, start - 1, n + 1);
    } else if start + n < |bits| && !bits[start + n] {
      ExtendToRun(bits, start, n + 1);
    } else {
      assert IsFreeRun(bits, start, n);
    }
  }

  /**
   * A block of `n >= 1` bytes fits exactly when some `n` consecutive bits
   * are clear, so the search fails only when the largest free run is shorter
   * than the block.
   */
  lemma FitsIffFreeWindow(bits: seq<bool>, n: nat)
    requires 0 < n
    ensures Fits(bits, n) <==> exists i: nat :: FreeWindow(bits, i, n)
  {
    if Fits(bits, n) {
      var s: nat, l: nat :| Qualifies(bits, s, l, n);
      assert FreeWindow(bits, s, n);
    }
    if i: nat :| FreeWindow(bits, i, n) {
      ExtendToRun(bits, i, n);
      var s: nat, l: nat :| IsFreeRun(bits, s, l) && s <= i && i + n <= s + l;
      assert Qualifies(bits, s, l, n);
    }
  }

  /** `n` clear bits. */
  function AllClear(n: nat): (bits: seq<bool>)
    ensures |bits| == n && forall k :: 0 <= k < n ==> !bits[k]
  {
    seq(n, _ => false)
  }

  /**
   * In an all-clear bitmap of `n` bits the whole bitmap is the one run, and
   * the block ends `ideal` bytes from the start, or at the end when the
   * bitmap is shorter than `ideal`.
   */
  lemma EmptyBitmapPlacement(n: nat, minSize: nat, ideal: nat)
    requires 0 < minSize <= n && minSize <= ideal
    ensures IsPlacement(AllClear(n), minSize, ideal, if n < ideal then n - minSize else ideal - minSize)
  {
    var bits := AllClear(n);
    assert IsFreeRun(bits, 0, n);
    forall s: nat, l: nat | Qualifies(bits, s, l, minSize)
      ensures s == 0 && l == n
    {
      FreeRunLength(bits, 0, l, n);
    }
    assert IsBest(bits, 0, n, minSize, ideal);
  }

  /**
   * The worked example of the source comment: 100 bytes in an empty
   * 1000-byte heap go to indices 62 through 161.
   */
  lemma DocExample()
    ensures IdealSize(100) == 162
    ensures IsPlacement(AllClear(1000), 100, 162, 62)
    ensures forall i: nat :: IsPlacement(AllClear(1000), 100, 162, i) ==> i == 62 && i + 100 - 1 == 161
  {
    EmptyBitmapPlacement(1000, 100, 162);
    forall i: nat | IsPlacement(AllClear(1000), 100, 162, i)
      ensures i == 62
    {
      PlacementIsUnique(AllClear(1000), 100, 162, i, 62);
    }
  }
}
