/**
 * `quickSort` of `bruno_kaua_sort.c`: partition, recurse on the smaller side, and loop on
 * the larger side. The loop is modelled as a tail call, so `QuickSort` has the C
 * function's control flow exactly, including the partition of two-cell ranges that makes
 * it fail to sort. `GuardedQuickSort` is the corrected variant.
 */
module QuickSortEngine {
  import opened Arrays
  import opened Partitioner
  import Lists

  /** `quickSort(A, low, high)`. The result is `OutOfBounds(-1)` when the run reads
      `A[-1]`; otherwise it is the array the call leaves behind. */
  function QuickSort(a: seq<int>, low: int, high: int): (r: Result<seq<int>>)
    requires low < high ==> 0 <= low && high < |a|
    ensures low >= high ==> r == Ok(a)
    ensures r.Ok? ==> PermutedWithin(a, r.value, low, high)
    ensures r.OutOfBounds? ==> r.index == -1
    decreases high - low, 2
  {
    if low >= high then Ok(a)
    else
      match Partition(a, low, high)
      case OutOfBounds(k) => OutOfBounds(k)
      case Ok(Partitioned(b, pi)) => SortAroundPivot(b, low, high, pi)
  }

  /** One pass of the `while (low < high)` loop after `particiona` returned `pi`: the
      smaller side goes to the recursive call, the larger side to the next pass. */
  function SortAroundPivot(b: seq<int>, low: int, high: int, pi: int): (r: Result<seq<int>>)
    requires 0 <= low < pi <= high < |b|
    ensures r.Ok? ==> PermutedWithin(b, r.value, low, high)
    ensures r.OutOfBounds? ==> r.index == -1
    decreases high - low, 1
  {
    if pi - low < high - pi then RecurseThenLoop(b, low, high, low, pi - 1, pi + 1, high)
    else RecurseThenLoop(b, low, high, pi + 1, high, low, pi - 1)
  }

  /** `quickSort(A, rlo, rhi)` on one side, then the loop continues with `low = llo`,
      `high = lhi` on the other; both sides lie strictly inside `low..high`. */
  function RecurseThenLoop(b: seq<int>, low: int, high: int, rlo: int, rhi: int, llo: int, lhi: int)
    : (r: Result<seq<int>>)
    requires 0 <= low < high < |b|
    requires low <= rlo && rhi <= high && rhi - rlo < high - low
    requires low <= llo && lhi <= high && lhi - llo < high - low
    ensures r.Ok? ==> PermutedWithin(b, r.value, low, high)
    ensures r.OutOfBounds? ==> r.index == -1
    decreases high - low, 0
  {
    match QuickSort(b, rlo, rhi)
    case OutOfBounds(k) => OutOfBounds(k)
    case Ok(c) =>
      var r := QuickSort(c, llo, lhi);
      if r.Ok? then PermutedWithinTrans(b, c, r.value, low, high, rlo, rhi, llo, lhi); r else r
  }

  /** When `quickSort` returns, it has permuted the cells `low..high` among themselves. */
  lemma QuickSortPermutesRange(a: seq<int>, low: int, high: int)
    requires 0 <= low <= high < |a|
    requires QuickSort(a, low, high).Ok?
    ensures var b := QuickSort(a, low, high).value;
            multiset(b[low..high + 1]) == multiset(a[low..high + 1])
  {
    PermutesRange(a, QuickSort(a, low, high).value, low, high);
  }

  /** A two-cell range is partitioned like any other: the call reads `A[-1]` exactly when
      every cell left of `low` exceeds the smaller of the pair, and otherwise it leaves the
      pair in DESCENDING order. */
  lemma QuickSortOfPair(a: seq<int>, low: int)
    requires 0 <= low && low + 1 < |a|
    ensures var r := QuickSort(a, low, low + 1);
            && (r.OutOfBounds? <==> forall k :: 0 <= k < low ==> a[k] > Min(a[low], a[low + 1]))
            && (r.Ok? ==> r.value[low] == Max(a[low], a[low + 1])
                          && r.value[low + 1] == Min(a[low], a[low + 1]))
  {
    var high := low + 1;
    PartitionOfPair(a, low);
    var p := Partition(a, low, high);
    if p.Ok? {
      var b := p.value.arr;
      assert p.value.at == high;
      assert QuickSort(b, high + 1, high) == Ok(b);
      assert QuickSort(b, low, low) == Ok(b);
      assert RecurseThenLoop(b, low, high, high + 1, high, low, low) == Ok(b);
      assert SortAroundPivot(b, low, high, high) == Ok(b);
      assert QuickSort(a, low, high) == Ok(b);
    }
  }

  /** On a strictly ascending four-cell array the median of `A[0]`, `A[1]`, `A[3]` is the
      second value, which is parked at index 2. */
  lemma MedianOfThreeOfAscendingFour(w: int, x: int, y: int, z: int)
    requires w < x < y < z
    ensures MedianOfThree([w, x, y, z], 0, 3) == Pivoted([w, y, x, z], x)
  {
    var a := [w, x, y, z];
    assert Mid(0, 3) == 1;
    assert CompareSwap(a, 0, 1) == a && CompareSwap(a, 0, 3) == a && CompareSwap(a, 1, 3) == a;
    assert OrderThree(a, 0, 1, 3) == a;
    assert Swap(a, 1, 2) == [w, y, x, z];
  }

  /** The scans then meet at once: the upward one stops at index 1, the downward one at 0. */
  lemma PartitionLoopOfAscendingFour(w: int, x: int, y: int, z: int)
    requires w < x < y < z
    ensures PartitionLoop([w, y, x, z], 0, 3, 0, 2, x) == Ok(Partitioned([w, y, x, z], 1))
  {
    var m := [w, y, x, z];
    assert ScanUp(m, 0, x) == Ok(1);
    assert ScanDown(m, 2, x) == Ok(0);
  }

  /** The first partition of a strictly ascending four-cell array takes the second value as
      pivot and leaves the array as it was, split at index 1. */
  lemma PartitionOfAscendingFour(w: int, x: int, y: int, z: int)
    requires w < x < y < z
    ensures Partition([w, x, y, z], 0, 3) == Ok(Partitioned([w, x, y, z], 1))
  {
    var a := [w, x, y, z];
    var m := [w, y, x, z];
    MedianOfThreeOfAscendingFour(w, x, y, z);
    PartitionLoopOfAscendingFour(w, x, y, z);
    assert Swap(m, 1, 2) == a;
  }

  lemma FourCells(b: seq<int>, p: int, q: int, r: int, s: int)
    requires |b| == 4 && b[0] == p && b[1] == q && b[2] == r && b[3] == s
    ensures b == [p, q, r, s]
  {
  }

  /** In a strictly ascending four-cell array, the pair `2..3` is reversed (the cells to its
      left stop the downward scan, so no access leaves the array). */
  lemma QuickSortReversesTopPairOfAscendingFour(w: int, x: int, y: int, z: int)
    requires w < x < y < z
    ensures QuickSort([w, x, y, z], 2, 3) == Ok([w, x, z, y])
  {
    var a := [w, x, y, z];
    QuickSortOfPair(a, 2);
    assert a[0] <= Min(a[2], a[3]);
    var pair := QuickSort(a, 2, 3);
    assert pair.Ok?;
    var b := pair.value;
    assert |b| == 4 && b[0] == w && b[1] == x && b[2] == z && b[3] == y;
    FourCells(b, w, x, z, y);
  }

  /** Any strictly ascending four-cell array comes back with its last two cells exchanged,
      every access in bounds: the first partition splits at index 1, the recursive call
      gets the single cell `0..0`, and the loop then partitions the pair `2..3`, which
      reverses it. */
  lemma QuickSortSwapsLastPairOfAscendingFour(w: int, x: int, y: int, z: int)
    requires w < x < y < z
    ensures QuickSort([w, x, y, z], 0, 3) == Ok([w, x, z, y])
  {
    var a := [w, x, y, z];
    PartitionOfAscendingFour(w, x, y, z);
    QuickSortReversesTopPairOfAscendingFour(w, x, y, z);
    assert QuickSort(a, 0, 0) == Ok(a);
    assert SortAroundPivot(a, 0, 3, 1) == RecurseThenLoop(a, 0, 3, 0, 0, 2, 3);
  }

  /** Concretely: `[1, 2, 3, 4]` comes back as `[1, 2, 4, 3]`, which is not sorted. */
  lemma QuickSortDoesNotSortOneToFour()
    ensures QuickSort([1, 2, 3, 4], 0, 3) == Ok([1, 2, 4, 3])
    ensures !Sorted([1, 2, 4, 3])
  {
    QuickSortSwapsLastPairOfAscendingFour(1, 2, 3, 4);
    assert [1, 2, 4, 3][2] > [1, 2, 4, 3][3];
  }

  /** Concretely: the generated ascending list `[0, 1, 2, 3]` comes back as `[0, 1, 3, 2]`. */
  lemma QuickSortDoesNotSortAscendingFour()
    ensures QuickSort(Lists.Ascending(4), 0, 3) == Ok([0, 1, 3, 2])
  {
    assert Lists.Ascending(4) == [0, 1, 2, 3];
    QuickSortSwapsLastPairOfAscendingFour(0, 1, 2, 3);
  }

  /** Concretely: the descending list `[5, 4, 3, 2, 1]` is first split into `[1, 2]`,
      `3` and `[4, 5]`; the leftmost pair then sends the downward scan to `A[-1]`. */
  lemma QuickSortReadsBeforeDescendingFive()
    ensures QuickSort(Lists.Descending(5), 0, 4) == OutOfBounds(-1)
  {
    assert Lists.Descending(5) == [5, 4, 3, 2, 1];
  }

  /** `2^n`. */
  function Pow2(n: nat): nat {
    if n == 0 then 1 else 2 * Pow2(n - 1)
  }

  /** How many `quickSort` frames the call `quickSort(A, low, high)` stacks on top of its
      own at the deepest point: each pass adds one for its recursive call, while the loop
      on the larger side stays in the same frame. A run that faults counts the frames
      stacked up to the fault. Because the recursive call always takes the smaller side, a
      call on `n` cells stacks at most log2(n) further frames. */
  function StackDepth(a: seq<int>, low: int, high: int): (d: nat)
    requires low < high ==> 0 <= low && high < |a|
    ensures Pow2(d) <= Max(1, high - low + 1)
    decreases high - low, 2
  {
    if low >= high then 0
    else
      match Partition(a, low, high)
      case OutOfBounds(_) => 0
      case Ok(Partitioned(b, pi)) => DepthAroundPivot(b, low, high, pi)
  }

  /** The depth reached by `SortAroundPivot`: the smaller side of the pivot holds at most
      half of the other cells. */
  function DepthAroundPivot(b: seq<int>, low: int, high: int, pi: int): (d: nat)
    requires 0 <= low < pi <= high < |b|
    ensures Pow2(d) <= high - low + 1
    decreases high - low, 1
  {
    if pi - low < high - pi then PassDepth(b, low, high, low, pi - 1, pi + 1, high)
    else PassDepth(b, low, high, pi + 1, high, low, pi - 1)
  }

  /** The depth reached by `RecurseThenLoop`: one more than the recursive call's own, or
      whatever the remaining passes of the loop reach. A frame is added only for a side of
      at most half the cells. */
  function PassDepth(b: seq<int>, low: int, high: int, rlo: int, rhi: int, llo: int, lhi: int)
    : (d: nat)
    requires 0 <= low < high < |b|
    requires low <= rlo && rhi <= high && rhi - rlo < high - low
    requires low <= llo && lhi <= high && lhi - llo < high - low
    requires 2 * Max(0, rhi - rlo + 1) <= high - low
    ensures Pow2(d) <= high - low + 1
    decreases high - low, 0
  {
    var recursive := StackDepth(b, rlo, rhi);
    assert Pow2(recursive) <= Max(1, rhi - rlo + 1);
    assert Pow2(1 + recursive) == 2 * Pow2(recursive) <= high - low + 1;
    var q := QuickSort(b, rlo, rhi);
    if q.OutOfBounds? then 1 + recursive
    else
      assert |q.value| == |b|;
      var loop := StackDepth(q.value, llo, lhi);
      assert Pow2(loop) <= Max(1, lhi - llo + 1) <= high - low + 1;
      var d := Max(1 + recursive, loop);
      assert d == 1 + recursive || d == loop;
      d
  }

  /** The corrected `quickSort`: ranges of three or more cells are partitioned as before,
      a range of two cells is put in order by one compare-and-swap. It sorts the cells
      `low..high` among themselves and leaves every other cell alone. */
  function GuardedQuickSort(a: seq<int>, low: int, high: int): (r: seq<int>)
    requires low < high ==> 0 <= low && high < |a|
    ensures PermutedWithin(a, r, low, high)
    ensures SortedRange(r, low, high)
    decreases high - low, 1
  {
    if high - low >= 2 then
      PartitionSplits(a, low, high);
      var p := Partition(a, low, high).value;
      var r := GuardedSortAroundPivot(p.arr, low, high, p.at);
      PermutedWithinTrans(a, p.arr, r, low, high, low, high, low, high);
      r
    else if low < high && a[low] > a[high] then Swap(a, low, high)
    else a
  }

  /** One pass of the corrected loop on a range partitioned around the cell `pi`: the
      recursive call sorts the smaller side, then the loop sorts the larger side. */
  function GuardedSortAroundPivot(b: seq<int>, low: int, high: int, pi: int): (r: seq<int>)
    requires 0 <= low < pi < high < |b|
    requires AllAtMost(b, low, pi - 1, b[pi]) && AllAtLeast(b, pi + 1, high, b[pi])
    ensures PermutedWithin(b, r, low, high)
    ensures SortedRange(r, low, high)
    decreases high - low, 0
  {
    if pi - low < high - pi then
      var c := GuardedQuickSort(b, low, pi - 1);
      var r := GuardedQuickSort(c, pi + 1, high);
      PermutedWithinTrans(b, c, r, low, high, low, pi - 1, pi + 1, high);
      JoinLeftThenRight(b, c, r, low, pi, high);
      r
    else
      var c := GuardedQuickSort(b, pi + 1, high);
      var r := GuardedQuickSort(c, low, pi - 1);
      PermutedWithinTrans(b, c, r, low, high, pi + 1, high, low, pi - 1);
      JoinRightThenLeft(b, c, r, low, pi, high);
      r
  }

  /** `c` sorts the side left of the pivot of `b`, then `r` sorts the side right of it:
      `r` is sorted on the whole range. */
  lemma JoinLeftThenRight(b: seq<int>, c: seq<int>, r: seq<int>, low: int, pi: int, high: int)
    requires 0 <= low < pi < high < |b|
    requires AllAtMost(b, low, pi - 1, b[pi]) && AllAtLeast(b, pi + 1, high, b[pi])
    requires PermutedWithin(b, c, low, pi - 1) && SortedRange(c, low, pi - 1)
    requires PermutedWithin(c, r, pi + 1, high) && SortedRange(r, pi + 1, high)
    ensures SortedRange(r, low, high)
  {
    PermutationKeepsUpperBound(b, c, low, pi - 1, b[pi]);
    PermutationKeepsLowerBound(c, r, pi + 1, high, b[pi]);
    SortedRangeFrame(c, r, low, pi - 1, pi + 1, high);
    JoinSorted(r, low, pi, high);
  }

  /** `c` sorts the side right of the pivot of `b`, then `r` sorts the side left of it:
      `r` is sorted on the whole range. */
  lemma JoinRightThenLeft(b: seq<int>, c: seq<int>, r: seq<int>, low: int, pi: int, high: int)
    requires 0 <= low < pi < high < |b|
    requires AllAtMost(b, low, pi - 1, b[pi]) && AllAtLeast(b, pi + 1, high, b[pi])
    requires PermutedWithin(b, c, pi + 1, high) && SortedRange(c, pi + 1, high)
    requires PermutedWithin(c, r, low, pi - 1) && SortedRange(r, low, pi - 1)
    ensures SortedRange(r, low, high)
  {
    PermutationKeepsLowerBound(b, c, pi + 1, high, b[pi]);
    PermutationKeepsUpperBound(c, r, low, pi - 1, b[pi]);
    SortedRangeFrame(c, r, pi + 1, high, low, pi - 1);
    JoinSorted(r, low, pi, high);
  }
}
