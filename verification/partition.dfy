/**
 * Median-of-three pivot selection and the Hoare partition of `bruno_kaua_sort.c`
 * (`medianaDeTres`, `particiona`). Each C loop is a tail-recursive function over the
 * array value. The partition is modelled for every range with `low < high`, because
 * that is how `quickSort` calls it; its contract separates ranges of at least three
 * cells, where the sentinel argument holds, from ranges of two cells, where it does not.
 */
module Partitioner {
  import opened Arrays

  /** The middle reference index, `low + (high - low) / 2` (non-negative operands, so C's
      truncating division and Dafny's agree). */
  function Mid(low: int, high: int): int
    requires low <= high
  {
    low + (high - low) / 2
  }

  /** `m` is a median of `x`, `y`, `z`: one of them, with at least two of them at or below
      it and at least two at or above it. */
  ghost predicate IsMedian(m: int, x: int, y: int, z: int) {
    && m in multiset{x, y, z}
    && (if x <= m then 1 else 0) + (if y <= m then 1 else 0) + (if z <= m then 1 else 0) >= 2
    && (if x >= m then 1 else 0) + (if y >= m then 1 else 0) + (if z >= m then 1 else 0) >= 2
  }

  /** The array after a median-of-three selection, and the pivot value it returns. */
  datatype Pivoted = Pivoted(arr: seq<int>, pivot: int)

  /** The array after a partition, and the pivot's final index. */
  datatype Partitioned = Partitioned(arr: seq<int>, at: int)

  /** `if (A[i] > A[j]) troca(&A[i], &A[j])`: afterwards the two cells hold the smaller and
      the larger of the two values, in that order (nothing happens when `i == j`). */
  function CompareSwap(a: seq<int>, i: int, j: int): (r: seq<int>)
    requires 0 <= i < |a| && 0 <= j < |a|
    ensures |r| == |a| && multiset(r) == multiset(a)
    ensures i != j ==> r[i] == Min(a[i], a[j]) && r[j] == Max(a[i], a[j])
    ensures i == j ==> r == a
    ensures forall k :: 0 <= k < |a| && k != i && k != j ==> r[k] == a[k]
  {
    if a[i] > a[j] then Swap(a, i, j) else a
  }

  /** The sorting network of `medianaDeTres` leaves the median of its three inputs in the
      middle cell. */
  lemma NetworkMiddleIsMedian(x: int, y: int, z: int)
    ensures IsMedian(Min(Max(x, y), Max(Min(x, y), z)), x, y, z)
  {
  }

  /** The sorting network of `medianaDeTres` only rearranges its three inputs. */
  lemma NetworkPermutes(x: int, y: int, z: int)
    ensures multiset{Min(Min(x, y), z), Min(Max(x, y), Max(Min(x, y), z)),
                     Max(Max(x, y), Max(Min(x, y), z))} == multiset{x, y, z}
  {
    var l, m, h := Min(Min(x, y), z), Min(Max(x, y), Max(Min(x, y), z)),
                   Max(Max(x, y), Max(Min(x, y), z));
    if x <= y && y <= z {
      assert l == x && m == y && h == z;
    } else if x <= y && x <= z {
      assert l == x && m == z && h == y;
      assert multiset{x, z, y} == multiset{x, y, z};
    } else if x <= y {
      assert l == z && m == x && h == y;
      assert multiset{z, x, y} == multiset{x, y, z};
    } else if x <= z {
      assert l == y && m == x && h == z;
      assert multiset{y, x, z} == multiset{x, y, z};
    } else if y <= z {
      assert l == y && m == z && h == x;
      assert multiset{y, z, x} == multiset{x, y, z};
    } else {
      assert l == z && m == y && h == x;
      assert multiset{z, y, x} == multiset{x, y, z};
    }
  }

  /** The three compare-and-swaps of `medianaDeTres` on the cells `low`, `mid`, `high`:
      afterwards they are in order and the middle one holds the median of the three
      original values. With `low == mid` they order the pair `low`, `high`. */
  function OrderThree(a: seq<int>, low: int, mid: int, high: int): (r: seq<int>)
    requires 0 <= low <= mid < high < |a|
    ensures |r| == |a| && multiset(r) == multiset(a)
    ensures r[low] <= r[mid] <= r[high]
    ensures forall k :: 0 <= k < |a| && k != low && k != mid && k != high ==> r[k] == a[k]
    ensures low < mid ==> IsMedian(r[mid], a[low], a[mid], a[high])
    ensures low == mid ==> r[low] == Min(a[low], a[high]) && r[high] == Max(a[low], a[high])
    ensures low < mid ==> multiset{r[low], r[mid], r[high]} == multiset{a[low], a[mid], a[high]}
  {
    var a1 := CompareSwap(a, low, mid);
    var a2 := CompareSwap(a1, low, high);
    NetworkMiddleIsMedian(a[low], a[mid], a[high]);
    var r := CompareSwap(a2, mid, high);
    NetworkPermutes(a[low], a[mid], a[high]);
    r
  }

  /** `medianaDeTres`: the cells `low`, `mid`, `high` are put in order, then the middle one
      is parked at `high - 1` and returned. When `high - low == 2` the last swap is a
      self-swap (`mid == high - 1`); when `high - low == 1` the middle reference is `low`
      itself, so only the pair is ordered and the "pivot" is its minimum. */
  function MedianOfThree(a: seq<int>, low: int, high: int): (r: Pivoted)
    requires 0 <= low < high < |a|
    ensures |r.arr| == |a| && multiset(r.arr) == multiset(a)
    ensures r.pivot == r.arr[high - 1]
    ensures r.arr[low] <= r.arr[high - 1] <= r.arr[high]
    ensures forall k :: 0 <= k < |a| && k != low && k != Mid(low, high) && k != high - 1 && k != high ==>
              r.arr[k] == a[k]
    ensures high - low >= 2 ==> IsMedian(r.pivot, a[low], a[Mid(low, high)], a[high])
    ensures high - low == 1 ==>
              r.arr[low] == Min(a[low], a[high]) && r.arr[high] == Max(a[low], a[high])
  {
    var mid := Mid(low, high);
    assert high - low >= 2 ==> low < mid < high - 1 || mid == high - 1;
    var b := OrderThree(a, low, mid, high);
    var c := Swap(b, mid, high - 1);
    Pivoted(c, c[high - 1])
  }

  /** On four or more cells `medianaDeTres` only rearranges the values of its four reference
      cells among those cells. */
  lemma MedianOfThreeKeepsReferenceCells(a: seq<int>, low: int, high: int)
    requires 0 <= low && high < |a| && high - low >= 3
    ensures var r := MedianOfThree(a, low, high);
            var mid := Mid(low, high);
            multiset{r.arr[low], r.arr[mid], r.arr[high - 1], r.arr[high]} ==
            multiset{a[low], a[mid], a[high - 1], a[high]}
  {
    var mid := Mid(low, high);
    var b := OrderThree(a, low, mid, high);
    var c := Swap(b, mid, high - 1);
    assert MedianOfThree(a, low, high).arr == c;
    var bl, bm, bh, parked := b[low], b[mid], b[high], a[high - 1];
    assert c[low] == bl && c[mid] == parked && c[high - 1] == bm && c[high] == bh;
    var al, am, ah := a[low], a[mid], a[high];
    assert multiset{bl, bm, bh} == multiset{al, am, ah};
    ReorderFour(bl, parked, bm, bh);
    ReorderFour(al, am, parked, ah);
  }

  /** Moving the second of four values to the end keeps their multiset. */
  lemma ReorderFour(p: int, q: int, r: int, s: int)
    ensures multiset{p, q, r, s} == multiset{p, r, s, q}
  {
  }

  /** On three cells holding the largest, the smallest and the middle value, in that order,
      the middle value is the pivot and is parked at `high - 1`; `[5, 1, 3]` is one such. */
  lemma MedianOfThreeOfLargestFirst(x: int, y: int, z: int)
    requires y < z < x
    ensures var r := MedianOfThree([x, y, z], 0, 2);
            r.pivot == z && r.arr[1] == z
  {
    var r := MedianOfThree([x, y, z], 0, 2);
    assert IsMedian(r.pivot, x, y, z);
  }

  /** `while (A[++i] < pivot) {}`: the first index after `i` whose cell is not below the
      pivot. Running off the right end is a fault. */
  function ScanUp(a: seq<int>, i: int, pivot: int): (r: Result<int>)
    requires -1 <= i < |a|
    ensures r.Ok? ==> i < r.value < |a| && a[r.value] >= pivot
    ensures r.Ok? ==> forall k :: i < k < r.value ==> a[k] < pivot
    ensures forall s :: i < s < |a| && a[s] >= pivot ==> r.Ok? && r.value <= s
    ensures r.OutOfBounds? ==> r.index == |a|
    decreases |a| - i
  {
    var k := i + 1;
    if k >= |a| then OutOfBounds(k)
    else if a[k] < pivot then ScanUp(a, k, pivot)
    else Ok(k)
  }

  /** `while (A[--j] > pivot) {}`: the last index before `j` whose cell is not above the
      pivot. Running off the left end reads `A[-1]`. */
  function ScanDown(a: seq<int>, j: int, pivot: int): (r: Result<int>)
    requires 0 <= j <= |a|
    ensures r.Ok? ==> 0 <= r.value < j && a[r.value] <= pivot
    ensures r.Ok? ==> forall k :: r.value < k < j ==> a[k] > pivot
    ensures forall s :: 0 <= s < j && a[s] <= pivot ==> r.Ok? && r.value >= s
    ensures r.OutOfBounds? <==> forall k :: 0 <= k < j ==> a[k] > pivot
    ensures r.OutOfBounds? ==> r.index == -1
    decreases j
  {
    var k := j - 1;
    if k < 0 then OutOfBounds(k)
    else if a[k] > pivot then ScanDown(a, k, pivot)
    else Ok(k)
  }

  /** The `while (1)` loop of `particiona`, entered with indices `i <= j`: cells `low..i`
      are at most the pivot and cells `j..high` at least the pivot. It returns the array
      and the index `i` at which the loop breaks. With `i < j` (ranges of three or more)
      the scans are confined to `i..j`; with `i == j` (ranges of two) the downward scan
      starts left of `low` and may leave the array. */
  function PartitionLoop(a: seq<int>, low: int, high: int, i: int, j: int, pivot: int)
    : (r: Result<Partitioned>)
    requires 0 <= low <= i <= j < high < |a|
    requires AllAtMost(a, low, i, pivot) && AllAtLeast(a, j, high, pivot)
    ensures r.Ok? ==> PermutedWithin(a, r.value.arr, i + 1, j - 1)
    ensures r.Ok? ==> i < r.value.at <= high && (i < j ==> r.value.at <= j)
    ensures r.Ok? ==> AllAtMost(r.value.arr, low, r.value.at - 1, pivot)
    ensures r.Ok? ==> AllAtLeast(r.value.arr, r.value.at, high, pivot)
    ensures i < j ==> r.Ok?
    ensures i == j ==> (r.OutOfBounds? <==> forall k :: 0 <= k < j ==> a[k] > pivot)
    ensures r.OutOfBounds? ==> r.index == -1
    decreases j - i, 0
  {
    assert a[i] <= pivot && a[j] >= pivot && a[high] >= pivot;
    match ScanUp(a, i, pivot)
    case OutOfBounds(k) => OutOfBounds(k)
    case Ok(i') =>
      match ScanDown(a, j, pivot)
      case OutOfBounds(k) => OutOfBounds(k)
      case Ok(j') =>
        if i' >= j' then Ok(Partitioned(a, i'))
        else SwapAndContinue(a, low, high, i', j', pivot)
  }

  /** `troca(&A[i], &A[j])` when both scans stopped with `i < j`, and the next round of the
      loop: `A[i]` is at least the pivot and `A[j]` at most, everything before `i` at most
      and everything after `j` at least. The loop ends strictly inside `i..j`. */
  function SwapAndContinue(a: seq<int>, low: int, high: int, i: int, j: int, pivot: int)
    : (r: Result<Partitioned>)
    requires 0 <= low < i < j < high < |a|
    requires AllAtMost(a, low, i - 1, pivot) && a[i] >= pivot
    requires AllAtLeast(a, j + 1, high, pivot) && a[j] <= pivot
    ensures r.Ok? && PermutedWithin(a, r.value.arr, i, j)
    ensures i < r.value.at <= j
    ensures AllAtMost(r.value.arr, low, r.value.at - 1, pivot)
    ensures AllAtLeast(r.value.arr, r.value.at, high, pivot)
    decreases j - i, 1
  {
    var b := Swap(a, i, j);
    var r := PartitionLoop(b, low, high, i, j, pivot);
    PermutedWithinTrans(a, b, r.value.arr, i, j, i, j, i + 1, j - 1);
    r
  }

  /** `troca(&A[i], &A[high - 1])` after the loop: the pivot, parked at `high - 1`, moves
      to the break index `i`, and the cell it displaces is at least the pivot, so the range
      is split around the pivot. */
  lemma PlacePivotSplits(b: seq<int>, low: int, high: int, i: int, pivot: int)
    requires 0 <= low < i <= high - 1 && high < |b|
    requires b[high - 1] == pivot
    requires forall k :: low <= k < i ==> b[k] <= pivot
    requires forall k :: i <= k <= high ==> b[k] >= pivot
    ensures var c := Swap(b, i, high - 1);
            && multiset(c) == multiset(b) && SameOutside(b, c, low, high)
            && c[i] == pivot
            && AllAtMost(c, low, i - 1, pivot) && AllAtLeast(c, i + 1, high, pivot)
  {
    var c := Swap(b, i, high - 1);
    assert c[high - 1] == b[i] >= pivot;
  }

  /** `particiona`: median-of-three pivot, the scanning loop from `i = low`, `j = high - 1`,
      then the pivot is swapped from `high - 1` into the break index, which is returned.
      On ranges of three or more cells the scans never leave the range. */
  function Partition(a: seq<int>, low: int, high: int): (r: Result<Partitioned>)
    requires 0 <= low < high < |a|
    ensures r.Ok? ==> multiset(r.value.arr) == multiset(a) && SameOutside(a, r.value.arr, low, high)
    ensures r.Ok? ==> low < r.value.at <= high
    ensures r.OutOfBounds? ==> r.index == -1
    ensures high - low >= 2 ==> r.Ok? && r.value.at <= high - 1
  {
    var m := MedianOfThree(a, low, high);
    match PartitionLoop(m.arr, low, high, low, high - 1, m.pivot)
    case OutOfBounds(k) => OutOfBounds(k)
    case Ok(Partitioned(b, i)) => Ok(Partitioned(Swap(b, i, high - 1), i))
  }

  /** On a range of at least three cells the partition puts the median of `A[low]`,
      `A[mid]`, `A[high]` at the returned index, with nothing larger before it and nothing
      smaller after it inside the range. */
  lemma PartitionSplits(a: seq<int>, low: int, high: int)
    requires 0 <= low && high < |a| && high - low >= 2
    ensures var r := Partition(a, low, high);
            && r.Ok?
            && IsMedian(r.value.arr[r.value.at], a[low], a[Mid(low, high)], a[high])
            && AllAtMost(r.value.arr, low, r.value.at - 1, r.value.arr[r.value.at])
            && AllAtLeast(r.value.arr, r.value.at + 1, high, r.value.arr[r.value.at])
  {
    var m := MedianOfThree(a, low, high);
    var loop := PartitionLoop(m.arr, low, high, low, high - 1, m.pivot);
    var b, i := loop.value.arr, loop.value.at;
    PlacePivotSplits(b, low, high, i, m.pivot);
    var c := Swap(b, i, high - 1);
    assert Partition(a, low, high) == Ok(Partitioned(c, i));
  }

  /** On a range of two cells the downward scan starts left of `low`: it reads `A[-1]`
      exactly when every cell left of `low` exceeds the smaller of the pair, and otherwise
      the final swap leaves the pair in descending order. */
  lemma PartitionOfPair(a: seq<int>, low: int)
    requires 0 <= low && low + 1 < |a|
    ensures var r := Partition(a, low, low + 1);
            && (r.OutOfBounds? <==> forall k :: 0 <= k < low ==> a[k] > Min(a[low], a[low + 1]))
            && (r.Ok? ==> r.value.at == low + 1
                          && r.value.arr[low] == Max(a[low], a[low + 1])
                          && r.value.arr[low + 1] == Min(a[low], a[low + 1]))
  {
    var high := low + 1;
    var m := MedianOfThree(a, low, high);
    assert Mid(low, high) == low;
    assert forall k :: 0 <= k < low ==> m.arr[k] == a[k];
    var loop := PartitionLoop(m.arr, low, high, low, high - 1, m.pivot);
    if loop.Ok? {
      assert Partition(a, low, high) == Ok(Partitioned(Swap(loop.value.arr, loop.value.at, high - 1), loop.value.at));
    }
  }
}
