/**
 * Shared vocabulary for the sorting model: an `int` array is a `seq<int>` value that every
 * operation takes and returns, plus the notions of sortedness, frame and permutation that
 * the contracts of both sorts are written in.
 */
module Arrays {

  /** Outcome of code that may read outside the array: `OutOfBounds(i)` stands for a read of
      `A[i]` with `i` outside `[0, |A|)`, which is undefined behaviour in the C program. */
  datatype Result<+T> = Ok(value: T) | OutOfBounds(index: int)

  function Min(x: int, y: int): int { if x <= y then x else y }

  function Max(x: int, y: int): int { if x >= y then x else y }

  /** Exchanges the cells `i` and `j` (`troca`). */
  function Swap(a: seq<int>, i: int, j: int): (r: seq<int>)
    requires 0 <= i < |a| && 0 <= j < |a|
    ensures |r| == |a|
    ensures r[i] == a[j] && r[j] == a[i]
    ensures forall k :: 0 <= k < |a| && k != i && k != j ==> r[k] == a[k]
    ensures multiset(r) == multiset(a)
  {
    a[i := a[j]][j := a[i]]
  }

  ghost predicate Sorted(s: seq<int>) {
    forall k, l :: 0 <= k < l < |s| ==> s[k] <= s[l]
  }

  /** The cells `lo..hi` (both inclusive, the C convention) are in non-decreasing order. */
  ghost predicate SortedRange(a: seq<int>, lo: int, hi: int) {
    forall k, l :: 0 <= lo <= k < l <= hi < |a| ==> a[k] <= a[l]
  }

  /** `b` differs from `a` at most in the cells `lo..hi`. */
  ghost predicate SameOutside(a: seq<int>, b: seq<int>, lo: int, hi: int) {
    |a| == |b| && forall k :: 0 <= k < |a| && (k < lo || hi < k) ==> b[k] == a[k]
  }

  /** `b` is a permutation of `a` that moves only the cells `lo..hi`. */
  ghost predicate PermutedWithin(a: seq<int>, b: seq<int>, lo: int, hi: int) {
    multiset(a) == multiset(b) && SameOutside(a, b, lo, hi)
  }

  /** Such permutations compose: two of them confined to sub-ranges of `lo..hi` make one
      confined to `lo..hi`. */
  lemma PermutedWithinTrans(a: seq<int>, b: seq<int>, c: seq<int>, lo: int, hi: int,
                            lo1: int, hi1: int, lo2: int, hi2: int)
    requires PermutedWithin(a, b, lo1, hi1) && PermutedWithin(b, c, lo2, hi2)
    requires lo <= lo1 && hi1 <= hi && lo <= lo2 && hi2 <= hi
    ensures PermutedWithin(a, c, lo, hi)
  {
  }

  ghost predicate AllAtMost(a: seq<int>, lo: int, hi: int, x: int) {
    forall k :: 0 <= lo <= k <= hi < |a| ==> a[k] <= x
  }

  ghost predicate AllAtLeast(a: seq<int>, lo: int, hi: int, x: int) {
    forall k :: 0 <= lo <= k <= hi < |a| ==> a[k] >= x
  }

  /** A permutation of the whole array that leaves everything outside `lo..hi` alone
      permutes the cells `lo..hi` among themselves. */
  lemma PermutesRange(a: seq<int>, b: seq<int>, lo: int, hi: int)
    requires 0 <= lo <= hi + 1 <= |a|
    requires SameOutside(a, b, lo, hi) && multiset(a) == multiset(b)
    ensures multiset(a[lo..hi + 1]) == multiset(b[lo..hi + 1])
  {
    SameOutsideSlices(a, b, lo, hi);
    SplitThree(a, lo, hi + 1);
    SplitThree(b, lo, hi + 1);
    var outside := multiset(a[..lo]) + multiset(a[hi + 1..]);
    assert multiset(a[lo..hi + 1]) == multiset(a) - outside;
  }

  /** Outside the range the two sequences have the same prefix and suffix. */
  lemma SameOutsideSlices(a: seq<int>, b: seq<int>, lo: int, hi: int)
    requires 0 <= lo <= hi + 1 <= |a|
    requires SameOutside(a, b, lo, hi)
    ensures a[..lo] == b[..lo] && a[hi + 1..] == b[hi + 1..]
  {
  }

  /** A sequence is its prefix, middle and suffix put together. */
  lemma SplitThree(s: seq<int>, i: int, j: int)
    requires 0 <= i <= j <= |s|
    ensures multiset(s) == multiset(s[..i]) + multiset(s[i..j]) + multiset(s[j..])
  {
    assert s == s[..i] + s[i..j] + s[j..];
  }

  /** Permuting the cells `lo..hi` keeps every upper bound of them. */
  lemma PermutationKeepsUpperBound(a: seq<int>, b: seq<int>, lo: int, hi: int, x: int)
    requires 0 <= lo && hi < |a|
    requires SameOutside(a, b, lo, hi) && multiset(a) == multiset(b)
    requires AllAtMost(a, lo, hi, x)
    ensures AllAtMost(b, lo, hi, x)
  {
    if lo <= hi {
      PermutesRange(a, b, lo, hi);
      forall k | lo <= k <= hi
        ensures b[k] <= x
      {
        assert b[k] == b[lo..hi + 1][k - lo];
        assert b[k] in multiset(a[lo..hi + 1]);
        var k' :| 0 <= k' < hi + 1 - lo && a[lo..hi + 1][k'] == b[k];
        assert a[lo + k'] == b[k];
      }
    }
  }

  /** Permuting the cells `lo..hi` keeps every lower bound of them. */
  lemma PermutationKeepsLowerBound(a: seq<int>, b: seq<int>, lo: int, hi: int, x: int)
    requires 0 <= lo && hi < |a|
    requires SameOutside(a, b, lo, hi) && multiset(a) == multiset(b)
    requires AllAtLeast(a, lo, hi, x)
    ensures AllAtLeast(b, lo, hi, x)
  {
    if lo <= hi {
      PermutesRange(a, b, lo, hi);
      forall k | lo <= k <= hi
        ensures b[k] >= x
      {
        assert b[k] == b[lo..hi + 1][k - lo];
        assert b[k] in multiset(a[lo..hi + 1]);
        var k' :| 0 <= k' < hi + 1 - lo && a[lo..hi + 1][k'] == b[k];
        assert a[lo + k'] == b[k];
      }
    }
  }

  /** Two sorted runs on either side of a cell that separates them make one sorted run. */
  lemma JoinSorted(a: seq<int>, lo: int, p: int, hi: int)
    requires 0 <= lo <= p <= hi < |a|
    requires SortedRange(a, lo, p - 1) && SortedRange(a, p + 1, hi)
    requires AllAtMost(a, lo, p - 1, a[p]) && AllAtLeast(a, p + 1, hi, a[p])
    ensures SortedRange(a, lo, hi)
  {
  }

  /** Changing only cells outside a sorted run keeps it sorted. */
  lemma SortedRangeFrame(a: seq<int>, b: seq<int>, lo: int, hi: int, flo: int, fhi: int)
    requires SortedRange(a, lo, hi) && SameOutside(a, b, flo, fhi)
    requires hi < flo || fhi < lo
    ensures SortedRange(b, lo, hi)
  {
  }

  /** A sorted run, cut out, is a sorted sequence. */
  lemma SortedRangeSlice(a: seq<int>, lo: int, hi: int)
    requires 0 <= lo <= hi + 1 <= |a|
    requires SortedRange(a, lo, hi)
    ensures Sorted(a[lo..hi + 1])
  {
    var run := a[lo..hi + 1];
    forall k, l | 0 <= k < l < |run|
      ensures run[k] <= run[l]
    {
      assert run[k] == a[lo + k] && run[l] == a[lo + l];
    }
  }
}
