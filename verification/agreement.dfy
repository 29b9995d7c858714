/**
 * The two sorts of the benchmark compared on the same input: the sorted arrangement of a
 * list is unique (`RankOrdered`), so the repaired quick sort and the counting sort
 * produce the same array from the same non-negative input.
 */
module SortAgreement {
  import opened Arrays
  import opened CountingSortEngine
  import QuickSortEngine
  import Lists

  /** Counting below a value splits over a concatenation. */
  lemma {:induction false} CountLessAppend(s: seq<int>, t: seq<int>, v: int)
    ensures CountLess(s + t, v) == CountLess(s, v) + CountLess(t, v)
    decreases |t|
  {
    if |t| > 0 {
      var t' := t[..|t| - 1];
      assert (s + t)[..|s + t| - 1] == s + t';
      assert (s + t)[|s + t| - 1] == t[|t| - 1];
      CountLessAppend(s, t', v);
    } else {
      assert s + t == s;
    }
  }

  /** The count below a value depends only on the multiset of elements. */
  lemma {:induction false} CountLessOfPermutation(s: seq<int>, t: seq<int>, v: int)
    requires multiset(s) == multiset(t)
    ensures CountLess(s, v) == CountLess(t, v)
    decreases |s|
  {
    if |s| > 0 {
      var x := s[|s| - 1];
      assert x in multiset(t) by {
        assert x in s;
      }
      var j :| 0 <= j < |t| && t[j] == x;
      var s', t' := s[..|s| - 1] + s[|s|..], t[..j] + t[j + 1..];
      RemoveOne(s, |s| - 1);
      RemoveOne(t, j);
      CountLessOfPermutation(s', t', v);
      CountLessRemove(s, |s| - 1, v);
      CountLessRemove(t, j, v);
    }
  }

  /** Dropping one cell drops one copy of its value. */
  lemma RemoveOne(t: seq<int>, j: int)
    requires 0 <= j < |t|
    ensures multiset(t[..j] + t[j + 1..]) == multiset(t) - multiset{t[j]}
  {
    assert t == t[..j] + [t[j]] + t[j + 1..];
  }

  /** Dropping one cell drops it from the count below `v` exactly when it is below `v`. */
  lemma CountLessRemove(t: seq<int>, j: int, v: int)
    requires 0 <= j < |t|
    ensures CountLess(t, v) == CountLess(t[..j] + t[j + 1..], v) + (if t[j] < v then 1 else 0)
  {
    assert t == t[..j] + [t[j]] + t[j + 1..];
    CountLessAppend(t[..j], [t[j]], v);
    CountLessAppend(t[..j] + [t[j]], t[j + 1..], v);
    CountLessAppend(t[..j], t[j + 1..], v);
    assert CountLess([t[j]], v) == (if t[j] < v then 1 else 0) by {
      assert [t[j]][..0] == [];
    }
  }

  /** A sorted permutation of `s` is the rank-ordered arrangement of `s`. */
  lemma SortedPermutationIsRankOrdered(out: seq<int>, s: seq<int>)
    requires Sorted(out) && multiset(out) == multiset(s)
    ensures RankOrdered(out, s)
  {
    assert |out| == |multiset(out)| == |s|;
    forall p | 0 <= p < |out|
      ensures InBlock(s, p, out[p])
    {
      SortedCellInBlock(out, p);
      CountLessOfPermutation(out, s, out[p]);
      CountLessOfPermutation(out, s, out[p] + 1);
    }
  }

  /** In a sorted sequence every cell lies in the block of its own value. */
  lemma SortedCellInBlock(out: seq<int>, p: int)
    requires Sorted(out) && 0 <= p < |out|
    ensures InBlock(out, p, out[p])
  {
    CountBelowCell(out, p, out[p]);
    CountUpToCell(out, p, out[p]);
  }

  /** Nothing from position `p` on is below a value that bounds those cells from below. */
  lemma CountBelowCell(out: seq<int>, p: int, v: int)
    requires 0 <= p <= |out|
    requires forall k :: p <= k < |out| ==> v <= out[k]
    ensures CountLess(out, v) <= p
  {
    var before, from := out[..p], out[p..];
    forall k | 0 <= k < |from|
      ensures v <= from[k]
    {
      assert from[k] == out[p + k];
    }
    assert out == before + from;
    CountLessAppend(before, from, v);
    CountLessBelowAll(from, v);
  }

  /** Everything up to position `p` is below a strict upper bound of those cells. */
  lemma CountUpToCell(out: seq<int>, p: int, v: int)
    requires 0 <= p < |out|
    requires forall k :: 0 <= k <= p ==> out[k] <= v
    ensures p < CountLess(out, v + 1)
  {
    var upTo, after := out[..p + 1], out[p + 1..];
    forall k | 0 <= k < |upTo|
      ensures upTo[k] < v + 1
    {
      assert upTo[k] == out[k];
    }
    assert out == upTo + after;
    CountLessAppend(upTo, after, v + 1);
    CountLessAboveAll(upTo, v + 1);
  }

  /** The repaired quick sort over the first `n` cells computes the rank-ordered
      arrangement that characterises counting sort's result. */
  lemma GuardedQuickSortIsRankOrdered(a: seq<int>, n: int)
    requires 0 <= n <= |a|
    ensures RankOrdered(QuickSortEngine.GuardedQuickSort(a, 0, n - 1)[..n], a[..n])
  {
    var r := QuickSortEngine.GuardedQuickSort(a, 0, n - 1);
    assert |r| == |a|;
    if n > 0 {
      PermutesRange(a, r, 0, n - 1);
      SortedRangeSlice(r, 0, n - 1);
    }
    SortedPermutationIsRankOrdered(r[..n], a[..n]);
  }

  /** On the same non-negative input both sorts leave the same array. */
  method BothSortsAgree(a: seq<int>, n: int, scratch: seq<int>) returns (counted: seq<int>, quick: seq<int>)
    requires 0 <= n <= |a| && |scratch| == n
    requires forall k :: 0 <= k < n ==> a[k] >= 0
    ensures counted == quick && |counted| == |a|
    ensures Sorted(counted[..n]) && multiset(counted[..n]) == multiset(a[..n])
  {
    ghost var placed;
    counted, placed := CountingSort(a, n, scratch);
    quick := QuickSortEngine.GuardedQuickSort(a, 0, n - 1);
    GuardedQuickSortIsRankOrdered(a, n);
    RankOrderedIsUnique(counted[..n], quick[..n], a[..n]);
    SameOutsideSlices(a, quick, 0, n - 1);
    JoinAt(counted, quick, n);
  }

  /** Sequences that agree before and from a split point are equal. */
  lemma JoinAt(x: seq<int>, y: seq<int>, n: int)
    requires 0 <= n <= |x| == |y|
    requires x[..n] == y[..n] && x[n..] == y[n..]
    ensures x == y
  {
    assert x == x[..n] + x[n..];
    assert y == y[..n] + y[n..];
  }

  /** `[3, 0, 0, 2, 1]` sorts to `[0, 0, 1, 2, 3]`. */
  lemma ExampleIsRankOrdered()
    ensures RankOrdered([0, 0, 1, 2, 3], [3, 0, 0, 2, 1])
  {
    var s := [3, 0, 0, 2, 1];
    var out := [0, 0, 1, 2, 3];
    assert multiset(out) == multiset{0, 0, 1, 2, 3} == multiset(s);
    SortedPermutationIsRankOrdered(out, s);
  }

  /** In `[3, 0, 0, 2, 1]` the zero at index 1 goes before the zero at index 2. */
  lemma ExampleRanks()
    ensures StableRank([3, 0, 0, 2, 1], 1) == 0 && StableRank([3, 0, 0, 2, 1], 2) == 1
  {
    var s := [3, 0, 0, 2, 1];
    CountLessBelowAll(s, 0);
    assert s[..1] == [3] && s[..2] == [3, 0];
    assert multiset(s[..1])[0] == 0 && multiset(s[..2])[0] == 1;
  }

  /** The only arrangement of `[3, 0, 0, 2, 1]` in rank order is `[0, 0, 1, 2, 3]`. */
  lemma ExampleIsUnique(out: seq<int>)
    requires RankOrdered(out, [3, 0, 0, 2, 1])
    ensures out == [0, 0, 1, 2, 3]
  {
    ExampleIsRankOrdered();
    RankOrderedIsUnique(out, [0, 0, 1, 2, 3], [3, 0, 0, 2, 1]);
  }

  /** Counting sort on `[3, 0, 0, 2, 1]`, whatever the output buffer held: the result is
      `[0, 0, 1, 2, 3]`. */
  method CountingSortExample(scratch: seq<int>) returns (r: seq<int>)
    requires |scratch| == 5
    ensures r == [0, 0, 1, 2, 3]
  {
    var a := [3, 0, 0, 2, 1];
    ghost var placed;
    r, placed := CountingSort(a, 5, scratch);
    assert a[..5] == a && r[..5] == r;
    ExampleIsUnique(r);
  }

  /** Counting sort on a generated ascending list returns it unchanged. */
  method CountingSortOfAscending(n: nat, scratch: seq<int>) returns (r: seq<int>)
    requires |scratch| == n
    ensures r == Lists.Ascending(n)
  {
    var a := Lists.Ascending(n);
    Lists.GeneratedListsAreNonNegative(n, []);
    ghost var placed;
    r, placed := CountingSort(a, n, scratch);
    Lists.AscendingIsStrictlySorted(n);
    assert a[..n] == a && r[..n] == r;
    SortedPermutationIsRankOrdered(a, a);
    RankOrderedIsUnique(r, a, a);
  }

  /** Counting sort on a generated descending or random list sorts it. */
  method CountingSortOfGenerated(n: nat, draws: seq<nat>, scratch: seq<int>)
    returns (down: seq<int>, random: seq<int>)
    requires |draws| == n && |scratch| == n
    ensures Sorted(down) && multiset(down) == multiset(Lists.Descending(n))
    ensures Sorted(random) && multiset(random) == multiset(Lists.RandomList(draws))
  {
    var d, u := Lists.Descending(n), Lists.RandomList(draws);
    Lists.GeneratedListsAreNonNegative(n, draws);
    ghost var placed;
    down, placed := CountingSort(d, n, scratch);
    random, placed := CountingSort(u, n, scratch);
    assert d[..n] == d && down[..n] == down;
    assert u[..n] == u && random[..n] == random;
  }
}
