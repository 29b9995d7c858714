/**
 * `countingSort(inputArray, N)` of `bruno_kaua_sort.c`, one method per phase: find the
 * maximum, count occurrences, turn the counts into running totals, place the elements by
 * a reverse scan, copy back. The first `N` cells are the live ones; they must hold
 * non-negative values because each value is used as an index into the count buffer.
 *
 * The sorted result is characterised independently of the algorithm by `RankOrdered`:
 * every value `v` fills exactly the block of positions `[CountLess(s, v),
 * CountLess(s, v + 1))`. The lemmas below derive sortedness, permutation, stability and
 * uniqueness from that characterisation.
 */
module CountingSortEngine {
  import opened Arrays

  /** Number of elements of `s` strictly below `v`. */
  function CountLess(s: seq<int>, v: int): (c: nat)
    ensures c <= |s|
    decreases |s|
  {
    if |s| == 0 then 0
    else CountLess(s[..|s| - 1], v) + (if s[|s| - 1] < v then 1 else 0)
  }

  /** Sum of a sequence of counts. */
  function Sum(c: seq<int>): int
    decreases |c|
  {
    if |c| == 0 then 0 else Sum(c[..|c| - 1]) + c[|c| - 1]
  }

  /** Position `p` lies in the block reserved for the value `v`: after all elements below
      `v` and before all elements above it. */
  ghost predicate InBlock(s: seq<int>, p: int, v: int) {
    CountLess(s, v) <= p < CountLess(s, v + 1)
  }

  /** `out` holds every value of `s` in its block: the sorted arrangement of `s`. */
  ghost predicate RankOrdered(out: seq<int>, s: seq<int>) {
    |out| == |s| && forall p :: 0 <= p < |out| ==> InBlock(s, p, out[p])
  }

  /** Where a stable sort puts the element `s[k]`: after every smaller element and after
      every equal element that comes before it. */
  function StableRank(s: seq<int>, k: int): (r: int)
    requires 0 <= k < |s|
    ensures 0 <= r < |s|
  {
    PrefixCount(s, k);
    CountLessStep(s, s[k]);
    CountLess(s, s[k]) + multiset(s[..k])[s[k]]
  }

  lemma {:induction false} CountLessStep(s: seq<int>, v: int)
    ensures CountLess(s, v + 1) == CountLess(s, v) + multiset(s)[v]
    decreases |s|
  {
    if |s| > 0 {
      var t := s[..|s| - 1];
      assert s == t + [s[|s| - 1]];
      CountLessStep(t, v);
    }
  }

  lemma {:induction false} CountLessMono(s: seq<int>, v: int, w: int)
    requires v <= w
    ensures CountLess(s, v) <= CountLess(s, w)
    decreases |s|
  {
    if |s| > 0 {
      CountLessMono(s[..|s| - 1], v, w);
    }
  }

  /** No element is below a lower bound of all of them. */
  lemma {:induction false} CountLessBelowAll(s: seq<int>, v: int)
    requires forall k :: 0 <= k < |s| ==> v <= s[k]
    ensures CountLess(s, v) == 0
    decreases |s|
  {
    if |s| > 0 {
      CountLessBelowAll(s[..|s| - 1], v);
    }
  }

  /** Every element is below a strict upper bound of all of them. */
  lemma {:induction false} CountLessAboveAll(s: seq<int>, v: int)
    requires forall k :: 0 <= k < |s| ==> s[k] < v
    ensures CountLess(s, v) == |s|
    decreases |s|
  {
    if |s| > 0 {
      CountLessAboveAll(s[..|s| - 1], v);
    }
  }

  /** The blocks of distinct values do not overlap. */
  lemma BlocksDisjoint(s: seq<int>, p: int, v: int, w: int)
    requires InBlock(s, p, v) && InBlock(s, p, w)
    ensures v == w
  {
    if v < w {
      CountLessMono(s, v + 1, w);
    } else if w < v {
      CountLessMono(s, w + 1, v);
    }
  }

  /** Every position of `s` lies in the block of some value between the bounds of `s`. */
  lemma {:induction false} BlockOf(s: seq<int>, m: int, p: int, w: int)
    requires forall k :: 0 <= k < |s| ==> 0 <= s[k] <= m
    requires 0 <= w <= m + 1 && 0 <= p < |s|
    requires CountLess(s, w) <= p
    ensures exists v :: w <= v <= m && InBlock(s, p, v)
    decreases m + 1 - w
  {
    if w == m + 1 {
      CountLessAboveAll(s, m + 1);
      assert false;
    } else if p < CountLess(s, w + 1) {
      assert InBlock(s, p, w);
    } else {
      BlockOf(s, m, p, w + 1);
    }
  }

  /** A prefix holds at most as many copies of a value as the whole sequence, and one more
      copy of `s[i]` than the prefix before it. */
  lemma PrefixCount(s: seq<int>, i: int)
    requires 0 <= i < |s|
    ensures multiset(s[..i + 1]) == multiset(s[..i]) + multiset{s[i]}
    ensures forall v :: multiset(s[..i + 1])[v] <= multiset(s)[v]
  {
    assert s[..i + 1] == s[..i] + [s[i]];
    assert s == s[..i + 1] + s[i + 1..];
  }

  /** The stable rank is a position of `s`, inside the block of the element's value. */
  lemma StableRankInBlock(s: seq<int>, k: int)
    requires 0 <= k < |s|
    ensures InBlock(s, StableRank(s, k), s[k])
  {
    PrefixCount(s, k);
    CountLessStep(s, s[k]);
  }

  /** Stability: the stable rank orders elements by value, and equal values by their
      position in the input. In particular no two elements share a rank. */
  lemma StableRankOrders(s: seq<int>, k: int, l: int)
    requires 0 <= k < l < |s|
    ensures s[k] <= s[l] ==> StableRank(s, k) < StableRank(s, l)
    ensures s[k] > s[l] ==> StableRank(s, k) > StableRank(s, l)
  {
    StableRankInBlock(s, k);
    StableRankInBlock(s, l);
    if s[k] == s[l] {
      PrefixCount(s, k);
      assert s[..l] == s[..k + 1] + s[k + 1..l];
    } else if s[k] < s[l] {
      CountLessMono(s, s[k] + 1, s[l]);
    } else {
      CountLessMono(s, s[l] + 1, s[k]);
    }
  }

  /** The arrangement `RankOrdered` describes is sorted. */
  lemma RankOrderedIsSorted(out: seq<int>, s: seq<int>)
    requires RankOrdered(out, s)
    ensures Sorted(out)
  {
    forall k, l | 0 <= k < l < |out|
      ensures out[k] <= out[l]
    {
      if out[k] > out[l] {
        CountLessMono(s, out[l] + 1, out[k]);
      }
    }
  }

  /** In a rank-ordered arrangement the cells holding `v` are exactly its block, so the
      prefix `out[..q]` holds as many copies of `v` as the block has positions below `q`. */
  lemma {:induction false} CopiesInPrefix(out: seq<int>, s: seq<int>, v: int, q: int)
    requires RankOrdered(out, s)
    requires 0 <= q <= |out|
    ensures CountLess(s, v) <= CountLess(s, v + 1)
    ensures multiset(out[..q])[v] == Max(0, Min(q, CountLess(s, v + 1)) - CountLess(s, v))
    decreases q
  {
    CountLessMono(s, v, v + 1);
    if q > 0 {
      CopiesInPrefix(out, s, v, q - 1);
      assert out[..q] == out[..q - 1] + [out[q - 1]];
      if out[q - 1] != v && InBlock(s, q - 1, v) {
        BlocksDisjoint(s, q - 1, out[q - 1], v);
      }
    }
  }

  /** The arrangement `RankOrdered` describes is a permutation of the input. */
  lemma RankOrderedIsPermutation(out: seq<int>, s: seq<int>)
    requires RankOrdered(out, s)
    ensures multiset(out) == multiset(s)
  {
    forall v
      ensures multiset(out)[v] == multiset(s)[v]
    {
      CopiesInPrefix(out, s, v, |out|);
      CountLessStep(s, v);
      assert out[..|out|] == out;
    }
  }

  /** The element `s[k]` sits at its stable rank in a rank-ordered arrangement. */
  lemma RankOrderedPlacesStably(out: seq<int>, s: seq<int>, k: int)
    requires RankOrdered(out, s)
    requires 0 <= k < |s|
    ensures out[StableRank(s, k)] == s[k]
  {
    StableRankInBlock(s, k);
    BlocksDisjoint(s, StableRank(s, k), out[StableRank(s, k)], s[k]);
  }

  /** There is only one rank-ordered arrangement of a sequence. */
  lemma RankOrderedIsUnique(o1: seq<int>, o2: seq<int>, s: seq<int>)
    requires RankOrdered(o1, s) && RankOrdered(o2, s)
    ensures o1 == o2
  {
    forall p | 0 <= p < |o1|
      ensures o1[p] == o2[p]
    {
      BlocksDisjoint(s, p, o1[p], o2[p]);
    }
  }

  /** The first loop: `M` starts at 0 and grows to every larger element, so it ends as the
      largest of 0 and the elements. */
  method FindMax(s: seq<int>) returns (m: int)
    ensures m >= 0
    ensures forall k :: 0 <= k < |s| ==> s[k] <= m
    ensures m == 0 || m in s
  {
    m := 0;
    var i := 0;
    while i < |s|
      invariant 0 <= i <= |s|
      invariant m >= 0
      invariant forall k :: 0 <= k < i ==> s[k] <= m
      invariant m == 0 || m in s
    {
      if s[i] > m {
        m := s[i];
      }
      i := i + 1;
    }
  }

  /** The counting loop over a zero-filled buffer of `M + 1` cells: afterwards cell `v`
      holds the number of occurrences of `v`. */
  method CountOccurrences(s: seq<int>, m: int) returns (count: seq<int>)
    requires m >= 0
    requires forall k :: 0 <= k < |s| ==> 0 <= s[k] <= m
    ensures |count| == m + 1
    ensures forall v :: 0 <= v <= m ==> count[v] == multiset(s)[v]
  {
    count := seq(m + 1, _ => 0);
    var i := 0;
    while i < |s|
      invariant 0 <= i <= |s|
      invariant |count| == m + 1
      invariant forall v :: 0 <= v <= m ==> count[v] == multiset(s[..i])[v]
    {
      PrefixCount(s, i);
      count := count[s[i] := count[s[i]] + 1];
      i := i + 1;
    }
    assert s[..|s|] == s;
  }

  /** The accumulation loop: cell `v` becomes the sum of cells `0..v`. */
  method PrefixSums(count: seq<int>) returns (p: seq<int>)
    ensures |p| == |count|
    ensures forall v :: 0 <= v < |p| ==> p[v] == Sum(count[..v + 1])
  {
    p := count;
    var i := 1;
    while i < |p|
      invariant 1 <= i
      invariant |p| == |count|
      invariant forall v :: 0 <= v < i && v < |p| ==> p[v] == Sum(count[..v + 1])
      invariant forall v :: i <= v < |p| ==> p[v] == count[v]
    {
      assert count[..i + 1][..i] == count[..i];
      p := p[i := p[i] + p[i - 1]];
      i := i + 1;
    }
  }

  /** Running totals of the occurrence counts are the numbers of elements at or below
      each value. */
  lemma {:induction false} CumulativeCounts(s: seq<int>, m: int, count: seq<int>, v: int)
    requires forall k :: 0 <= k < |s| ==> 0 <= s[k] <= m
    requires |count| == m + 1
    requires forall w :: 0 <= w <= m ==> count[w] == multiset(s)[w]
    requires 0 <= v <= m
    ensures Sum(count[..v + 1]) == CountLess(s, v + 1)
    decreases v
  {
    assert count[..v + 1][..v] == count[..v];
    CountLessStep(s, v);
    if v == 0 {
      CountLessBelowAll(s, 0);
    } else {
      CumulativeCounts(s, m, count, v - 1);
    }
  }

  /** What the placement loop keeps while the elements `s[..rest]` are still to be placed:
      `cnt[v]` is the number of elements below `v` plus the copies of `v` among them, and
      the cells from `cnt[v]` to the end of the block of `v` already hold `v`. */
  ghost predicate Placing(s: seq<int>, m: int, rest: int, cnt: seq<int>, out: seq<int>)
    requires 0 <= rest <= |s|
  {
    && |cnt| == m + 1 && |out| == |s|
    && (forall v {:trigger cnt[v]} :: 0 <= v <= m ==> cnt[v] == CountLess(s, v) + multiset(s[..rest])[v])
    && (forall v {:trigger cnt[v]} :: 0 <= v <= m ==> BlockFilledFrom(s, v, cnt[v], out))
  }

  /** The cells from `lo` to the end of the block of `v` hold `v`. */
  ghost predicate BlockFilledFrom(s: seq<int>, v: int, lo: int, out: seq<int>) {
    forall q :: 0 <= lo <= q < CountLess(s, v + 1) <= |out| ==> out[q] == v
  }

  /** One step of the reverse scan: the last unplaced element goes to the cell just before
      the placed part of its block, which is its stable rank. */
  lemma PlaceStep(s: seq<int>, m: int, rest: int, cnt: seq<int>, out: seq<int>)
    requires forall k :: 0 <= k < |s| ==> 0 <= s[k] <= m
    requires 0 < rest <= |s|
    requires Placing(s, m, rest, cnt, out)
    ensures 0 <= cnt[s[rest - 1]] - 1 < |s|
    ensures cnt[s[rest - 1]] - 1 == StableRank(s, rest - 1)
    ensures Placing(s, m, rest - 1, cnt[s[rest - 1] := cnt[s[rest - 1]] - 1],
                    out[cnt[s[rest - 1]] - 1 := s[rest - 1]])
  {
    var i := rest - 1;
    var v := s[i];
    PrefixCount(s, i);
    StableRankInBlock(s, i);
    var idx := cnt[v] - 1;
    var cnt' := cnt[v := idx];
    var out' := out[idx := v];
    forall w | 0 <= w <= m
      ensures BlockFilledFrom(s, w, cnt'[w], out')
    {
      forall q | 0 <= cnt'[w] <= q < CountLess(s, w + 1) <= |out'|
        ensures out'[q] == w
      {
        if w != v {
          assert InBlock(s, q, w) by {
            assert multiset(s[..i + 1])[w] >= 0;
          }
          if q == idx {
            BlocksDisjoint(s, q, v, w);
          }
        } else if q != idx {
          assert BlockFilledFrom(s, w, cnt[w], out);
        }
      }
    }
  }

  /** Before the scan nothing is placed: each count is the running total. */
  lemma PlacingStarts(s: seq<int>, m: int, totals: seq<int>, out: seq<int>)
    requires |totals| == m + 1 && |out| == |s|
    requires forall v :: 0 <= v <= m ==> totals[v] == CountLess(s, v + 1)
    ensures Placing(s, m, |s|, totals, out)
  {
    assert s[..|s|] == s;
    forall v | 0 <= v <= m
      ensures totals[v] == CountLess(s, v) + multiset(s)[v]
    {
      CountLessStep(s, v);
    }
  }

  /** After the scan every block is filled, so the output is rank-ordered. */
  lemma PlacingEnds(s: seq<int>, m: int, cnt: seq<int>, out: seq<int>)
    requires forall k :: 0 <= k < |s| ==> 0 <= s[k] <= m
    requires Placing(s, m, 0, cnt, out)
    ensures RankOrdered(out, s)
  {
    forall p | 0 <= p < |out|
      ensures InBlock(s, p, out[p])
    {
      CountLessBelowAll(s, 0);
      BlockOf(s, m, p, 0);
      var v :| 0 <= v <= m && InBlock(s, p, v);
      assert cnt[v] == CountLess(s, v);
      assert BlockFilledFrom(s, v, cnt[v], out);
    }
  }

  /** The reverse scan. Each element `s[i]`, from the last to the first, is written to
      cell `countArray[s[i]] - 1`, which lies in `[0, N)`, and that count is decremented.
      The output buffer starts with whatever `out0` holds (`malloc` leaves it
      uninitialised); every cell is overwritten, so the result does not depend on it. The
      ghost result records where each input element was put. */
  method Place(s: seq<int>, m: int, totals: seq<int>, out0: seq<int>)
    returns (out: seq<int>, ghost placed: seq<int>)
    requires |out0| == |s|
    requires forall k :: 0 <= k < |s| ==> 0 <= s[k] <= m
    requires |totals| == m + 1
    requires forall v :: 0 <= v <= m ==> totals[v] == CountLess(s, v + 1)
    ensures RankOrdered(out, s)
    ensures |placed| == |s|
    ensures forall k :: 0 <= k < |s| ==> placed[k] == StableRank(s, k) && out[placed[k]] == s[k]
  {
    var cnt := totals;
    out := out0;
    placed := seq(|s|, _ => 0);
    PlacingStarts(s, m, totals, out);
    var rest := |s|;
    while rest > 0
      invariant 0 <= rest <= |s|
      invariant Placing(s, m, rest, cnt, out)
      invariant |placed| == |s|
      invariant forall k :: rest <= k < |s| ==> placed[k] == StableRank(s, k)
    {
      var i := rest - 1;
      PlaceStep(s, m, rest, cnt, out);
      out := out[cnt[s[i]] - 1 := s[i]];
      placed := placed[i := cnt[s[i]] - 1];
      cnt := cnt[s[i] := cnt[s[i]] - 1];
      rest := i;
    }
    PlacingEnds(s, m, cnt, out);
    forall k | 0 <= k < |s|
      ensures out[placed[k]] == s[k]
    {
      RankOrderedPlacesStably(out, s, k);
    }
  }

  /** `countingSort(inputArray, N)`: the first `N` cells end sorted, as a permutation of
      what they held, each element at its stable rank; the cells from `N` on are not
      touched, and `N == 0` changes nothing. `scratch` is the uninitialised contents of
      the output buffer that `malloc` returns; the result does not depend on it. */
  method CountingSort(a: seq<int>, n: int, scratch: seq<int>) returns (r: seq<int>, ghost placed: seq<int>)
    requires 0 <= n <= |a| && |scratch| == n
    requires forall k :: 0 <= k < n ==> a[k] >= 0
    ensures |r| == |a| && r[n..] == a[n..]
    ensures RankOrdered(r[..n], a[..n])
    ensures Sorted(r[..n]) && multiset(r[..n]) == multiset(a[..n])
    ensures |placed| == n
    ensures forall k :: 0 <= k < n ==> placed[k] == StableRank(a[..n], k) && r[placed[k]] == a[k]
    ensures n == 0 ==> r == a
  {
    var s := a[..n];
    var m := FindMax(s);
    var count := CountOccurrences(s, m);
    var totals := PrefixSums(count);
    forall v | 0 <= v <= m
      ensures totals[v] == CountLess(s, v + 1)
    {
      CumulativeCounts(s, m, count, v);
    }
    var out;
    out, placed := Place(s, m, totals, scratch);
    r := a;
    var i := 0;
    while i < n
      invariant 0 <= i <= n
      invariant |r| == |a|
      invariant forall k :: 0 <= k < i ==> r[k] == out[k]
      invariant forall k :: i <= k < |a| ==> r[k] == a[k]
    {
      r := r[i := out[i]];
      i := i + 1;
    }
    assert r[..n] == out;
    RankOrderedIsSorted(out, s);
    RankOrderedIsPermutation(out, s);
  }
}
