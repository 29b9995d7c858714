# Sorting core of `bruno_kaua_sort.c`, in Dafny

The C program benchmarks two in-place sorts of an `int` array. One is a QuickSort
(`quickSort`) with a median-of-three pivot (`medianaDeTres`) and a Hoare-style partition
(`particiona`). It recurses on the smaller side and loops on the larger one. The other is
a Counting Sort (`countingSort`): find the maximum, count, prefix-sum, place by a reverse
scan, copy back. The array is filled by one of three generators (`gerarListaCrescente`,
`gerarListaDecrescente`, `gerarListaAleatoria`).

This project models those functions. An array is a `seq<int>` value that each operation
takes and returns.

- A read outside the array is undefined behaviour in C. Here it is the result
  `OutOfBounds(i)`.
- Each C loop of the QuickSort family is a tail-recursive function with the same branches.
  So the model can be evaluated on concrete arrays.
- Counting sort is a chain of methods with `while` loops, one per C phase.

Modules:

- `Arrays` (`arrays.dfy`): `Swap` (`troca`), plus sortedness, frame and permutation
  predicates.
- `Partitioner` (`partition.dfy`): `medianaDeTres` and `particiona`.
- `QuickSortEngine` (`quicksort.dfy`): `quickSort` as written, with its recursion depth.
  Also `GuardedQuickSort`, the corrected sort (see Findings).
- `CountingSortEngine` (`counting.dfy`): `countingSort`. Its result is characterised
  independently of the algorithm by `RankOrdered`: each value `v` fills exactly the
  positions `[CountLess(s, v), CountLess(s, v + 1))`.
- `Lists` (`lists.dfy`): the three list generators.
- `SortAgreement` (`agreement.dfy`): a sorted permutation is the rank-ordered
  arrangement. So the corrected QuickSort and the Counting Sort give the same array.

`quickSort` is documented to sort the array (bruno_kaua_sort.c:66). The model follows the
code, which partitions two-cell ranges as well. On the descending list `[5, 4, 3, 2, 1]`,
the leftmost pair sends the downward scan to `A[-1]`
(`QuickSortEngine.QuickSortReadsBeforeDescendingFive`).

## Model

| member | source | states |
|---|---|---|
| Arrays.Swap | bruno_kaua_sort.c:15-19 | the two cells exchange their values, every other cell keeps its value, and the multiset of values is unchanged |
| Partitioner.NetworkPermutes | bruno_kaua_sort.c:32-34 | the three compare-and-swaps leave the three input values rearranged, none lost or duplicated |
| Partitioner.CompareSwap | bruno_kaua_sort.c:32-34 | one conditional exchange leaves the smaller value in the first cell and the larger in the second, touches no other cell and keeps the multiset |
| Partitioner.NetworkMiddleIsMedian | bruno_kaua_sort.c:32-34 | the three compare-and-swaps leave the median of the three inputs in the middle cell |
| Partitioner.OrderThree | bruno_kaua_sort.c:30-34 | the cells `low`, `mid`, `high` end in order, the middle one holds the median of the three original values, other cells are untouched; with `low == mid` the pair is ordered |
| Partitioner.MedianOfThree | bruno_kaua_sort.c:29-38 | the returned pivot sits at `high - 1`, is a median of `A[low]`, `A[mid]`, `A[high]` when the range has three or more cells, is bounded by `A[low]` and `A[high]`, and only the four reference cells move |
| Partitioner.MedianOfThreeKeepsReferenceCells | bruno_kaua_sort.c:29-38 | on four or more cells the values of the four reference cells are only rearranged among those cells |
| Partitioner.MedianOfThreeOfLargestFirst | bruno_kaua_sort.c:29-38 | on three cells holding the largest, smallest and middle value in that order (such as `[5, 1, 3]`), the middle value is the pivot and ends at `high - 1` |
| Partitioner.ScanUp | bruno_kaua_sort.c:54-55 | the upward scan stops at the first later cell not below the pivot, every cell passed is below it, and it faults only by running past the end |
| Partitioner.ScanDown | bruno_kaua_sort.c:56-57 | the downward scan stops at the nearest earlier cell not above the pivot; it reads `A[-1]` exactly when every earlier cell exceeds the pivot |
| Partitioner.PartitionLoop | bruno_kaua_sort.c:53-60 | the loop only permutes cells strictly between its indices, breaks at an index with everything before it at most the pivot and everything from it on at least the pivot, never faults on ranges of three or more, and on two-cell ranges faults exactly when every cell left of `low` exceeds the pivot |
| Partitioner.SwapAndContinue | bruno_kaua_sort.c:58-59 | after the swap of two out-of-place cells the loop always finishes in bounds, breaking strictly inside the swapped pair's span with the partition property intact |
| Partitioner.PlacePivotSplits | bruno_kaua_sort.c:61-62 | the final swap moves the pivot to the break index with nothing larger before it and nothing smaller after it, permuting only cells inside the range |
| Partitioner.Partition | bruno_kaua_sort.c:48-63 | the partition permutes only the cells `low..high`, returns an index in `low+1..high`, can fault only by reading `A[-1]`, and on three or more cells never faults and returns an index below `high` |
| Partitioner.PartitionSplits | bruno_kaua_sort.c:48-63 | on three or more cells the value at the returned index is the median of the three reference cells, with nothing larger before it and nothing smaller after it in the range |
| Partitioner.PartitionOfPair | bruno_kaua_sort.c:48-63 | on two cells the partition reads `A[-1]` exactly when every cell left of `low` exceeds the smaller value, and otherwise leaves the pair in descending order at index `low + 1` |
| QuickSortEngine.QuickSort | bruno_kaua_sort.c:72-84 | a run that does not fault permutes only the cells `low..high`, an empty or one-cell range is returned unchanged, and the only possible fault is a read of `A[-1]` |
| QuickSortEngine.SortAroundPivot | bruno_kaua_sort.c:76-82 | one pass after the partition permutes only the cells of the range and can fault only at `A[-1]` |
| QuickSortEngine.RecurseThenLoop | bruno_kaua_sort.c:77-81 | the recursive call on one side followed by the loop on the other permutes only the cells of the range |
| QuickSortEngine.QuickSortPermutesRange | bruno_kaua_sort.c:72-84 | when the call returns, the multiset of the cells `low..high` is the one it started with |
| QuickSortEngine.QuickSortOfPair | bruno_kaua_sort.c:73-74 | a two-cell range reads `A[-1]` exactly when every cell left of it exceeds the smaller value, and otherwise comes back in descending order |
| QuickSortEngine.MedianOfThreeOfAscendingFour | bruno_kaua_sort.c:29-38 | on any strictly ascending four-cell array the pivot is the second value, parked at index 2 |
| QuickSortEngine.PartitionLoopOfAscendingFour | bruno_kaua_sort.c:53-60 | on that array the scans meet at once and the loop breaks at index 1 without a swap |
| QuickSortEngine.PartitionOfAscendingFour | bruno_kaua_sort.c:48-63 | the first partition of a strictly ascending four-cell array leaves it unchanged and splits at index 1 |
| QuickSortEngine.QuickSortReversesTopPairOfAscendingFour | bruno_kaua_sort.c:73-74 | in a strictly ascending four-cell array the pair at indices 2 and 3 is reversed |
| QuickSortEngine.QuickSortSwapsLastPairOfAscendingFour | bruno_kaua_sort.c:72-84 | every strictly ascending four-cell array comes back with its last two cells exchanged, every access in bounds |
| QuickSortEngine.QuickSortDoesNotSortOneToFour | bruno_kaua_sort.c:73-74 | `[1, 2, 3, 4]` comes back as the unsorted `[1, 2, 4, 3]` |
| QuickSortEngine.QuickSortDoesNotSortAscendingFour | bruno_kaua_sort.c:72-84 | the generated ascending list of length 4 comes back as `[0, 1, 3, 2]` |
| QuickSortEngine.QuickSortReadsBeforeDescendingFive | bruno_kaua_sort.c:56-57 | sorting the generated descending list of length 5 reads `A[-1]` |
| QuickSortEngine.StackDepth | bruno_kaua_sort.c:72-84 | the recursion stacks at most log2 of the range's length further frames, because the recursive call always takes the smaller side |
| QuickSortEngine.DepthAroundPivot | bruno_kaua_sort.c:76-82 | choosing the smaller side for the recursive call keeps `2^depth` within the range's length |
| QuickSortEngine.PassDepth | bruno_kaua_sort.c:76-82 | a recursive call on at most half the cells adds one frame, and the loop's passes add none |
| QuickSortEngine.GuardedQuickSort | bruno_kaua_sort.c:72-84 | the corrected sort orders the cells `low..high` as a permutation of them and leaves every other cell alone |
| QuickSortEngine.GuardedSortAroundPivot | bruno_kaua_sort.c:76-82 | sorting both sides of a pivot that separates them, smaller side first, sorts the whole range as a permutation of it |
| CountingSortEngine.FindMax | bruno_kaua_sort.c:94-97 | the maximum starts at 0 and ends as an upper bound of all values that is 0 or one of them |
| CountingSortEngine.CountOccurrences | bruno_kaua_sort.c:100-104 | after counting, cell `v` holds the number of copies of `v` in the input |
| CountingSortEngine.PrefixSums | bruno_kaua_sort.c:107-108 | after accumulation, cell `v` holds the sum of the counts of `0..v` |
| CountingSortEngine.CumulativeCounts | bruno_kaua_sort.c:107-108 | the accumulated count of `v` is the number of input values at most `v` |
| CountingSortEngine.PlaceStep | bruno_kaua_sort.c:112-115 | each step of the reverse scan writes inside `[0, N)`, at the element's stable rank, and keeps every value's block filled from its current count on |
| CountingSortEngine.Place | bruno_kaua_sort.c:111-115 | starting from any contents of the uninitialised output buffer, the reverse scan puts every element at its stable rank, and the output holds every value in its rank block |
| CountingSortEngine.CountingSort | bruno_kaua_sort.c:92-124 | whatever the output buffer held, the first `N` cells end sorted, as a permutation of what they held, each element at its stable rank; later cells are untouched and `N == 0` changes nothing |
| CountingSortEngine.StableRankInBlock | bruno_kaua_sort.c:112-115 | an element's stable rank lies in the block of its value |
| CountingSortEngine.StableRankOrders | bruno_kaua_sort.c:112-115 | stability: of two elements, the earlier goes first exactly unless it is strictly larger |
| CountingSortEngine.RankOrderedIsSorted | bruno_kaua_sort.c:92-124 | the rank-ordered arrangement is sorted |
| CountingSortEngine.RankOrderedIsPermutation | bruno_kaua_sort.c:92-124 | the rank-ordered arrangement has the input's multiset |
| CountingSortEngine.RankOrderedPlacesStably | bruno_kaua_sort.c:112-115 | in the rank-ordered arrangement each element's value sits at its stable rank |
| CountingSortEngine.RankOrderedIsUnique | bruno_kaua_sort.c:92-124 | the rank-ordered arrangement of an input is unique |
| Lists.RandomList | bruno_kaua_sort.c:150-154 | every generated random value lies in `[0, n)` |
| Lists.AscendingIsStrictlySorted | bruno_kaua_sort.c:162-166 | the ascending list is sorted with distinct entries |
| Lists.GeneratedListsAreNonNegative | bruno_kaua_sort.c:150-178 | every generator yields non-negative values, as counting sort requires |
| SortAgreement.CountLessOfPermutation | bruno_kaua_sort.c:107-108 | the number of values below `v` depends only on the multiset of the input |
| SortAgreement.SortedPermutationIsRankOrdered | bruno_kaua_sort.c:92-124 | any sorted permutation of the input is the rank-ordered arrangement |
| SortAgreement.GuardedQuickSortIsRankOrdered | bruno_kaua_sort.c:72-84 | the corrected QuickSort over the first `n` cells yields the rank-ordered arrangement |
| SortAgreement.BothSortsAgree | bruno_kaua_sort.c:72-124 | on the same non-negative input the counting sort (lines 92-124) and the corrected QuickSort (lines 72-84) leave the same array |
| SortAgreement.ExampleRanks | bruno_kaua_sort.c:112-115 | in `[3, 0, 0, 2, 1]` the zero at index 1 is placed at 0 and the zero at index 2 at 1 |
| SortAgreement.CountingSortExample | bruno_kaua_sort.c:92-124 | counting sort turns `[3, 0, 0, 2, 1]` into `[0, 0, 1, 2, 3]`, whatever the output buffer held |
| SortAgreement.CountingSortOfAscending | bruno_kaua_sort.c:162-166 | counting sort returns the generated ascending list unchanged |
| SortAgreement.CountingSortOfGenerated | bruno_kaua_sort.c:150-178 | the generated descending and random lists meet counting sort's requirement and come back sorted, as permutations of themselves |

## Left out

- Timing, statistics and table printing (`medirTempo`, `calcularDesvioPadrao`, `executarTestes`, `printArray`, `main`). They are clocks, floating point and output.
- `rand()`: `Lists.RandomList` takes the successive draws as a parameter.
- `gerarLista`: its only logic is dispatch to the generators, plus an `exit` on an invalid type.
- Allocation (`calloc`, `malloc`, `free`) and its failure: buffers are sequences. The uninitialised output buffer is a parameter of `CountingSort` and `Place`.
- `M + 1` overflowing when the maximum is `INT_MAX`: values are unbounded integers.
- 32-bit `int` width in general: values are only compared and copied, and indices stay within the array.
- The function-pointer call `func(A, 0, n - 1)` (lines 137 and 274). Calling `countingSort` through a `void (*)(int [], int, int)` pointer is undefined behaviour, because the two function types are incompatible (section 6.5.2.2, paragraph 9, of ISO C11). Nothing guarantees what `N` receives. On common ABIs, such as x86-64 System V, the second argument arrives as `0`. The model covers that case as `N == 0 ==> r == a`.
- CountingSortEngine.CountingSort: requires non-negative values. The C code indexes the count buffer with each value, so a negative value is undefined behaviour that it does not handle.
- QuickSortEngine.StackDepth: bounds the recursion depth, not the running time. The `O(n log n)` comparison count on sorted input is not modelled.

## Findings

| source | as written | input that shows it | evidently intended | confidence | as-written member | corrected member |
|---|---|---|---|---|---|---|
| bruno_kaua_sort.c:73-74 | `quickSort` partitions every range with `low < high`, including two-cell ranges. There the median-of-three's `high - 1` is `low`, so the downward scan starts left of the range. The pair then comes back reversed, or the scan reads `A[-1]` | `[1, 2, 3, 4]` with `low = 0`, `high = 3` gives `[1, 2, 4, 3]`; `[5, 4, 3, 2, 1]` with `low = 0`, `high = 4` reads `A[-1]` | partition only ranges of three or more cells, and order a two-cell range by one compare-and-swap | high; not executed | QuickSortEngine.QuickSortDoesNotSortOneToFour | QuickSortEngine.GuardedQuickSort |
