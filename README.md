# Distributed quicksort with MPI: a Dafny model

`main.cpp` of RPP-MPI sorts a file of integers with MPI:

- The collecting process (rank 0) reads the numbers.
- Every one of the `size` processes receives a chunk of `numbersSize / size` of them (`MPI_Scatter`).
- Each process sorts its chunk in place with a middle-pivot Hoare quicksort.
- The chunks are gathered back into the collector's vector (`MPI_Gather`).
- The collector merges the range `[0, chunk)` with the range `[chunk, N)` through `std::merge` into a fresh vector `temp`, assigns `temp` back to `numbers`, and writes the result to a file.

The project models that core in four modules:

- `Sorting` (`sorting.dfy`): the vocabulary.
  - `Sorted` is the non-decreasing order.
  - `Sort` is the reference sort: the one non-decreasing rearrangement of a sequence. `SortCharacterized` proves it unique.
- `LocalSorter` (`local_sorter.dfy`): `quickSort` on an `array<int>`, imperative as in the source.
  - Pieces: the two scans, the swap, the partition loop (one round per `PartitionRound` call) and the recursion.
  - `QuickSort` is proved to leave the range `[left, right]` sorted and a permutation of its old contents, and everything else unchanged.
- `Merger` (`merger.dfy`): the `std::merge` call.
  - `Merged` is a pure specification of the sequence the merge emits.
  - `MergeRanges` is the two-finger loop over the gathered vector, proved equal to `Merged`.
  - Lemmas prove that the merge is a permutation, that it is sorted when both ranges are sorted, and that it is stable.
- `Coordinator` (`coordinator.dfy`): the data effect of lines 73-89 on the collector's buffer.
  - Arithmetic: the chunk size and the chunk offsets.
  - `Scatter`, `Gather` and `SortOneChunk` model one rank.
  - `SortEveryChunk` loops over the ranks. `ScatterSortGather` is lines 73-83.
  - `MergeOnCollector` is lines 85-89 and `DistributedSort` is the whole protocol.
  - The ghost function `Outcome` is what the collector ends up holding, and lemmas state what it is (and is not).

The ranks run one after another in the model. Their chunks are disjoint and each rank only reads and writes its own chunk, so the order in which they run does not change the gathered buffer.

Two consequences of the code are worth stating up front:

- The `N % size` elements after the last full chunk go to no rank. They are still kept: the merge's second range runs to `numbers.end()`, so they reach the output unsorted (`Coordinator.OutcomePermutes`).
- Line 88 merges the first chunk with everything after it, taken as one range.

## Model

| member | source | states |
|---|---|---|
| LocalSorter.QuickSort | main.cpp:12-33 | After `quickSort(arr, left, right)` with `0 <= left <= right < arr.size()`, the range `[left, right]` is non-decreasing and holds the same multiset of elements as before. Every element outside it is unchanged. |
| LocalSorter.QuickSortSorted | main.cpp:12-33 | `quickSort` on a range that is already non-decreasing leaves the whole vector exactly as it was. |
| LocalSorter.SortedSegmentUnchanged | main.cpp:12-33 | An in-place sort of a range (sorted afterwards, same elements, nothing outside changed) whose range was already non-decreasing changes nothing. |
| Sorting.SortIdempotent | main.cpp:80 | Sorting a chunk that is already non-decreasing gives the chunk itself. |
| LocalSorter.Partition | main.cpp:13-27 | The pivot is the old `arr[(left + right) / 2]`. The loop ends with `j < i`, `left < i <= right + 1` and `left - 1 <= j < right`, so both recursive ranges are strictly shorter than `[left, right]`. Everything left of `i` is at most the pivot and everything right of `j` at least the pivot. The range is only permuted and the rest of the array is unchanged. |
| LocalSorter.PartitionRound | main.cpp:17-26 | One round of the outer `while (i <= j)` loop keeps the partition invariant and strictly decreases `j - i`. The invariant covers the scans staying inside `[left, right]`, the elements passed over on each side, and the permutation. |
| LocalSorter.ExchangeStep | main.cpp:22-26 | When the scans stop at `i <= j`, exchanging `arr[i]` and `arr[j]` and stepping both cursors keeps the partition invariant: everything left of the new `i` is at most the pivot, everything right of the new `j` at least the pivot, the two exchanged elements stop the next scans, and the range is only permuted. |
| LocalSorter.ScanUp | main.cpp:18-19 | `while (arr[i] < pivot) i++` stops at the first index at or after `i` whose element is not below the pivot. It never passes an index known to hold such an element, and every element it passed is below the pivot. |
| LocalSorter.ScanDown | main.cpp:20-21 | `while (arr[j] > pivot) j--` stops at the last index at or before `j` whose element is not above the pivot. It never passes an index known to hold such an element, and every element it passed is above the pivot. |
| LocalSorter.Swap | main.cpp:23 | The two elements are exchanged. Every other element is unchanged, and the multiset of any range holding both indices is unchanged. |
| LocalSorter.ShortSegmentSorted | main.cpp:29-32 | A range of at most one element, on which no recursive call is made, is already sorted. |
| LocalSorter.Assemble | main.cpp:29-32 | A partitioned range whose parts `[left, j]` and `[i, right]` are then each sorted in place is sorted as a whole, and is a permutation of the original range. |
| Sorting.SortCharacterized | main.cpp:80 | Any non-decreasing rearrangement of a sequence is `Sort` of it, so the locally sorted chunk is fully determined by the received chunk. |
| Sorting.SortedPermutationUnique | main.cpp:80 | Two non-decreasing sequences with the same elements are equal. |
| Merger.Merged | main.cpp:88 | The sequence `merge` writes into `temp`: exactly as many elements as the two ranges hold together. It takes the second range's head only when that is strictly below the first range's head, and copies the rest of the other range once one runs out. This is the standard's result for sorted ranges, and the release-mode implementations' output for unsorted ones (see "## Left out"). |
| Merger.MergeRanges | main.cpp:87-88 | `merge` of `[begin, begin + mid)` and `[begin + mid, end)` into an empty `temp` through a back-inserter produces exactly `Merged(numbers[..mid], numbers[mid..])`, and reads `numbers` without changing it. |
| Merger.MergePermutes | main.cpp:88 | The merge's output is the multiset union of the two ranges: nothing is lost or duplicated. |
| Merger.MergeSorted | main.cpp:88 | Merging two non-decreasing ranges gives a non-decreasing sequence. |
| Merger.MergeStable | main.cpp:88 | For sorted ranges, an element from the second range never precedes an element from the first range unless it is strictly smaller, so equal elements keep the first range first. |
| Merger.MergeInterleaves | main.cpp:88 | The elements taken from the first range appear in the output in their original order, and so do those taken from the second range. |
| Merger.MergeEmptySecond | main.cpp:88 | With an empty second range, the merge copies the first range. |
| Merger.MergeEmptyFirst | main.cpp:88 | With an empty first range, the merge copies the second range. |
| Coordinator.ChunkSize | main.cpp:76 | `numbersSize / size`: the `size` chunks fit in the buffer, fewer than `size` elements are left after them, and the chunk is empty exactly when `N < size`. |
| Coordinator.OffsetIsProduct | main.cpp:77-83 | The offset `Offset(chunk, r)` at which rank `r`'s chunk is scattered from and gathered to is `r * chunk`. |
| Coordinator.Scatter | main.cpp:77 | A fresh `localData` receives exactly the `chunk` elements at this rank's offset in the collector's buffer. |
| Coordinator.Gather | main.cpp:83 | The rank's `localData` is written back at its offset. Every other element of the collector's buffer is unchanged. |
| Coordinator.SortOneChunk | main.cpp:76-83 | One rank's share: its chunk of the buffer becomes `Sort` of that chunk, and everything else is unchanged. |
| Coordinator.SortNextChunk | main.cpp:77-83 | One rank's turn: given a buffer in which the ranks before `rank` have sorted their chunks, the chunk at `rank`'s offset becomes sorted too, so the buffer is `Gathered` for one more rank. |
| Coordinator.SortEveryChunk | main.cpp:77-83 | After every rank has scattered, sorted and gathered, the buffer is `Gathered`: each chunk sorted on its own, followed by the unchanged remainder. |
| Coordinator.ScatterSortGather | main.cpp:73-83 | The chunk size is `ChunkSize(N, size)`, and the buffer becomes `Gathered(input, chunk, size)`. |
| Coordinator.Gathered | main.cpp:77-83 | The collector's buffer after scatter, sort and gather: each of the first `size` chunks becomes `Sort` of itself and every element from `size * chunk` on is unchanged (`GatheredChunkSorted`). It has the same length as the input. |
| Coordinator.GatheredChunkSorted | main.cpp:77-83 | After the gather, the slot of rank `k` holds rank `k`'s original chunk sorted, and every element past the last chunk is as it was. |
| Coordinator.GatheredPermutes | main.cpp:77-83 | Scatter, sort and gather only rearrange the buffer. |
| Coordinator.SingleElementChunks | main.cpp:76-83 | When every process receives a single element (the case `size <= N < 2 * size`, where the chunk size is 1), the gathered buffer is the input unchanged: a one-element chunk is already sorted. |
| Coordinator.MergeOnCollector | main.cpp:85-89 | `numbers = temp` leaves the collector's buffer equal to the merge of its old `[0, chunk)` with its old `[chunk, N)`. |
| Coordinator.Outcome | main.cpp:73-89 | What the collector holds at the end: `Merged(g[..chunk], g[chunk..])` with `chunk = ChunkSize(N, size)` and `g = Gathered(input, chunk, size)`, of the same length as the input. |
| Coordinator.DistributedSort | main.cpp:73-89 | The collector's final buffer is `Outcome(input, size)`. |
| Coordinator.OutcomePermutes | main.cpp:73-89 | For every number of ranks, the final buffer is a rearrangement of the input, the elements past the last full chunk included. |
| Coordinator.OneRankSorts | main.cpp:73-89 | With one process the output is the input sorted. |
| Coordinator.TwoRanksSort | main.cpp:73-89 | With two processes and an even number of elements, the output is the input sorted. |
| Coordinator.ThreeRanksUnsorted | main.cpp:85-89 | `3 2 1` on three processes ends as `2 1 3`, which is not sorted. |
| Coordinator.TwoRanksOddLengthUnsorted | main.cpp:85-89 | `2 1 0` on two processes ends as `1 0 2`, which is not sorted. |
| Coordinator.MergeChunksSorts | main.cpp:88 | Merging each sorted chunk into the merge of the chunks after it, with a sorted remainder last, gives a sorted rearrangement of all of them. |
| Coordinator.CorrectedOutcomeSorts | main.cpp:85-89 | If the collector merged every gathered chunk and the sorted remainder, the output would be the input sorted for every number of processes. |

## Findings

| source | as written | input that shows it | evidently intended | confidence | as-written member | corrected member |
|---|---|---|---|---|---|---|
| main.cpp:88 | Only `[0, chunk)` is merged, with `[chunk, N)` as one range. With three or more processes that range holds several separately sorted chunks, so it is not sorted, and neither is the output. | `3 2 1` with 3 processes gives `2 1 3` with a release-mode two-finger `std::merge`; the unsorted second range breaks the standard's precondition, and a checking debug build aborts instead | Every gathered chunk is merged (and the remainder sorted and merged), so the output is the sorted input. | high (not executed) | Coordinator.ThreeRanksUnsorted | Coordinator.CorrectedOutcomeSorts |
| main.cpp:76-88 | When `N` is not a multiple of `size`, the last `N % size` elements go to no process and are merged unsorted. | `2 1 0` with 2 processes gives `1 0 2` with a release-mode two-finger `std::merge`; the unsorted second range breaks the standard's precondition, and a checking debug build aborts instead | The remainder is sorted too, so the output is the sorted input. | high (not executed) | Coordinator.TwoRanksOddLengthUnsorted | Coordinator.CorrectedOutcomeSorts |

`CorrectedOutcome` is a separate definition. `DistributedSort` and `Outcome` model the code as written.

## Left out

- The MPI runtime is not modelled: `MPI_Init`, the rank and size queries, `MPI_Bcast` of the size (line 74), message passing, blocking and the concurrency of processes. The ranks run one after another on the collector's buffer, which gives the same data for disjoint chunks.
- The vectors of the other processes are not modelled; on those processes `numbers` is empty and only the collector's buffer matters.
- The command line check, the reading of the input file (lines 44-71), the writing of `output.txt` (lines 92-98) and the timing (`high_resolution_clock`) are input/output and are left out.
- Integers are unbounded. The `int` overflow of `left + right` (line 15) and the `size_t`/`int` conversions (lines 76-83) are not modelled.
- Fewer elements than processes (`N < size`) is excluded by `requires 1 <= size <= N`. The chunk is then empty, and line 80 calls `quickSort(localData, 0, -1)`, which reads `arr[0]` of an empty vector. That is undefined behaviour, not a result to model.
- `std::merge` is modelled by the two-finger algorithm: take the second range's head only when it is strictly smaller, and copy the rest of the other range when one runs out. The standard library's own implementation is not part of this model.
- Merger.Merged: when both ranges are sorted, its result is the one the C++ standard prescribes for `std::merge`, stable with the first range first. When a range is unsorted, the standard's precondition for `std::merge` (section [alg.merge] of ISO/IEC 14882) is broken and the behaviour is undefined. The model then adopts what the common release-mode implementations (libstdc++, libc++, MSVC) emit, which is the same two-finger output. The standard does not guarantee it. Debug builds with iterator checking (`_GLIBCXX_DEBUG`, MSVC iterator debugging) abort instead, and that is not modelled.
- `numbers = temp` is modelled as copying `temp` into the same array. It has the same length, and reallocation is not modelled.
