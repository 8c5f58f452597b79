# Merge sort, modelled in Dafny

This project models the top-down merge sort of `sorting/merge_sort.cpp`. It covers two routines:

- `merge(arr, l, m, r)` merges the adjacent sorted runs `arr[l..m]` and `arr[m+1..r]` (both bounds inclusive). It copies the runs into scratch arrays `L` and `R`. It then writes them back through three loops: the smaller head first (the left head on a tie), then the rest of `L`, then the rest of `R`.
- `mergeSort(arr, l, r)` does nothing when `l >= r`. Otherwise it splits the range at `m = l + (r - l) / 2`, sorts `[l, m]` and `[m+1, r]` recursively, and merges them.

The model has two layers.

- `Merging` and `Sorting` hold a functional reference:
  - `Merge` merges two runs, and `MergeFrom` reads the same merge through the cursors `i` and `j`.
  - `MergeRange` is the merge step applied to a range of a sequence.
  - `SortSeq` is merge sort of a sequence, split exactly where the driver splits.
  - `SortRange` is a range of a sequence sorted in place.
  - `Sort` sorts a whole sequence.
  
  Both modules are generic over an integer `key`, so the same definitions serve plain integers (key `Id`) and elements tagged with their input position (key `Value`), which is how stability is stated.
- `InPlace` follows the C++ routines statement by statement:
  - `CopyRun` is the copy loops.
  - `TakeSmaller`, `WriteSmaller`, `CopyLeftTail` and `CopyRightTail` are the three write-back loops.
  - `Merge` and `MergeSort` are the routines themselves.
  
  Each routine is proved equal to the functional reference. The loop invariant is the predicate `Written`: the first `i + j` elements of the merge are in place from `l` on, and everything else is untouched.

The integer array is modelled as a sequence value. Each `arr[k] = v` becomes `arr := arr[k := v]`. Each routine takes the array and returns the array it leaves behind.

`Scenarios` derives the program's output for concrete inputs from the general results.

## Model

| member | source | states |
|---|---|---|
| Merging.Merge | sorting/merge_sort.cpp:62-88 | the reference merge: take the smaller head, the left one when `key(L[i]) <= key(R[j])`, then the rest of whichever run remains; its contract states only that the result is as long as both runs together |
| Merging.MergeFrom | sorting/merge_sort.cpp:62-88 | the same merge read from the cursors `i` and `j` as the loops walk it; its contract states only that what remains is `n1 - i + n2 - j` long |
| Merging.MergeRange | sorting/merge_sort.cpp:33-92 | `merge(arr, l, m, r)` as a value: the merge of `arr[l..m]` and `arr[m+1..r]` put in place of `[l, r]`, for `l <= m + 1 <= r + 1`; its contract states only that the length is kept |
| Sorting.LeftSize | sorting/merge_sort.cpp:106 | the number of elements the split puts into the left half `[l, m]` of a run of `n >= 2` elements, strictly between 0 and `n` |
| Sorting.SortSeq | sorting/merge_sort.cpp:104-111 | the reference merge sort of a sequence, split where `mergeSort` splits; its contract states only that the length is kept |
| Sorting.SortRange | sorting/merge_sort.cpp:104-111 | `mergeSort(arr, l, r)` as a value: the range replaced by its sorted contents; its contract states that the length is kept and that `l >= r` leaves the sequence unchanged |
| Merging.MergePermutes | sorting/merge_sort.cpp:62-88 | the merged run holds exactly the elements of the two runs, with multiplicity |
| Merging.MergeSorted | sorting/merge_sort.cpp:62-88 | two runs sorted by the key merge into a run sorted by the key |
| Merging.MergeStable | sorting/merge_sort.cpp:63-68 | ties go to the left run: stably sorted runs, all of whose left positions precede all right positions, merge into a run ordered by (value, position) |
| Merging.MergeOrderedRuns | sorting/merge_sort.cpp:62-88 | when the concatenation of the runs is already sorted, the merge is that concatenation, because a tie takes the left element |
| Merging.MergeEmptyRun | sorting/merge_sort.cpp:78-88 | with one run empty, the merge is the other run copied unchanged |
| Merging.MergeFromIsMerge | sorting/merge_sort.cpp:62-88 | what the loops still have to write at cursors `i`, `j` is the merge of `L[i..]` and `R[j..]`; at `0, 0` it is the whole merge |
| Merging.MergeFromTakesLeft | sorting/merge_sort.cpp:63-65 | when `L[i] <= R[j]` or `R` is used up, the next merged element is `L[i]` and the cursor `i` advances |
| Merging.MergeFromTakesRight | sorting/merge_sort.cpp:66-68 | when `R[j] < L[i]` or `L` is used up, the next merged element is `R[j]` and the cursor `j` advances |
| Merging.MergeRangeMerges | sorting/merge_sort.cpp:33-92 | the merge step leaves positions outside `[l, r]` unchanged, rearranges `[l, r]`, and sorts it when both runs were sorted |
| Merging.MergeRangeEmptyRun | sorting/merge_sort.cpp:35-36 | with `n1 == 0` (`m == l - 1`) or `n2 == 0` (`m == r`), the merge step changes nothing |
| Sorting.Midpoint | sorting/merge_sort.cpp:106 | for `l < r`, `l <= m < r`, so both halves are non-empty and shorter than the range; the left half is larger by at most one |
| Sorting.SortSeqSorts | sorting/merge_sort.cpp:104-111 | the recursion returns a sorted rearrangement of its input |
| Sorting.SortRangeSorts | sorting/merge_sort.cpp:104-111 | sorting `[l, r]` with `l < r` keeps the prefix before `l` and the suffix after `r`, rearranges the range, and leaves it sorted |
| Sorting.SortRangeStep | sorting/merge_sort.cpp:105-109 | sorting `[l, m]`, then `[m+1, r]`, then merging gives the sorted range, which is the recursive step of the driver |
| Sorting.SortSeqSorted | sorting/merge_sort.cpp:104-111 | a sequence that is already sorted comes back unchanged |
| Sorting.SortRangeSorted | sorting/merge_sort.cpp:104-111 | a range that is already sorted, or has at most one element, comes back unchanged |
| Sorting.SortRangeIdempotent | sorting/merge_sort.cpp:104-111 | sorting a range twice gives the same result as sorting it once |
| Sorting.SortSeqStable | sorting/merge_sort.cpp:104-111 | equal values keep their input order: input with increasing positions sorts into (value, position) order |
| Sorting.SortRangeStable | sorting/merge_sort.cpp:104-111 | sorting a range of position-tagged elements leaves equal values in their input order |
| Sorting.Sort | sorting/merge_sort.cpp:104-111 | sorting the whole sequence `[0, size - 1]` gives an ascending rearrangement of it |
| Sorting.SortIsAscendingPermutation | sorting/merge_sort.cpp:104-111 | the sorted output is the one and only ascending rearrangement of the input (both directions) |
| Sorting.SortAscending | sorting/merge_sort.cpp:104-111 | ascending input comes back unchanged |
| Sorting.SortIdempotent | sorting/merge_sort.cpp:104-111 | sorting the sorted output again changes nothing |
| Sorting.SortOrdersAdjacentPairs | sorting/merge_sort.cpp:104-111 | every adjacent pair of the output is in order |
| InPlace.CopyRun | sorting/merge_sort.cpp:44-45 | the scratch array `L` (or `R`) holds `arr[l..l+n1)` (or `arr[m+1..m+1+n2)`) in order |
| InPlace.NothingWritten | sorting/merge_sort.cpp:52-54 | with `i = j = 0` and `k = l`, nothing has been written and the whole merge is still to be written |
| InPlace.WriteLeft | sorting/merge_sort.cpp:63-65 | writing `L[i]` at `k = l + i + j` when `L[i] <= R[j]` (or `R` is used up) puts one more merged element in place, with the rest of the array untouched |
| InPlace.WriteRight | sorting/merge_sort.cpp:66-68 | writing `R[j]` at `k` when `R[j] < L[i]` (or `L` is used up) puts one more merged element in place |
| InPlace.WriteSmaller | sorting/merge_sort.cpp:63-70 | one pass of the first loop writes the next merged element and advances exactly one cursor |
| InPlace.TakeSmaller | sorting/merge_sort.cpp:62-71 | the first loop ends with one run used up, the merged prefix written at `l`, and everything else unchanged |
| InPlace.CopyLeftTail | sorting/merge_sort.cpp:78-82 | the second loop copies the rest of `L` and so continues the merge |
| InPlace.CopyRightTail | sorting/merge_sort.cpp:84-88 | the third loop copies the rest of `R` and so completes the merge |
| InPlace.AllWritten | sorting/merge_sort.cpp:62-88 | when both cursors reach the ends, `[l, r]` holds the merge of `L` and `R` |
| InPlace.Merge | sorting/merge_sort.cpp:33-92 | `merge` produces the merge step of the reference (frame, rearrangement and sortedness via `MergeRangeMerges`), and leaves the array unchanged when a run is empty |
| InPlace.MergeSort | sorting/merge_sort.cpp:104-111 | `mergeSort` produces the reference's sorted range; the array is unchanged when `l >= r` |
| InPlace.SortAll | sorting/merge_sort.cpp:132 | the call `mergeSort(arr, 0, size - 1)` leaves the array ascending and a rearrangement of its input, including for `size == 0`, and its result is `Sorting.Sort(arr)`, so the scenarios describe this call |
| Scenarios.EmptyInput | sorting/merge_sort.cpp:105 | the empty input, range `[0, -1]`, sorts to the empty sequence |
| Scenarios.SingleElement | sorting/merge_sort.cpp:105 | `[5]` sorts to `[5]` |
| Scenarios.ShuffledInput | sorting/merge_sort.cpp:104-111 | `[5, 2, 4, 6, 1, 3]` sorts to `[1, 2, 3, 4, 5, 6]` |
| Scenarios.DescendingDuplicates | sorting/merge_sort.cpp:104-111 | `[3, 3, 2, 2, 1, 1]` sorts to `[1, 1, 2, 2, 3, 3]` |
| Scenarios.AlreadySorted | sorting/merge_sort.cpp:104-111 | `[1, 2, 3, 4, 5]` comes back unchanged |
| Scenarios.NegativeValues | sorting/merge_sort.cpp:62-71 | `[-3, 5, -1, 0]` sorts to `[-3, -1, 0, 5]`, so negative values compare correctly |

## Left out

- Merging.Merge: its contract states only the length; that the merge rearranges the two runs, is sorted when they are, and keeps ties in order is stated by `Merging.MergePermutes`, `Merging.MergeSorted` and `Merging.MergeStable`.
- Merging.MergeFrom: its contract states only the length; `Merging.MergeFromIsMerge` states that it is the merge of what lies after the cursors.
- Merging.MergeRange: its contract states only the length; the frame, the rearrangement and the sortedness of the range are stated by `Merging.MergeRangeMerges`.
- Sorting.SortSeq: its contract states only the length; sortedness and rearrangement are stated by `Sorting.SortSeqSorts`, stability by `Sorting.SortSeqStable`.
- Sorting.SortRange: its contract states only the length and the `l >= r` case; the frame, the rearrangement and the sortedness of a longer range are stated by `Sorting.SortRangeSorts`.
- `show` and the input and output in `main` are left out: they only read and print. The single call `main` makes into the sort is modelled as `InPlace.SortAll`.
- The allocation and release of the scratch arrays (`new int[n1]`, `delete[]`) are left out. `L` and `R` are sequences. The exception `new` throws for a negative size is not reachable here: `merge` requires `l <= m + 1 <= r + 1`, so `n1` and `n2` are never negative.
- Pointer semantics are left out. `int *arr` is modelled as a sequence value passed in and returned, and indices are assumed to lie inside the array. In C++ an index outside it is undefined behaviour; here it is a precondition.
- 32-bit `int` is not modelled; values and indices are unbounded integers. The comparisons `L[i] <= R[j]` cannot overflow. For the ranges accepted here (`0 <= l <= r`), neither can `l + (r - l) / 2`, `m - l + 1` nor `r - m`. Because `r - l` is positive, C++'s truncating `/` agrees with Dafny's `/`.
- The loop counter `k` is kept in the loops as `k == l + i + j`, which is what the program maintains.
- The documented precondition of `merge` is `l <= m <= r` with both runs sorted. The code also accepts an empty left run (`m == l - 1`). The model follows the code: `InPlace.Merge` accepts `l <= m + 1 <= r + 1`, and its result does not depend on the runs being sorted (`Merging.MergeRangeMerges` states sortedness under that condition).
