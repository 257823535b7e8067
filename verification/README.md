# FeelDSA step engine in Dafny

FeelDSA is a data-structures-and-algorithms visualiser. Its engine is a set of
synchronous JavaScript producers. Each takes a container state (an array of
elements, an array of slots with `null` placeholders, a stack, a matrix) and
returns the list of *steps* the player animates. Every step holds:

- a deep copy of the array;
- the highlighted indices or pointers;
- a description;
- optional counters.

This project models that engine as pure Dafny functions over immutable
sequences and proves what each producer promises about its steps.

- **Steps** (`steps.dfy`). `Element(id, value)`; a slot is `Option<Element>`.
  `Step(snapshot, marks, desc, meta)` stands for `createStep`. A snapshot is
  a `seq`, so an emitted step can never be changed by later work: that is the
  deep copy. Descriptions are tagged datatypes that carry the interpolated
  numbers instead of formatted strings.
- **Helpers** (`helpers.dfy`). `isValidIndex` is `Helpers.IsValidIndex`
  (related to the null-free view by `Arrays.PackedValidIndex`), and
  `getSortedArray` is `Helpers.GetSortedArray`. `SortByValue` is the reference
  stable sort the sorting producers are compared against.
- **Sorting producers.**
  - `bubble_sort.dfy`, `selection_sort.dfy`, `insertion_sort.dfy`,
    `merge_sort.dfy` and `quick_sort.dfy` model the five producers of
    `sorting.js`.
  - `enhanced_bubble.dfy` models the bubble sort with `sorted`/`unsorted`
    highlight sets and the early-exit option.
  - `sort_facts.dfy` holds the facts they share.
- **Searching** (`searching.dfy`). Linear search, and binary search over the
  null-free view with its table of original indices.
- **Binary-search problems** (`binary_search_problems.dfy`). First and last
  occurrence, peak element, search in a rotated array, minimum of a rotated
  array, and integer square root.
- **Containers.**
  - `arrays.dfy`: the fixed-capacity slot array.
  - `two_d_arrays.dfy`: the matrix, with its four traversal orders.
  - `stack.dfy`: the unbounded stack.
- **Dynamic programming** (`dynamic_programming.dfy`). The Fibonacci table
  (n fixed at 8) and the LCS table of "ABCDGH" and "AEDFHR".
- **Orchestrator** (`orchestrator.dfy`).
  - The algorithm and data-structure registries as enumerations.
  - `getAlgorithmSteps`.
  - `getOperationSteps`, including the Arrays/sort path. That path strips
    the nulls, runs a sorting producer, pads every snapshot back to the
    capacity, and adds a starting step and a completion step.

Loops that emit steps are recursive functions. Each returns the steps and
the working array it leaves behind. The two DP producers are methods with
loop invariants.

Ids come from an injected counter `nextId`. Random values are parameters:
`drawn` for the random search target and `draw` for the random matrix fill.

## Model

| member | source | states |
|---|---|---|
| Helpers.GetSortedArray | src/utils/helpers.js:54-67 | same length; an array of at most one slot comes back unchanged; the same elements with their ids; the non-null elements first, ascending by value, and exactly the nulls after them |
| Helpers.GetSortedArrayPassesCallerCheck | src/utils/helpers.js:54-67 | the result passes the callers' pairwise sortedness check exactly when the array is non-empty |
| Helpers.SortByValueSorts | src/utils/helpers.js:63 | the reference sort by value is an ascending rearrangement |
| Helpers.SortByValueStable | src/utils/helpers.js:63 | the reference sort keeps the elements of each value in input order |
| Helpers.StableSortIsReference | src/utils/helpers.js:63 | any ascending, order-keeping rearrangement of a sequence is the reference sort of it, so a stable sort has exactly one result |
| BubbleSort.Inner | src/utils/algorithms/sorting.js:110-141 | the inner loop leaves the array one pass of adjacent swaps leaves; it reports a swap exactly when that pass swaps; it emits steps exactly when there is a pair left to compare |
| BubbleSort.InnerHead | src/utils/algorithms/sorting.js:110-139 | each inner iteration shows a comparison step with `j` primary, `j+1` secondary and the comparison counter one higher; exactly when the left value is greater it then shows a swap step with success `[j, j+1]`, the pair ascending and the swap counter one higher; the rest of the loop continues from those counters |
| BubbleSort.PassArrayMultiset | src/utils/algorithms/sorting.js:124-127 | a pass only rearranges |
| BubbleSort.PassStable | src/utils/algorithms/sorting.js:124-127 | a pass keeps equal values in order, because ties are never swapped |
| BubbleSort.PassCarriesMax | src/utils/algorithms/sorting.js:110-141 | after a pass over `[0, limit]` the largest value of that prefix sits at `limit` |
| BubbleSort.PassNoSwap | src/utils/algorithms/sorting.js:143-155 | a pass without swaps leaves the array unchanged, and the compared range was ascending |
| BubbleSort.BubbleArraySorts | src/utils/algorithms/sorting.js:106-156 | the outer loop, with its early exit, ends on an ascending array |
| BubbleSort.BubbleArrayStable | src/utils/algorithms/sorting.js:106-156 | the outer loop only rearranges and keeps equal values in input order |
| BubbleSort.BubbleSortSteps | src/utils/algorithms/sorting.js:98-159 | no steps exactly for arrays of at most one element; otherwise the last snapshot is ascending and equals the stable reference sort |
| BubbleSort.BubbleSortRearranges | src/utils/algorithms/sorting.js:113-141 | every snapshot is a rearrangement of the input |
| SelectionSort.MinScanIsFirstMin | src/utils/algorithms/sorting.js:211-239 | the scan of pass `i` ends on the first position of the smallest value from `i` on |
| SelectionSort.ScanSteps | src/utils/algorithms/sorting.js:211-239 | the scan's minimum is the first smallest value and it counts one comparison per remaining position |
| SelectionSort.PassShape | src/utils/algorithms/sorting.js:196-267 | pass `i` opens with its start step and ends with exactly one closing step, a swap exactly when the first minimum is not already at `i`; in between come `n-1-i` comparison steps and the new-minimum steps, nothing else; the counters rise by `n-1-i` comparisons and by one swap exactly when it swaps |
| SelectionSort.PassSettles | src/utils/algorithms/sorting.js:196-267 | after pass `i` the prefix up to `i` holds the `i+1` smallest values in ascending order |
| SelectionSort.SelectArraySorts | src/utils/algorithms/sorting.js:196-267 | from a settled prefix, the remaining passes sort the array |
| SelectionSort.SelectArrayMultiset | src/utils/algorithms/sorting.js:241-254 | the passes only rearrange |
| SelectionSort.PassRearranges | src/utils/algorithms/sorting.js:196-267 | every snapshot of a pass is a rearrangement of the input |
| SelectionSort.SelectionSortSteps | src/utils/algorithms/sorting.js:188-270 | no steps exactly for arrays of at most one element; otherwise the last snapshot is an ascending rearrangement; every snapshot is a rearrangement |
| InsertionSort.ShiftShape | src/utils/algorithms/sorting.js:335-365 | the shifting loop moves the gap left past exactly the elements greater than the key, because the comparison is a strict `>`, and stops at the last element not greater than the key |
| InsertionSort.ShiftThenPlace | src/utils/algorithms/sorting.js:335-368 | writing the key into the gap inserts it behind every earlier element not greater than it |
| InsertionSort.PassSteps | src/utils/algorithms/sorting.js:317-382 | pass `i` leaves `arr[i]` inserted into the sorted prefix behind its equals, and the rest of the array in place |
| InsertionSort.OuterSorts | src/utils/algorithms/sorting.js:317-382 | from a prefix that is the stable sort of the input's prefix, the remaining passes give the stable sort of the input |
| InsertionSort.InsertionSortSteps | src/utils/algorithms/sorting.js:297-397 | the first step is the untouched input with no highlights and zero counters; the last step marks every index as success |
| InsertionSort.InsertionSortIsStable | src/utils/algorithms/sorting.js:317-394 | the last snapshot is ascending, keeps equal values in input order, and equals the reference sort |
| InsertionSort.InsertionSortSized | src/utils/algorithms/sorting.js:306-394 | every snapshot has the input's length |
| MergeSort.MergeMultiset | src/utils/algorithms/sorting.js:444-472 | merging keeps every element of both runs |
| MergeSort.MergeSorted | src/utils/algorithms/sorting.js:448-472 | merging two sorted runs gives a sorted run whose head is the left head on ties |
| MergeSort.MergeFilter | src/utils/algorithms/sorting.js:455-460 | for every value, the merge lists the left run's elements of that value before the right run's, so the merge is stable |
| MergeSort.Splice | src/utils/algorithms/sorting.js:475-477 | writing the merged run back changes only `[start, end)`, and that range becomes the run |
| MergeSort.SortRangeMultiset | src/utils/algorithms/sorting.js:486-510 | the recursion on `[start, end)` only rearranges |
| MergeSort.SortRangeSorts | src/utils/algorithms/sorting.js:486-510 | the recursion leaves `[start, end)` ascending, with each value's elements in their previous order |
| MergeSort.MergePhase | src/utils/algorithms/sorting.js:444-483 | the merge phase ends on the array with `[start, end)` replaced by the merge of its halves, and its last step marks exactly `start..end-1` as success |
| MergeSort.SortSteps | src/utils/algorithms/sorting.js:486-510 | no steps exactly when `end - start <= 1`; the last snapshot is the array the recursion leaves |
| MergeSort.SortStepsBookends | src/utils/algorithms/sorting.js:486-510 | a range of two or more elements opens with its dividing step and closes with a merged step marking exactly the range, which is then sorted |
| MergeSort.SortStepsSized | src/utils/algorithms/sorting.js:486-510 | every snapshot of the recursion has the array's length |
| MergeSort.MergeSortSteps | src/utils/algorithms/sorting.js:440-521 | a start step over the input, then the recursion over the whole array; every snapshot has the input's length |
| MergeSort.MergeSortIsStable | src/utils/algorithms/sorting.js:440-521 | the last snapshot is ascending and equals the stable reference sort |
| QuickSort.PartLoopSplits | src/utils/algorithms/sorting.js:574-592 | the partition loop keeps values at most the pivot before `i+1` and greater values from `i+1` to `j` |
| QuickSort.PartitionSplits | src/utils/algorithms/sorting.js:564-601 | after partition the pivot sits at `p`, everything before it in the range is at most the pivot, and everything after it is greater |
| QuickSort.PartitionMultiset | src/utils/algorithms/sorting.js:564-601 | partition only rearranges, and only inside `[low, high]` |
| QuickSort.PartitionShape | src/utils/algorithms/sorting.js:564-601 | partition opens by selecting the pivot at `high`, compares each other element of the range once, and closes with a success step on the pivot's final index |
| QuickSort.LoopMarks | src/utils/algorithms/sorting.js:574-592 | every comparison step of the partition loop marks its index primary and the pivot index secondary; every swap step marks two distinct indices `i < j` of the range primary, never success, so no swap step is shown when `i == j` |
| QuickSort.PartitionMarks | src/utils/algorithms/sorting.js:564-601 | the same highlighting holds for every step of `partition` |
| QuickSort.QuickRangeSorts | src/utils/algorithms/sorting.js:604-617 | the recursion leaves `[low, high]` ascending |
| QuickSort.QuickRangeMultiset | src/utils/algorithms/sorting.js:604-617 | the recursion only rearranges |
| QuickSort.QuickRangeFrame | src/utils/algorithms/sorting.js:604-617 | the recursion touches only `[low, high]` |
| QuickSort.RangeSteps | src/utils/algorithms/sorting.js:604-617 | steps exactly when `low < high`; the last snapshot is the array the recursion leaves |
| QuickSort.QuickSortSteps | src/utils/algorithms/sorting.js:560-627 | a start step over the input, then the recursion on `[0, n-1]` |
| QuickSort.QuickSortSorts | src/utils/algorithms/sorting.js:560-627 | the last snapshot is an ascending rearrangement of the input |
| QuickSort.QuickSortUnstable | src/utils/algorithms/sorting.js:581-594 | equal values can change order: `[1a, 1b, 0]` ends as `[0, 1b, 1a]` |
| QuickSort.QuickSortSized | src/utils/algorithms/sorting.js:560-627 | every snapshot has the input's length |
| EnhancedBubble.Inner | src/utils/algorithms/enhancedBubbleSort.js:144-209 | the inner loop leaves the array the plain bubble pass leaves, swaps exactly when that pass does, and counts one comparison per remaining index |
| EnhancedBubble.InnerCounts | src/utils/algorithms/enhancedBubbleSort.js:144-209 | one comparison step per index, one exchange per rise of the swap counter, and no framing step |
| EnhancedBubble.InversionShown | src/utils/algorithms/enhancedBubbleSort.js:165-207 | an exchange shows the old order and then the new order, both with success `[j, j+1]`, and the swap counter rises by one between them |
| EnhancedBubble.PassFrames | src/utils/algorithms/enhancedBubbleSort.js:127-227 | pass `i+1` opens with `sorted` = the last `i` indices and `unsorted` = the rest; its end step has the last `i+1` indices sorted |
| EnhancedBubble.EnhancedBubbleSortSteps | src/utils/algorithms/enhancedBubbleSort.js:106-269 | only the shape: at least two steps; `EnhancedBubble.EnhancedBookends`, `EnhancedBubble.EnhancedCounts` and `EnhancedBubble.EnhancedArraySorts` state what they show |
| EnhancedBubble.EnhancedBookends | src/utils/algorithms/enhancedBubbleSort.js:106-269 | the first step is the input at pass 0 with nothing sorted and every index unsorted; the last is the complete step with every index sorted, the pass counter at the number of passes, and the stable sort of the input as its array; an array of at most one element gives just these two steps |
| EnhancedBubble.EnhancedCounts | src/utils/algorithms/enhancedBubbleSort.js:123-269 | one pass start per pass and exactly one complete step, the last; an optimization step exactly when the loop ends early; without the option all `n-1` passes run; with it, sorted input of two or more elements takes one pass |
| EnhancedBubble.AllPassesRun | src/utils/algorithms/enhancedBubbleSort.js:230-249 | without the optimization every one of the `n-1` passes runs |
| EnhancedBubble.SortedTakesOnePass | src/utils/algorithms/enhancedBubbleSort.js:230-249 | with the optimization, ascending input of two or more elements takes one pass and ends early, unchanged |
| EnhancedBubble.EnhancedArraySorts | src/utils/algorithms/enhancedBubbleSort.js:123-251 | the passes sort the array, with or without the early exit |
| EnhancedBubble.EnhancedArrayMultiset | src/utils/algorithms/enhancedBubbleSort.js:123-251 | the passes only rearrange |
| EnhancedBubble.EnhancedArrayStable | src/utils/algorithms/enhancedBubbleSort.js:123-251 | the passes keep equal values in input order |
| Searching.LinearSearchSteps | src/utils/algorithms/searching.js:44-80 | the linear search opens with its starting step |
| Searching.LinearSearchShape | src/utils/algorithms/searching.js:44-80 | exactly one starting step and one terminal step, the last; every step shows the unchanged input |
| Searching.LinearSearchFinds | src/utils/algorithms/searching.js:54-79 | success exactly when some slot holds the target, at the first such slot; the checks visit the non-null slots left to right up to it; otherwise not-found with empty pointers |
| Searching.FindIndex | src/utils/algorithms/searching.js:147-150 | the lookup returns -1 or a non-null slot holding the id |
| Searching.OriginalIndicesAreSlots | src/utils/algorithms/searching.js:147-150 | with distinct ids, entry `k` of the table is the slot holding element `k` of the null-free view |
| Searching.LoopHead | src/utils/algorithms/searching.js:159-203 | each iteration probes a `mid` within `[start, end]`, showing the original indices of `[start, end]` as the active range; it then either ends on the target or narrows to a strictly smaller half, whose original indices become the active range (empty once the range is) |
| Searching.BinaryProbes | src/utils/algorithms/searching.js:163-203 | every probe lies inside the current range and reads the view's value there, and there are at most as many probes as elements in the range |
| Searching.BinarySearchSteps | src/utils/algorithms/searching.js:145-161 | only the shape: at least two steps, the first announcing the search of `[0, n-1]` over the null-free view; what the search reports is stated by `Searching.BinarySearchShape` and `Searching.BinarySearchFinds` |
| Searching.BinarySearchShape | src/utils/algorithms/searching.js:145-214 | one starting step, one terminal step (the last), every step over the unchanged input, at most one probe per element of the view |
| Searching.BinarySearchFinds | src/utils/algorithms/searching.js:175-211 | on ascending values with distinct ids: success exactly when some slot holds the target, pointing at such a slot; otherwise not-found with empty pointers and an empty active range |
| Arrays.PackedCheckSorts | src/pages/Visualize.jsx:366-368 | on a packed array the callers' sortedness check, which compares only adjacent occupied slots, implies that the null-free view is ascending |
| Arrays.CheckMissesGap | src/pages/Visualize.jsx:366-368 | on a gapped array the check is too weak: inserting 0 at index 2 of `[1, null, null]` gives `[1, null, 0]`, which passes the check though its view `[1, 0]` is not ascending |
| BinarySearchProblems.OccurrenceNext | src/utils/algorithms/binarySearchProblems.js:36-68 | every iteration keeps `left <= right + 1` and moves to one half around `mid` |
| BinarySearchProblems.OccurrenceSteps | src/utils/algorithms/binarySearchProblems.js:23-85 | the search opens on its starting step over `[0, n-1]` |
| BinarySearchProblems.OccurrenceStepsShaped | src/utils/algorithms/binarySearchProblems.js:23-85 | one starting step, then a mid probe and one decision step per iteration, then one terminal step, all over the unchanged array |
| BinarySearchProblems.OccurrenceFinds | src/utils/algorithms/binarySearchProblems.js:36-82 | on sorted input the first (last) occurrence search names the smallest (largest) index holding the target, or says it is absent |
| BinarySearchProblems.OccurrenceExamples | src/utils/algorithms/binarySearchProblems.js:100-162 | in `[1,2,2,2,3,4,5]` the first 2 is at 1 and the last at 3 |
| BinarySearchProblems.PeakNext | src/utils/algorithms/binarySearchProblems.js:188-218 | each iteration reads `mid + 1 <= right` and strictly shrinks the window |
| BinarySearchProblems.PeakSteps | src/utils/algorithms/binarySearchProblems.js:176-187 | only the shape: at least two steps, the first announcing `[0, n-1]`; `BinarySearchProblems.PeakStepsShaped` and `BinarySearchProblems.PeakFinds` state the rest |
| BinarySearchProblems.PeakStepsShaped | src/utils/algorithms/binarySearchProblems.js:176-221 | the peak search has the same one-start, probe-and-decision, one-terminal shape over the unchanged array |
| BinarySearchProblems.PeakFinds | src/utils/algorithms/binarySearchProblems.js:188-218 | on a non-empty array the search ends on a local peak and reports its value; on an empty array it reports index 0 and no value |
| BinarySearchProblems.MountainPeak | src/utils/algorithms/binarySearchProblems.js:188-218 | on a mountain array it ends on the summit |
| BinarySearchProblems.PeakExample | src/utils/algorithms/binarySearchProblems.js:172-175 | the peak of `[1,3,5,4,2]` is at index 2 |
| BinarySearchProblems.RotatedNext | src/utils/algorithms/binarySearchProblems.js:267-300 | after a miss the search keeps one half around `mid` |
| BinarySearchProblems.RotatedSteps | src/utils/algorithms/binarySearchProblems.js:236-247 | only the shape: at least two steps, the first announcing the target and `[0, n-1]`; `BinarySearchProblems.RotatedStepsShaped` and `BinarySearchProblems.RotatedFinds` state the rest |
| BinarySearchProblems.RotatedStepsShaped | src/utils/algorithms/binarySearchProblems.js:236-310 | the rotated search has the one-start, probe-and-decision, one-terminal shape over the unchanged array |
| BinarySearchProblems.RotatedFinds | src/utils/algorithms/binarySearchProblems.js:248-307 | on a rotated ascending array with distinct values it finds the target exactly when it is present, at an index holding it |
| BinarySearchProblems.MinNext | src/utils/algorithms/binarySearchProblems.js:336-366 | each iteration strictly shrinks the window |
| BinarySearchProblems.MinSteps | src/utils/algorithms/binarySearchProblems.js:324-335 | only the shape: at least two steps, the first announcing `[0, n-1]`; `BinarySearchProblems.MinStepsShaped` and `BinarySearchProblems.MinFinds` state the rest |
| BinarySearchProblems.MinStepsShaped | src/utils/algorithms/binarySearchProblems.js:324-369 | the minimum search has the one-start, probe-and-decision, one-terminal shape |
| BinarySearchProblems.MinFinds | src/utils/algorithms/binarySearchProblems.js:336-366 | on a rotated ascending array the search reports the rotation point and its value, and that value is the smallest of the array |
| BinarySearchProblems.RotatedExamples | src/utils/algorithms/binarySearchProblems.js:236-369 | in `[4,5,6,7,0,1,2]` the target 0 is found at 4, which is also where the minimum is reported |
| BinarySearchProblems.Radicand | src/utils/algorithms/binarySearchProblems.js:385 | the radicand is never zero: a zero target is replaced, any other target is kept |
| BinarySearchProblems.SqrtNext | src/utils/algorithms/binarySearchProblems.js:396-427 | a fitting `mid` becomes the result and the search goes right, else it goes left |
| BinarySearchProblems.SqrtSteps | src/utils/algorithms/binarySearchProblems.js:383-395 | only the shape: at least two steps, the first announcing the radicand (16 for a zero target) and `[0, x]`; `BinarySearchProblems.SqrtStepsShaped` and `BinarySearchProblems.SqrtFinds` state the rest |
| BinarySearchProblems.SqrtStepsShaped | src/utils/algorithms/binarySearchProblems.js:383-430 | the square-root search has the one-start, probe-and-decision, one-terminal shape |
| BinarySearchProblems.SqrtFinds | src/utils/algorithms/binarySearchProblems.js:383-427 | the result `r` satisfies `r*r <= x < (r+1)*(r+1)` for `x = target \|\| 16`, and is 0 for a negative target |
| BinarySearchProblems.SqrtExamples | src/utils/algorithms/binarySearchProblems.js:383-427 | the square root of 16 is 4, and a target of 0 is replaced by 16 and gives the same |
| Arrays.Create | src/utils/dataStructures/arrays.js:90-106 | one step; capacity `capacityOverride \|\| 10`; the first `min(n, capacity)` slots hold the custom values in order with fresh ids; the rest are null |
| Arrays.CreatePacked | src/utils/dataStructures/arrays.js:90-106 | a created array is packed, holds exactly the kept values, and has one null per unused slot |
| Arrays.Update | src/utils/dataStructures/arrays.js:108-126 | an invalid index or a null slot gives one error step over the unchanged array; otherwise two steps, and the final array differs only in that slot's value, with its id kept |
| Arrays.Access | src/utils/dataStructures/arrays.js:194-206 | one step; `Accessed` with primary `[index]` exactly when the index names an occupied slot, else an error |
| Arrays.UpdateThenAccess | src/utils/dataStructures/arrays.js:108-206 | reading a slot just written gives the written value; the write keeps a packed array packed |
| Arrays.FirstNull | src/utils/dataStructures/arrays.js:131 | the index of the first null slot, or -1 exactly when there is none |
| Arrays.LastOccupied | src/utils/dataStructures/arrays.js:175 | the index of the last occupied slot, or -1 exactly when there is none |
| Arrays.SpliceStart | src/utils/dataStructures/arrays.js:153 | the splice point is clamped to `[0, length]` and equals the index when the index is in range |
| Arrays.PackedValidIndex | src/utils/helpers.js:45-47 | on a packed array an index is valid exactly when it falls inside the null-free view |
| Arrays.Insert | src/utils/dataStructures/arrays.js:128-160 | a full array gives one error step; otherwise the steps show the unchanged array, a shifting step exactly when `index < firstEmpty`, and the spliced array with its last slot popped |
| Arrays.InsertAgrees | src/utils/dataStructures/arrays.js:144-159 | on a packed array with room and `index <= firstEmpty`: the new element is at `index`, every old element is kept, and the array stays packed |
| Arrays.InsertAsWritten | src/utils/dataStructures/arrays.js:152-154 | only the shape: the array keeps its length; `Arrays.InsertDropsElement` shows the element it loses and `Arrays.InsertAgrees` where it agrees with the intended insert |
| Arrays.InsertDropsElement | src/utils/dataStructures/arrays.js:152-158 | inserting 9 at index 3 of `[1, 2, null]` pops the 9 and still reports success; inserting at 0 into `[1, null, 5]` loses the 5 |
| Arrays.InsertKeeping | src/utils/dataStructures/arrays.js:131-135 | requires a null slot, as the full-array guard does, and keeps the length; `Arrays.InsertKeepingContents` states what it holds |
| Arrays.InsertKeepingContents | src/utils/dataStructures/arrays.js:152-154 | the corrected insert, which drops the first null instead of the last slot, adds exactly the new element whatever the index |
| Arrays.Delete | src/utils/dataStructures/arrays.js:162-192 | an empty array, an invalid index or a null slot gives one error step; otherwise a shifting step exactly when occupied slots follow, and the array with the slot removed and a null appended |
| Arrays.DeleteContents | src/utils/dataStructures/arrays.js:184-186 | deleting removes exactly the deleted element |
| Arrays.DeletePacked | src/utils/dataStructures/arrays.js:184-186 | deleting keeps a packed array packed |
| Arrays.InsertThenDelete | src/utils/dataStructures/arrays.js:128-192 | for a non-negative index whose array has a null last slot, inserting and then deleting at that index restores the array; an index past the end leaves the array unchanged, since the new element is popped and the delete is an error |
| Arrays.NegativeIndexKeepsInsert | src/utils/dataStructures/arrays.js:152-154 | inserting 9 at index -1 of `[1, null, null]` gives `[1, null, 9]`, and deleting at -1 is an error that leaves it so: the round trip fails for a negative index |
| Arrays.Search | src/utils/dataStructures/arrays.js:209-230 | only the shape: at least one step; `Arrays.ScanOutcome` and `Arrays.ScanChecks` state what the search reports |
| Arrays.ScanOutcome | src/utils/dataStructures/arrays.js:209-230 | the search reports the first slot holding the target or not-found, and every step shows the unchanged array |
| Arrays.ScanChecks | src/utils/dataStructures/arrays.js:209-230 | the search checks exactly the occupied slots before the point where it stops |
| Arrays.Sort | src/utils/dataStructures/arrays.js:232-236 | the array module only announces the sort, in one step over the unchanged array |
| TwoDArrays.Parse | src/utils/dataStructures/twoDArrays.js:134-140 | the tokens parse exactly when none is garbage; otherwise the reported token is one of them |
| TwoDArrays.ParseNumbers | src/utils/dataStructures/twoDArrays.js:134-140 | parsing keeps exactly the numbers in order, or reports the first garbage token |
| TwoDArrays.Build | src/utils/dataStructures/twoDArrays.js:145-153 | cell `[i][j]` holds value number `i*cols + j`, with id `nextId + i*cols + j`: the values are laid out row by row |
| TwoDArrays.Create | src/utils/dataStructures/twoDArrays.js:126-166 | one step; creation succeeds exactly when both dimensions are numbers in `1..10` and any custom input parses to `rows*cols` numbers; otherwise an error over an empty matrix |
| TwoDArrays.CreateFlattens | src/utils/dataStructures/twoDArrays.js:141-165 | a created matrix read row by row gives back the custom numbers, or the drawn values |
| TwoDArrays.Access | src/utils/dataStructures/twoDArrays.js:167-178 | out of bounds gives one error step; otherwise a spotlight step and then a primary step reporting the cell's value; the matrix never changes |
| TwoDArrays.Update | src/utils/dataStructures/twoDArrays.js:179-192 | out of bounds gives one error step; otherwise a spotlight step and then a success step over the matrix in which only that cell's value changed |
| TwoDArrays.UpdateThenAccess | src/utils/dataStructures/twoDArrays.js:167-192 | reading a cell just written gives the written value |
| TwoDArrays.ScanCellsOutcome | src/utils/dataStructures/twoDArrays.js:197-209 | the search checks cells one by one up to the first match and reports it, or checks all and reports not-found; the matrix never changes |
| TwoDArrays.SearchOrder | src/utils/dataStructures/twoDArrays.js:197-200 | on a rectangular matrix the search scans the cells in row-major order |
| TwoDArrays.Search | src/utils/dataStructures/twoDArrays.js:193-196 | a starting step over the unchanged matrix with no highlights, then at least one more; `TwoDArrays.SearchOutcome` states the rest |
| TwoDArrays.SearchOutcome | src/utils/dataStructures/twoDArrays.js:193-210 | a starting step, one checking step per cell in row-major order up to the first match, then the success or not-found step |
| TwoDArrays.RowMajorExactlyOnce | src/utils/dataStructures/twoDArrays.js:226-232 | row-major order visits every cell exactly once |
| TwoDArrays.ColumnMajorExactlyOnce | src/utils/dataStructures/twoDArrays.js:234-240 | column-major order visits every cell exactly once |
| TwoDArrays.SpiralExactlyOnce | src/utils/dataStructures/twoDArrays.js:242-258 | the spiral visits every cell exactly once |
| TwoDArrays.SpiralThreeByThree | src/utils/dataStructures/twoDArrays.js:242-258 | the spiral over a 3x3 matrix reads 1, 2, 3, 6, 9, 8, 7, 4, 5 |
| TwoDArrays.DiagonalExactlyOnce | src/utils/dataStructures/twoDArrays.js:260-286 | diagonal order, by ascending `i+j` with alternating direction, visits every cell exactly once |
| TwoDArrays.Visits | src/utils/dataStructures/twoDArrays.js:220-223 | the `k`-th visiting step marks the `k`-th cell primary and every cell visited so far secondary |
| TwoDArrays.Traverse | src/utils/dataStructures/twoDArrays.js:211-295 | an empty matrix gives no steps; otherwise a start step, one step per visit (or an error step for an unknown strategy), and a completion step listing the visited cells; the matrix never changes |
| TwoDArrays.TraverseVisitsAll | src/utils/dataStructures/twoDArrays.js:225-292 | for every known strategy the completion step lists every cell exactly once |
| Stack.Push | src/utils/dataStructures/stack.js:56-75 | two steps with no capacity limit; the stack gains the new element on top, with success on the new top index |
| Stack.Pop | src/utils/dataStructures/stack.js:76-105 | an empty stack gives one error step; otherwise a primary step on the top, then the stack with only the top removed |
| Stack.Peek | src/utils/dataStructures/stack.js:106-125 | one step over the unchanged stack: an error when empty, else primary on the top and its value |
| Stack.IsEmpty | src/utils/dataStructures/stack.js:126-137 | one step over the unchanged stack saying whether its length is zero |
| Stack.PushThenPop | src/utils/dataStructures/stack.js:56-105 | popping right after a push restores the stack and reports the pushed value |
| Stack.PopThenPush | src/utils/dataStructures/stack.js:56-105 | pushing back the popped element restores the stack |
| Stack.PushThenPeek | src/utils/dataStructures/stack.js:56-125 | peeking right after a push reports the pushed value |
| Stack.PushAllAppends | src/utils/dataStructures/stack.js:56-75 | pushing a list lays its elements on top in order |
| Stack.PopAllAbove | src/utils/dataStructures/stack.js:76-105 | popping every element above `s` reports their values from the top down and leaves `s` |
| Stack.LastInFirstOut | src/utils/dataStructures/stack.js:56-105 | pushing a list and popping as many times reports the list reversed and restores the stack |
| DynamicProgramming.Table | src/utils/algorithms/dynamicProgramming.js:18-46 | once entries up to `upto` are computed, the table holds Fibonacci numbers there and zeros after |
| DynamicProgramming.FibonacciSteps | src/utils/algorithms/dynamicProgramming.js:18-54 | `2n` steps: the zeroed table, the base cases, then a step before and a step after each `dp[i] = dp[i-1] + dp[i-2]`, each showing the table at that moment |
| DynamicProgramming.FirstNine | src/utils/algorithms/dynamicProgramming.js:28-53 | the finished table for n = 8 is `[0,1,1,2,3,5,8,13,21]` |
| DynamicProgramming.FibonacciDP | src/utils/algorithms/dynamicProgramming.js:15-57 | the input is ignored; 16 steps from nine zeros to the first nine Fibonacci numbers |
| DynamicProgramming.LcsSteps | src/utils/algorithms/dynamicProgramming.js:91-100 | extending either prefix by one character keeps the LCS length or adds one |
| DynamicProgramming.LcsUpper | src/utils/algorithms/dynamicProgramming.js:91-100 | no common subsequence of the prefixes is longer than the recurrence's value |
| DynamicProgramming.Backtrack | src/utils/algorithms/dynamicProgramming.js:91-100 | the table yields a common subsequence as long as the recurrence says |
| DynamicProgramming.LcsIsLongest | src/utils/algorithms/dynamicProgramming.js:89-109 | the recurrence computes the length of a longest common subsequence |
| DynamicProgramming.RowSteps | src/utils/algorithms/dynamicProgramming.js:90-107 | one cell step per column of a row |
| DynamicProgramming.TableStepsLength | src/utils/algorithms/dynamicProgramming.js:89-109 | one step per cell of the table |
| DynamicProgramming.FillRow | src/utils/algorithms/dynamicProgramming.js:90-108 | the inner loop fills row `i` by the recurrence from row `i-1` and emits one step per cell |
| DynamicProgramming.LcsTable | src/utils/algorithms/dynamicProgramming.js:72-119 | a start step, one step per table cell in row-major order with the recurrence's value, then the final step with the LCS length |
| DynamicProgramming.ExampleTable | src/utils/algorithms/dynamicProgramming.js:74-114 | the LCS length of "ABCDGH" and "AEDFHR" is 3 |
| DynamicProgramming.ShownIsCommon | src/utils/algorithms/dynamicProgramming.js:114 | the hard-coded "ADH" is a common subsequence of the fixed strings, so with length 3 it is a longest one |
| DynamicProgramming.LongestCommonSubsequence | src/utils/algorithms/dynamicProgramming.js:72-119 | the input is ignored; 38 steps, the last reporting length 3 and "ADH" |
| Orchestrator.AlgorithmNamed | src/utils/algorithms/index.js:15-25 | the lookup finds an algorithm registered under the name, or none when no algorithm has it |
| Orchestrator.NamesIdentify | src/utils/algorithms/index.js:15-25 | looking a name up finds exactly the algorithm registered under it |
| Orchestrator.RunSort | src/utils/algorithms.js:69 | every snapshot keeps the input's length; no steps exactly for bubble or selection on at most one element; otherwise the last snapshot is an ascending rearrangement, equal to the stable sort except for selection and quick sort |
| Orchestrator.PadStep | src/utils/algorithms.js:71-77 | a padded snapshot has the capacity's length, the step's elements in front, nulls after them, and the rest of the step unchanged |
| Orchestrator.Pad | src/utils/algorithms.js:71-77 | every step of the run is padded |
| Orchestrator.Framed | src/utils/algorithms.js:66-91 | two more steps than the run: a starting step over the state, and a completion step repeating the snapshot before it; every snapshot has the capacity's length |
| Orchestrator.FramedShape | src/utils/algorithms.js:71-77 | every padded snapshot is packed and holds as many elements and nulls as the state |
| Orchestrator.FramedEnd | src/utils/algorithms.js:85-89 | the completion step shows the run's last array, packed and padded, or the state itself when the run is empty |
| Orchestrator.SortOnArray | src/utils/algorithms.js:54-92 | an unregistered name (default "Bubble Sort") gives one error step over the state; a sorting algorithm's name gives its run on the non-null elements, framed and padded |
| Orchestrator.SortOnArraySorts | src/utils/algorithms.js:54-92 | the last snapshot holds the state's elements in ascending order with the nulls kept; packed from two elements on, or always for insertion, merge and quick sort; the state itself when bubble or selection get at most one element; the stable order except for selection and quick sort |
| Orchestrator.OperationSteps | src/utils/algorithms.js:47-95 | no steps exactly when the structure does not visualise the operation; Arrays/sort goes through the sorting path; every other operation goes to its structure's producer |
| Orchestrator.PushThenPopThrough | src/utils/algorithms.js:94 | a push then a pop through the dispatcher restores the stack and reports the pushed value |
| Orchestrator.AlgorithmSteps | src/utils/algorithms.js:28-37 | no steps exactly for an unregistered name; sorts run on the elements; searches use the given target, or the drawn one when it is missing or zero; the DP producers give their fixed runs |

## Left out

- Rendering, animation, pages, the tutor chat and the network calls are not
  part of the engine and are not modelled.
- Description strings: each step carries a tagged description with the
  numbers the source interpolates; the text itself is not modelled.
- Deep copies: snapshots are immutable sequences, so the deep copy is
  implicit.
- Ids come from a `nextId` parameter, not from the module-level counter.
- Randomness:
  - The random search target is the `drawn` parameter of
    `Orchestrator.AlgorithmSteps`.
  - The random matrix fill is the `draw` parameter of `TwoDArrays.Create`.
    The source draws values in `10..99`; the parameter is not restricted to
    that range, so every contract holds for any fill.
  - `generateRandomArray` is not modelled.
- Numbers are unbounded integers. JavaScript's double-precision numbers, and
  rounding in the square-root search for huge inputs, are not modelled.
- `parseInt` leniency: matrix input tokens are already classified as a
  number or as garbage (`TwoDArrays.Token`), so "3x" reading as 3 is not
  modelled.
- `TwoDArrays.Create`: dimensions are integers or "not a number". Fractional
  dimensions are not modelled.
- Matrices: traversal and search assume a rectangular matrix (`Rect`), as
  every matrix the create producer builds is. Ragged matrices are not
  modelled.
- `Arrays.Create`: the capacity override is a natural number, with 0 meaning
  "not given". A negative override is not modelled.
- Array indices are integers. Non-integer indices are not modelled.
- `Orchestrator.OperationSteps` requires the state to have the kind its
  structure works on (`Fits`). The source's behaviour on a state of the
  wrong kind is not modelled.
- `Orchestrator.OperationSteps` takes the operation's arguments as one
  record (`Args`) instead of positional arguments.
- `Orchestrator.SortOnArray`: a registered non-sorting name (a search or a
  DP producer) gives a single `NotASort` step. The source would run that
  producer on the elements. The error log on a missing sort is not
  modelled.
- `Orchestrator.AlgorithmNamed` and `Orchestrator.OperationSteps`: names
  that resolve through the object prototype (such as "constructor") are not
  modelled, neither as algorithm names nor as structure or operation names.
- `Orchestrator.AlgorithmSteps`:
  - The input holds no nulls. The source reads every element's value to
    draw a random target.
  - `Math.max` of an empty array is not modelled.
- `DynamicProgramming.FibonacciDP` and
  `DynamicProgramming.LongestCommonSubsequence` are stated for the fixed
  inputs the source hard-codes (n = 8, "ABCDGH" and "AEDFHR"). The general
  `FibonacciSteps` and `LcsTable` carry the recurrence for any size. The
  shown subsequence "ADH" stays a constant, as in the source.
- `Searching.BinarySearchFinds` requires an ascending null-free view with
  distinct ids. The producer does not check these. Its callers' check
  compares only adjacent occupied slots, so it implies an ascending view
  only on packed arrays (`Arrays.PackedCheckSorts`). A gapped array, which
  the as-written insert can make, may pass the check unsorted
  (`Arrays.CheckMissesGap`), and the search then runs on unsorted values.
- `BinarySearchProblems.OccurrenceSteps`, `BinarySearchProblems.PeakSteps`,
  `BinarySearchProblems.RotatedSteps` and `BinarySearchProblems.MinSteps`
  take arrays without null slots. The source reads every slot's value and
  would throw on a null; the pages that call these producers build arrays
  without nulls.
- `Arrays.InsertThenDelete` needs a non-negative index. A negative index
  counts from the end in the splice but is an error for delete, so the
  inserted element stays (`Arrays.NegativeIndexKeepsInsert`).
- Rotated-array results (`BinarySearchProblems.RotatedFinds`,
  `BinarySearchProblems.MinFinds`) assume distinct values that form a
  rotated ascending sequence, as the source's description of these problems
  does.
- `InsertionSort.InsertionSortSized`, `MergeSort.SortStepsSized` and
  `QuickSort.QuickSortSized` state only that every intermediate snapshot has
  the input's length, not that it is a rearrangement. Insertion sort's
  shifting snapshots hold one element twice while the key is held aside, so
  it is not one. The bubble and selection producers do have the
  rearrangement property for every step.
- `BubbleSort.InnerHead`: the highlights and counters are stated one
  iteration at a time. No lemma states them for every step of a pass at
  once.
- `EnhancedBubble.EnhancedBubbleSortSteps`: intermediate snapshots are
  described through `PassFrames` and `InversionShown`. No single
  every-step lemma is stated.

## Findings

| source | as written | input that shows it | evidently intended | confidence | as-written member | corrected member |
|---|---|---|---|---|---|---|
| src/utils/dataStructures/arrays.js:152-154 | after splicing the new element in at `index`, insert pops the LAST slot, whatever it holds | `[1, 2, null]` with 9 inserted at index 3: the 9 is popped, yet the step reports success; `[1, null, 5]` with 9 inserted at 0: the 5 is lost | drop a null slot (the first one), so that every element is kept | not executed | Arrays.InsertAsWritten, Arrays.InsertDropsElement | Arrays.InsertKeeping, Arrays.InsertKeepingContents |
