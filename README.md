# Sorting and searching visualizers, modelled in Dafny

This project models the algorithmic core of five React visualizers: bubble
sort, Lomuto quick sort, top-down merge sort, linear search and binary
search. Each visualizer keeps an array, a highlight descriptor and a
"running" flag as React state. The sorts and the linear search also keep
counters; the binary search keeps a result field instead. Each start handler
guards against a second run. The sorts then drive the algorithm over a copy of
the array, while both searches read the array in place. At almost every step a
driver publishes a highlight and waits on a single-slot step gate. The one
exception is merge sort's copy-back loop, which only sleeps.

How the model is laid out:

- **One class per visualizer.** React state becomes fields: `arr` as a `seq<int>`, the counters as `nat`, a `Highlight` datatype, and `isSorting`/`isSearching`.
- **Each `set*` call is an assignment** to one of those fields. This includes the snapshots `setArr([...a])` publishes mid-run: each is an assignment of the working copy to `arr`, and each driver method states which value it leaves there: the step methods say whether their swap republished the working copy or left `arr` as it was, and every method that moves the highlight states the descriptor it leaves, except the recursive quick sort, whose last descriptor is the `Pivot` of whichever partition ran last and which states only that it is a `Pivot` inside the range it sorted.
- **Working copies are `array<int>` values**, changed in place. This covers the sorts' `a` and merge sort's `aux` buffer.
- **Highlights go through a `Show` method.** Every highlight a driver publishes passes through it, and its precondition is the bound that highlight must meet. So every call site proves its indices are in range.
- **The step gate is modelled once, in `StepGate`.** `waitForStep` and `handleStepAdvance` are a two-state slot in a `Gate` class. A replay of a whole run against the gate treats a finished `sleep` as a `Tick` and a click on the bars as a `Click`.
- **`sleep` and `await` are no-ops inside the drivers.**
- **Randomness and text parsing become parameters.** These are the draws of `Math.random` and the numbers a text parse yields.

Files:

- `wrappers.dfy`: `Option`.
- `sequences.dfy`: sortedness, counting, inversions, permutation facts and the ascending sort.
- `runs.dfy`: the start outcome and the random-length clamp.
- `step_gate.dfy`
- `quick_sort.dfy`
- `bubble_sort.dfy`
- `merge_sort.dfy`
- `linear_search.dfy`
- `binary_search.dfy`

## Model

| member | source | states |
|---|---|---|
| Sequences.SwapAdjacent | src/common/Bsort.tsx:98 | exchanging neighbours j and j + 1 changes only those two cells and keeps the multiset of values |
| Sequences.SwapRemovesOneInversion | src/common/Bsort.tsx:97-99 | swapping an out-of-order neighbour pair removes exactly one inversion, so the swap counter of bubble sort counts the inversions of its input |
| Sequences.SortedHasNoInversions | src/common/Bsort.tsx:88-107 | a sorted array has no inversions left |
| Sequences.SortedUnique | src/common/binerysearch.tsx:62 | two sorted arrangements of the same values are the same sequence, so every correct sort yields what the numeric comparator sort yields |
| Sequences.SortAscending | src/common/binerysearch.tsx:62 | `.sort((a, b) => a - b)` yields a sorted permutation of its input |
| Runs.RandomLength | src/common/Bsort.tsx:68 | the random length is `size` clamped to [5, 20], with an unset size meaning 10 |
| StepGate.Wait | src/common/Qsort.tsx:46-51 | with step mode off the slot is left exactly as it was; with it on the slot holds the resolver of this point; the slot ends empty only if it was empty and step mode is off |
| StepGate.Step | src/common/Qsort.tsx:46-58 | a click always leaves the slot empty; a finished sleep in free mode leaves the slot alone; from a consistent run every event passes at most one suspension point |
| StepGate.Replay | src/common/Qsort.tsx:46-58 | every run reached by any sequence of sleeps and clicks is consistent: a pending resolver belongs to the next unpassed point, and no run passes more points than it has |
| StepGate.Gate.constructor | src/common/Qsort.tsx:31 | the ref starts out empty |
| StepGate.Advance | src/common/Qsort.tsx:53-58 | stepping always leaves the slot empty and fires a resolver exactly when the slot held one, namely that one |
| StepGate.Gate.WaitForStep | src/common/Qsort.tsx:46-51 | with step mode off the slot is untouched; with it on the slot holds the new resolver, overwriting any earlier one |
| StepGate.Gate.HandleStepAdvance | src/common/Qsort.tsx:53-58 | on an empty slot nothing fires; on a filled slot its resolver fires once and the slot is cleared |
| StepGate.StepConsistent | src/common/Qsort.tsx:46-58 | every sleep ending or click keeps a pending resolver tied to the next unpassed suspension point |
| StepGate.StepModeWaitsForClicks | src/common/Qsort.tsx:46-58 | in step mode a run passes no more suspension points than it got clicks; with no clicks it never finishes |
| StepGate.ClickPassesOnePoint | src/common/Qsort.tsx:53-58 | a click on a blocked run releases exactly one point; a second click before the next wait does nothing |
| StepGate.FreeRunIgnoresClicks | src/common/Qsort.tsx:46-47 | with step mode off the slot is never filled, clicks do nothing, and each elapsed sleep passes one point |
| QuickSort.QuickSortVisualizer.constructor | src/common/Qsort.tsx:21-30 | the initial array of fifteen values, size 20, zero counters, no run, no highlight |
| QuickSort.QuickSortVisualizer.Show | src/common/Qsort.tsx:73-98 | every published pivot, `left` and `right` index lies in [low, high] of the current partition |
| QuickSort.QuickSortVisualizer.HandleRandom | src/common/Qsort.tsx:114-118 | the new array has the clamped length, values in [1, 100], and the counters are untouched |
| QuickSort.QuickSortVisualizer.HandleLoadFromText | src/common/Qsort.tsx:120-123 | a non-empty parse replaces the array; an empty one keeps it |
| QuickSort.QuickSortVisualizer.HandleReset | src/common/Qsort.tsx:221-225 | both counters are cleared |
| QuickSort.Swap | src/common/Qsort.tsx:85 | the destructuring swap exchanges two cells, leaves the rest and keeps the multiset |
| QuickSort.PairsClosedForm | src/common/Qsort.tsx:105-111 | the quadratic budget 0 + 1 + ... + (n - 1) is n(n - 1)/2 |
| QuickSort.PairsSplit | src/common/Qsort.tsx:105-111 | the budgets of the two sides of a pivot plus the pairs with the pivot stay within the budget of the whole range |
| QuickSort.CounterBudget | src/common/Qsort.tsx:105-111 | a partition's exact counts plus both recursive sorts' budgets stay within the range's budget: comparisons at most n(n - 1)/2 and swaps at most comparisons + n |
| QuickSort.QuickSortVisualizer.ScanStep | src/common/Qsort.tsx:77-91 | one turn of the partition loop counts one comparison, swaps and counts a swap exactly when a[j] is below the pivot, and then republishes the working copy to `arr` and leaves the Exchange(high, i, j) highlight, while otherwise `arr` is untouched and the Scan(high, j) highlight stays; it keeps everything up to i below the pivot and everything from i + 1 to j at least the pivot |
| QuickSort.QuickSortVisualizer.Partition | src/common/Qsort.tsx:69-103 | returns p in [low, high] holding the old a[high]; everything before p in the range is below it, everything after is at least it; the array is permuted only inside [low, high]; comparisons grow by high - low; swaps grow by one plus the count of scanned values below the pivot |
| QuickSort.SortedAroundPivot | src/common/Qsort.tsx:105-111 | once both sides of a partitioned range are sorted, the whole range is sorted |
| QuickSort.QuickSortVisualizer.QuickSort | src/common/Qsort.tsx:105-111 | a[low..high] ends sorted and permuted, nothing outside changes, a range with low >= high is untouched, a sorted range of two or more cells is republished to `arr` and leaves a `Pivot` highlight inside it, and neither counter decreases; the counters grow by at most the quadratic worst case |
| QuickSort.QuickSortVisualizer.HandleStart | src/common/Qsort.tsx:125-138 | ignored while sorting; an empty array is refused; otherwise the counters restart from zero and the array ends sorted and a permutation of itself, with at most n(n - 1)/2 comparisons and at most comparisons + n swaps, and the highlight cleared |
| BubbleSort.BubbleSortVisualizer.constructor | src/common/Bsort.tsx:27-34 | the initial nine values, size 20, zero counters, no run, no highlight |
| BubbleSort.BubbleSortVisualizer.Show | src/common/Bsort.tsx:92 | every published pair `current = j`, `next = j + 1` lies inside the array |
| BubbleSort.BubbleSortVisualizer.HandleRandom | src/common/Bsort.tsx:67-73 | the new array has the clamped length and values in [1, 100]; both counters are cleared and the highlight is kept |
| BubbleSort.BubbleSortVisualizer.HandleLoadFromText | src/common/Bsort.tsx:75-78 | a non-empty parse replaces the array; an empty one keeps it |
| BubbleSort.BubbleSortVisualizer.HandleReset | src/common/Bsort.tsx:187-191 | both counters are cleared |
| BubbleSort.BubbleSortVisualizer.CompareStep | src/common/Bsort.tsx:91-103 | one comparison is counted and the pair (j, j + 1) is highlighted; the neighbours are swapped, one swap is counted and the working copy is republished to `arr` exactly when a[j] > a[j + 1], and otherwise `arr` is untouched; the inversions left plus the swaps made stay constant |
| BubbleSort.PassComparisonsClosed | src/common/Bsort.tsx:90-93 | the first i passes, pass t comparing n - 1 - t pairs, compare i(2n - i - 1)/2 pairs in all |
| BubbleSort.AllPairsCompared | src/common/Bsort.tsx:90-93 | the n - 1 passes compare n(n - 1)/2 pairs, every pair once |
| BubbleSort.StepKeepsPass | src/common/Bsort.tsx:91-99 | one compare-and-swap carries the largest value seen so far one place right and leaves the sorted tail alone |
| BubbleSort.SortedSuffixGrows | src/common/Bsort.tsx:90-91 | after outer pass i the last i + 1 positions hold the largest values, in sorted order |
| BubbleSort.PassEnd | src/common/Bsort.tsx:90-104 | at the end of pass i the last i + 1 positions are sorted and no smaller than anything before them |
| BubbleSort.SortedAfterPasses | src/common/Bsort.tsx:90-105 | once the last pass has sorted a[1..] above a[0], the array is sorted and has no inversion left |
| BubbleSort.BubbleSortVisualizer.PassStep | src/common/Bsort.tsx:91-103 | a compare step inside a pass counts one comparison, leaves the pair (j, j + 1) highlighted, republishes the array to `arr` when it swapped and otherwise leaves both the array and `arr` alone, carries the largest value seen one place right, leaves the settled tail alone and keeps the array a permutation with swaps plus inversions constant |
| BubbleSort.BubbleSortVisualizer.Pass | src/common/Bsort.tsx:91-104 | one inner pass moves the largest of the unsorted prefix to its end, so a sorted tail of i positions grows to i + 1; it counts n - i - 1 comparisons, leaves the last pair it compared, (n - i - 2, n - i - 1), highlighted, leaves `arr` equal to the array when it swapped at all and unchanged (array included) when it did not, keeps the array a permutation and keeps swaps plus inversions constant |
| BubbleSort.BubbleSortVisualizer.Passes | src/common/Bsort.tsx:90-105 | the double loop leaves the array sorted and a permutation, with n(n-1)/2 comparisons and as many swaps as the input had inversions; the last highlight is the pair (0, 1) when n >= 2 (the old one for a single cell), and `arr` holds the sorted array when any swap happened and is untouched otherwise |
| BubbleSort.BubbleSortVisualizer.HandleStart | src/common/Bsort.tsx:80-111 | ignored while sorting; an empty array is refused; otherwise the counters restart, the array ends sorted and permuted, comparisons end at n(n-1)/2, swaps at the input's inversion count, and the highlight is cleared |
| BubbleSort.DefaultRun | src/common/Bsort.tsx:80-111 | on the initial array the run ends with [1, 3, 4, 7, 8, 10, 12, 15, 20], 36 comparisons and 20 swaps |
| BubbleSort.DefaultSorted | src/common/Bsort.tsx:27-34 | [1, 3, 4, 7, 8, 10, 12, 15, 20] is the only sorted arrangement of the initial array |
| BubbleSort.DefaultInversions | src/common/Bsort.tsx:27-34 | the initial array has 20 inversions |
| MergeSort.MergeSeqs | src/common/MergeSortVisualizer.tsx:58-86 | the three loops move every element of both runs exactly once: the merge is as long as both runs together |
| MergeSort.MergeComparisons | src/common/MergeSortVisualizer.tsx:58-70 | the first loop compares nothing exactly when one of the runs is empty |
| MergeSort.RangeWrites | src/common/MergeSortVisualizer.tsx:95-101 | a range of two or more elements is written at least once per element, and a range of at most one element is not written at all |
| MergeSort.MergePermutes | src/common/MergeSortVisualizer.tsx:58-86 | the merged range is a rearrangement of the two runs |
| MergeSort.MergeSorted | src/common/MergeSortVisualizer.tsx:49-92 | merging two sorted runs gives a sorted run |
| MergeSort.MergeStable | src/common/MergeSortVisualizer.tsx:60-64 | since a tie takes the left element, equal values leave the merge in the order of their original positions |
| MergeSort.MergeOriginsTrace | src/common/MergeSortVisualizer.tsx:58-86 | each merged element is the element of the left or right run at the position it is traced to |
| MergeSort.MergeComparisonsBounds | src/common/MergeSortVisualizer.tsx:58-70 | the first loop makes at most right - left comparisons and at least as many as the shorter run has elements |
| MergeSort.MergeAtLeast | src/common/MergeSortVisualizer.tsx:58-86 | a lower bound of both runs bounds every element of their merge |
| MergeSort.MergedRange | src/common/MergeSortVisualizer.tsx:95-101 | sorting both halves and merging them leaves a[l..r] sorted, everything else as it was, and the array a permutation |
| MergeSort.RangeWritesSize | src/common/MergeSortVisualizer.tsx:95-101 | the writes of `sort(l, r)` depend only on the size of the range: RangeWrites(l, r) == SortWrites(r - l + 1) |
| MergeSort.SortWritesBound | src/common/MergeSortVisualizer.tsx:95-101 | a sort over n elements writes at most n * ceil(log2 n) times |
| MergeSort.MergeSortVisualizer.constructor | src/common/MergeSortVisualizer.tsx:14-20 | the initial fifteen values, zero counters, no run, no highlight |
| MergeSort.MergeSortVisualizer.Show | src/common/MergeSortVisualizer.tsx:54-83 | the half ranges [left, mid], [mid + 1, right] and the merge range [left, right] always lie inside the array |
| MergeSort.MergeSortVisualizer.HandleRandom | src/common/MergeSortVisualizer.tsx:116 | the new array holds twenty values from [1, 100]; nothing else changes |
| MergeSort.MergeSortVisualizer.HandleLoadFromText | src/common/MergeSortVisualizer.tsx:130-140 | the parsed numbers replace the array, even when there are none |
| MergeSort.MergeSortVisualizer.Merge | src/common/MergeSortVisualizer.tsx:49-93 | a[left..right] becomes the merge of its two runs, nothing outside the range changes, writes grow by right - left + 1 and comparisons by at most right - left |
| MergeSort.MergeSortVisualizer.Fill | src/common/MergeSortVisualizer.tsx:58-86 | the three loops fill aux[left..right] with the merge of the two runs, write right - left + 1 times and leave aux alone outside the range |
| MergeSort.MergeSortVisualizer.Interleave | src/common/MergeSortVisualizer.tsx:58-70 | the first loop stops once a run is exhausted; what it wrote, followed by the merge of what is left, is the whole merge; it makes one comparison and one write per move |
| MergeSort.MergeSortVisualizer.TakeHead | src/common/MergeSortVisualizer.tsx:58-69 | one turn of the first loop advances the cursor of the smaller head, the left one on a tie, writes that head to aux[k], and keeps what is written followed by the merge of what is left equal to the whole merge, with one comparison and one write |
| MergeSort.MergeSortVisualizer.Drain | src/common/MergeSortVisualizer.tsx:71-86 | a drain loop appends what is left of one run to aux and counts writes but no comparisons |
| MergeSort.MergeSortVisualizer.CopyBack | src/common/MergeSortVisualizer.tsx:88-92 | the merged range is copied from aux back into a, and nothing else changes |
| MergeSort.MergeSortVisualizer.Sort | src/common/MergeSortVisualizer.tsx:95-101 | a[l..r] ends sorted and permuted, nothing outside changes, and l >= r does nothing; the writes are exactly those of its recursion, RangeWrites(l, r), and the comparisons never decrease and stay below the writes by at least r - l |
| MergeSort.MergeSortVisualizer.MergeHalves | src/common/MergeSortVisualizer.tsx:98-100 | after both halves are sorted, `merge(l, m, r)` leaves a[l..r] sorted and the array permuted, with r - l + 1 writes and at most r - l comparisons |
| MergeSort.MergeSortVisualizer.MergeSortVisual | src/common/MergeSortVisualizer.tsx:45-106 | the whole array ends sorted and a permutation of itself, with exactly SortWrites(n) writes and at most SortWrites(n) - (n - 1) comparisons, and with no comparison at all for fewer than two elements; the flag and the highlight are cleared at the end |
| MergeSort.MergeSortVisualizer.HandleStart | src/common/MergeSortVisualizer.tsx:117 | ignored while sorting; otherwise the array becomes its ascending arrangement, and the counters go on from their previous totals, with the comparisons unchanged for fewer than two elements |
| LinearSearch.Matches | src/common/Linearsearch.tsx:82 | the model's definition of `arr[i] === target`, not a property derived from it: true exactly when the target is the number in the cell, so an unset or NaN target matches nothing |
| LinearSearch.FirstIndexOf | src/common/Linearsearch.tsx:76-91 | the reported index holds the target and no earlier index does; "not found" exactly when no index holds it |
| LinearSearch.FirstIndexOfUnique | src/common/Linearsearch.tsx:76-87 | conversely, a matching index with no earlier match is the one the scan reports |
| LinearSearch.NoNumberNoMatch | src/common/Linearsearch.tsx:145 | a NaN target passes the guard but matches nothing, so the scan reads the whole array |
| LinearSearch.LinearSearchVisualizer.constructor | src/common/Linearsearch.tsx:19-25 | the initial nine values, zero comparisons, no highlight, no run, target unset |
| LinearSearch.LinearSearchVisualizer.Show | src/common/Linearsearch.tsx:77-83 | every published `current` or `found` index lies in [0, n) |
| LinearSearch.LinearSearchVisualizer.SetTarget | src/common/Linearsearch.tsx:145 | each edit replaces the target with a number or NaN; an edit never makes it unset again |
| LinearSearch.LinearSearchVisualizer.HandleRandom | src/common/Linearsearch.tsx:53-61 | fifteen values from [1, 100]; the counter and the highlight are cleared |
| LinearSearch.LinearSearchVisualizer.HandleLoadFromText | src/common/Linearsearch.tsx:63-66 | a non-empty parse replaces the array; an empty one keeps it |
| LinearSearch.LinearSearchVisualizer.HandleReset | src/common/Linearsearch.tsx:162-165 | the counter and the highlight are cleared |
| LinearSearch.LinearSearchVisualizer.HandleSearch | src/common/Linearsearch.tsx:68-92 | refused, counting nothing, while searching or with the target unset; an empty array is refused; otherwise the result is the first matching index with i + 1 comparisons, or "not found" with n comparisons; the array is never written |
| BinarySearch.SearchFrom | src/common/binerysearch.tsx:92-106 | the halving loop from a window on reports a hit only at an index inside that window |
| BinarySearch.Probes | src/common/binerysearch.tsx:92-106 | the loop probes at least one midpoint exactly when the window is non-empty |
| BinarySearch.SearchHitIsTarget | src/common/binerysearch.tsx:98-101 | a hit is reported only at an index in the window that holds the target |
| BinarySearch.SearchExhaustedIffAbsent | src/common/binerysearch.tsx:92-106 | on a sorted array the window runs empty exactly when no index in it holds the target |
| BinarySearch.ProbesHalve | src/common/binerysearch.tsx:92-106 | each probe at least halves the window, so a window of w cells is settled within floor(log2 w) + 1 probes |
| BinarySearch.ResultOfExit | src/common/binerysearch.tsx:98-111 | the result is decided by how the loop ended: "not found" exactly on exhaustion, the index on a hit, and never blank |
| BinarySearch.ResultMeaning | src/common/binerysearch.tsx:89-111 | over a whole sorted array the result names an index holding the target, and is "not found" exactly when no index holds it |
| BinarySearch.WrittenResult | src/common/binerysearch.tsx:109-111 | the result as written is right exactly when a blank prior result goes with a miss, or a set prior result goes with a hit |
| BinarySearch.StaleReadHidesHit | src/common/binerysearch.tsx:109-111 | on the default array and target 7 the loop hits index 3, yet the first search shows "not found"; a later miss shows a blank result |
| BinarySearch.BinarySearchVisualizer.constructor | src/common/binerysearch.tsx:30-36 | the initial sorted array, target 7, no run, no highlight, no result |
| BinarySearch.BinarySearchVisualizer.Show | src/common/binerysearch.tsx:94-99 | every published window has 0 <= left <= mid <= right < n |
| BinarySearch.BinarySearchVisualizer.HandleLoadFromText | src/common/binerysearch.tsx:57-71 | a non-empty parse is stored sorted ascending and clears the result; the array stays sorted |
| BinarySearch.BinarySearchVisualizer.HandleRandom | src/common/binerysearch.tsx:73-80 | twelve values from [1, 100], stored sorted ascending, with the result cleared |
| BinarySearch.BinarySearchVisualizer.HandleReset | src/common/binerysearch.tsx:193-196 | the result and the highlight are cleared |
| BinarySearch.BinarySearchVisualizer.Probe | src/common/binerysearch.tsx:93-105 | one turn publishes the window [left, right] and its midpoint floor((left + right) / 2), marks it found exactly on a hit, and on a miss narrows to a strictly smaller window with the same outcome and one probe fewer |
| BinarySearch.BinarySearchVisualizer.Search | src/common/binerysearch.tsx:89-107 | the loop ends, with the window shrinking on every probe, at the exit the halving search gives for the whole array, after exactly the probes that search makes, at most floor(log2 n) + 1; the last window shown is marked found exactly on a hit |
| BinarySearch.BinarySearchVisualizer.HandleStart | src/common/binerysearch.tsx:82-114 | ignored while searching; an empty array is refused; otherwise the result is an index holding the target or "not found" exactly when the target is absent; the array is never written |

## Left out

- Timing is left out: `sleep`, `setTimeout`, the speed slider and the delay formulas, which use floating-point division. Inside the drivers every `await` is a no-op. The step gate is modelled on its own, against a trace of elapsed sleeps and clicks, rather than interleaved with each driver.
- Rendering is left out: JSX, badge and bar colours, bar heights and tooltips.
- Text parsing is left out: `parseFloat`, `parseInt`, `Number(...)` and NaN filtering are float text parsing. The load handlers take the parsed numbers as a parameter, and array values are integers.
- The binary-search target is modelled as an integer. A NaN or fractional target from `Number(...)` is not modelled.
- `Math.random` is replaced by a parameter holding the draws. Its range [1, 100] and the lengths are kept as preconditions.
- Alerts are not modelled; their text is returned as outcome values.
- The merge-sort reset button only re-sets the array to a copy of itself and leaves both counters alone. It changes nothing in the model, so it has no member.
- src/App.tsx, src/components/ui/tabs.tsx and src/main.tsx are not part of this model. They hold tab switching and application start-up, with no algorithmic content.
- QuickSort.QuickSortVisualizer.QuickSort: the comparison and swap counts are bounded rather than given exactly. An exact count depends on every pivot chosen. Partition does state its own counts exactly.
- MergeSort.MergeSortVisualizer.Sort: comparisons are bounded by the writes rather than given exactly, for the same reason. Writes are exact, given by `RangeWrites`, which equals `SortWrites` of the range's size.
- MergeSort.MergeSortVisualizer.HandleStart follows the code, not the general description of the start handlers. There is no empty-array alert, since an empty array simply sorts to itself. The counters are not reset, so they accumulate across runs.
- Interleaving of user events with a running driver is not modelled. Each handler runs to completion as one atomic method. In the source, the text-area load handlers are never disabled during a run (src/common/Qsort.tsx:210-213, src/common/binerysearch.tsx:176-179, src/common/Bsort.tsx:176-179, src/common/Linearsearch.tsx:152-155). Merge sort disables none of its controls (src/common/MergeSortVisualizer.tsx:116-150). An edit made while a driver sleeps replaces `arr` until the driver's next `setArr` overwrites it. In merge sort the last `setArr` comes before a final sleep (src/common/MergeSortVisualizer.tsx:90-91). A load, random or reset click during that sleep therefore leaves `arr` as the user set it, possibly unsorted, when the run ends. The sorted-result postconditions of the start handlers describe runs without such interleaving.
- Aliasing between React's state array and the working copy is not modelled, because the sorts always copy first and the searches only read the array. Stale closures are modelled only where they change an outcome, which is the binary-search result.

## Findings

| source | as written | input that shows it | evidently intended | confidence | as-written member | corrected member |
|---|---|---|---|---|---|---|
| src/common/binerysearch.tsx:109-111 | after the loop, the handler tests the `result` captured when it was created, not the value the loop just set. A blank prior result is overwritten with -1 even after a hit, and any other prior result leaves a miss blank. | the default array [1, 3, 4, 7, 8, 10, 12, 15, 20] with target 7 on the first search after load: the loop hits index 3, but "not found" is shown | the result follows how the loop ended: the index on a hit, -1 on exhaustion | high; not executed | BinarySearch.WrittenResult | BinarySearch.BinarySearchVisualizer.HandleStart |
