# Quicksort trace engine

This project models the trace engine of a quicksort visualizer, the
`QuickSortVisualizer` class of `src/lib/quicksort.ts`. The engine sorts a
copy of a list of numbers with a Lomuto-partition quicksort whose pivot is
always the rightmost element of the active range. At every decision it makes
(a range announced, an element compared with the pivot, a swap announced and
done, the pivot placed, a part announced) it appends a step to a log. Each
step holds a snapshot of the array, the highlighted indices, the active range,
and the comparison and swap counters as they stand. The engine returns the
log, the two totals and the sorted array.

The model has four layers:

- `trace.dfy` (module `SortTrace`) holds the records and what a well-formed
  log is:
  - `SortStep`, `QuickSortResult`, and `StepKind`, which stands for a step's
    explanation text;
  - `Shaped`: a step's fields agree with its kind;
  - `Ongoing`: every step so far is well shaped and none is terminal;
  - `Tallied`: every step holds the counters of the moment it was recorded;
  - the lemmas that count comparison and swap steps.
- `ordering.dfy` (module `Ordering`) holds facts about sequences of numbers:
  - sortedness;
  - exchanging two elements;
  - the picture the partition loop keeps (`Lomuto`);
  - how sortedness and bounds survive a rearrangement of a range.
- `runs.dfy` (module `QuickSortRuns`) models each operation as a function
  from a `Run` to the next `Run`:
  - a `Run` is the working array, the log and the two counters;
  - the sorting and counting properties are lemmas about these functions.
- `runlog.dfy` (module `RunLog`) proves that every operation keeps the log
  well formed and tallied, and what a whole run's log looks like.
- `quicksort.dfy` (module `QuickSortEngine`) is the class itself:
  - fields `steps`, `comparisons` and `swaps`;
  - `Sort` copies the caller's array into a fresh `array<int>` and passes that
    copy to every other method as its parameter `a`, as the source does;
  - each method is proved to change the fields and the array exactly as its
    function in `QuickSortRuns` does.

The partition loop and the second half of `quickSort` are cut into smaller
methods so that each can be proved on its own:

- `ScanRange` is the loop;
- `ScanElement` is one round of the loop;
- `SwapShown` is the announced and shown swap;
- `PlacePivot` is the final pivot exchange;
- `SortPartsAround`, `AnnounceLeftPart` and `AnnounceRightPart` are the two
  recursive calls and their announcements.

Their steps and their order are those of the source.

## Model

| member | source | states |
|---|---|---|
| QuickSortEngine.QuickSortVisualizer.Sort | src/lib/quicksort.ts:27-50 | resets the engine and sorts a copy: the caller's array is unchanged, the result is `SortRun` of the input, and the fields afterwards hold the returned log and totals |
| QuickSortEngine.QuickSortVisualizer.QuickSortRange | src/lib/quicksort.ts:52-81 | the array, log and counters after sorting [low, high] are those `QuickSortRun` gives, for any range including empty and one-element ones |
| QuickSortEngine.QuickSortVisualizer.SortPartsAround | src/lib/quicksort.ts:66-79 | announcing and sorting the parts before and after the pivot follows `SortParts` |
| QuickSortEngine.QuickSortVisualizer.AnnounceLeftPart | src/lib/quicksort.ts:67-70 | a step is added for the left part exactly when it has two or more elements (`AnnounceLeft`) |
| QuickSortEngine.QuickSortVisualizer.AnnounceRightPart | src/lib/quicksort.ts:74-77 | a step is added for the right part exactly when it has two or more elements (`AnnounceRight`) |
| QuickSortEngine.QuickSortVisualizer.Partition | src/lib/quicksort.ts:83-124 | the array, log, counters and returned index are those `PartitionRun` gives |
| QuickSortEngine.QuickSortVisualizer.ScanRange | src/lib/quicksort.ts:84-112 | the loop over j from low to high - 1, starting with i = low - 1, ends as `LoopRun` does and returns the final boundary |
| QuickSortEngine.QuickSortVisualizer.ScanElement | src/lib/quicksort.ts:87-111 | one loop round ends as `ScanRun` does and returns the new boundary |
| QuickSortEngine.QuickSortVisualizer.SwapShown | src/lib/quicksort.ts:97-106 | announce step, exchange, swap count, then result step, as `SwapRun` |
| QuickSortEngine.QuickSortVisualizer.PlacePivot | src/lib/quicksort.ts:114-121 | announce step, exchange of i + 1 and high, swap count, as `PivotRun` |
| QuickSortEngine.QuickSortVisualizer.Swap | src/lib/quicksort.ts:126-130 | the array afterwards is the old one with the two cells exchanged |
| QuickSortEngine.QuickSortVisualizer.AddStep | src/lib/quicksort.ts:132-156 | exactly one step is appended; it copies the array and the current counters; nothing else changes |
| QuickSortEngine.QuickSortVisualizer.constructor | src/lib/quicksort.ts:23-25 | a new engine has an empty log and both counters at zero |
| QuickSortRuns.SortRun | src/lib/quicksort.ts:27-50 | a whole run on a copy of the input: the opening step, quicksort of [0, n - 1], the closing step; the final array has the input's length, and the last step is `completed`, shows the final array and holds the reported totals (sortedness, permutation and the rest of the log are in the lemmas below) |
| QuickSortRuns.Begin | src/lib/quicksort.ts:28-36 | a run starts from the input with zero counters and a log holding only the opening `Start` step, which shows the input |
| QuickSortRuns.QuickSortRun | src/lib/quicksort.ts:52-81 | a range of fewer than two elements is left alone; a longer one is announced, partitioned, marked placed and its two parts sorted; the array keeps its length (the sorting itself is `QuickSortRunSorts`) |
| QuickSortRuns.SortParts | src/lib/quicksort.ts:66-79 | the left part is announced and sorted, then the right part; the array keeps its length |
| QuickSortRuns.AnnounceLeft | src/lib/quicksort.ts:67-70 | only the log changes: the array and both counters are as before |
| QuickSortRuns.AnnounceRight | src/lib/quicksort.ts:74-77 | only the log changes: the array and both counters are as before |
| QuickSortRuns.PartitionRun | src/lib/quicksort.ts:83-124 | the loop from boundary low - 1, then the pivot exchange only when the boundary is not already high - 1; the returned index lies in [low, high] and the array keeps its length (the Lomuto postcondition is `PartitionRunSplits`) |
| QuickSortRuns.LoopRun | src/lib/quicksort.ts:84-112 | one round for each index from j to high - 1; the final boundary is at least the starting one and below high |
| QuickSortRuns.ScanRun | src/lib/quicksort.ts:87-111 | one round moves the boundary up by at most one and keeps the array's length (the rest is `ScanRunFacts`) |
| QuickSortRuns.CompareRun | src/lib/quicksort.ts:88-92 | the comparison is counted: one more comparison, the same swaps and the same array |
| QuickSortRuns.SwapRun | src/lib/quicksort.ts:97-106 | the array afterwards is the old one with cells x and y exchanged, one more swap is counted and the comparisons are unchanged |
| QuickSortRuns.PivotRun | src/lib/quicksort.ts:114-121 | the array afterwards is the old one with cells i + 1 and high exchanged, one more swap is counted and the comparisons are unchanged |
| QuickSortRuns.Logged | src/lib/quicksort.ts:143-155 | recording a step changes neither the array nor the counters |
| Ordering.Exchange | src/lib/quicksort.ts:126-130 | the two cells trade values, every other cell keeps its value, and the elements are a permutation of the old ones |
| Ordering.LomutoAdvance | src/lib/quicksort.ts:94-111 | one loop round keeps the invariant: elements up to i are at most the pivot, those from i + 1 to j - 1 are larger |
| Ordering.SortedAfterParts | src/lib/quicksort.ts:66-79 | a range partitioned at p whose two parts are then sorted in place ends sorted and a permutation of itself |
| QuickSortRuns.ScanRunFacts | src/lib/quicksort.ts:87-111 | a round adds exactly one comparison; i advances exactly when arr[j] <= pivot; it swaps and counts one swap exactly when i advances to an index other than j; it moves only cells i and j and keeps the loop invariant |
| QuickSortRuns.LoopRunRearranges | src/lib/quicksort.ts:87-112 | the loop only permutes the elements of [low, high) |
| QuickSortRuns.LoopRunCounts | src/lib/quicksort.ts:87-112 | the loop adds one comparison per index scanned and at most one swap per advance of the boundary |
| QuickSortRuns.LoopRunLomuto | src/lib/quicksort.ts:87-112 | at the end of the loop everything up to the boundary is at most the pivot and everything after it up to high - 1 is larger |
| QuickSortRuns.LoopRunInOrder | src/lib/quicksort.ts:94-110 | when every scanned element is at most the pivot, the boundary ends at high - 1 and no element moves and no swap is counted |
| QuickSortRuns.PartitionRunSplits | src/lib/quicksort.ts:83-124 | the returned p lies in [low, high]; the new arr[p] is the old pivot arr[high]; everything in [low, p) is at most it and everything in (p, high] is larger; only [low, high] is permuted |
| QuickSortRuns.PartitionRunCounts | src/lib/quicksort.ts:87-121 | a partition of [low, high] adds exactly high - low comparisons and at most high - low swaps; when every element is at most the pivot nothing moves, p = high and no swap is made |
| QuickSortRuns.QuickSortRunSorts | src/lib/quicksort.ts:52-81 | quicksort of [low, high] leaves that range sorted, permutes only it, and leaves every index outside it unchanged |
| QuickSortRuns.SortPartsSorts | src/lib/quicksort.ts:66-79 | sorting the two parts around a placed pivot sorts the whole range in place |
| QuickSortRuns.QuickSortRunInOrder | src/lib/quicksort.ts:52-81 | on a range already in order nothing moves, no swap is made and n(n-1)/2 comparisons (`Pairs`) are made for n elements |
| QuickSortRuns.SortPartsInOrder | src/lib/quicksort.ts:66-79 | with the pivot last and the left part in order, the recursion moves nothing and adds only the left part's comparisons |
| QuickSortRuns.SortRunSorts | src/lib/quicksort.ts:27-50 | `finalArray` is in ascending order, has the input's length and is a permutation of the input |
| QuickSortRuns.SortRunInOrder | src/lib/quicksort.ts:27-50 | an input already in order comes back unchanged with no swap and exactly n(n-1)/2 comparisons |
| QuickSortRuns.SortRunShort | src/lib/quicksort.ts:27-53 | an input of length 0 or 1 gives exactly two steps, zero comparisons, zero swaps and the input as `finalArray` |
| SortTrace.PairsClosedForm | src/lib/quicksort.ts:87-88 | the comparison count on sorted input, `Pairs(n)`, equals n(n-1)/2 |
| SortTrace.OngoingAppend | src/lib/quicksort.ts:143-155 | appending a well-shaped, non-terminal step keeps every step well shaped and non-terminal |
| SortTrace.Closed | src/lib/quicksort.ts:41-42 | closing the log with a terminal step leaves exactly one terminal step, the last |
| SortTrace.TalliedAppend | src/lib/quicksort.ts:143-155 | a step that carries the current counters keeps the log tallied and moves the counters past it |
| SortTrace.TalliedCounts | src/lib/quicksort.ts:143-155 | in a tallied log, the comparison counter equals the number of comparison steps and the swap counter equals the number of swap announcements |
| SortTrace.TalliedBounded | src/lib/quicksort.ts:153-154 | no step of a tallied log holds larger counters than the final ones |
| SortTrace.TalliedPrefix | src/lib/quicksort.ts:143-155 | every prefix of a tallied log is tallied |
| SortTrace.CountersMonotone | src/lib/quicksort.ts:153-154 | along a tallied log neither counter decreases from any step to any later one |
| SortTrace.StepAppended | src/lib/quicksort.ts:143-155 | appending a well-shaped, non-terminal step with the current counters keeps the log ongoing and tallied |
| RunLog.CompareLive | src/lib/quicksort.ts:88-92 | the comparison step highlights exactly [j, high], names high as pivot index, shows arr[j], the pivot and whether arr[j] <= pivot, and includes its own comparison in its counter; the log stays well formed |
| RunLog.SwapLive | src/lib/quicksort.ts:97-106 | the swap announcement highlights [i, j] with arr[j] <= pivot < arr[i] and does not yet count its swap; the result step shows the exchanged values; the log stays well formed |
| RunLog.NoSwapNeededLive | src/lib/quicksort.ts:107-110 | the no-swap step shows a value at most the pivot; the log stays well formed |
| RunLog.ScanLive | src/lib/quicksort.ts:87-111 | a loop round keeps the log well formed and only appends to it |
| RunLog.LoopLive | src/lib/quicksort.ts:87-112 | the whole loop keeps the log well formed and only appends to it |
| RunLog.PivotPlacementLive | src/lib/quicksort.ts:114-121 | the pivot-placement step highlights [i + 1, high], shows a larger element at i + 1 and does not yet count its swap; the log stays well formed |
| RunLog.PartitionLive | src/lib/quicksort.ts:83-124 | a partition keeps the log well formed and only appends to it |
| RunLog.SortingSubarrayLive | src/lib/quicksort.ts:55-57 | the range step names high as pivot index and shows the pivot value; the log stays well formed |
| RunLog.PartitionCompleteLive | src/lib/quicksort.ts:63-64 | the one kind of step marked `partitioned` names the returned index as pivot index, and its snapshot is partitioned there |
| RunLog.LeftSubarrayLive | src/lib/quicksort.ts:67-70 | the left-part step names a range of two or more elements; the log stays well formed |
| RunLog.RightSubarrayLive | src/lib/quicksort.ts:74-77 | the right-part step names a range of two or more elements; the log stays well formed |
| RunLog.QuickSortLive | src/lib/quicksort.ts:52-81 | quicksort of any range keeps the log well formed and only appends to it |
| RunLog.LeftPartLive | src/lib/quicksort.ts:67-72 | announcing and sorting the left part keeps the log well formed |
| RunLog.RightPartLive | src/lib/quicksort.ts:74-79 | announcing and sorting the right part keeps the log well formed |
| RunLog.SortPartsLive | src/lib/quicksort.ts:66-79 | the recursion on both parts keeps the log well formed |
| RunLog.BeginLive | src/lib/quicksort.ts:34-36 | the opening step alone is a well-formed log |
| RunLog.SortedLive | src/lib/quicksort.ts:34-38 | after the whole sort the opening step is still first and the log is well formed |
| RunLog.SortRunEnds | src/lib/quicksort.ts:34-49 | the log has at least two steps; the first shows the input, the full range, no pivot and zero counters; the last is `completed` and shows `finalArray` and the totals |
| RunLog.SortRunSteps | src/lib/quicksort.ts:41-42 | every step is well shaped, and exactly one step is `completed`: the last |
| RunLog.SortRunTallied | src/lib/quicksort.ts:153-154 | every step holds the counters of its moment; the totals equal the number of comparison steps and of swap announcements |
| RunLog.SortRunMonotone | src/lib/quicksort.ts:143-155 | from any step to any later one neither counter decreases |

## Left out

- `generateRandomArray` and `parseArrayInput` (src/lib/quicksort.ts:160-182) are not part of this model:
  - the first depends on `Math.random`;
  - the second is a thin wrapper over JavaScript's `parseInt` and exceptions.
- The React components and the page (`src/components/*`, `src/app/*`) are not part of this model: they are presentation only.
- Explanation strings: their text is not modelled. A step's `kind` (`StepKind`) records which message it is and the values the message prints.
- Numbers are JavaScript floating-point numbers. The model uses unbounded integers for elements, indices and counters. NaN, infinities and rounding are out of scope.
- Field names: the step field `array` is called `snapshot`. The class's `array` copy in `sort` is called `work`.
- Aliasing: the source returns the engine's own `steps` array object inside the result. The model returns it as a value.
- `PartitionRunCounts` bounds the swaps of one partition by high - low rather than stating them exactly. The exact count per round is in `ScanRunFacts`, and the final pivot swap is in `PivotRun`.
- The pre-swap announcement step carries the indices [i, j] in `swapping`, as the code does.
