/** The quicksort engine as functions on values. A Run is everything one
    sorting run works on: the working array, the log and the two counters.
    Each operation of the engine is a function from the run before it to the
    run after it, and the engine's methods are proved to follow these
    functions. The functions themselves promise what a single step does to
    the array and the counters, and the bounds their callers need; what whole
    loops and recursions do to them is proved here in lemmas, and what the
    engine promises about the log in RunLog. */
module QuickSortRuns {
  import opened SortTrace
  import opened Ordering

  /** The working array, the log and the counters of a run. */
  datatype Run = Run(arr: seq<int>, log: seq<SortStep>, comparisons: nat, swaps: nat)

  /** The run with one more step in its log, which copies the array and the
      counters as they stand. */
  function Logged(r: Run, pivotIndex: int, left: int, right: int, comparing: seq<int>, swapping: seq<int>,
                  partitioned: bool, completed: bool, kind: StepKind): (res: Run)
    ensures res.arr == r.arr && res.comparisons == r.comparisons && res.swaps == r.swaps
  {
    r.(log := r.log + [SortStep(r.arr, pivotIndex, left, right, comparing, swapping,
                                partitioned, completed, kind, r.comparisons, r.swaps)])
  }

  /** The comparison of the element at j with the pivot at high in the
      partition loop of [low, high]: count it, then show it. */
  function CompareRun(r: Run, low: int, high: int, j: int): (res: Run)
    requires 0 <= j < |r.arr| && 0 <= high < |r.arr|
    ensures res.arr == r.arr && res.comparisons == r.comparisons + 1 && res.swaps == r.swaps
  {
    Logged(r.(comparisons := r.comparisons + 1), high, low, high, [j, high], [], false, false,
           Comparing(r.arr[j], r.arr[high], r.arr[j] <= r.arr[high]))
  }

  /** The exchange inside the partition loop of [low, high]: announce that
      the element at y, at most the pivot, and the element at x, larger than
      it, are exchanged; exchange them, count the swap and show the result. */
  function SwapRun(r: Run, low: int, high: int, x: int, y: int): (res: Run)
    requires 0 <= low <= x < y < high < |r.arr|
    ensures res.arr == Exchange(r.arr, x, y)
    ensures res.comparisons == r.comparisons && res.swaps == r.swaps + 1
  {
    var announced := Logged(r, high, low, high, [], [x, y], false, false,
                            SwapAnnounced(r.arr[high], r.arr[x], r.arr[y]));
    var swapped := announced.(arr := Exchange(r.arr, x, y), swaps := r.swaps + 1);
    Logged(swapped, high, low, high, [], [], false, false, SwapDone(swapped.arr[x], swapped.arr[y]))
  }

  /** One round of the partition loop of [low, high] for index j, with the
      boundary at i: the comparison is counted and shown; an element at most
      the pivot moves the boundary up and, unless it already sits there, is
      swapped onto it. Gives the run afterwards and the new boundary. */
  function ScanRun(r: Run, low: int, high: int, i: int, j: int): (res: (Run, int))
    requires 0 <= low <= j < high < |r.arr| && low - 1 <= i < j
    ensures (res.1 == i || res.1 == i + 1) && |res.0.arr| == |r.arr|
  {
    var pivot := r.arr[high];
    var shown := CompareRun(r, low, high, j);
    if r.arr[j] <= pivot then
      if i + 1 != j then
        (SwapRun(shown, low, high, i + 1, j), i + 1)
      else
        (Logged(shown, high, low, high, [], [], false, false, NoSwapNeeded(r.arr[j], pivot)), i + 1)
    else
      (shown, i)
  }

  /** A round of the partition loop keeps the loop's picture one index
      further, counts one comparison, and moves elements and counts a swap
      exactly when the boundary moves up to an index other than j. */
  lemma ScanRunFacts(r: Run, low: int, high: int, i: int, j: int)
    requires 0 <= low <= j < high < |r.arr| && low - 1 <= i < j
    ensures var res := ScanRun(r, low, high, i, j);
            res.1 == (if r.arr[j] <= r.arr[high] then i + 1 else i) &&
            multiset(res.0.arr) == multiset(r.arr) &&
            (forall k :: 0 <= k < |r.arr| && k != res.1 && k != j ==> res.0.arr[k] == r.arr[k]) &&
            (res.1 == i || res.1 == j ==> res.0.arr == r.arr) &&
            res.0.comparisons == r.comparisons + 1 &&
            res.0.swaps == r.swaps + (if res.1 == i || res.1 == j then 0 else 1) &&
            (Lomuto(r.arr, low, i, j, r.arr[high]) ==> Lomuto(res.0.arr, low, res.1, j + 1, r.arr[high]))
  {
    LomutoAdvance(r.arr, low, i, j, r.arr[high]);
  }

  /** The partition loop from index j to high - 1, with the boundary at i. */
  function LoopRun(r: Run, low: int, high: int, i: int, j: int): (res: (Run, int))
    requires 0 <= low <= j <= high < |r.arr| && low - 1 <= i < j
    ensures i <= res.1 < high && |res.0.arr| == |r.arr|
    decreases high - j
  {
    if j == high then (r, i)
    else
      var scanned := ScanRun(r, low, high, i, j);
      LoopRun(scanned.0, low, high, scanned.1, j + 1)
  }

  /** The partition loop only rearranges the elements of [low, high). */
  lemma {:induction false} LoopRunRearranges(r: Run, low: int, high: int, i: int, j: int)
    requires 0 <= low <= j <= high < |r.arr| && low - 1 <= i < j
    ensures multiset(LoopRun(r, low, high, i, j).0.arr) == multiset(r.arr)
    ensures forall k :: 0 <= k < |r.arr| && !(low <= k < high) ==> LoopRun(r, low, high, i, j).0.arr[k] == r.arr[k]
    decreases high - j
  {
    if j < high {
      var scanned := ScanRun(r, low, high, i, j);
      ScanRunFacts(r, low, high, i, j);
      LoopRunRearranges(scanned.0, low, high, scanned.1, j + 1);
    }
  }

  /** The partition loop counts one comparison per index and at most one
      swap per step of the boundary. */
  lemma {:induction false} LoopRunCounts(r: Run, low: int, high: int, i: int, j: int)
    requires 0 <= low <= j <= high < |r.arr| && low - 1 <= i < j
    ensures LoopRun(r, low, high, i, j).0.comparisons == r.comparisons + (high - j)
    ensures LoopRun(r, low, high, i, j).0.swaps <= r.swaps + (LoopRun(r, low, high, i, j).1 - i)
    decreases high - j
  {
    if j < high {
      var scanned := ScanRun(r, low, high, i, j);
      ScanRunFacts(r, low, high, i, j);
      LoopRunCounts(scanned.0, low, high, scanned.1, j + 1);
    }
  }

  /** The partition loop ends with the elements at most the pivot up to the
      boundary and the larger ones after it. */
  lemma {:induction false} LoopRunLomuto(r: Run, low: int, high: int, i: int, j: int)
    requires 0 <= low <= j <= high < |r.arr| && low - 1 <= i < j
    requires Lomuto(r.arr, low, i, j, r.arr[high])
    ensures Lomuto(LoopRun(r, low, high, i, j).0.arr, low, LoopRun(r, low, high, i, j).1, high, r.arr[high])
    decreases high - j
  {
    if j < high {
      var scanned := ScanRun(r, low, high, i, j);
      ScanRunFacts(r, low, high, i, j);
      LoopRunLomuto(scanned.0, low, high, scanned.1, j + 1);
    }
  }

  /** When every element still to be scanned is at most the pivot and none
      has been passed over, the loop moves nothing and swaps nothing. */
  lemma {:induction false} LoopRunInOrder(r: Run, low: int, high: int, i: int, j: int)
    requires 0 <= low <= j <= high < |r.arr| && i == j - 1
    requires forall k :: j <= k < high ==> r.arr[k] <= r.arr[high]
    ensures LoopRun(r, low, high, i, j).1 == high - 1
    ensures LoopRun(r, low, high, i, j).0.arr == r.arr && LoopRun(r, low, high, i, j).0.swaps == r.swaps
    decreases high - j
  {
    if j < high {
      var scanned := ScanRun(r, low, high, i, j);
      ScanRunFacts(r, low, high, i, j);
      LoopRunInOrder(scanned.0, low, high, scanned.1, j + 1);
    }
  }

  /** Placing the pivot after the partition loop of [low, high] left the
      boundary at i: announce that the pivot and the first element after the
      boundary are exchanged, exchange them and count the swap. */
  function PivotRun(r: Run, low: int, high: int, i: int): (res: Run)
    requires 0 <= low <= i + 1 < high < |r.arr|
    ensures res.arr == Exchange(r.arr, i + 1, high)
    ensures res.comparisons == r.comparisons && res.swaps == r.swaps + 1
  {
    var placing := Logged(r, high, low, high, [], [i + 1, high], false, false, PivotPlacement(r.arr[high], i + 1));
    placing.(arr := Exchange(r.arr, i + 1, high), swaps := r.swaps + 1)
  }

  /** Lomuto partition of [low, high] around the element at high: the loop,
      then the pivot moved next to the boundary unless it already is there.
      Gives the run afterwards and the pivot's final index. */
  function PartitionRun(r: Run, low: int, high: int): (res: (Run, int))
    requires 0 <= low < high < |r.arr|
    ensures low <= res.1 <= high && |res.0.arr| == |r.arr|
  {
    var loop := LoopRun(r, low, high, low - 1, low);
    var i := loop.1;
    if i + 1 != high then (PivotRun(loop.0, low, high, i), i + 1) else (loop.0, i + 1)
  }

  /** Partitioning leaves the pivot at the returned index with the elements
      at most it before it and the larger ones after it, and rearranges only
      [low, high]. */
  lemma PartitionRunSplits(r: Run, low: int, high: int)
    requires 0 <= low < high < |r.arr|
    ensures Rearranged(PartitionRun(r, low, high).0.arr, r.arr, low, high)
    ensures PartitionRun(r, low, high).0.arr[PartitionRun(r, low, high).1] == r.arr[high]
    ensures PartitionedAt(PartitionRun(r, low, high).0.arr, low, PartitionRun(r, low, high).1, high)
  {
    LoopRunRearranges(r, low, high, low - 1, low);
    LoopRunLomuto(r, low, high, low - 1, low);
  }

  /** Partitioning makes high - low comparisons and at most high - low
      swaps; when every element is at most the pivot nothing moves, the pivot
      stays last and no swap is made. */
  lemma PartitionRunCounts(r: Run, low: int, high: int)
    requires 0 <= low < high < |r.arr|
    ensures PartitionRun(r, low, high).0.comparisons == r.comparisons + (high - low)
    ensures PartitionRun(r, low, high).0.swaps <= r.swaps + (high - low)
    ensures (forall k :: low <= k < high ==> r.arr[k] <= r.arr[high]) ==>
              PartitionRun(r, low, high).1 == high && PartitionRun(r, low, high).0.arr == r.arr &&
              PartitionRun(r, low, high).0.swaps == r.swaps
  {
    LoopRunCounts(r, low, high, low - 1, low);
    if forall k :: low <= k < high ==> r.arr[k] <= r.arr[high] {
      LoopRunInOrder(r, low, high, low - 1, low);
    }
  }

  /** Quicksort of the inclusive range [low, high]: announce the range,
      partition it, mark the pivot placed, then sort the two parts. */
  function QuickSortRun(r: Run, low: int, high: int): (res: Run)
    requires 0 <= low <= high + 1 <= |r.arr|
    ensures |res.arr| == |r.arr|
    decreases high - low, 1
  {
    if low < high then
      var announced := Logged(r, high, low, high, [], [], false, false, SortingSubarray(r.arr[high]));
      var partition := PartitionRun(announced, low, high);
      var parted, p := partition.0, partition.1;
      var placed := Logged(parted, p, low, high, [], [], true, false, PartitionComplete(parted.arr[p], p));
      SortParts(placed, low, p, high)
    else
      r
  }

  /** Announces the part before the pivot p when it holds two or more elements. */
  function AnnounceLeft(r: Run, low: int, p: int): (res: Run)
    ensures res.arr == r.arr && res.comparisons == r.comparisons && res.swaps == r.swaps
  {
    if p - 1 > low then Logged(r, -1, low, p - 1, [], [], false, false, LeftSubarray(low, p - 1)) else r
  }

  /** Announces the part after the pivot p when it holds two or more elements. */
  function AnnounceRight(r: Run, p: int, high: int): (res: Run)
    ensures res.arr == r.arr && res.comparisons == r.comparisons && res.swaps == r.swaps
  {
    if p + 1 < high then Logged(r, -1, p + 1, high, [], [], false, false, RightSubarray(p + 1, high)) else r
  }

  /** The second half of quicksort on [low, high] once the pivot has reached
      p: announce and sort the part before p, then announce and sort the part
      after it, announcing only parts of two or more elements. */
  function SortParts(r: Run, low: int, p: int, high: int): (res: Run)
    requires 0 <= low <= p <= high < |r.arr|
    ensures |res.arr| == |r.arr|
    decreases high - low, 0
  {
    var leftDone := QuickSortRun(AnnounceLeft(r, low, p), low, p - 1);
    QuickSortRun(AnnounceRight(leftDone, p, high), p + 1, high)
  }

  /** Quicksort sorts its range in place and changes nothing outside it. */
  lemma {:induction false} QuickSortRunSorts(r: Run, low: int, high: int)
    requires 0 <= low <= high + 1 <= |r.arr|
    ensures SortsRange(QuickSortRun(r, low, high).arr, r.arr, low, high)
    decreases high - low, 1
  {
    if low < high {
      var announced := Logged(r, high, low, high, [], [], false, false, SortingSubarray(r.arr[high]));
      PartitionRunSplits(announced, low, high);
      var partition := PartitionRun(announced, low, high);
      var parted, p := partition.0, partition.1;
      SortPartsSorts(Logged(parted, p, low, high, [], [], true, false, PartitionComplete(parted.arr[p], p)), low, p, high);
    }
  }

  /** Sorting the two parts around a pivot that is in its final place sorts
      the range. */
  lemma {:induction false} SortPartsSorts(r: Run, low: int, p: int, high: int)
    requires PartitionedAt(r.arr, low, p, high)
    ensures SortsRange(SortParts(r, low, p, high).arr, r.arr, low, high)
    decreases high - low, 0
  {
    var left := AnnounceLeft(r, low, p);
    QuickSortRunSorts(left, low, p - 1);
    var leftDone := QuickSortRun(left, low, p - 1);
    QuickSortRunSorts(AnnounceRight(leftDone, p, high), p + 1, high);
    SortedAfterParts(r.arr, leftDone.arr, SortParts(r, low, p, high).arr, low, p, high);
  }

  /** On a range already in order quicksort moves nothing and makes no swap,
      and every partition compares all other elements of its range with the
      pivot, which always stays last. */
  lemma {:induction false} QuickSortRunInOrder(r: Run, low: int, high: int)
    requires 0 <= low <= high + 1 <= |r.arr|
    requires SortedBetween(r.arr, low, high + 1)
    ensures QuickSortRun(r, low, high).arr == r.arr
    ensures QuickSortRun(r, low, high).swaps == r.swaps
    ensures QuickSortRun(r, low, high).comparisons == r.comparisons + Pairs(high - low + 1)
    decreases high - low, 1
  {
    if low < high {
      var announced := Logged(r, high, low, high, [], [], false, false, SortingSubarray(r.arr[high]));
      SortedWithoutLast(r.arr, low, high);
      PartitionRunCounts(announced, low, high);
      var parted := PartitionRun(announced, low, high).0;
      SortPartsInOrder(Logged(parted, high, low, high, [], [], true, false, PartitionComplete(parted.arr[high], high)), low, high);
    }
  }

  /** With the pivot last and the part before it in order, sorting the parts
      moves nothing, makes no swap and costs all pairs of comparisons of the
      part before the pivot. */
  lemma {:induction false} SortPartsInOrder(r: Run, low: int, high: int)
    requires 0 <= low <= high < |r.arr|
    requires SortedBetween(r.arr, low, high)
    ensures SortParts(r, low, high, high).arr == r.arr
    ensures SortParts(r, low, high, high).swaps == r.swaps
    ensures SortParts(r, low, high, high).comparisons == r.comparisons + Pairs(high - low)
    decreases high - low, 0
  {
    QuickSortRunInOrder(AnnounceLeft(r, low, high), low, high - 1);
  }

  /** The run a sort starts from: a copy of the input, an empty log and
      zero counters, with the opening step recorded. */
  function Begin(input: seq<int>): (res: Run)
    ensures res.arr == input && res.comparisons == 0 && res.swaps == 0
    ensures |res.log| == 1 && res.log[0].snapshot == input && res.log[0].kind == Start
  {
    Logged(Run(input, [], 0, 0), -1, 0, |input| - 1, [], [], false, false, Start)
  }

  /** A whole run on a copy of input: the opening step, quicksort of the
      whole array and the closing step, reported with the totals. */
  function SortRun(input: seq<int>): (res: QuickSortResult)
    ensures |res.finalArray| == |input| && |res.steps| >= 1
    ensures res.steps[|res.steps| - 1].completed && res.steps[|res.steps| - 1].snapshot == res.finalArray
    ensures res.steps[|res.steps| - 1].comparisons == res.totalComparisons
    ensures res.steps[|res.steps| - 1].swaps == res.totalSwaps
  {
    var sorted := QuickSortRun(Begin(input), 0, |input| - 1);
    var closed := Logged(sorted, -1, -1, -1, [], [], false, true, Completed);
    QuickSortResult(closed.log, closed.comparisons, closed.swaps, closed.arr)
  }

  /** The final array of a sort is the input in ascending order. */
  lemma SortRunSorts(input: seq<int>)
    ensures var res := SortRun(input);
            |res.finalArray| == |input| && multiset(res.finalArray) == multiset(input) &&
            SortedBetween(res.finalArray, 0, |input|)
  {
    QuickSortRunSorts(Begin(input), 0, |input| - 1);
  }

  /** An input already in order is given back unchanged, after all its
      pairs of comparisons, n(n-1)/2 for n elements, and no swap. */
  lemma SortRunInOrder(input: seq<int>)
    requires SortedBetween(input, 0, |input|)
    ensures SortRun(input).finalArray == input
    ensures SortRun(input).totalSwaps == 0
    ensures SortRun(input).totalComparisons == Pairs(|input|) == |input| * (|input| - 1) / 2
  {
    var res := SortRun(input);
    assert res.finalArray == input && res.totalSwaps == 0 && res.totalComparisons == Pairs(|input|) by {
      QuickSortRunInOrder(Begin(input), 0, |input| - 1);
    }
    PairsClosedForm(|input|);
  }

  /** An input of at most one element gives only the opening and the
      closing step, and no comparison or swap. */
  lemma SortRunShort(input: seq<int>)
    requires |input| <= 1
    ensures var res := SortRun(input);
            |res.steps| == 2 && res.totalComparisons == 0 && res.totalSwaps == 0 && res.finalArray == input
  {
  }
}
