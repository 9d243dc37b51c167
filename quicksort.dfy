/** The quicksort engine: a Lomuto-partition quicksort over a copy of the
    input that records a step in its log at every decision it makes. Each
    method is proved to change the engine's fields and the working array as
    its counterpart in QuickSortRuns describes (QuickSortRange as
    QuickSortRun, Partition as PartitionRun, AddStep as Logged, and so on),
    so the sorting, counting and log properties proved about those functions
    in QuickSortRuns and RunLog hold of the engine. */
module QuickSortEngine {
  import opened Ordering
  import opened SortTrace
  import opened QuickSortRuns

  class QuickSortVisualizer {
    /** The log of the current run. */
    var steps: seq<SortStep>
    /** Comparisons made so far in the current run. */
    var comparisons: nat
    /** Swaps made so far in the current run. */
    var swaps: nat

    constructor ()
      ensures steps == [] && comparisons == 0 && swaps == 0
    {
      steps := [];
      comparisons := 0;
      swaps := 0;
    }

    /** The engine's run over the working array a. */
    ghost function State(a: array<int>): Run
      reads this, a
    {
      Run(a[..], steps, comparisons, swaps)
    }

    /** Resets the engine and runs it on a copy of arr, which itself is left
        as it was; reports the log, the totals and the sorted copy, which the
        engine's fields also hold afterwards. */
    method Sort(arr: array<int>) returns (r: QuickSortResult)
      modifies this
      ensures arr[..] == old(arr[..])
      ensures r == SortRun(arr[..])
      ensures steps == r.steps && comparisons == r.totalComparisons && swaps == r.totalSwaps
    {
      steps := [];
      comparisons := 0;
      swaps := 0;

      var work := new int[arr.Length](k requires 0 <= k < arr.Length reads arr => arr[k]);
      assert work[..] == arr[..];

      AddStep(work, -1, 0, work.Length - 1, [], [], false, false, Start);
      QuickSortRange(work, 0, work.Length - 1);
      AddStep(work, -1, -1, -1, [], [], false, true, Completed);

      r := QuickSortResult(steps, comparisons, swaps, work[..]);
    }

    /** Sorts the inclusive range [low, high] of a in place, recording its steps. */
    method QuickSortRange(a: array<int>, low: int, high: int)
      requires 0 <= low <= high + 1 <= a.Length
      modifies this, a
      ensures State(a) == QuickSortRun(old(State(a)), low, high)
      decreases high - low, 1
    {
      if low < high {
        var pivotIndex := high;
        AddStep(a, pivotIndex, low, high, [], [], false, false, SortingSubarray(a[pivotIndex]));
        var partitionIndex := Partition(a, low, high);
        AddStep(a, partitionIndex, low, high, [], [], true, false,
                PartitionComplete(a[partitionIndex], partitionIndex));
        SortPartsAround(a, low, partitionIndex, high);
      }
    }

    /** Sorts the parts of [low, high] before and after the pivot's final
        index p, announcing each part of two or more elements first. */
    method SortPartsAround(a: array<int>, low: int, p: int, high: int)
      requires 0 <= low <= p <= high < a.Length
      modifies this, a
      ensures State(a) == SortParts(old(State(a)), low, p, high)
      decreases high - low, 0
    {
      AnnounceLeftPart(a, low, p);
      QuickSortRange(a, low, p - 1);
      AnnounceRightPart(a, p, high);
      QuickSortRange(a, p + 1, high);
    }

    /** Announces the part before the pivot's index p when it has two or more elements. */
    method AnnounceLeftPart(a: array<int>, low: int, p: int)
      modifies this`steps
      ensures State(a) == AnnounceLeft(old(State(a)), low, p)
    {
      if p - 1 > low {
        AddStep(a, -1, low, p - 1, [], [], false, false, LeftSubarray(low, p - 1));
      }
    }

    /** Announces the part after the pivot's index p when it has two or more elements. */
    method AnnounceRightPart(a: array<int>, p: int, high: int)
      modifies this`steps
      ensures State(a) == AnnounceRight(old(State(a)), p, high)
    {
      if p + 1 < high {
        AddStep(a, -1, p + 1, high, [], [], false, false, RightSubarray(p + 1, high));
      }
    }

    /** Lomuto partition of [low, high] around the value at high, recording
        every comparison and exchange; returns the pivot's final index. */
    method Partition(a: array<int>, low: int, high: int) returns (p: int)
      requires 0 <= low < high < a.Length
      modifies this, a
      ensures (State(a), p) == PartitionRun(old(State(a)), low, high)
    {
      var i := ScanRange(a, low, high);
      if i + 1 != high {
        PlacePivot(a, low, high, i);
      }
      p := i + 1;
    }

    /** The loop of the partition of [low, high]: one round for each index
        from low to high - 1, starting with the boundary just before low.
        Returns the final boundary. */
    method ScanRange(a: array<int>, low: int, high: int) returns (i: int)
      requires 0 <= low < high < a.Length
      modifies this, a
      ensures (State(a), i) == LoopRun(old(State(a)), low, high, low - 1, low)
    {
      ghost var goal := LoopRun(State(a), low, high, low - 1, low);
      i := low - 1;
      var j := low;
      while j < high
        invariant low <= j <= high && low - 1 <= i < j
        invariant LoopRun(State(a), low, high, i, j) == goal
      {
        i := ScanElement(a, low, high, i, j);
        j := j + 1;
      }
    }

    /** One round of the partition loop for index j, with the boundary at i:
        counts and shows the comparison of a[j] with the pivot at high; an
        element at most the pivot moves the boundary up and, unless it
        already sits there, is swapped onto it. Returns the new boundary. */
    method ScanElement(a: array<int>, low: int, high: int, i: int, j: int) returns (next: int)
      requires 0 <= low <= j < high < a.Length && low - 1 <= i < j
      modifies this, a
      ensures (State(a), next) == ScanRun(old(State(a)), low, high, i, j)
    {
      var pivot := a[high];
      comparisons := comparisons + 1;
      AddStep(a, high, low, high, [j, high], [], false, false, Comparing(a[j], pivot, a[j] <= pivot));
      next := i;
      if a[j] <= pivot {
        next := next + 1;
        if next != j {
          SwapShown(a, low, high, next, j);
        } else {
          AddStep(a, high, low, high, [], [], false, false, NoSwapNeeded(a[j], pivot));
        }
      }
    }

    /** The exchange inside the partition loop of [low, high]: shows the
        announcement, exchanges a[x] and a[y], counts the swap and shows the
        result. */
    method SwapShown(a: array<int>, low: int, high: int, x: int, y: int)
      requires 0 <= low <= x < y < high < a.Length
      modifies this, a
      ensures State(a) == SwapRun(old(State(a)), low, high, x, y)
    {
      var pivot := a[high];
      AddStep(a, high, low, high, [], [x, y], false, false, SwapAnnounced(pivot, a[x], a[y]));
      Swap(a, x, y);
      swaps := swaps + 1;
      AddStep(a, high, low, high, [], [], false, false, SwapDone(a[x], a[y]));
    }

    /** After the partition loop of [low, high] left the boundary at i:
        shows where the pivot goes, exchanges it with the element after the
        boundary and counts the swap. */
    method PlacePivot(a: array<int>, low: int, high: int, i: int)
      requires 0 <= low <= i + 1 < high < a.Length
      modifies this, a
      ensures State(a) == PivotRun(old(State(a)), low, high, i)
    {
      var pivot := a[high];
      AddStep(a, high, low, high, [], [i + 1, high], false, false, PivotPlacement(pivot, i + 1));
      Swap(a, i + 1, high);
      swaps := swaps + 1;
    }

    /** Exchanges a[i] and a[j]. */
    method Swap(a: array<int>, i: int, j: int)
      requires 0 <= i < a.Length && 0 <= j < a.Length
      modifies a
      ensures a[..] == Exchange(old(a[..]), i, j)
    {
      var temp := a[i];
      a[i] := a[j];
      a[j] := temp;
    }

    /** Appends a step with a copy of a and of the current counters to the log. */
    method AddStep(a: array<int>, pivotIndex: int, left: int, right: int,
                   comparing: seq<int>, swapping: seq<int>,
                   partitioned: bool, completed: bool, kind: StepKind)
      modifies this`steps
      ensures State(a) == Logged(old(State(a)), pivotIndex, left, right, comparing, swapping,
                                 partitioned, completed, kind)
    {
      steps := steps + [SortStep(a[..], pivotIndex, left, right, comparing, swapping,
                                 partitioned, completed, kind, comparisons, swaps)];
    }
  }
}
