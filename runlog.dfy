/** What a run promises about its log: every step is well shaped, the
    counters each step holds are those of the moment it was recorded, the
    log opens with the input and closes with the one terminal step. */
module RunLog {
  import opened SortTrace
  import opened Ordering
  import opened QuickSortRuns

  /** The run is in progress over its array: every step of its log is well
      shaped and none is the terminal one, and the log is tallied with the
      run's counters. */
  predicate Live(r: Run)
  {
    Ongoing(r.log, |r.arr|) && Tallied(r.log) &&
    ComparisonsAfter(r.log) == r.comparisons && SwapsAfter(r.log) == r.swaps
  }

  /** The exchange inside the partition loop keeps a run in progress. */
  lemma SwapLive(r: Run, low: int, high: int, x: int, y: int)
    requires 0 <= low <= x < y < high < |r.arr|
    requires Live(r) && r.arr[y] <= r.arr[high] < r.arr[x]
    ensures r.log <= SwapRun(r, low, high, x, y).log && Live(SwapRun(r, low, high, x, y))
  {
    var n := |r.arr|;
    var announced := Logged(r, high, low, high, [], [x, y], false, false,
                            SwapAnnounced(r.arr[high], r.arr[x], r.arr[y]));
    StepAppended(r.log, announced.log[|r.log|], n);
    var swapped := announced.(arr := Exchange(r.arr, x, y), swaps := r.swaps + 1);
    var done := Logged(swapped, high, low, high, [], [], false, false, SwapDone(swapped.arr[x], swapped.arr[y]));
    StepAppended(swapped.log, done.log[|swapped.log|], n);
    assert done.log == r.log + [announced.log[|r.log|], done.log[|r.log| + 1]];
  }

  /** Counting and showing a comparison keeps a run in progress. */
  lemma CompareLive(r: Run, low: int, high: int, j: int)
    requires 0 <= low <= j < high < |r.arr| && Live(r)
    ensures r.log <= CompareRun(r, low, high, j).log && Live(CompareRun(r, low, high, j))
  {
    StepAppended(r.log, CompareRun(r, low, high, j).log[|r.log|], |r.arr|);
  }

  /** Showing that an element already sits at the boundary keeps a run in progress. */
  lemma NoSwapNeededLive(r: Run, low: int, high: int, j: int)
    requires 0 <= low <= j < high < |r.arr| && r.arr[j] <= r.arr[high] && Live(r)
    ensures var settled := Logged(r, high, low, high, [], [], false, false, NoSwapNeeded(r.arr[j], r.arr[high]));
            r.log <= settled.log && Live(settled)
  {
    StepAppended(r.log, Logged(r, high, low, high, [], [], false, false,
                               NoSwapNeeded(r.arr[j], r.arr[high])).log[|r.log|], |r.arr|);
  }

  /** A round of the partition loop keeps a run in progress. */
  lemma ScanLive(r: Run, low: int, high: int, i: int, j: int)
    requires 0 <= low <= j < high < |r.arr| && low - 1 <= i < j
    requires Live(r) && Lomuto(r.arr, low, i, j, r.arr[high])
    ensures r.log <= ScanRun(r, low, high, i, j).0.log && Live(ScanRun(r, low, high, i, j).0)
  {
    var shown := CompareRun(r, low, high, j);
    CompareLive(r, low, high, j);
    if r.arr[j] <= r.arr[high] {
      if i + 1 != j {
        SwapLive(shown, low, high, i + 1, j);
      } else {
        NoSwapNeededLive(shown, low, high, j);
      }
    }
  }

  /** The partition loop keeps a run in progress. */
  lemma {:induction false} LoopLive(r: Run, low: int, high: int, i: int, j: int)
    requires 0 <= low <= j <= high < |r.arr| && low - 1 <= i < j
    requires Live(r) && Lomuto(r.arr, low, i, j, r.arr[high])
    ensures r.log <= LoopRun(r, low, high, i, j).0.log && Live(LoopRun(r, low, high, i, j).0)
    decreases high - j
  {
    if j < high {
      var scanned := ScanRun(r, low, high, i, j);
      ScanRunFacts(r, low, high, i, j);
      ScanLive(r, low, high, i, j);
      LoopLive(scanned.0, low, high, scanned.1, j + 1);
    }
  }

  /** Announcing where the pivot goes keeps a run in progress, and so does
      the exchange that follows it, which is counted. */
  lemma PivotPlacementLive(r: Run, low: int, high: int, i: int)
    requires 0 <= low <= i + 1 < high < |r.arr| && r.arr[i + 1] > r.arr[high]
    requires Live(r)
    ensures r.log <= PivotRun(r, low, high, i).log && Live(PivotRun(r, low, high, i))
  {
    StepAppended(r.log, PivotRun(r, low, high, i).log[|r.log|], |r.arr|);
  }

  /** Partitioning keeps a run in progress. */
  lemma PartitionLive(r: Run, low: int, high: int)
    requires 0 <= low < high < |r.arr| && Live(r)
    ensures r.log <= PartitionRun(r, low, high).0.log && Live(PartitionRun(r, low, high).0)
  {
    var loop := LoopRun(r, low, high, low - 1, low);
    LoopRunLomuto(r, low, high, low - 1, low);
    LoopRunRearranges(r, low, high, low - 1, low);
    LoopLive(r, low, high, low - 1, low);
    if loop.1 + 1 != high {
      PivotPlacementLive(loop.0, low, high, loop.1);
    }
  }

  /** Announcing a range to sort keeps a run in progress. */
  lemma SortingSubarrayLive(r: Run, low: int, high: int)
    requires 0 <= low < high < |r.arr| && Live(r)
    ensures r.log <= Logged(r, high, low, high, [], [], false, false, SortingSubarray(r.arr[high])).log && Live(Logged(r, high, low, high, [], [], false, false, SortingSubarray(r.arr[high])))
  {
    StepAppended(r.log, Logged(r, high, low, high, [], [], false, false, SortingSubarray(r.arr[high])).log[|r.log|], |r.arr|);
  }

  /** Marking the pivot placed keeps a run in progress. */
  lemma PartitionCompleteLive(r: Run, low: int, p: int, high: int)
    requires PartitionedAt(r.arr, low, p, high) && Live(r)
    ensures r.log <= Logged(r, p, low, high, [], [], true, false, PartitionComplete(r.arr[p], p)).log && Live(Logged(r, p, low, high, [], [], true, false, PartitionComplete(r.arr[p], p)))
  {
    StepAppended(r.log, Logged(r, p, low, high, [], [], true, false, PartitionComplete(r.arr[p], p)).log[|r.log|], |r.arr|);
  }

  /** Announcing the part before the pivot, when it has two or more elements,
      keeps a run in progress. */
  lemma LeftSubarrayLive(r: Run, low: int, p: int)
    requires 0 <= low && p < |r.arr| && Live(r)
    ensures r.log <= AnnounceLeft(r, low, p).log && Live(AnnounceLeft(r, low, p))
  {
    if p - 1 > low {
      StepAppended(r.log, Logged(r, -1, low, p - 1, [], [], false, false, LeftSubarray(low, p - 1)).log[|r.log|], |r.arr|);
    }
  }

  /** Announcing the part after the pivot, when it has two or more elements,
      keeps a run in progress. */
  lemma RightSubarrayLive(r: Run, p: int, high: int)
    requires 0 <= p && high < |r.arr| && Live(r)
    ensures r.log <= AnnounceRight(r, p, high).log && Live(AnnounceRight(r, p, high))
  {
    if p + 1 < high {
      StepAppended(r.log, Logged(r, -1, p + 1, high, [], [], false, false, RightSubarray(p + 1, high)).log[|r.log|], |r.arr|);
    }
  }

  /** Quicksort of a range keeps a run in progress. */
  lemma {:induction false} QuickSortLive(r: Run, low: int, high: int)
    requires 0 <= low <= high + 1 <= |r.arr| && Live(r)
    ensures r.log <= QuickSortRun(r, low, high).log && Live(QuickSortRun(r, low, high))
    decreases high - low, 2
  {
    if low < high {
      var announced := Logged(r, high, low, high, [], [], false, false, SortingSubarray(r.arr[high]));
      SortingSubarrayLive(r, low, high);
      var partition := PartitionRun(announced, low, high);
      PartitionLive(announced, low, high);
      PartitionRunSplits(announced, low, high);
      var parted, p := partition.0, partition.1;
      PartitionCompleteLive(parted, low, p, high);
      SortPartsLive(Logged(parted, p, low, high, [], [], true, false, PartitionComplete(parted.arr[p], p)), low, p, high);
    }
  }

  /** Announcing and sorting the part before the pivot keeps a run in progress. */
  lemma {:induction false} LeftPartLive(r: Run, low: int, p: int)
    requires 0 <= low <= p < |r.arr| && Live(r)
    ensures r.log <= QuickSortRun(AnnounceLeft(r, low, p), low, p - 1).log && Live(QuickSortRun(AnnounceLeft(r, low, p), low, p - 1))
    decreases p - low, 0
  {
    LeftSubarrayLive(r, low, p);
    QuickSortLive(AnnounceLeft(r, low, p), low, p - 1);
  }

  /** Announcing and sorting the part after the pivot keeps a run in progress. */
  lemma {:induction false} RightPartLive(r: Run, p: int, high: int)
    requires 0 <= p <= high < |r.arr| && Live(r)
    ensures r.log <= QuickSortRun(AnnounceRight(r, p, high), p + 1, high).log && Live(QuickSortRun(AnnounceRight(r, p, high), p + 1, high))
    decreases high - p, 0
  {
    RightSubarrayLive(r, p, high);
    QuickSortLive(AnnounceRight(r, p, high), p + 1, high);
  }

  /** Sorting the two parts keeps a run in progress. */
  lemma {:induction false} SortPartsLive(r: Run, low: int, p: int, high: int)
    requires 0 <= low <= p <= high < |r.arr| && Live(r)
    ensures r.log <= SortParts(r, low, p, high).log && Live(SortParts(r, low, p, high))
    decreases high - low, 1
  {
    LeftPartLive(r, low, p);
    RightPartLive(QuickSortRun(AnnounceLeft(r, low, p), low, p - 1), p, high);
  }

  /** The opening step starts a run in progress. */
  lemma BeginLive(input: seq<int>)
    ensures Live(Begin(input))
  {
    StepAppended([], Begin(input).log[0], |input|);
  }

  /** Quicksort of the whole copy keeps the opening step at the head of the
      log and the run in progress. */
  lemma SortedLive(input: seq<int>)
    ensures Begin(input).log <= QuickSortRun(Begin(input), 0, |input| - 1).log
    ensures Live(QuickSortRun(Begin(input), 0, |input| - 1))
  {
    BeginLive(input);
    QuickSortLive(Begin(input), 0, |input| - 1);
  }

  /** The log of a sort opens with the step that shows the input and zero
      counters, and closes with the terminal step, which shows the final
      array and the totals. */
  lemma SortRunEnds(input: seq<int>)
    ensures var res := SortRun(input);
            |res.steps| >= 2 &&
            res.steps[0] == SortStep(input, -1, 0, |input| - 1, [], [], false, false, Start, 0, 0) &&
            res.steps[|res.steps| - 1] ==
              SortStep(res.finalArray, -1, -1, -1, [], [], false, true, Completed, res.totalComparisons, res.totalSwaps)
  {
    SortedLive(input);
    var sorted := QuickSortRun(Begin(input), 0, |input| - 1);
    assert SortRun(input).steps[0] == sorted.log[0] == Begin(input).log[0];
  }

  /** Every step of the log of a sort is well shaped for the input's length,
      and exactly one step is the terminal one: the last. */
  lemma SortRunSteps(input: seq<int>)
    ensures var res := SortRun(input);
            forall k :: 0 <= k < |res.steps| ==>
              Shaped(res.steps[k], |input|) && (res.steps[k].completed <==> k == |res.steps| - 1)
  {
    SortedLive(input);
    var sorted := QuickSortRun(Begin(input), 0, |input| - 1);
    Closed(sorted.log, SortRun(input).steps[|sorted.log|], |input|);
  }

  /** Every step of the log of a sort holds the counters of the moment it
      was recorded, and the totals are the number of comparison steps and
      the number of swap announcements. */
  lemma SortRunTallied(input: seq<int>)
    ensures var res := SortRun(input);
            Tallied(res.steps) &&
            res.totalComparisons == ComparisonSteps(res.steps) && res.totalSwaps == SwapSteps(res.steps)
  {
    SortedLive(input);
    var sorted := QuickSortRun(Begin(input), 0, |input| - 1);
    var steps := SortRun(input).steps;
    TalliedAppend(sorted.log, steps[|sorted.log|]);
    assert steps == sorted.log + [steps[|sorted.log|]];
    TalliedCounts(steps);
  }

  /** Along the log of a sort neither counter ever decreases. */
  lemma SortRunMonotone(input: seq<int>)
    ensures var res := SortRun(input);
            forall i, j :: 0 <= i <= j < |res.steps| ==>
              res.steps[i].comparisons <= res.steps[j].comparisons && res.steps[i].swaps <= res.steps[j].swaps
  {
    SortRunTallied(input);
    var steps := SortRun(input).steps;
    forall i, j | 0 <= i <= j < |steps|
      ensures steps[i].comparisons <= steps[j].comparisons && steps[i].swaps <= steps[j].swaps
    {
      CountersMonotone(steps, i, j);
    }
  }
}
