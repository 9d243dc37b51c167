/** The records a run of the quicksort engine produces: the steps of its log,
    the report it returns, and the properties a well-formed log has. */
module SortTrace {
  import opened Ordering

  /** What a step announces. It stands for the step's explanation text and
      carries the values that text prints. */
  datatype StepKind =
    | Start                                              // the run begins
    | SortingSubarray(pivot: int)                        // a range is about to be partitioned
    | Comparing(value: int, pivot: int, atMost: bool)    // an element is compared with the pivot
    | SwapAnnounced(pivot: int, first: int, second: int) // two elements are about to be exchanged
    | SwapDone(first: int, second: int)                  // the exchange has happened
    | NoSwapNeeded(value: int, pivot: int)               // the element is already on the left side
    | PivotPlacement(pivot: int, target: int)            // the pivot is about to move to its place
    | PartitionComplete(pivot: int, index: int)          // the pivot has reached its final place
    | LeftSubarray(from: int, to: int)                   // the left part is sorted next
    | RightSubarray(from: int, to: int)                  // the right part is sorted next
    | Completed                                          // the run is over

  /** One entry of the log: a copy of the working array and of the counters
      at the moment the entry was recorded. */
  datatype SortStep = SortStep(
    snapshot: seq<int>,
    pivotIndex: int,
    left: int,
    right: int,
    comparing: seq<int>,
    swapping: seq<int>,
    partitioned: bool,
    completed: bool,
    kind: StepKind,
    comparisons: nat,
    swaps: nat)

  /** What a run returns. */
  datatype QuickSortResult = QuickSortResult(
    steps: seq<SortStep>,
    totalComparisons: nat,
    totalSwaps: nat,
    finalArray: seq<int>)

  /** The step works on the inclusive range [left, right] of an array of length n. */
  predicate InRange(st: SortStep, n: nat)
  {
    0 <= st.left <= st.right < n
  }

  /** The fields of a step agree with its kind: which indices it highlights,
      which range and pivot it names, and the values its explanation prints. */
  predicate Shaped(st: SortStep, n: nat)
  {
    |st.snapshot| == n &&
    st.completed == st.kind.Completed? &&
    st.partitioned == st.kind.PartitionComplete? &&
    match st.kind
    case Start =>
      st.pivotIndex == -1 && st.left == 0 && st.right == n - 1 &&
      st.comparing == [] && st.swapping == []
    case SortingSubarray(pivot) =>
      InRange(st, n) && st.left < st.right && st.pivotIndex == st.right &&
      pivot == st.snapshot[st.right] &&
      st.comparing == [] && st.swapping == []
    case Comparing(value, pivot, atMost) =>
      InRange(st, n) && st.pivotIndex == st.right &&
      |st.comparing| == 2 && st.left <= st.comparing[0] < st.right && st.comparing[1] == st.right &&
      st.swapping == [] &&
      value == st.snapshot[st.comparing[0]] && pivot == st.snapshot[st.right] &&
      atMost == (value <= pivot)
    case SwapAnnounced(pivot, first, second) =>
      InRange(st, n) && st.pivotIndex == st.right && st.comparing == [] &&
      |st.swapping| == 2 && st.left <= st.swapping[0] < st.swapping[1] < st.right &&
      pivot == st.snapshot[st.right] &&
      first == st.snapshot[st.swapping[0]] && second == st.snapshot[st.swapping[1]] &&
      second <= pivot < first
    case SwapDone(first, second) =>
      InRange(st, n) && st.pivotIndex == st.right &&
      st.comparing == [] && st.swapping == [] &&
      first <= st.snapshot[st.right] < second
    case NoSwapNeeded(value, pivot) =>
      InRange(st, n) && st.pivotIndex == st.right &&
      st.comparing == [] && st.swapping == [] &&
      pivot == st.snapshot[st.right] && value <= pivot
    case PivotPlacement(pivot, target) =>
      InRange(st, n) && st.pivotIndex == st.right && st.comparing == [] &&
      st.swapping == [target, st.right] && st.left <= target < st.right &&
      pivot == st.snapshot[st.right] && st.snapshot[target] > pivot
    case PartitionComplete(pivot, index) =>
      InRange(st, n) && st.pivotIndex == index && PartitionedAt(st.snapshot, st.left, index, st.right) &&
      st.comparing == [] && st.swapping == [] &&
      pivot == st.snapshot[index]
    case LeftSubarray(from, to) =>
      st.pivotIndex == -1 && st.left == from && st.right == to && 0 <= from < to < n &&
      st.comparing == [] && st.swapping == []
    case RightSubarray(from, to) =>
      st.pivotIndex == -1 && st.left == from && st.right == to && 0 <= from < to < n &&
      st.comparing == [] && st.swapping == []
    case Completed =>
      st.pivotIndex == -1 && st.left == -1 && st.right == -1 &&
      st.comparing == [] && st.swapping == []
  }

  /** The k-th step of a log. Ongoing below quantifies over StepAt terms, so
      that its facts about single steps are only brought in where a proof asks
      for them through OngoingAt. */
  function StepAt(log: seq<SortStep>, k: nat): SortStep
    requires k < |log|
  {
    log[k]
  }

  /** Every step of the log is well shaped for an array of length n and none
      of them is the terminal one: the log of a run still in progress. */
  predicate Ongoing(log: seq<SortStep>, n: nat)
  {
    forall k {:trigger StepAt(log, k)} :: 0 <= k < |log| ==>
      Shaped(StepAt(log, k), n) && !StepAt(log, k).completed
  }

  /** Appending a well-shaped step that is not the terminal one keeps a log ongoing. */
  lemma OngoingAppend(log: seq<SortStep>, st: SortStep, n: nat)
    requires Ongoing(log, n)
    requires Shaped(st, n) && !st.completed
    ensures Ongoing(log + [st], n)
  {
    var longer := log + [st];
    forall k | 0 <= k < |longer|
      ensures Shaped(StepAt(longer, k), n) && !StepAt(longer, k).completed
    {
      if k < |log| {
        assert StepAt(longer, k) == StepAt(log, k);
      }
    }
  }

  /** What Ongoing says about each single step. */
  lemma OngoingAt(log: seq<SortStep>, n: nat, k: nat)
    requires Ongoing(log, n)
    requires k < |log|
    ensures Shaped(log[k], n) && !log[k].completed
  {
    assert StepAt(log, k) == log[k];
  }

  /** Closing an ongoing log with a well-shaped terminal step gives a log
      whose steps are all well shaped and whose only terminal step is the
      last one. */
  lemma Closed(log: seq<SortStep>, st: SortStep, n: nat)
    requires Ongoing(log, n)
    requires Shaped(st, n) && st.completed
    ensures forall k :: 0 <= k < |log + [st]| ==>
              Shaped((log + [st])[k], n) && ((log + [st])[k].completed <==> k == |log|)
  {
    forall k | 0 <= k < |log + [st]|
      ensures Shaped((log + [st])[k], n) && ((log + [st])[k].completed <==> k == |log|)
    {
      if k < |log| {
        OngoingAt(log, n, k);
      }
    }
  }

  /** Number of steps in the log that highlight a comparison. */
  function ComparisonSteps(log: seq<SortStep>): (count: nat)
    ensures count <= |log|
  {
    if log == [] then 0 else ComparisonSteps(log[..|log| - 1]) + Compares(log[|log| - 1])
  }

  /** Number of steps in the log that announce a swap. */
  function SwapSteps(log: seq<SortStep>): (count: nat)
    ensures count <= |log|
  {
    if log == [] then 0 else SwapSteps(log[..|log| - 1]) + AnnouncesSwap(log[|log| - 1])
  }

  /** Whether the step highlights a comparison, as 0 or 1. */
  function Compares(st: SortStep): (b: nat)
    ensures b <= 1 && (b == 1 <==> st.comparing != [])
  {
    if st.comparing != [] then 1 else 0
  }

  /** Whether the step announces a swap, as 0 or 1. */
  function AnnouncesSwap(st: SortStep): (b: nat)
    ensures b <= 1 && (b == 1 <==> st.swapping != [])
  {
    if st.swapping != [] then 1 else 0
  }

  /** The comparison counter once the log has been recorded: the one its
      last step holds. */
  function ComparisonsAfter(log: seq<SortStep>): nat
  {
    if log == [] then 0 else log[|log| - 1].comparisons
  }

  /** The swap counter once the log has been recorded: the one its last step
      holds, plus the swap that step announces, which is counted after it. */
  function SwapsAfter(log: seq<SortStep>): nat
  {
    if log == [] then 0 else log[|log| - 1].swaps + AnnouncesSwap(log[|log| - 1])
  }

  /** Every step of the log holds the counters of the moment it was recorded.
      A comparison is counted before its step is recorded, so a comparison
      step includes itself; a swap is counted after its announcement, so the
      announcing step does not. */
  predicate Tallied(log: seq<SortStep>)
  {
    log != [] ==>
      var init, last := log[..|log| - 1], log[|log| - 1];
      Tallied(init) &&
      last.comparisons == ComparisonsAfter(init) + Compares(last) &&
      last.swaps == SwapsAfter(init)
  }

  /** Appending a step that carries the current counters keeps the log
      tallied, and the counters move past the step. */
  lemma TalliedAppend(log: seq<SortStep>, st: SortStep)
    requires Tallied(log)
    requires st.comparisons == ComparisonsAfter(log) + Compares(st) && st.swaps == SwapsAfter(log)
    ensures Tallied(log + [st])
    ensures ComparisonsAfter(log + [st]) == st.comparisons
    ensures SwapsAfter(log + [st]) == st.swaps + AnnouncesSwap(st)
  {
    assert (log + [st])[..|log|] == log;
  }

  /** The counters after a tallied log are its numbers of comparison steps
      and of swap announcements. */
  lemma {:induction false} TalliedCounts(log: seq<SortStep>)
    requires Tallied(log)
    ensures ComparisonsAfter(log) == ComparisonSteps(log) && SwapsAfter(log) == SwapSteps(log)
  {
    if log != [] {
      TalliedCounts(log[..|log| - 1]);
    }
  }

  /** No step of a tallied log holds more than the counters after it. */
  lemma {:induction false} TalliedBounded(log: seq<SortStep>)
    requires Tallied(log)
    ensures forall k :: 0 <= k < |log| ==>
              log[k].comparisons <= ComparisonsAfter(log) && log[k].swaps <= SwapsAfter(log)
  {
    if log != [] {
      var init := log[..|log| - 1];
      TalliedBounded(init);
      forall k | 0 <= k < |log| - 1
        ensures log[k].comparisons <= ComparisonsAfter(log) && log[k].swaps <= SwapsAfter(log)
      {
        assert log[k] == init[k];
      }
    }
  }

  /** Every prefix of a tallied log is tallied. */
  lemma {:induction false} TalliedPrefix(log: seq<SortStep>, m: nat)
    requires Tallied(log) && m <= |log|
    ensures Tallied(log[..m])
    decreases |log| - m
  {
    if m < |log| {
      var init := log[..|log| - 1];
      TalliedPrefix(init, m);
      assert init[..m] == log[..m];
    } else {
      assert log[..m] == log;
    }
  }

  /** In a tallied log the counters never decrease from a step to a later one. */
  lemma CountersMonotone(log: seq<SortStep>, i: nat, j: nat)
    requires Tallied(log)
    requires i <= j < |log|
    ensures log[i].comparisons <= log[j].comparisons
    ensures log[i].swaps <= log[j].swaps
  {
    if i < j {
      TalliedPrefix(log, j + 1);
      assert log[..j + 1][..j] == log[..j];
      TalliedBounded(log[..j]);
      assert log[..j][i] == log[i];
    }
  }

  /** One step more for a run in progress: the log stays ongoing and tallied
      when the appended step is well shaped, is not the terminal one and
      carries the current counters. */
  lemma StepAppended(log: seq<SortStep>, st: SortStep, n: nat)
    requires Ongoing(log, n) && Tallied(log)
    requires Shaped(st, n) && !st.completed
    requires st.comparisons == ComparisonsAfter(log) + Compares(st) && st.swaps == SwapsAfter(log)
    ensures Ongoing(log + [st], n) && Tallied(log + [st])
    ensures ComparisonsAfter(log + [st]) == st.comparisons
    ensures SwapsAfter(log + [st]) == st.swaps + AnnouncesSwap(st)
  {
    OngoingAppend(log, st, n);
    TalliedAppend(log, st);
  }

  /** Number of comparisons quicksort makes on an already sorted range of n
      elements: each partition compares every other element with the pivot. */
  function Pairs(n: nat): nat
  {
    if n == 0 then 0 else Pairs(n - 1) + (n - 1)
  }

  /** Closed form: n(n-1)/2 comparisons. */
  lemma {:induction false} PairsClosedForm(n: nat)
    ensures Pairs(n) == n * (n - 1) / 2
  {
    if n > 0 {
      PairsClosedForm(n - 1);
      assert n * (n - 1) == (n - 1) * (n - 2) + 2 * (n - 1);
    }
  }
}
