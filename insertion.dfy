/** `SortingAlgorithms.insertionSort` (src/utils/sortingAlgorithms.ts:71-140)
    as the source writes it: a `for` loop holding a `while` loop with a
    decreasing cursor, over a fresh working array. Each method is proved to
    do exactly what the reference run of module InsertionSpec does. */
module Insertion {
  import opened Types
  import opened Steps
  import opened InsertionSpec

  /** The body of the `while` loop after the stop poll, on the working array. */
  method ShiftStep(arr: array<Elem>, current: Elem, j: nat, comparisons: nat, swaps: nat, trace: seq<Event>, ghost polls: nat)
    returns (comparisons': nat, swaps': nat, trace': seq<Event>)
    requires j + 1 < arr.Length
    modifies arr
    ensures Run(arr[..], comparisons', swaps', trace', polls, false)
      == ShiftAt(Run(old(arr[..]), comparisons, swaps, trace, polls, false), current, j)
  {
    arr[j] := arr[j].(state := Comparing);
    comparisons' := comparisons + 1;
    trace' := trace + [Event(arr[..], CompareWith(current.value, arr[j].value), comparisons', swaps)];
    arr[j + 1] := arr[j].(state := Swapping);
    swaps' := swaps + 1;
    trace' := trace' + [Event(arr[..], MovingRight(arr[j].value), comparisons', swaps')];
    arr[j + 1] := arr[j + 1].(state := Sorted);
  }

  /** The `while` loop of iteration `i` on the working array: from cursor
      `i - 1` down, poll and shift while the cell under the cursor is larger
      than `current`; returns the new counters, trace and poll count, the
      final cursor, and whether a poll answered true. */
  method ShiftLoop(arr: array<Elem>, answers: seq<bool>, current: Elem, i: nat,
                   comparisons: nat, swaps: nat, trace: seq<Event>, polls: nat)
    returns (comparisons': nat, swaps': nat, trace': seq<Event>, polls': nat, j: int, stopped: bool)
    requires 1 <= i < arr.Length
    modifies arr
    ensures (Run(arr[..], comparisons', swaps', trace', polls', stopped), j)
      == Shifts(answers, Run(old(arr[..]), comparisons, swaps, trace, polls, false), current, i - 1)
  {
    ghost var cur := Run(arr[..], comparisons, swaps, trace, polls, false);
    ghost var goal := Shifts(answers, cur, current, i - 1);
    comparisons', swaps', trace', polls', stopped := comparisons, swaps, trace, polls, false;
    j := i - 1;
    while j >= 0 && arr[j].value > current.value
      invariant -1 <= j <= i - 1
      invariant cur == Run(arr[..], comparisons', swaps', trace', polls', false)
      invariant Shifts(answers, cur, current, j) == goal
      decreases j + 1
    {
      var stop := polls' < |answers| && answers[polls'];
      polls' := polls' + 1;
      if stop {
        ShiftsStop(answers, cur, current, j);
        stopped := true;
        return;
      }
      ShiftsUnfold(answers, cur, current, j);
      comparisons', swaps', trace' := ShiftStep(arr, current, j, comparisons', swaps', trace', polls');
      cur := Run(arr[..], comparisons', swaps', trace', polls', false);
      j := j - 1;
    }
    ShiftsExit(answers, cur, current, j);
  }

  /** Iteration `i` of the `for` loop on the working array: poll, select
      `arr[i]`, shift the larger cells before it and insert it. */
  method IterationStep(arr: array<Elem>, answers: seq<bool>, i: nat, comparisons: nat, swaps: nat, trace: seq<Event>, polls: nat)
    returns (comparisons': nat, swaps': nat, trace': seq<Event>, polls': nat, stopped: bool)
    requires 1 <= i < arr.Length
    modifies arr
    ensures Run(arr[..], comparisons', swaps', trace', polls', stopped)
      == Iteration(answers, Run(old(arr[..]), comparisons, swaps, trace, polls, false), i)
  {
    comparisons', swaps', trace', polls' := comparisons, swaps, trace, polls + 1;
    if polls < |answers| && answers[polls] {
      stopped := true;
      return;
    }
    arr[i] := arr[i].(state := Comparing);
    var current := arr[i];
    trace' := trace + [Event(arr[..], Selecting(current.value), comparisons, swaps)];
    var j: int;
    comparisons', swaps', trace', polls', j, stopped := ShiftLoop(arr, answers, current, i, comparisons, swaps, trace', polls');
    if stopped {
      return;
    }
    arr[j + 1] := current.(state := Sorted);
    trace' := trace' + [Event(arr[..], Inserted(current.value, j + 1), comparisons', swaps')];
  }

  /** The first-cell report before the loop, on the working array. */
  method FirstStep(arr: array<Elem>) returns (trace: seq<Event>)
    modifies arr
    ensures Run(arr[..], 0, 0, trace, 0, false) == Begin(old(arr[..]))
  {
    trace := [];
    if arr.Length > 0 {
      arr[0] := arr[0].(state := Sorted);
      trace := [Event(arr[..], FirstSorted, 0, 0)];
    }
  }

  /** The first-cell report, the `for` loop and the completion report, on
      the working array. */
  method SortArray(arr: array<Elem>, answers: seq<bool>) returns (trace: seq<Event>, stopped: bool)
    modifies arr
    ensures trace == Iterations(answers, Begin(old(arr[..])), 1).trace
    ensures stopped == Iterations(answers, Begin(old(arr[..])), 1).stopped
    ensures arr[..] == Iterations(answers, Begin(old(arr[..])), 1).arr
  {
    var n := arr.Length;
    var comparisons: nat, swaps: nat, polls: nat := 0, 0, 0;
    trace := FirstStep(arr);
    stopped := false;
    ghost var cur := Run(arr[..], comparisons, swaps, trace, polls, false);
    ghost var goal := Iterations(answers, cur, 1);
    var i: nat := 1;
    while i < n
      invariant 1 <= i && (i <= n || i == 1)
      invariant cur == Run(arr[..], comparisons, swaps, trace, polls, false)
      invariant Iterations(answers, cur, i) == goal
    {
      comparisons, swaps, trace, polls, stopped := IterationStep(arr, answers, i, comparisons, swaps, trace, polls);
      IterationsUnfold(answers, cur, i);
      if stopped {
        return;
      }
      cur := Run(arr[..], comparisons, swaps, trace, polls, false);
      i := i + 1;
    }
    DoneUnfold(answers, cur, i);
    trace := trace + [Event(arr[..], InsertionDone, comparisons, swaps)];
  }

  /** The source's insertion sort: copy the input into a fresh array, sort
      the copy in place, and return the events handed to the callback and
      whether the run returned early on a stop poll. */
  method InsertionSortRun(input: seq<Elem>, answers: seq<bool>) returns (trace: seq<Event>, stopped: bool)
    ensures trace == InsertionSort(input, answers).trace
    ensures stopped == InsertionSort(input, answers).stopped
  {
    var arr := new Elem[|input|](k requires 0 <= k < |input| => input[k]);
    assert arr[..] == input;
    trace, stopped := SortArray(arr, answers);
  }
}
