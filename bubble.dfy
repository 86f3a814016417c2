/** `SortingAlgorithms.bubbleSort` (src/utils/sortingAlgorithms.ts:4-69) as
    the source writes it: loops over a fresh working array. Each method is
    proved to do exactly what the reference run of module BubbleSpec does. */
module Bubble {
  import opened Types
  import opened Steps
  import opened BubbleSpec

  /** The body of the inner loop after the stop poll, on the working array. */
  method CompareStep(arr: array<Elem>, j: nat, comparisons: nat, swaps: nat, trace: seq<Event>, ghost polls: nat)
    returns (comparisons': nat, swaps': nat, trace': seq<Event>)
    requires j + 1 < arr.Length
    modifies arr
    ensures Run(arr[..], comparisons', swaps', trace', polls, false)
      == CompareAt(Run(old(arr[..]), comparisons, swaps, trace, polls, false), j)
  {
    ghost var r := CompareAt(Run(arr[..], comparisons, swaps, trace, polls, false), j);
    ghost var s, x, y := arr[..], arr[j], arr[j + 1];
    arr[j] := arr[j].(state := Comparing);
    arr[j + 1] := arr[j + 1].(state := Comparing);
    assert arr[..] == s[j := x.(state := Comparing)][j + 1 := y.(state := Comparing)];
    comparisons' := comparisons + 1;
    swaps' := swaps;
    trace' := trace + [Event(arr[..], ComparePair(arr[j].value, arr[j + 1].value), comparisons', swaps')];
    if arr[j].value > arr[j + 1].value {
      arr[j] := arr[j].(state := Swapping);
      arr[j + 1] := arr[j + 1].(state := Swapping);
      swaps' := swaps' + 1;
      assert arr[..] == s[j := x.(state := Swapping)][j + 1 := y.(state := Swapping)];
      trace' := trace' + [Event(arr[..], SwapPair(arr[j].value, arr[j + 1].value), comparisons', swaps')];
      arr[j], arr[j + 1] := arr[j + 1], arr[j];
    }
    arr[j] := arr[j].(state := Default);
    arr[j + 1] := arr[j + 1].(state := Default);
    assert arr[..] == r.arr;
    assert trace' == r.trace;
  }

  /** The inner loop of pass `i` on the working array: poll, then compare
      and maybe swap, for `j` from 0 to `n - i - 2`; returns the new counters,
      trace and poll count, and whether a poll answered true. */
  method RunPass(arr: array<Elem>, answers: seq<bool>, i: nat, comparisons: nat, swaps: nat, trace: seq<Event>, polls: nat)
    returns (comparisons': nat, swaps': nat, trace': seq<Event>, polls': nat, stopped: bool)
    requires i + 1 < arr.Length
    modifies arr
    ensures Run(arr[..], comparisons', swaps', trace', polls', stopped)
      == Pass(answers, Run(old(arr[..]), comparisons, swaps, trace, polls, false), i, 0)
  {
    ghost var cur := Run(arr[..], comparisons, swaps, trace, polls, false);
    ghost var goal := Pass(answers, cur, i, 0);
    comparisons', swaps', trace', polls', stopped := comparisons, swaps, trace, polls, false;
    var j: nat := 0;
    while j < arr.Length - i - 1
      invariant j <= arr.Length - i - 1
      invariant cur == Run(arr[..], comparisons', swaps', trace', polls', false)
      invariant Pass(answers, cur, i, j) == goal
    {
      var stop := polls' < |answers| && answers[polls'];
      polls' := polls' + 1;
      if stop {
        PassStops(answers, cur, i, j);
        stopped := true;
        return;
      }
      PassUnfold(answers, cur, i, j);
      comparisons', swaps', trace' := CompareStep(arr, j, comparisons', swaps', trace', polls');
      cur := Run(arr[..], comparisons', swaps', trace', polls', false);
      j := j + 1;
    }
  }

  /** The end of outer pass `i` on the working array. */
  method EndPassStep(arr: array<Elem>, i: nat, comparisons: nat, swaps: nat, trace: seq<Event>, ghost polls: nat)
    returns (trace': seq<Event>)
    requires i + 1 < arr.Length
    modifies arr
    ensures Run(arr[..], comparisons, swaps, trace', polls, false)
      == EndPass(Run(old(arr[..]), comparisons, swaps, trace, polls, false), i)
  {
    var k := arr.Length - i - 1;
    arr[k] := arr[k].(state := Sorted);
    trace' := trace + [Event(arr[..], FinalPosition(arr[k].value), comparisons, swaps)];
  }

  /** The completion step on the working array. */
  method FinishStep(arr: array<Elem>, comparisons: nat, swaps: nat, trace: seq<Event>, ghost polls: nat)
    returns (trace': seq<Event>)
    modifies arr
    ensures trace' == Finish(Run(old(arr[..]), comparisons, swaps, trace, polls, false)).trace
    ensures arr[..] == Finish(Run(old(arr[..]), comparisons, swaps, trace, polls, false)).arr
  {
    if arr.Length > 0 {
      arr[0] := arr[0].(state := Sorted);
    }
    trace' := trace + [Event(arr[..], BubbleDone, comparisons, swaps)];
  }

  /** The two nested loops of the source and its completion step, on the
      working array. */
  method SortArray(arr: array<Elem>, answers: seq<bool>) returns (trace: seq<Event>, stopped: bool)
    modifies arr
    ensures trace == Passes(answers, Start(old(arr[..])), 0).trace
    ensures stopped == Passes(answers, Start(old(arr[..])), 0).stopped
    ensures arr[..] == Passes(answers, Start(old(arr[..])), 0).arr
  {
    var n := arr.Length;
    var comparisons: nat, swaps: nat, polls: nat := 0, 0, 0;
    trace, stopped := [], false;
    ghost var goal := Passes(answers, Start(arr[..]), 0);
    ghost var cur := Start(arr[..]);
    var i: nat := 0;
    while i + 1 < n
      invariant i == 0 || i < n
      invariant cur == Run(arr[..], comparisons, swaps, trace, polls, false)
      invariant Passes(answers, cur, i) == goal
    {
      comparisons, swaps, trace, polls, stopped := RunPass(arr, answers, i, comparisons, swaps, trace, polls);
      PassesUnfold(answers, cur, i);
      if stopped {
        return;
      }
      trace := EndPassStep(arr, i, comparisons, swaps, trace, polls);
      cur := Run(arr[..], comparisons, swaps, trace, polls, false);
      i := i + 1;
    }
    FinishUnfold(answers, cur, i);
    trace := FinishStep(arr, comparisons, swaps, trace, polls);
  }

  /** The source's bubble sort: copy the input into a fresh array, sort the
      copy in place, and return the events handed to the callback and
      whether the run returned early on a stop poll. */
  method BubbleSortRun(input: seq<Elem>, answers: seq<bool>) returns (trace: seq<Event>, stopped: bool)
    ensures trace == BubbleSort(input, answers).trace
    ensures stopped == BubbleSort(input, answers).stopped
  {
    var arr := new Elem[|input|](k requires 0 <= k < |input| => input[k]);
    assert arr[..] == input;
    trace, stopped := SortArray(arr, answers);
  }
}
