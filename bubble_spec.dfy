/** The reference run of `SortingAlgorithms.bubbleSort`
    (src/utils/sortingAlgorithms.ts:4-69): one function per loop of the
    source, threading a `Run` through its statements. Module Bubble holds
    the imperative version, proved to emit exactly this run; modules
    BubbleInvariants and BubbleProofs state and prove what it promises. */
module BubbleSpec {
  import opened Types
  import opened Steps

  /** One iteration of the inner loop after the stop poll: mark the pair
      as compared, count and report the comparison, swap an out-of-order
      pair after reporting it, then reset both cells to the default state. */
  function CompareAt(r: Run, j: nat): (r': Run)
    requires j + 1 < |r.arr|
    ensures |r'.arr| == |r.arr| && r'.polls == r.polls && r'.stopped == r.stopped
  {
    var s, x, y := r.arr, r.arr[j], r.arr[j + 1];
    var c := r.comparisons + 1;
    var compared := Event(s[j := x.(state := Comparing)][j + 1 := y.(state := Comparing)], ComparePair(x.value, y.value), c, r.swaps);
    if x.value > y.value then
      var swapping := Event(s[j := x.(state := Swapping)][j + 1 := y.(state := Swapping)], SwapPair(x.value, y.value), c, r.swaps + 1);
      r.(arr := s[j := y.(state := Default)][j + 1 := x.(state := Default)], comparisons := c, swaps := r.swaps + 1,
         trace := r.trace + [compared, swapping])
    else
      r.(arr := s[j := x.(state := Default)][j + 1 := y.(state := Default)], comparisons := c, trace := r.trace + [compared])
  }

  /** The inner loop of pass `i` from index `j` on: poll `shouldStop` before
      every comparison and return at once when it answers true. */
  function Pass(answers: seq<bool>, r: Run, i: nat, j: nat): (r': Run)
    requires i + 1 < |r.arr| && j <= |r.arr| - i - 1
    ensures |r'.arr| == |r.arr|
    decreases |r.arr| - i - 1 - j
  {
    if j == |r.arr| - i - 1 then r
    else if Polled(answers, r.polls) then r.(polls := r.polls + 1, stopped := true)
    else Pass(answers, CompareAt(r.(polls := r.polls + 1), j), i, j + 1)
  }

  /** The end of pass `i`: the cell at `n - i - 1` is marked and reported. */
  function EndPass(r: Run, i: nat): (r': Run)
    requires i + 1 < |r.arr|
    ensures |r'.arr| == |r.arr|
  {
    var k := |r.arr| - i - 1;
    var r1 := r.(arr := Mark(r.arr, k, Sorted));
    Emit(r1, FinalPosition(r1.arr[k].value))
  }

  /** After the passes: mark cell 0 when there is one and report completion. */
  function Finish(r: Run): (r': Run)
    ensures |r'.arr| == |r.arr|
  {
    Emit(if |r.arr| > 0 then r.(arr := Mark(r.arr, 0, Sorted)) else r, BubbleDone)
  }

  /** The outer loop from pass `i` on (passes `i < n - 1`). */
  function Passes(answers: seq<bool>, r: Run, i: nat): (r': Run)
    requires i == 0 || i < |r.arr|
    decreases |r.arr| - i
  {
    if i + 1 >= |r.arr| then Finish(r)
    else
      var r1 := Pass(answers, r, i, 0);
      if r1.stopped then r1 else Passes(answers, EndPass(r1, i), i + 1)
  }

  /** The whole run of bubble sort on `input` when the `k`-th poll of
      `shouldStop` answers `Polled(answers, k)`. */
  function BubbleSort(input: seq<Elem>, answers: seq<bool>): Run {
    Passes(answers, Start(input), 0)
  }

  /** One inner iteration when the poll answers false. */
  lemma PassUnfold(answers: seq<bool>, r: Run, i: nat, j: nat)
    requires i + 1 < |r.arr| && j < |r.arr| - i - 1 && !Polled(answers, r.polls)
    ensures Pass(answers, r, i, j) == Pass(answers, CompareAt(r.(polls := r.polls + 1), j), i, j + 1)
  {
  }

  /** The inner loop when the poll answers true. */
  lemma PassStops(answers: seq<bool>, r: Run, i: nat, j: nat)
    requires i + 1 < |r.arr| && j < |r.arr| - i - 1 && Polled(answers, r.polls)
    ensures Pass(answers, r, i, j) == r.(polls := r.polls + 1, stopped := true)
  {
  }

  /** One pass of the outer loop. */
  lemma PassesUnfold(answers: seq<bool>, r: Run, i: nat)
    requires i + 1 < |r.arr|
    ensures Passes(answers, r, i)
      == if Pass(answers, r, i, 0).stopped then Pass(answers, r, i, 0)
         else Passes(answers, EndPass(Pass(answers, r, i, 0), i), i + 1)
  {
  }

  /** The outer loop once its condition fails. */
  lemma FinishUnfold(answers: seq<bool>, r: Run, i: nat)
    requires i == 0 || i < |r.arr|
    requires i + 1 >= |r.arr|
    ensures Passes(answers, r, i) == Finish(r)
  {
  }
}
