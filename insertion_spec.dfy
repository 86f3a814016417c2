/** The reference run of `SortingAlgorithms.insertionSort`
    (src/utils/sortingAlgorithms.ts:71-140): one function per loop of the
    source, threading a `Run` through its statements. Module Insertion holds
    the imperative version, proved to emit exactly this run; modules
    InsertionInvariants and InsertionProofs state and prove what it
    promises. */
module InsertionSpec {
  import opened Types
  import opened Steps

  /** The element being inserted in iteration `i`: the cell `arr[i]` shown
      as being compared. */
  function Current(r: Run, i: nat): Elem
    requires i < |r.arr|
  {
    r.arr[i].(state := Comparing)
  }

  /** The start of iteration `i` after its stop poll: show `arr[i]` as
      compared and report that it is selected. */
  function Select(r: Run, i: nat): (r': Run)
    requires i < |r.arr|
    ensures |r'.arr| == |r.arr| && r'.polls == r.polls && r'.stopped == r.stopped
  {
    Emit(r.(arr := r.arr[i := Current(r, i)]), Selecting(Current(r, i).value))
  }

  /** One run of the `while` body after its stop poll: show `arr[j]` as
      compared, count and report the comparison with `cur`, copy `arr[j]`
      one cell to the right shown as swapping, count and report the shift,
      then show the copy as sorted. */
  function ShiftAt(r: Run, cur: Elem, j: nat): (r': Run)
    requires j + 1 < |r.arr|
    ensures |r'.arr| == |r.arr| && r'.polls == r.polls && r'.stopped == r.stopped
  {
    var s1 := Mark(r.arr, j, Comparing);
    var c := r.comparisons + 1;
    var s2 := s1[j + 1 := s1[j].(state := Swapping)];
    var w := r.swaps + 1;
    r.(arr := Mark(s2, j + 1, Sorted), comparisons := c, swaps := w,
       trace := r.trace + [Event(s1, CompareWith(cur.value, s1[j].value), c, r.swaps),
                           Event(s2, MovingRight(s2[j].value), c, w)])
  }

  /** The `while` loop from cursor `j` on: while `arr[j]` is larger than
      `cur`, poll `shouldStop` (returning at once on true) and shift. The
      result is the run and the cursor the loop ended with. */
  function Shifts(answers: seq<bool>, r: Run, cur: Elem, j: int): (res: (Run, int))
    requires -1 <= j < |r.arr| - 1
    ensures |res.0.arr| == |r.arr| && -1 <= res.1 <= j
    decreases j + 1
  {
    if j >= 0 && r.arr[j].value > cur.value then
      if Polled(answers, r.polls) then (r.(polls := r.polls + 1, stopped := true), j)
      else Shifts(answers, ShiftAt(r.(polls := r.polls + 1), cur, j), cur, j - 1)
    else (r, j)
  }

  /** The end of an iteration: write `cur`, shown as sorted, into the cell
      after the cursor and report where it went. */
  function InsertAt(r: Run, cur: Elem, j: int): (r': Run)
    requires -1 <= j < |r.arr| - 1
    ensures |r'.arr| == |r.arr| && r'.polls == r.polls && r'.stopped == r.stopped
  {
    Emit(r.(arr := r.arr[j + 1 := cur.(state := Sorted)]), Inserted(cur.value, j + 1))
  }

  /** Iteration `i` of the `for` loop: poll `shouldStop` (returning at once
      on true), select `arr[i]`, shift the larger cells before it to the
      right and insert it. */
  function Iteration(answers: seq<bool>, r: Run, i: nat): (r': Run)
    requires 1 <= i < |r.arr|
    ensures |r'.arr| == |r.arr|
  {
    if Polled(answers, r.polls) then r.(polls := r.polls + 1, stopped := true)
    else
      var cur := Current(r, i);
      var res := Shifts(answers, Select(r.(polls := r.polls + 1), i), cur, i - 1);
      if res.0.stopped then res.0 else InsertAt(res.0, cur, res.1)
  }

  /** The `for` loop from iteration `i` on, then the completion report. */
  function Iterations(answers: seq<bool>, r: Run, i: nat): Run
    requires 1 <= i
    decreases |r.arr| - i
  {
    if i >= |r.arr| then Emit(r, InsertionDone)
    else
      var r1 := Iteration(answers, r, i);
      if r1.stopped then r1 else Iterations(answers, r1, i + 1)
  }

  /** Before the loop: a non-empty array has its first cell shown as sorted
      and reported, before any poll. */
  function Begin(input: seq<Elem>): Run {
    if |input| > 0 then Emit(Start(input).(arr := Mark(input, 0, Sorted)), FirstSorted) else Start(input)
  }

  /** The whole run of insertion sort on `input` when the `k`-th poll of
      `shouldStop` answers `Polled(answers, k)`. */
  function InsertionSort(input: seq<Elem>, answers: seq<bool>): Run {
    Iterations(answers, Begin(input), 1)
  }

  /** The `while` loop when its condition holds and the poll answers false. */
  lemma ShiftsUnfold(answers: seq<bool>, r: Run, cur: Elem, j: int)
    requires 0 <= j < |r.arr| - 1 && r.arr[j].value > cur.value && !Polled(answers, r.polls)
    ensures Shifts(answers, r, cur, j) == Shifts(answers, ShiftAt(r.(polls := r.polls + 1), cur, j), cur, j - 1)
  {
    var r1 := ShiftAt(r.(polls := r.polls + 1), cur, j);
    assert Shifts(answers, r, cur, j) == Shifts(answers, r1, cur, j - 1);
  }

  /** The `while` loop when its condition holds and the poll answers true. */
  lemma ShiftsStop(answers: seq<bool>, r: Run, cur: Elem, j: int)
    requires 0 <= j < |r.arr| - 1 && r.arr[j].value > cur.value && Polled(answers, r.polls)
    ensures Shifts(answers, r, cur, j) == (r.(polls := r.polls + 1, stopped := true), j)
  {
  }

  /** The `while` loop once its condition fails. */
  lemma ShiftsExit(answers: seq<bool>, r: Run, cur: Elem, j: int)
    requires -1 <= j < |r.arr| - 1 && !(j >= 0 && r.arr[j].value > cur.value)
    ensures Shifts(answers, r, cur, j) == (r, j)
  {
  }

  /** The `while` loop when its condition fails or a poll answers true. */
  lemma ShiftsEnd(answers: seq<bool>, r: Run, cur: Elem, j: int)
    requires -1 <= j < |r.arr| - 1 && !(j >= 0 && r.arr[j].value > cur.value && !Polled(answers, r.polls))
    ensures Shifts(answers, r, cur, j)
      == if j >= 0 && r.arr[j].value > cur.value then (r.(polls := r.polls + 1, stopped := true), j) else (r, j)
  {
  }

  /** One iteration of the `for` loop. */
  lemma IterationsUnfold(answers: seq<bool>, r: Run, i: nat)
    requires 1 <= i < |r.arr|
    ensures Iterations(answers, r, i)
      == if Iteration(answers, r, i).stopped then Iteration(answers, r, i)
         else Iterations(answers, Iteration(answers, r, i), i + 1)
  {
  }

  /** The `for` loop once its condition fails. */
  lemma DoneUnfold(answers: seq<bool>, r: Run, i: nat)
    requires 1 <= i && i >= |r.arr|
    ensures Iterations(answers, r, i) == Emit(r, InsertionDone)
  {
  }
}
