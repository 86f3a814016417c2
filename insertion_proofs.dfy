/** The proofs that every run of insertion sort keeps the invariants of
    module InsertionInvariants, and the properties of
    `SortingAlgorithms.insertionSort` (src/utils/sortingAlgorithms.ts:71-140)
    that follow. */
module InsertionProofs {
  import opened Types
  import opened Steps
  import opened InsertionSpec
  import opened InsertionInvariants
  import opened InsertionReports

  /** Appending one event that is right against the trace so far. */
  lemma AppendLast(t: seq<Event>, e: Event, input: seq<Elem>)
    requires LastBelow(t, e.comparisons, e.swaps) && EventOK(e, input)
    requires e.step.MovingRight? <==> MovePending(t)
    requires e.step.MovingRight? ==> e.step.v == t[|t| - 1].step.v
    requires e.step.FirstSorted? ==> t == []
    requires e.step.Inserted? ==>
      var m := CountInserted(t) + 1;
      m < |input| && SortedPrefix(e.snap, input, m + 1)
      && 0 <= e.step.pos <= m && e.snap[e.step.pos] == input[m].(state := Sorted) && e.step.v == input[m].value
    ensures LastOK(t + [e], input) && LastBelow(t + [e], e.comparisons, e.swaps)
    ensures CountInserted(t + [e]) == CountInserted(t) + (if e.step.Inserted? then 1 else 0)
  {
    var t' := t + [e];
    assert t'[..|t|] == t;
    assert t'[..|t| + 1] == t';
  }

  lemma TraceExtends(t: seq<Event>, e: Event, input: seq<Elem>)
    requires TraceOK(t, input) && LastOK(t + [e], input) && !e.step.InsertionDone?
    ensures TraceOK(t + [e], input)
  {
    assert (t + [e])[..|t|] == t;
  }

  /** Appending an event other than the completion keeps the trace invariant. */
  lemma AppendKeeps(t: seq<Event>, e: Event, input: seq<Elem>)
    requires TraceOK(t, input) && LastBelow(t, e.comparisons, e.swaps) && EventOK(e, input)
    requires !e.step.InsertionDone? && !e.step.Inserted? && !e.step.FirstSorted?
    requires e.step.MovingRight? <==> MovePending(t)
    requires e.step.MovingRight? ==> e.step.v == t[|t| - 1].step.v
    ensures TraceOK(t + [e], input) && LastBelow(t + [e], e.comparisons, e.swaps)
    ensures CountInserted(t + [e]) == CountInserted(t)
  {
    AppendLast(t, e, input);
    TraceExtends(t, e, input);
  }

  /** The prefix of the first cell shown as sorted is a sorted prefix. */
  lemma BeginKeeps(input: seq<Elem>)
    requires |input| > 0
    ensures AtIter(Begin(input), input, 1)
  {
    var s := Mark(input, 0, Sorted);
    SameKeysStable(s[..1], input[..1]);
    var e := Event(s, FirstSorted, 0, 0);
    AppendLast([], e, input);
    TraceExtends([], e, input);
    assert [] + [e] == [e];
  }

  /** Selecting `arr[i]` starts the `while` loop's invariant at cursor
      `i - 1` with the sorted prefix `arr[..i]`. */
  lemma SelectKeeps(r: Run, input: seq<Elem>, i: nat)
    requires AtIter(r, input, i) && i < |input|
    ensures AtShift(Select(r.(polls := r.polls + 1), i), input, i, r.arr[..i], Current(r, i), i - 1)
  {
    var c := Current(r, i);
    var s := r.arr[i := c];
    assert r.arr[i] == r.arr[i..][0];
    assert r.arr[i + 1..] == r.arr[i..][1..];
    assert s[..i] == r.arr[..i];
    assert s[i + 1..] == r.arr[i + 1..];
    AppendKeeps(r.trace, Event(s, Selecting(c.value), r.comparisons, r.swaps), input);
  }

  /** A comparison that succeeds is impossible on a sorted input: the
      larger cell came from before `i` in the input. */
  lemma ShiftUnsorted(r: Run, input: seq<Elem>, i: nat, prefix: seq<Elem>, cur: Elem, j: int)
    requires AtShift(r, input, i, prefix, cur, j) && 0 <= j && r.arr[j].value > cur.value
    ensures !NonDecreasing(input)
  {
    assert r.arr[j] == r.arr[..j + 1][j];
    StableValueOccurs(prefix, input[..i], j);
  }

  /** The cells after one shift at cursor `j`. */
  lemma ShiftArrangement(s: seq<Elem>, prefix: seq<Elem>, i: nat, j: nat)
    requires j < i < |s| && |prefix| == i && AllSorted(prefix)
    requires s[..j + 1] == prefix[..j + 1] && s[j + 2..i + 1] == prefix[j + 1..]
    ensures var s1 := Mark(s, j, Comparing);
      var a := Mark(s1[j + 1 := s1[j].(state := Swapping)], j + 1, Sorted);
      s[j] == prefix[j] && a[..j] == prefix[..j] && a[j + 1..i + 1] == prefix[j..] && a[i + 1..] == s[i + 1..]
  {
    var s1 := Mark(s, j, Comparing);
    var a := Mark(s1[j + 1 := s1[j].(state := Swapping)], j + 1, Sorted);
    assert s[j] == s[..j + 1][j];
    assert a[j + 1] == prefix[j];
    forall q | j + 1 < q < i + 1 ensures a[q] == prefix[q - 1] {
      assert s[q] == s[j + 2..i + 1][q - j - 2];
    }
    forall q | 0 <= q < j ensures a[q] == prefix[q] {
      assert s[q] == s[..j + 1][q];
    }
    assert a[j + 1..i + 1] == prefix[j..];
  }

  /** One run of the `while` body takes the loop invariant from cursor `j`
      to cursor `j - 1`. */
  lemma ShiftKeeps(r: Run, input: seq<Elem>, i: nat, prefix: seq<Elem>, cur: Elem, j: int)
    requires AtShift(r, input, i, prefix, cur, j) && 0 <= j && r.arr[j].value > cur.value
    ensures AtShift(ShiftAt(r.(polls := r.polls + 1), cur, j), input, i, prefix, cur, j - 1)
  {
    ShiftUnsorted(r, input, i, prefix, cur, j);
    ShiftArrangement(r.arr, prefix, i, j);
    var s1 := Mark(r.arr, j, Comparing);
    var s2 := s1[j + 1 := s1[j].(state := Swapping)];
    var e1 := Event(s1, CompareWith(cur.value, s1[j].value), r.comparisons + 1, r.swaps);
    var e2 := Event(s2, MovingRight(s2[j].value), r.comparisons + 1, r.swaps + 1);
    AppendKeeps(r.trace, e1, input);
    AppendKeeps(r.trace + [e1], e2, input);
    assert r.trace + [e1] + [e2] == r.trace + [e1, e2];
  }

  /** The cells after writing `c` into the hole at `j + 1`: the prefix
      with `c` inserted there, then the input's untouched cells. */
  lemma InsertShape(s: seq<Elem>, i: nat, prefix: seq<Elem>, c: Elem, j: int)
    requires i < |s| && -1 <= j < i && |prefix| == i
    requires s[..j + 1] == prefix[..j + 1] && s[j + 2..i + 1] == prefix[j + 1..]
    ensures s[j + 1 := c][..i + 1] == InsertInto(prefix, j + 1, c)
    ensures s[j + 1 := c][i + 1..] == s[i + 1..]
    ensures j >= 0 ==> s[j] == prefix[j]
  {
    var a, u := s[j + 1 := c], InsertInto(prefix, j + 1, c);
    forall q | 0 <= q < i + 1 ensures a[q] == u[q] {
      if q < j + 1 {
        assert s[q] == s[..j + 1][q];
      } else if q > j + 1 {
        assert s[q] == s[j + 2..i + 1][q - j - 2];
      }
    }
    if j >= 0 {
      assert s[j] == s[..j + 1][j];
    }
  }

  /** `c` inserted after the cells of a sorted prefix no larger than it
      and before the ones larger than it keeps the prefix sorted. */
  lemma InsertOrder(prefix: seq<Elem>, c: Elem, j: int)
    requires -1 <= j < |prefix| && NonDecreasing(prefix)
    requires forall q :: j + 1 <= q < |prefix| ==> prefix[q].value > c.value
    requires j >= 0 ==> prefix[j].value <= c.value
    ensures NonDecreasing(InsertInto(prefix, j + 1, c))
  {
    var u := InsertInto(prefix, j + 1, c);
    forall p, q | 0 <= p < q < |u| ensures u[p].value <= u[q].value {
      if q == j + 1 && p < j {
        assert prefix[p].value <= prefix[j].value;
      }
    }
  }

  /** A cell shown as sorted, inserted into a prefix shown as sorted. */
  lemma InsertAllSorted(prefix: seq<Elem>, c: Elem, k: int)
    requires 0 <= k <= |prefix| && AllSorted(prefix) && c.state == Sorted
    ensures AllSorted(InsertInto(prefix, k, c))
  {
  }

  /** The input's cell `i`, inserted before the cells of a stable
      rearrangement of the input's first `i` cells that are larger than it,
      makes a stable rearrangement of the first `i + 1` cells. */
  lemma InsertStable(input: seq<Elem>, i: nat, prefix: seq<Elem>, c: Elem, k: int)
    requires i < |input| && 0 <= k <= |prefix| && StablePerm(prefix, input[..i])
    requires c.value == input[i].value && c.id == input[i].id
    requires forall q :: k <= q < |prefix| ==> prefix[q].value > c.value
    ensures StablePerm(InsertInto(prefix, k, c), input[..i + 1])
  {
    var front, block := prefix[..k], prefix[k..];
    assert prefix == front + block;
    forall q | 0 <= q < |block| ensures block[q].value > c.value {
      assert block[q] == prefix[k + q];
    }
    InsertIntoSplit(prefix, k, c);
    InsertBeforeLargerStable(front, block, c);
    AppendStable(prefix, input[..i], c, input[i]);
    assert input[..i + 1] == input[..i] + [input[i]];
    forall v ensures IdsWith(InsertInto(prefix, k, c), v) == IdsWith(input[..i + 1], v) {
      assert IdsWith(front + [c] + block, v) == IdsWith(front + block + [c], v);
    }
  }

  /** The input's cell `i`, shown as sorted and inserted into a sorted,
      sorted-shown, stable rearrangement of the input's first `i` cells just
      before those larger than it, makes one of the first `i + 1` cells. */
  lemma InsertSortedRun(input: seq<Elem>, i: nat, prefix: seq<Elem>, c: Elem, j: int)
    requires i < |input| && -1 <= j < i && c == input[i].(state := Sorted)
    requires |prefix| == i && NonDecreasing(prefix) && AllSorted(prefix) && StablePerm(prefix, input[..i])
    requires forall q :: j + 1 <= q < i ==> prefix[q].value > c.value
    requires j >= 0 ==> prefix[j].value <= c.value
    ensures var u := InsertInto(prefix, j + 1, c);
      NonDecreasing(u) && AllSorted(u) && StablePerm(u, input[..i + 1])
  {
    InsertOrder(prefix, c, j);
    InsertAllSorted(prefix, c, j + 1);
    InsertStable(input, i, prefix, c, j + 1);
  }

  /** An array whose first `m` cells are a sorted, sorted-shown, stable
      rearrangement `u` of the input's first `m`, followed by the rest of
      the input, has a sorted prefix of `m` cells. */
  lemma SortedFromParts(a: seq<Elem>, input: seq<Elem>, m: nat, u: seq<Elem>)
    requires m <= |a| == |input| && a[..m] == u && a[m..] == input[m..]
    requires NonDecreasing(u) && AllSorted(u) && StablePerm(u, input[..m])
    ensures SortedPrefix(a, input, m)
  {
  }

  /** Writing the input's cell `i`, shown as sorted, into the hole after
      the cursor leaves a sorted prefix of `i + 1` cells. */
  lemma InsertPrefix(s: seq<Elem>, input: seq<Elem>, i: nat, prefix: seq<Elem>, c: Elem, j: int)
    requires |s| == |input| && i < |input| && -1 <= j < i && c == input[i].(state := Sorted)
    requires |prefix| == i && NonDecreasing(prefix) && AllSorted(prefix) && StablePerm(prefix, input[..i])
    requires s[..j + 1] == prefix[..j + 1] && s[j + 2..i + 1] == prefix[j + 1..] && s[i + 1..] == input[i + 1..]
    requires forall q :: j + 1 <= q < i ==> prefix[q].value > c.value
    requires j >= 0 ==> s[j].value <= c.value
    ensures SortedPrefix(s[j + 1 := c], input, i + 1) && s[j + 1 := c][j + 1] == c
  {
    InsertShape(s, i, prefix, c, j);
    InsertSortedRun(input, i, prefix, c, j);
    SortedFromParts(s[j + 1 := c], input, i + 1, InsertInto(prefix, j + 1, c));
  }

  /** Inserting the selected cell ends the iteration with a sorted prefix
      one longer. */
  lemma InsertKeeps(r: Run, input: seq<Elem>, i: nat, prefix: seq<Elem>, cur: Elem, j: int)
    requires AtShift(r, input, i, prefix, cur, j) && !(j >= 0 && r.arr[j].value > cur.value)
    ensures AtIter(InsertAt(r, cur, j), input, i + 1)
  {
    var c := cur.(state := Sorted);
    InsertPrefix(r.arr, input, i, prefix, c, j);
    var e := Event(r.arr[j + 1 := c], Inserted(cur.value, j + 1), r.comparisons, r.swaps);
    AppendLast(r.trace, e, input);
    TraceExtends(r.trace, e, input);
  }

  /** The `while` loop, when a poll stops it, stops in a consistent state. */
  lemma {:induction false} ShiftsStopKeeps(answers: seq<bool>, r: Run, input: seq<Elem>, i: nat, prefix: seq<Elem>, cur: Elem, j: int)
    requires AtShift(r, input, i, prefix, cur, j)
    ensures Shifts(answers, r, cur, j).0.stopped ==> InProgress(Shifts(answers, r, cur, j).0, input)
    decreases j + 1
  {
    if j >= 0 && r.arr[j].value > cur.value && !Polled(answers, r.polls) {
      ShiftKeeps(r, input, i, prefix, cur, j);
      ShiftsUnfold(answers, r, cur, j);
      ShiftsStopKeeps(answers, ShiftAt(r.(polls := r.polls + 1), cur, j), input, i, prefix, cur, j - 1);
    } else {
      ShiftsEnd(answers, r, cur, j);
    }
  }

  /** The `while` loop, when it is not stopped, keeps its invariant and
      ends at a cursor whose cell, if any, is no larger than `cur`. */
  lemma {:induction false} ShiftsKeeps(answers: seq<bool>, r: Run, input: seq<Elem>, i: nat, prefix: seq<Elem>, cur: Elem, j: int)
    requires AtShift(r, input, i, prefix, cur, j)
    ensures var res := Shifts(answers, r, cur, j);
      !res.0.stopped ==> AtShift(res.0, input, i, prefix, cur, res.1) && !(res.1 >= 0 && res.0.arr[res.1].value > cur.value)
    decreases j + 1
  {
    if j >= 0 && r.arr[j].value > cur.value && !Polled(answers, r.polls) {
      ShiftKeeps(r, input, i, prefix, cur, j);
      ShiftsUnfold(answers, r, cur, j);
      ShiftsKeeps(answers, ShiftAt(r.(polls := r.polls + 1), cur, j), input, i, prefix, cur, j - 1);
    } else {
      ShiftsEnd(answers, r, cur, j);
    }
  }

  /** One iteration of the `for` loop, when a poll stops it, stops in a
      consistent state. */
  lemma IterationStopKeeps(answers: seq<bool>, r: Run, input: seq<Elem>, i: nat)
    requires AtIter(r, input, i) && i < |input|
    ensures Iteration(answers, r, i).stopped ==> InProgress(Iteration(answers, r, i), input)
  {
    if !Polled(answers, r.polls) {
      SelectKeeps(r, input, i);
      ShiftsStopKeeps(answers, Select(r.(polls := r.polls + 1), i), input, i, r.arr[..i], Current(r, i), i - 1);
    }
  }

  /** The `while` loop and the insertion after it, when not stopped, end
      the iteration with the outer invariant at `i + 1`. */
  lemma ShiftsInsertKeeps(answers: seq<bool>, r: Run, input: seq<Elem>, i: nat, prefix: seq<Elem>, cur: Elem)
    requires AtShift(r, input, i, prefix, cur, i - 1)
    ensures var res := Shifts(answers, r, cur, i - 1);
      !res.0.stopped ==> AtIter(InsertAt(res.0, cur, res.1), input, i + 1)
  {
    ShiftsKeeps(answers, r, input, i, prefix, cur, i - 1);
    var res := Shifts(answers, r, cur, i - 1);
    if !res.0.stopped {
      InsertKeeps(res.0, input, i, prefix, cur, res.1);
    }
  }

  /** One iteration of the `for` loop, when not stopped, moves the outer
      invariant to `i + 1`. */
  lemma IterationKeeps(answers: seq<bool>, r: Run, input: seq<Elem>, i: nat)
    requires AtIter(r, input, i) && i < |input|
    ensures !Iteration(answers, r, i).stopped ==> AtIter(Iteration(answers, r, i), input, i + 1)
  {
    if !Polled(answers, r.polls) {
      SelectKeeps(r, input, i);
      ShiftsInsertKeeps(answers, Select(r.(polls := r.polls + 1), i), input, i, r.arr[..i], Current(r, i));
    }
  }

  /** The completion report after the last iteration. */
  lemma FinishCompletes(r: Run, input: seq<Elem>, i: nat)
    requires AtIter(r, input, i) && i >= |input|
    ensures Completed(Emit(r, InsertionDone), input)
  {
    var e := Event(r.arr, InsertionDone, r.comparisons, r.swaps);
    AppendLast(r.trace, e, input);
    assert (r.trace + [e])[..|r.trace|] == r.trace;
  }

  /** The `for` loop from iteration `i`, when it stops, stops in a
      consistent state. */
  lemma {:induction false} IterationsKeeps(answers: seq<bool>, r: Run, input: seq<Elem>, i: nat)
    requires AtIter(r, input, i)
    ensures Iterations(answers, r, i).stopped ==> InProgress(Iterations(answers, r, i), input)
    decreases |input| - i
  {
    if i < |input| {
      IterationStopKeeps(answers, r, input, i);
      IterationKeeps(answers, r, input, i);
      IterationsUnfold(answers, r, i);
      if !Iteration(answers, r, i).stopped {
        IterationsKeeps(answers, Iteration(answers, r, i), input, i + 1);
      }
    }
  }

  /** The `for` loop from iteration `i`, when it does not stop, completes. */
  lemma {:induction false} IterationsCompletes(answers: seq<bool>, r: Run, input: seq<Elem>, i: nat)
    requires AtIter(r, input, i)
    ensures !Iterations(answers, r, i).stopped ==> Completed(Iterations(answers, r, i), input)
    decreases |input| - i
  {
    if i < |input| {
      IterationKeeps(answers, r, input, i);
      IterationsUnfold(answers, r, i);
      if !Iteration(answers, r, i).stopped {
        IterationsCompletes(answers, Iteration(answers, r, i), input, i + 1);
      }
    } else {
      FinishCompletes(r, input, i);
    }
  }

  /** Every run of insertion sort, stopped or not. */
  lemma InsertionRunKeeps(input: seq<Elem>, answers: seq<bool>)
    ensures var r := InsertionSort(input, answers);
      (r.stopped ==> InProgress(r, input)) && (!r.stopped ==> Completed(r, input))
  {
    if |input| > 0 {
      BeginKeeps(input);
      IterationsKeeps(answers, Begin(input), input, 1);
      IterationsCompletes(answers, Begin(input), input, 1);
    } else {
      var e := Event([], InsertionDone, 0, 0);
      AppendLast([], e, input);
      assert [] + [e] == [e];
    }
  }

  // ---------------------------------------------------------------------
  // Polls and early returns

  lemma {:induction false} ShiftsPolls(answers: seq<bool>, r: Run, cur: Elem, j: int)
    requires -1 <= j < |r.arr| - 1 && !r.stopped && PollsFalse(answers, r)
    ensures PolledUntilFirstYes(answers, Shifts(answers, r, cur, j).0)
    decreases j + 1
  {
    if j >= 0 && r.arr[j].value > cur.value && !Polled(answers, r.polls) {
      ShiftsPolls(answers, ShiftAt(r.(polls := r.polls + 1), cur, j), cur, j - 1);
    }
  }

  lemma IterationPolls(answers: seq<bool>, r: Run, i: nat)
    requires 1 <= i < |r.arr| && !r.stopped && PollsFalse(answers, r)
    ensures PolledUntilFirstYes(answers, Iteration(answers, r, i))
  {
    if !Polled(answers, r.polls) {
      ShiftsPolls(answers, Select(r.(polls := r.polls + 1), i), Current(r, i), i - 1);
    }
  }

  lemma {:induction false} IterationsPolls(answers: seq<bool>, r: Run, i: nat)
    requires 1 <= i && !r.stopped && PollsFalse(answers, r)
    ensures PolledUntilFirstYes(answers, Iterations(answers, r, i))
    decreases |r.arr| - i
  {
    if i < |r.arr| {
      IterationPolls(answers, r, i);
      if !Iteration(answers, r, i).stopped {
        IterationsPolls(answers, Iteration(answers, r, i), i + 1);
      }
    }
  }

  lemma {:induction false} ShiftsExtends(answers: seq<bool>, r: Run, cur: Elem, j: int)
    requires -1 <= j < |r.arr| - 1
    ensures IsPrefix(r.trace, Shifts(answers, r, cur, j).0.trace)
    decreases j + 1
  {
    if j >= 0 && r.arr[j].value > cur.value && !Polled(answers, r.polls) {
      var r1 := ShiftAt(r.(polls := r.polls + 1), cur, j);
      ShiftsExtends(answers, r1, cur, j - 1);
      PrefixTrans(r.trace, r1.trace, Shifts(answers, r1, cur, j - 1).0.trace);
    }
  }

  lemma IterationExtends(answers: seq<bool>, r: Run, i: nat)
    requires 1 <= i < |r.arr|
    ensures IsPrefix(r.trace, Iteration(answers, r, i).trace)
  {
    if !Polled(answers, r.polls) {
      var r1 := Select(r.(polls := r.polls + 1), i);
      var res := Shifts(answers, r1, Current(r, i), i - 1);
      ShiftsExtends(answers, r1, Current(r, i), i - 1);
      PrefixTrans(r.trace, r1.trace, res.0.trace);
      if !res.0.stopped {
        PrefixTrans(r.trace, res.0.trace, InsertAt(res.0, Current(r, i), res.1).trace);
      }
    }
  }

  lemma {:induction false} IterationsExtends(answers: seq<bool>, r: Run, i: nat)
    requires 1 <= i
    ensures IsPrefix(r.trace, Iterations(answers, r, i).trace)
    decreases |r.arr| - i
  {
    if i < |r.arr| {
      var r1 := Iteration(answers, r, i);
      IterationExtends(answers, r, i);
      if !r1.stopped {
        IterationsExtends(answers, r1, i + 1);
        PrefixTrans(r.trace, r1.trace, Iterations(answers, r1, i + 1).trace);
      }
    }
  }

  /** With no true answer the `while` loop never stops. */
  lemma {:induction false} ShiftsNeverStops(r: Run, cur: Elem, j: int)
    requires -1 <= j < |r.arr| - 1 && !r.stopped
    ensures !Shifts([], r, cur, j).0.stopped
    decreases j + 1
  {
    if j >= 0 && r.arr[j].value > cur.value {
      ShiftsNeverStops(ShiftAt(r.(polls := r.polls + 1), cur, j), cur, j - 1);
    }
  }

  /** With no true answer the `for` loop never stops. */
  lemma {:induction false} IterationsNeverStops(r: Run, i: nat)
    requires 1 <= i && !r.stopped
    ensures !Iterations([], r, i).stopped
    decreases |r.arr| - i
  {
    if i < |r.arr| {
      ShiftsNeverStops(Select(r.(polls := r.polls + 1), i), Current(r, i), i - 1);
      IterationsNeverStops(Iteration([], r, i), i + 1);
    }
  }

  lemma StoppedBeforeExtends(t: seq<Event>, full: seq<Event>, more: seq<Event>)
    requires StoppedBefore(t, full) && IsPrefix(full, more)
    ensures StoppedBefore(t, more)
  {
    PrefixTrans(t, full, more);
    assert more[|t|] == full[|t|];
  }

  /** A never-stopped `while` loop whose condition holds emits a comparison
      next. */
  lemma ShiftsCompareNext(r: Run, cur: Elem, j: int)
    requires 0 <= j < |r.arr| - 1 && r.arr[j].value > cur.value
    ensures StoppedBefore(r.trace, Shifts([], r, cur, j).0.trace)
  {
    var r1 := ShiftAt(r.(polls := r.polls + 1), cur, j);
    ShiftsUnfold([], r, cur, j);
    ShiftsExtends([], r1, cur, j - 1);
    PrefixAppend(r.trace, r1.trace[|r.trace|..]);
    StoppedBeforeExtends(r.trace, r1.trace, Shifts([], r1, cur, j - 1).0.trace);
  }

  /** The `while` loop under `answers` against the same loop with no true
      answer: the same run until the first true poll, and there the other
      run goes on with a comparison. */
  lemma {:induction false} ShiftsAgainstFull(answers: seq<bool>, r: Run, cur: Elem, j: int)
    requires -1 <= j < |r.arr| - 1 && !r.stopped
    ensures var r', f' := Shifts(answers, r, cur, j), Shifts([], r, cur, j);
      if r'.0.stopped then StoppedBefore(r'.0.trace, f'.0.trace) else r' == f'
    decreases j + 1
  {
    if j >= 0 && r.arr[j].value > cur.value {
      if Polled(answers, r.polls) {
        ShiftsStop(answers, r, cur, j);
        ShiftsCompareNext(r, cur, j);
      } else {
        ShiftsUnfold(answers, r, cur, j);
        ShiftsUnfold([], r, cur, j);
        ShiftsAgainstFull(answers, ShiftAt(r.(polls := r.polls + 1), cur, j), cur, j - 1);
      }
    }
  }

  /** A never-stopped iteration emits a selection first. */
  lemma SelectNext(r: Run, i: nat)
    requires 1 <= i < |r.arr| && !r.stopped
    ensures StoppedBefore(r.trace, Iteration([], r, i).trace)
  {
    var r1 := Select(r.(polls := r.polls + 1), i);
    var res := Shifts([], r1, Current(r, i), i - 1);
    ShiftsNeverStops(r1, Current(r, i), i - 1);
    ShiftsExtends([], r1, Current(r, i), i - 1);
    var e := Event(r1.arr, Selecting(Current(r, i).value), r.comparisons, r.swaps);
    PrefixAppend(r.trace, [e]);
    PrefixAppend(res.0.trace, [Event(InsertAt(res.0, Current(r, i), res.1).arr, Inserted(Current(r, i).value, res.1 + 1), res.0.comparisons, res.0.swaps)]);
    PrefixTrans(r1.trace, res.0.trace, Iteration([], r, i).trace);
    StoppedBeforeExtends(r.trace, r1.trace, Iteration([], r, i).trace);
  }

  /** One iteration under `answers` against the same iteration with no true
      answer. */
  lemma IterationAgainstFull(answers: seq<bool>, r: Run, i: nat)
    requires 1 <= i < |r.arr| && !r.stopped
    ensures !Iteration([], r, i).stopped
    ensures var r', f' := Iteration(answers, r, i), Iteration([], r, i);
      if r'.stopped then StoppedBefore(r'.trace, f'.trace) else r' == f'
  {
    var r1 := Select(r.(polls := r.polls + 1), i);
    var cur := Current(r, i);
    ShiftsNeverStops(r1, cur, i - 1);
    if Polled(answers, r.polls) {
      SelectNext(r, i);
    } else {
      ShiftsAgainstFull(answers, r1, cur, i - 1);
      var res, full := Shifts(answers, r1, cur, i - 1), Shifts([], r1, cur, i - 1);
      if res.0.stopped {
        StoppedBeforeExtends(res.0.trace, full.0.trace, InsertAt(full.0, cur, full.1).trace);
      }
    }
  }

  lemma {:induction false} IterationsAgainstFull(answers: seq<bool>, r: Run, i: nat)
    requires 1 <= i && !r.stopped
    ensures Iterations(answers, r, i).stopped ==> StoppedBefore(Iterations(answers, r, i).trace, Iterations([], r, i).trace)
    ensures !Iterations(answers, r, i).stopped ==> Iterations(answers, r, i) == Iterations([], r, i)
    decreases |r.arr| - i
  {
    if i < |r.arr| {
      IterationAgainstFull(answers, r, i);
      IterationsUnfold(answers, r, i);
      IterationsUnfold([], r, i);
      var r1, f1 := Iteration(answers, r, i), Iteration([], r, i);
      if r1.stopped {
        IterationsExtends([], f1, i + 1);
        StoppedBeforeExtends(r1.trace, f1.trace, Iterations([], f1, i + 1).trace);
      } else {
        IterationsAgainstFull(answers, r1, i + 1);
      }
    }
  }

  // ---------------------------------------------------------------------
  // The properties of `insertionSort`

  /** The facts about event `k` of a prefix hold of event `k` of the whole
      trace. */
  lemma LiftAt(t: seq<Event>, m: int, input: seq<Elem>, k: int)
    requires 0 <= k < m <= |t|
    requires EventOK(t[..m][k], input) && MovePairedAt(t[..m], k) && InsertedAt(t[..m], k, input)
    requires t[..m][k].step.FirstSorted? ==> k == 0
    ensures EventOK(t[k], input) && MovePairedAt(t, k) && InsertedAt(t, k, input)
    ensures t[k].step.FirstSorted? ==> k == 0
  {
    assert t[..m][k] == t[k];
    assert k > 0 ==> t[..m][k - 1] == t[k - 1];
    assert t[..m][..k + 1] == t[..k + 1];
  }

  /** Every event of a trace that keeps the recursive invariant is right
      against the events before it, and none is the completion event. */
  lemma {:induction false} TraceAt(t: seq<Event>, input: seq<Elem>, k: int)
    requires TraceOK(t, input) && 0 <= k < |t|
    ensures EventOK(t[k], input) && MovePairedAt(t, k) && InsertedAt(t, k, input)
    ensures (t[k].step.FirstSorted? ==> k == 0) && !t[k].step.InsertionDone?
    decreases |t|
  {
    if k < |t| - 1 {
      TraceAt(t[..|t| - 1], input, k);
      LiftAt(t, |t| - 1, input, k);
    }
  }

  /** Event `k` of a trace that keeps the recursive invariant, or that
      keeps it up to a final completion event. */
  lemma TraceEventAt(t: seq<Event>, input: seq<Elem>, k: int, stopped: bool)
    requires 0 <= k < |t|
    requires if stopped then TraceOK(t, input)
      else (TraceOK(t[..|t| - 1], input) && LastOK(t, input) && t[|t| - 1].step.InsertionDone?)
    ensures EventOK(t[k], input) && MovePairedAt(t, k) && InsertedAt(t, k, input)
    ensures (t[k].step.FirstSorted? ==> k == 0) && (t[k].step.InsertionDone? ==> k == |t| - 1 && !stopped)
  {
    if stopped {
      TraceAt(t, input, k);
    } else if k < |t| - 1 {
      TraceAt(t[..|t| - 1], input, k);
      LiftAt(t, |t| - 1, input, k);
    }
  }

  /** The trace of any run keeps the recursive invariant, up to the
      completion event when there is one. */
  lemma InsertionTraceKeeps(input: seq<Elem>, answers: seq<bool>)
    ensures var r := InsertionSort(input, answers);
      if r.stopped then TraceOK(r.trace, input)
      else (|r.trace| > 0 && TraceOK(r.trace[..|r.trace| - 1], input) && LastOK(r.trace, input)
            && r.trace[|r.trace| - 1].step.InsertionDone?)
  {
    InsertionRunKeeps(input, answers);
  }

  /** Event `k` of any run of insertion sort is an insertion step over a
      snapshot of the input's length with the counters in step, is paired
      with the comparison before it when it is a shift, reports a sorted
      prefix when it ends an iteration, reports the first cell only first,
      and is the completion only as the last event of a run not stopped. */
  lemma InsertionEventAt(input: seq<Elem>, answers: seq<bool>, k: int)
    requires 0 <= k < |InsertionSort(input, answers).trace|
    ensures var r := InsertionSort(input, answers);
      EventOK(r.trace[k], input) && MovePairedAt(r.trace, k) && InsertedAt(r.trace, k, input)
      && (r.trace[k].step.FirstSorted? ==> k == 0)
      && (r.trace[k].step.InsertionDone? ==> k == |r.trace| - 1 && !r.stopped)
  {
    InsertionTraceKeeps(input, answers);
    var r := InsertionSort(input, answers);
    TraceEventAt(r.trace, input, k, r.stopped);
  }

  /** No run leaves a comparison waiting for its shift, a run that is not
      stopped completes, and on a sorted input the last event reports no
      shift. */
  lemma InsertionOutcome(input: seq<Elem>, answers: seq<bool>)
    ensures var r := InsertionSort(input, answers);
      !MovePending(r.trace) && (!r.stopped ==> Completed(r, input))
      && (NonDecreasing(input) && |r.trace| > 0 ==> r.trace[|r.trace| - 1].swaps == 0)
  {
    InsertionRunKeeps(input, answers);
  }

  lemma MovesFollow(t: seq<Event>, input: seq<Elem>)
    requires forall k :: 0 <= k < |t| ==> EventOK(t[k], input) && MovePairedAt(t, k)
    requires !MovePending(t)
    ensures ShiftsFollowCompares(t)
  {
    forall k | 0 <= k < |t| && t[k].step.CompareWith?
      ensures t[k].step.v > t[k].step.current && k + 1 < |t| && t[k + 1].step == MovingRight(t[k].step.v)
    {
      assert EventOK(t[k], input);
      if k + 1 < |t| {
        assert MovePairedAt(t, k + 1);
      }
    }
    forall k | 0 <= k < |t| && t[k].step.MovingRight?
      ensures 0 < k && t[k - 1].step.CompareWith? && t[k - 1].step.v == t[k].step.v
    {
      assert MovePairedAt(t, k);
    }
  }

  /** On completion the last event is "Insertion sort completed!"; its
      snapshot is sorted, shows every cell as sorted, and is a stable
      permutation of the input (so the same multiset of (value, id) keys);
      it reports as many comparisons as shifts, none at all on an input
      already sorted; no earlier event is the completion. */
  lemma InsertionSortedOnCompletion(input: seq<Elem>, answers: seq<bool>)
    requires !InsertionSort(input, answers).stopped
    ensures var t := InsertionSort(input, answers).trace;
      |t| > 0 && t[|t| - 1].step == InsertionDone
      && NonDecreasing(t[|t| - 1].snap) && AllSorted(t[|t| - 1].snap)
      && StablePerm(t[|t| - 1].snap, input)
      && multiset(Keys(t[|t| - 1].snap)) == multiset(Keys(input))
      && t[|t| - 1].comparisons == t[|t| - 1].swaps
      && (NonDecreasing(input) ==> t[|t| - 1].comparisons == 0)
      && forall k :: 0 <= k < |t| - 1 ==> t[k].step != InsertionDone
  {
    InsertionOutcome(input, answers);
    var t := InsertionSort(input, answers).trace;
    var e := t[|t| - 1];
    assert e.snap[..|input|] == e.snap && input[..|input|] == input;
    StablePermIsPermutation(e.snap, input);
    forall k | 0 <= k < |t| - 1 ensures t[k].step != InsertionDone {
      InsertionEventAt(input, answers, k);
    }
  }

  /** The `m`-th "Inserted v at position pos" event, here event `k`, ends
      iteration `m`: the first `m + 1` cells of its snapshot are sorted,
      shown as sorted and a stable permutation of the input's first `m + 1`
      cells, the cells after them are the input's, and the cell at `pos` is
      the input's cell `m` shown as sorted, whose value is `v`. */
  lemma InsertionOuterInvariant(input: seq<Elem>, answers: seq<bool>, k: int)
    requires 0 <= k < |InsertionSort(input, answers).trace|
    requires InsertionSort(input, answers).trace[k].step.Inserted?
    ensures var t := InsertionSort(input, answers).trace;
      var m, s := CountInserted(t[..k + 1]), t[k].snap;
      1 <= m < |input| && |s| == |input|
      && NonDecreasing(s[..m + 1]) && AllSorted(s[..m + 1]) && StablePerm(s[..m + 1], input[..m + 1])
      && s[m + 1..] == input[m + 1..]
      && 0 <= t[k].step.pos <= m && s[t[k].step.pos] == input[m].(state := Sorted)
      && t[k].step.v == input[m].value
  {
    InsertionEventAt(input, answers, k);
  }

  /** Every event reports as comparisons and shifts the numbers of
      comparison and shift events up to and including it, and the run ends
      with its counters equal to those numbers; so the counters never
      decrease, and every event reports as many comparisons as shifts,
      except a comparison event, which is one ahead until its shift is
      reported. */
  lemma InsertionCounters(input: seq<Elem>, answers: seq<bool>)
    ensures var r := InsertionSort(input, answers);
      r.comparisons == CountCompares(r.trace) && r.swaps == CountSwaps(r.trace)
    ensures var t := InsertionSort(input, answers).trace;
      forall k :: 0 <= k < |t| ==> t[k].comparisons == CountCompares(t[..k + 1]) && t[k].swaps == CountSwaps(t[..k + 1])
    ensures var t := InsertionSort(input, answers).trace;
      CountersMonotone(t)
      && forall k :: 0 <= k < |t| ==> t[k].comparisons == t[k].swaps + (if t[k].step.CompareWith? then 1 else 0)
  {
    InsertionOutcome(input, answers);
    InsertionReportsHold(input, answers);
    var t := InsertionSort(input, answers).trace;
    TraceCounted(t, input);
    CountedMonotone(t);
    forall k | 0 <= k < |t| ensures t[k].comparisons == t[k].swaps + (if t[k].step.CompareWith? then 1 else 0) {
      InsertionEventAt(input, answers, k);
    }
  }

  /** Every "Comparing current with v" event names a larger `v` and is
      followed at once by "Moving v one position right", and every shift
      follows the comparison of the cell it moves. */
  lemma InsertionShiftPairs(input: seq<Elem>, answers: seq<bool>)
    ensures ShiftsFollowCompares(InsertionSort(input, answers).trace)
  {
    InsertionOutcome(input, answers);
    var t := InsertionSort(input, answers).trace;
    forall k | 0 <= k < |t| ensures EventOK(t[k], input) && MovePairedAt(t, k) {
      InsertionEventAt(input, answers, k);
    }
    MovesFollow(t, input);
  }

  /** On an input already sorted nothing is compared or shifted: no event
      is a comparison or a shift, and every event reports both counters 0. */
  lemma InsertionSortedInput(input: seq<Elem>, answers: seq<bool>)
    requires NonDecreasing(input)
    ensures var t := InsertionSort(input, answers).trace;
      forall k :: 0 <= k < |t| ==>
        !t[k].step.CompareWith? && !t[k].step.MovingRight? && t[k].comparisons == 0 && t[k].swaps == 0
  {
    InsertionOutcome(input, answers);
    InsertionShiftPairs(input, answers);
    InsertionCounters(input, answers);
    var t := InsertionSort(input, answers).trace;
    forall k | 0 <= k < |t| ensures t[k].swaps == 0 {
      if k < |t| - 1 {
        assert t[k].swaps <= t[|t| - 1].swaps;
      }
    }
    forall k | 0 <= k < |t| ensures !t[k].step.CompareWith? {
      InsertionEventAt(input, answers, k);
      if k + 1 < |t| {
        InsertionEventAt(input, answers, k + 1);
        assert t[k].comparisons <= t[k + 1].comparisons;
      }
    }
    forall k | 0 <= k < |t| ensures !t[k].step.MovingRight? && t[k].comparisons == 0 {
      InsertionEventAt(input, answers, k);
      if k > 0 {
        assert !t[k - 1].step.CompareWith?;
      }
    }
  }

  /** A non-empty array first has its first cell shown as sorted and
      reported, with both counters 0, before `shouldStop` is polled: even a
      run stopped by the very first poll emits that event and nothing else. */
  lemma InsertionFirstSorted(input: seq<Elem>, answers: seq<bool>)
    requires |input| > 0
    ensures var t := InsertionSort(input, answers).trace;
      |t| > 0 && t[0] == Event(Mark(input, 0, Sorted), FirstSorted, 0, 0)
    ensures |input| > 1 && Polled(answers, 0) ==>
      InsertionSort(input, answers) == Run(Mark(input, 0, Sorted), 0, 0, [Event(Mark(input, 0, Sorted), FirstSorted, 0, 0)], 1, true)
  {
    IterationsExtends(answers, Begin(input), 1);
    if |input| > 1 {
      IterationsUnfold(answers, Begin(input), 1);
    }
  }

  /** An empty array is reported once, as completed, with both counters 0,
      and `shouldStop` is never polled. */
  lemma InsertionEmptyInput(answers: seq<bool>)
    ensures InsertionSort([], answers) == Run([], 0, 0, [Event([], InsertionDone, 0, 0)], 0, false)
  {
  }

  /** The run polls `shouldStop` once at the head of every iteration and
      once before every shift, until the first true answer and no further,
      and it stopped exactly when that answer came: the polls number the
      selection and comparison events, plus one for the poll that stopped
      the run. */
  lemma InsertionPolls(input: seq<Elem>, answers: seq<bool>)
    ensures PolledUntilFirstYes(answers, InsertionSort(input, answers))
    ensures var r := InsertionSort(input, answers);
      r.polls == CountSelected(r.trace) + CountCompares(r.trace) + (if r.stopped then 1 else 0)
  {
    IterationsPolls(answers, Begin(input), 1);
    InsertionReportsHold(input, answers);
  }

  /** A stopped run's trace is a strict prefix of the trace of the run that
      is never stopped, and the event it is missing next is a selection (the
      poll at the head of an iteration) or a comparison (the poll before a
      shift): nothing is emitted after the stop and there is no completion
      event. A run that is not stopped emits exactly the never-stopped
      trace. */
  lemma InsertionStopTruncates(input: seq<Elem>, answers: seq<bool>)
    ensures var r, full := InsertionSort(input, answers), InsertionSort(input, []);
      !full.stopped
      && if r.stopped then
           |r.trace| < |full.trace| && full.trace[..|r.trace|] == r.trace
           && (full.trace[|r.trace|].step.Selecting? || full.trace[|r.trace|].step.CompareWith?)
         else r.trace == full.trace
  {
    IterationsAgainstFull(answers, Begin(input), 1);
    IterationsNeverStops(Begin(input), 1);
  }
}
