/** The proofs that every run of bubble sort keeps the invariants of
    module BubbleInvariants, and the properties of
    `SortingAlgorithms.bubbleSort` (src/utils/sortingAlgorithms.ts:4-69)
    that follow. */
module BubbleProofs {
  import opened Types
  import opened Steps
  import opened BubbleSpec
  import opened BubbleInvariants
  import opened BubbleReports

  lemma {:induction false} PassesCostClosed(n: int, i: nat)
    ensures 2 * PassesCost(n, i) == i * (2 * n - 1 - i)
  {
    if i > 0 {
      PassesCostClosed(n, i - 1);
    }
  }

  /** All `n - 1` passes together make `n (n - 1) / 2` comparisons. */
  lemma AllPassesCost(n: int)
    requires n > 0
    ensures PassesCost(n, n - 1) == n * (n - 1) / 2
  {
    PassesCostClosed(n, n - 1);
  }

  /** Appending one event that is right against the trace so far. */
  lemma AppendKeeps(t: seq<Event>, e: Event, input: seq<Elem>)
    requires TraceOK(t, input) && LastBelow(t, e.comparisons, e.swaps) && EventOK(e, input)
    requires e.step.SwapPair? <==> SwapPending(t)
    requires e.step.SwapPair? ==> e.step == SwapPair(t[|t| - 1].step.a, t[|t| - 1].step.b)
    requires e.step.FinalPosition? ==>
      var p := |input| - CountFinal(t) - 1;
      0 <= p < |e.snap| && e.snap[p].value == e.step.v && SettledFrom(e.snap, p)
    ensures LastOK(t + [e], input) && LastBelow(t + [e], e.comparisons, e.swaps)
    ensures CountFinal(t + [e]) == CountFinal(t) + (if e.step.FinalPosition? then 1 else 0)
    ensures !e.step.BubbleDone? ==> TraceOK(t + [e], input)
  {
    AppendLast(t, e, input);
    if !e.step.BubbleDone? {
      TraceExtends(t, e, input);
    }
  }

  lemma AppendLast(t: seq<Event>, e: Event, input: seq<Elem>)
    requires LastBelow(t, e.comparisons, e.swaps) && EventOK(e, input)
    requires e.step.SwapPair? <==> SwapPending(t)
    requires e.step.SwapPair? ==> e.step == SwapPair(t[|t| - 1].step.a, t[|t| - 1].step.b)
    requires e.step.FinalPosition? ==>
      var p := |input| - CountFinal(t) - 1;
      0 <= p < |e.snap| && e.snap[p].value == e.step.v && SettledFrom(e.snap, p)
    ensures LastOK(t + [e], input) && LastBelow(t + [e], e.comparisons, e.swaps)
    ensures CountFinal(t + [e]) == CountFinal(t) + (if e.step.FinalPosition? then 1 else 0)
  {
    var t' := t + [e];
    assert t'[..|t|] == t;
    assert t'[..|t| + 1] == t';
  }

  lemma TraceExtends(t: seq<Event>, e: Event, input: seq<Elem>)
    requires TraceOK(t, input) && LastOK(t + [e], input) && !e.step.BubbleDone?
    ensures TraceOK(t + [e], input)
  {
    assert (t + [e])[..|t|] == t;
  }

  /** The event of a comparison of cells `j` and `j + 1`. */
  function ComparedEvent(r: Run, j: nat): Event
    requires j + 1 < |r.arr|
  {
    var s, x, y := r.arr, r.arr[j], r.arr[j + 1];
    Event(s[j := x.(state := Comparing)][j + 1 := y.(state := Comparing)], ComparePair(x.value, y.value), r.comparisons + 1, r.swaps)
  }

  /** The event of the swap of cells `j` and `j + 1`. */
  function SwappedEvent(r: Run, j: nat): Event
    requires j + 1 < |r.arr|
  {
    var s, x, y := r.arr, r.arr[j], r.arr[j + 1];
    Event(s[j := x.(state := Swapping)][j + 1 := y.(state := Swapping)], SwapPair(x.value, y.value), r.comparisons + 1, r.swaps + 1)
  }

  lemma CompareEventOK(r: Run, input: seq<Elem>, j: nat)
    requires InProgress(r, input) && j + 1 < |r.arr|
    ensures EventOK(ComparedEvent(r, j), input) && EventOK(SwappedEvent(r, j), input)
  {
    SameKeysStable(ComparedEvent(r, j).snap, r.arr);
    SameKeysStable(SwappedEvent(r, j).snap, r.arr);
  }

  /** After one comparison the cells hold the same keys, in a stable order. */
  lemma CompareArrStable(r: Run, input: seq<Elem>, j: nat)
    requires |r.arr| == |input| && StablePerm(r.arr, input) && j + 1 < |r.arr|
    ensures StablePerm(CompareAt(r, j).arr, input)
  {
    var s := r.arr;
    if s[j].value > s[j + 1].value {
      SwapStable(s, j);
      SameKeysStable(CompareAt(r, j).arr, s[j := s[j + 1]][j + 1 := s[j]]);
    } else {
      SameKeysStable(CompareAt(r, j).arr, s);
    }
  }

  /** One comparison, and the swap when it is out of order, keep the trace
      invariant and the permutation. */
  lemma CompareTraceKeeps(r: Run, input: seq<Elem>, j: nat)
    requires InProgress(r, input) && j + 1 < |r.arr|
    ensures InProgress(CompareAt(r, j), input)
    ensures CountFinal(CompareAt(r, j).trace) == CountFinal(r.trace)
  {
    var compared := ComparedEvent(r, j);
    CompareEventOK(r, input, j);
    CompareArrStable(r, input, j);
    AppendKeeps(r.trace, compared, input);
    if r.arr[j].value > r.arr[j + 1].value {
      AppendKeeps(r.trace + [compared], SwappedEvent(r, j), input);
      assert CompareAt(r, j).trace == r.trace + [compared] + [SwappedEvent(r, j)];
    } else {
      assert CompareAt(r, j).trace == r.trace + [compared];
    }
  }

  /** One comparison keeps the suffix settled and carries the largest value
      seen so far one cell to the right. */
  lemma CompareOrderKeeps(r: Run, input: seq<Elem>, i: nat, j: nat)
    requires AtStep(r, input, i, j) && j < |input| - i - 1
    ensures SettledFrom(CompareAt(r, j).arr, |input| - i)
    ensures forall p :: 0 <= p < j + 1 ==> CompareAt(r, j).arr[p].value <= CompareAt(r, j).arr[j + 1].value
  {
    var n := |input|;
    var s := r.arr;
    var a := CompareAt(r, j).arr;
    assert forall p :: 0 <= p < n && p != j && p != j + 1 ==> a[p] == s[p];
    assert a[j].value == s[j].value || a[j].value == s[j + 1].value;
    assert a[j + 1].value == s[j].value || a[j + 1].value == s[j + 1].value;
    assert a[j].value <= a[j + 1].value;
    forall p, q | 0 <= p < q < n && n - i <= q ensures a[p].value <= a[q].value {
      assert s[j].value <= s[q].value && s[j + 1].value <= s[q].value;
    }
  }

  /** One inner iteration keeps the inner invariant and moves it to `j + 1`. */
  lemma CompareAtKeeps(r: Run, input: seq<Elem>, i: nat, j: nat)
    requires AtStep(r, input, i, j) && j < |input| - i - 1
    ensures AtStep(CompareAt(r, j), input, i, j + 1)
  {
    CompareTraceKeeps(r, input, j);
    CompareOrderKeeps(r, input, i, j);
  }

  /** The inner loop of pass `i` keeps the invariants; when it is not
      stopped it ends with the largest of `arr[0..n-i-1]` at `n - i - 1`. */
  lemma {:induction false} PassKeeps(answers: seq<bool>, r: Run, input: seq<Elem>, i: nat, j: nat)
    requires AtStep(r, input, i, j)
    ensures InProgress(Pass(answers, r, i, j), input)
    ensures !Pass(answers, r, i, j).stopped ==> AtStep(Pass(answers, r, i, j), input, i, |input| - i - 1)
    decreases |input| - i - 1 - j
  {
    if j < |r.arr| - i - 1 && !Polled(answers, r.polls) {
      var r1 := r.(polls := r.polls + 1);
      assert AtStep(r1, input, i, j);
      CompareAtKeeps(r1, input, i, j);
      PassKeeps(answers, CompareAt(r1, j), input, i, j + 1);
    }
  }

  /** Marking the end of pass `i` settles one more cell. */
  lemma EndPassKeeps(r: Run, input: seq<Elem>, i: nat)
    requires i + 1 < |input|
    requires AtStep(r, input, i, |input| - i - 1)
    ensures AtPass(EndPass(r, i), input, i + 1)
  {
    var n := |input|;
    var k := n - i - 1;
    var r' := EndPass(r, i);
    var s := r'.arr;
    assert s == r.arr[k := r.arr[k].(state := Sorted)];
    SameKeysStable(s, r.arr);
    assert SettledFrom(s, k);
    var e := Event(s, FinalPosition(s[k].value), r.comparisons, r.swaps);
    AppendKeeps(r.trace, e, input);
  }

  /** The completion step after the last pass. */
  lemma FinishCompletes(r: Run, input: seq<Elem>, i: nat)
    requires AtPass(r, input, i) && i + 1 >= |input|
    ensures Completed(Finish(r), input)
  {
    var r' := Finish(r);
    var s := r'.trace[|r'.trace| - 1].snap;
    FinishSnapshot(r, input, i);
    AppendKeeps(r.trace, Event(s, BubbleDone, r.comparisons, r.swaps), input);
    assert r'.trace[..|r'.trace| - 1] == r.trace;
  }

  /** The snapshot of the completion event is sorted, displayed as sorted,
      a stable permutation, and taken after `n (n - 1) / 2` comparisons. */
  lemma FinishSnapshot(r: Run, input: seq<Elem>, i: nat)
    requires AtPass(r, input, i) && i + 1 >= |input|
    ensures var n, s := |input|, Finish(r).trace[|Finish(r).trace| - 1].snap;
      s == (if n > 0 then Mark(r.arr, 0, Sorted) else r.arr)
      && NonDecreasing(s) && (n > 0 ==> AllSorted(s)) && StablePerm(s, input)
      && r.comparisons == n * (n - 1) / 2
  {
    var n := |input|;
    if n > 0 {
      var s := Mark(r.arr, 0, Sorted);
      SameKeysStable(s, r.arr);
      AllPassesCost(n);
      assert SettledFrom(r.arr, 1);
    }
  }

  /** The pass that stops leaves the invariant of a stopped run. */
  lemma PassesKeepsStop(answers: seq<bool>, r: Run, input: seq<Elem>, i: nat)
    requires AtPass(r, input, i) && i + 1 < |input| && Pass(answers, r, i, 0).stopped
    ensures Passes(answers, r, i).stopped && InProgress(Passes(answers, r, i), input)
  {
    PassesUnfold(answers, r, i);
    PassKeeps(answers, r, input, i, 0);
  }

  /** A pass that is not stopped takes the outer invariant to the next pass. */
  lemma PassesKeepsGo(answers: seq<bool>, r: Run, input: seq<Elem>, i: nat)
    requires AtPass(r, input, i) && i + 1 < |input| && !Pass(answers, r, i, 0).stopped
    ensures var r2 := EndPass(Pass(answers, r, i, 0), i);
      AtPass(r2, input, i + 1) && Passes(answers, r, i) == Passes(answers, r2, i + 1)
  {
    PassesUnfold(answers, r, i);
    PassKeeps(answers, r, input, i, 0);
    EndPassKeeps(Pass(answers, r, i, 0), input, i);
  }

  /** The completion step leaves a completed run. */
  lemma PassesKeepsFinish(answers: seq<bool>, r: Run, input: seq<Elem>, i: nat)
    requires AtPass(r, input, i) && i + 1 >= |input|
    ensures !Passes(answers, r, i).stopped && Completed(Passes(answers, r, i), input)
  {
    FinishUnfold(answers, r, i);
    FinishCompletes(r, input, i);
  }

  /** The outer loop from pass `i`, when it stops, stops in a consistent
      state. */
  lemma {:induction false} PassesKeeps(answers: seq<bool>, r: Run, input: seq<Elem>, i: nat)
    requires AtPass(r, input, i)
    ensures Passes(answers, r, i).stopped ==> InProgress(Passes(answers, r, i), input)
    decreases |input| - i
  {
    if i + 1 >= |input| {
      FinishUnfold(answers, r, i);
    } else if Pass(answers, r, i, 0).stopped {
      PassesKeepsStop(answers, r, input, i);
    } else {
      PassesKeepsGo(answers, r, input, i);
      PassesKeeps(answers, EndPass(Pass(answers, r, i, 0), i), input, i + 1);
    }
  }

  /** The outer loop from pass `i`, when it does not stop, completes. */
  lemma {:induction false} PassesCompletes(answers: seq<bool>, r: Run, input: seq<Elem>, i: nat)
    requires AtPass(r, input, i)
    ensures !Passes(answers, r, i).stopped ==> Completed(Passes(answers, r, i), input)
    decreases |input| - i
  {
    if i + 1 >= |input| {
      PassesKeepsFinish(answers, r, input, i);
    } else if Pass(answers, r, i, 0).stopped {
      PassesUnfold(answers, r, i);
    } else {
      PassesKeepsGo(answers, r, input, i);
      PassesCompletes(answers, EndPass(Pass(answers, r, i, 0), i), input, i + 1);
    }
  }

  /** Every run of bubble sort, stopped or not. */
  lemma BubbleRunKeeps(input: seq<Elem>, answers: seq<bool>)
    ensures var r := BubbleSort(input, answers);
      if r.stopped then InProgress(r, input) else Completed(r, input)
  {
    PassesKeeps(answers, Start(input), input, 0);
    PassesCompletes(answers, Start(input), input, 0);
  }

  // ---------------------------------------------------------------------
  // Polls and early returns

  lemma {:induction false} PassPolls(answers: seq<bool>, r: Run, i: nat, j: nat)
    requires i + 1 < |r.arr| && j <= |r.arr| - i - 1
    requires !r.stopped && PollsFalse(answers, r)
    ensures PolledUntilFirstYes(answers, Pass(answers, r, i, j))
    decreases |r.arr| - i - 1 - j
  {
    if j < |r.arr| - i - 1 && !Polled(answers, r.polls) {
      PassPolls(answers, CompareAt(r.(polls := r.polls + 1), j), i, j + 1);
    }
  }

  lemma {:induction false} PassesPolls(answers: seq<bool>, r: Run, i: nat)
    requires i == 0 || i < |r.arr|
    requires !r.stopped && PollsFalse(answers, r)
    ensures PolledUntilFirstYes(answers, Passes(answers, r, i))
    decreases |r.arr| - i
  {
    if i + 1 < |r.arr| {
      PassPolls(answers, r, i, 0);
      var r1 := Pass(answers, r, i, 0);
      if !r1.stopped {
        PassesPolls(answers, EndPass(r1, i), i + 1);
      }
    }
  }

  lemma {:induction false} PassExtends(answers: seq<bool>, r: Run, i: nat, j: nat)
    requires i + 1 < |r.arr| && j <= |r.arr| - i - 1
    ensures IsPrefix(r.trace, Pass(answers, r, i, j).trace)
    decreases |r.arr| - i - 1 - j
  {
    if j < |r.arr| - i - 1 && !Polled(answers, r.polls) {
      var r1 := CompareAt(r.(polls := r.polls + 1), j);
      PassExtends(answers, r1, i, j + 1);
      PrefixTrans(r.trace, r1.trace, Pass(answers, r1, i, j + 1).trace);
    }
  }

  lemma {:induction false} PassesExtends(answers: seq<bool>, r: Run, i: nat)
    requires i == 0 || i < |r.arr|
    ensures IsPrefix(r.trace, Passes(answers, r, i).trace)
    decreases |r.arr| - i
  {
    if i + 1 < |r.arr| {
      PassExtends(answers, r, i, 0);
      var r1 := Pass(answers, r, i, 0);
      if !r1.stopped {
        var r2 := EndPass(r1, i);
        PassesExtends(answers, r2, i + 1);
        PrefixTrans(r.trace, r1.trace, r2.trace);
        PrefixTrans(r.trace, r2.trace, Passes(answers, r2, i + 1).trace);
      }
    }
  }

  lemma StoppedBeforeExtends(t: seq<Event>, full: seq<Event>, more: seq<Event>)
    requires StoppedBefore(t, full) && IsPrefix(full, more)
    ensures StoppedBefore(t, more)
  {
    PrefixTrans(t, full, more);
    assert more[|t|] == full[|t|];
  }

  /** With no true answer the inner loop never stops. */
  lemma {:induction false} PassNeverStops(r: Run, i: nat, j: nat)
    requires !r.stopped && i + 1 < |r.arr| && j <= |r.arr| - i - 1
    ensures !Pass([], r, i, j).stopped
    decreases |r.arr| - i - 1 - j
  {
    if j < |r.arr| - i - 1 {
      PassNeverStops(CompareAt(r.(polls := r.polls + 1), j), i, j + 1);
    }
  }

  /** With no true answer the outer loop never stops. */
  lemma {:induction false} PassesNeverStops(r: Run, i: nat)
    requires !r.stopped && (i == 0 || i < |r.arr|)
    ensures !Passes([], r, i).stopped
    decreases |r.arr| - i
  {
    if i + 1 < |r.arr| {
      PassNeverStops(r, i, 0);
      PassesNeverStops(EndPass(Pass([], r, i, 0), i), i + 1);
    }
  }

  /** A never-stopped inner loop that still has a comparison to make emits
      that comparison next. */
  lemma ComparesNext(r: Run, i: nat, j: nat)
    requires !r.stopped && i + 1 < |r.arr| && j < |r.arr| - i - 1
    ensures StoppedBefore(r.trace, Pass([], r, i, j).trace)
  {
    var r1 := CompareAt(r.(polls := r.polls + 1), j);
    PassUnfold([], r, i, j);
    PassExtends([], r1, i, j + 1);
    assert IsPrefix(r.trace, r1.trace);
    PrefixTrans(r.trace, r1.trace, Pass([], r1, i, j + 1).trace);
  }

  /** The inner loop of pass `i` under `answers` against the same loop with
      no true answer: they are the same run until the first true poll, and
      there the other run goes on with a comparison. */
  lemma {:induction false} PassAgainstFull(answers: seq<bool>, r: Run, i: nat, j: nat)
    requires !r.stopped && i + 1 < |r.arr| && j <= |r.arr| - i - 1
    ensures var r', f' := Pass(answers, r, i, j), Pass([], r, i, j);
      if r'.stopped then StoppedBefore(r'.trace, f'.trace)
      else r' == f'
    decreases |r.arr| - i - 1 - j
  {
    if j < |r.arr| - i - 1 {
      if Polled(answers, r.polls) {
        PassStops(answers, r, i, j);
        ComparesNext(r, i, j);
      } else {
        PassUnfold(answers, r, i, j);
        PassUnfold([], r, i, j);
        PassAgainstFull(answers, CompareAt(r.(polls := r.polls + 1), j), i, j + 1);
      }
    }
  }

  /** A pass that stops leaves a strict prefix of the never-stopped run. */
  lemma PassesStopCase(answers: seq<bool>, r: Run, i: nat)
    requires !r.stopped && i + 1 < |r.arr| && Pass(answers, r, i, 0).stopped
    ensures StoppedBefore(Passes(answers, r, i).trace, Passes([], r, i).trace)
  {
    PassAgainstFull(answers, r, i, 0);
    PassNeverStops(r, i, 0);
    PassesUnfold(answers, r, i);
    PassesUnfold([], r, i);
    var r1, f1 := Pass(answers, r, i, 0), Pass([], r, i, 0);
    var f2 := EndPass(f1, i);
    PassesExtends([], f2, i + 1);
    PrefixTrans(f1.trace, f2.trace, Passes([], f2, i + 1).trace);
    StoppedBeforeExtends(r1.trace, f1.trace, Passes([], f2, i + 1).trace);
  }

  /** A pass that does not stop is the same pass as the never-stopped one. */
  lemma PassesGoCase(answers: seq<bool>, r: Run, i: nat)
    requires !r.stopped && i + 1 < |r.arr| && !Pass(answers, r, i, 0).stopped
    ensures var r2 := EndPass(Pass([], r, i, 0), i);
      !r2.stopped && |r2.arr| == |r.arr|
      && Passes(answers, r, i) == Passes(answers, r2, i + 1)
      && Passes([], r, i) == Passes([], r2, i + 1)
  {
    PassAgainstFull(answers, r, i, 0);
    PassesUnfold(answers, r, i);
    PassesUnfold([], r, i);
  }

  lemma {:induction false} PassesAgainstFull(answers: seq<bool>, r: Run, i: nat)
    requires !r.stopped && (i == 0 || i < |r.arr|)
    ensures Passes(answers, r, i).stopped ==> StoppedBefore(Passes(answers, r, i).trace, Passes([], r, i).trace)
    decreases |r.arr| - i
  {
    if i + 1 < |r.arr| {
      if Pass(answers, r, i, 0).stopped {
        PassesStopCase(answers, r, i);
      } else {
        PassesGoCase(answers, r, i);
        PassesAgainstFull(answers, EndPass(Pass([], r, i, 0), i), i + 1);
      }
    } else {
      FinishUnfold(answers, r, i);
    }
  }

  lemma {:induction false} PassesSame(answers: seq<bool>, r: Run, i: nat)
    requires !r.stopped && (i == 0 || i < |r.arr|)
    ensures !Passes(answers, r, i).stopped ==> Passes(answers, r, i) == Passes([], r, i)
    decreases |r.arr| - i
  {
    if i + 1 < |r.arr| {
      if Pass(answers, r, i, 0).stopped {
        PassesUnfold(answers, r, i);
      } else {
        PassesGoCase(answers, r, i);
        PassesSame(answers, EndPass(Pass([], r, i, 0), i), i + 1);
      }
    } else {
      FinishUnfold(answers, r, i);
      FinishUnfold([], r, i);
    }
  }

  // ---------------------------------------------------------------------
  // The properties of `bubbleSort`

  /** The facts about event `k` of a prefix hold of event `k` of the whole
      trace. */
  lemma LiftAt(t: seq<Event>, m: int, input: seq<Elem>, k: int)
    requires 0 <= k < m <= |t|
    requires EventOK(t[..m][k], input) && SwapPairedAt(t[..m], k) && FinalAt(t[..m], k, |input|)
    ensures EventOK(t[k], input) && SwapPairedAt(t, k) && FinalAt(t, k, |input|)
  {
    assert t[..m][k] == t[k];
    assert k > 0 ==> t[..m][k - 1] == t[k - 1];
    assert t[..m][..k + 1] == t[..k + 1];
  }

  /** Every event of a trace that keeps the recursive invariant is right
      against the events before it, and none is the completion event. */
  lemma {:induction false} TraceAt(t: seq<Event>, input: seq<Elem>, k: int)
    requires TraceOK(t, input) && 0 <= k < |t|
    ensures EventOK(t[k], input) && SwapPairedAt(t, k) && FinalAt(t, k, |input|) && !t[k].step.BubbleDone?
    decreases |t|
  {
    if k < |t| - 1 {
      TraceAt(t[..|t| - 1], input, k);
      LiftAt(t, |t| - 1, input, k);
    }
  }

  /** Event `k` of any run of bubble sort is a bubble step over a stable
      permutation of the input, is paired with the comparison before it when
      it is a swap, reports a settled suffix when it is a final position,
      and is the completion only as the last event of a run not stopped. */
  lemma BubbleEventAt(input: seq<Elem>, answers: seq<bool>, k: int)
    requires 0 <= k < |BubbleSort(input, answers).trace|
    ensures var r := BubbleSort(input, answers);
      EventOK(r.trace[k], input) && SwapPairedAt(r.trace, k) && FinalAt(r.trace, k, |input|)
      && (r.trace[k].step.BubbleDone? ==> k == |r.trace| - 1 && !r.stopped)
  {
    BubbleRunKeeps(input, answers);
    var r := BubbleSort(input, answers);
    if r.stopped {
      TraceAt(r.trace, input, k);
    } else if k < |r.trace| - 1 {
      TraceAt(r.trace[..|r.trace| - 1], input, k);
      LiftAt(r.trace, |r.trace| - 1, input, k);
    }
  }

  /** No run leaves a comparison waiting for its swap, and a run that is
      not stopped completes. */
  lemma BubbleOutcome(input: seq<Elem>, answers: seq<bool>)
    ensures var r := BubbleSort(input, answers);
      !SwapPending(r.trace) && (!r.stopped ==> Completed(r, input))
  {
    BubbleRunKeeps(input, answers);
  }

  lemma PairedFollow(t: seq<Event>)
    requires forall k :: 0 <= k < |t| ==> SwapPairedAt(t, k)
    requires !SwapPending(t)
    ensures SwapsFollowOutOfOrder(t)
  {
    forall k | 0 <= k < |t| && t[k].step.ComparePair?
      ensures t[k].step.a > t[k].step.b <==> k + 1 < |t| && t[k + 1].step == SwapPair(t[k].step.a, t[k].step.b)
    {
      if k + 1 < |t| {
        assert SwapPairedAt(t, k + 1);
      }
    }
    forall k | 0 <= k < |t| && t[k].step.SwapPair?
      ensures 0 < k && t[k - 1].step == ComparePair(t[k].step.a, t[k].step.b)
    {
      assert SwapPairedAt(t, k);
    }
  }

  /** On completion the last event is "Bubble sort completed!"; its snapshot
      is sorted, is a stable permutation of the input (so the same multiset
      of (value, id) keys), shows every cell as sorted when there is one, and
      reports exactly `n (n - 1) / 2` comparisons; no earlier event is the
      completion. */
  lemma BubbleSortedOnCompletion(input: seq<Elem>, answers: seq<bool>)
    requires !BubbleSort(input, answers).stopped
    ensures var t, n := BubbleSort(input, answers).trace, |input|;
      |t| > 0 && t[|t| - 1].step == BubbleDone
      && NonDecreasing(t[|t| - 1].snap)
      && StablePerm(t[|t| - 1].snap, input)
      && multiset(Keys(t[|t| - 1].snap)) == multiset(Keys(input))
      && (n > 0 ==> AllSorted(t[|t| - 1].snap))
      && t[|t| - 1].comparisons == n * (n - 1) / 2
      && forall k :: 0 <= k < |t| - 1 ==> t[k].step != BubbleDone
  {
    BubbleOutcome(input, answers);
    var t := BubbleSort(input, answers).trace;
    var e := t[|t| - 1];
    assert EventOK(e, input);
    StablePermIsPermutation(e.snap, input);
    forall k | 0 <= k < |t| - 1 ensures t[k].step != BubbleDone {
      BubbleEventAt(input, answers, k);
    }
  }

  /** Every event's snapshot is a stable permutation of the input, every
      step text is one of bubble sort's, and a completion event can only be
      the last event of a run that was not stopped. */
  lemma BubbleEventsArePermutations(input: seq<Elem>, answers: seq<bool>)
    ensures var r := BubbleSort(input, answers);
      forall k :: 0 <= k < |r.trace| ==>
        IsBubbleStep(r.trace[k].step) && |r.trace[k].snap| == |input|
        && StablePerm(r.trace[k].snap, input)
        && multiset(Keys(r.trace[k].snap)) == multiset(Keys(input))
        && (r.trace[k].step.BubbleDone? ==> k == |r.trace| - 1 && !r.stopped)
  {
    var r := BubbleSort(input, answers);
    forall k | 0 <= k < |r.trace|
      ensures IsBubbleStep(r.trace[k].step) && |r.trace[k].snap| == |input| && StablePerm(r.trace[k].snap, input)
      ensures multiset(Keys(r.trace[k].snap)) == multiset(Keys(input))
      ensures r.trace[k].step.BubbleDone? ==> k == |r.trace| - 1 && !r.stopped
    {
      BubbleEventAt(input, answers, k);
      StablePermIsPermutation(r.trace[k].snap, input);
    }
  }

  /** Every event reports as comparisons and swaps the numbers of
      comparison and swap events up to and including it, and the run ends
      with its counters equal to those numbers; so the counters never
      decrease, and no event reports more swaps than comparisons. */
  lemma BubbleCounters(input: seq<Elem>, answers: seq<bool>)
    ensures var r := BubbleSort(input, answers);
      r.comparisons == CountCompares(r.trace) && r.swaps == CountSwaps(r.trace)
    ensures var t := BubbleSort(input, answers).trace;
      forall k :: 0 <= k < |t| ==> t[k].comparisons == CountCompares(t[..k + 1]) && t[k].swaps == CountSwaps(t[..k + 1])
    ensures var t := BubbleSort(input, answers).trace;
      CountersMonotone(t) && forall k :: 0 <= k < |t| ==> t[k].swaps <= t[k].comparisons
  {
    BubbleOutcome(input, answers);
    BubbleReportsHold(input, answers);
    var t := BubbleSort(input, answers).trace;
    forall k | 0 <= k < |t|
      ensures t[k].swaps <= t[k].comparisons
      ensures t[k].comparisons == CountCompares(t[..k + 1]) && t[k].swaps == CountSwaps(t[..k + 1])
    {
      BubbleEventAt(input, answers, k);
      ReportedAt(t, k + 1);
      assert t[..k + 1][k] == t[k];
    }
    CountedMonotone(t);
  }

  /** Comparing `a` and `b` is followed by swapping `a` and `b` exactly when
      `a > b`, and each swap follows the comparison of its pair. */
  lemma BubbleSwapIffOutOfOrder(input: seq<Elem>, answers: seq<bool>)
    ensures SwapsFollowOutOfOrder(BubbleSort(input, answers).trace)
  {
    BubbleOutcome(input, answers);
    var t := BubbleSort(input, answers).trace;
    forall k | 0 <= k < |t| ensures SwapPairedAt(t, k) {
      BubbleEventAt(input, answers, k);
    }
    PairedFollow(t);
  }

  /** The `m`-th "Element v is in its final position" event closes pass
      `m - 1`: the cell at `n - m` holds `v`, it is at least every cell
      before it, and from it on the cells are in final order and displayed
      as sorted. */
  lemma BubbleFinalPositions(input: seq<Elem>, answers: seq<bool>)
    ensures var t, n := BubbleSort(input, answers).trace, |input|;
      forall k :: 0 <= k < |t| && t[k].step.FinalPosition? ==>
        var p := n - CountFinal(t[..k + 1]);
        0 <= p < |t[k].snap| && t[k].snap[p].value == t[k].step.v
        && (forall q :: 0 <= q < p ==> t[k].snap[q].value <= t[k].snap[p].value)
        && SettledFrom(t[k].snap, p)
  {
    var t, n := BubbleSort(input, answers).trace, |input|;
    forall k | 0 <= k < |t| && t[k].step.FinalPosition?
      ensures var p := n - CountFinal(t[..k + 1]);
        0 <= p < |t[k].snap| && t[k].snap[p].value == t[k].step.v
        && (forall q :: 0 <= q < p ==> t[k].snap[q].value <= t[k].snap[p].value)
        && SettledFrom(t[k].snap, p)
    {
      BubbleEventAt(input, answers, k);
    }
  }

  /** The run polls `shouldStop` once before every comparison, until the
      first true answer and no further, and it stopped exactly when that
      answer came: the polls number the comparison events, plus one for
      the poll that stopped the run. */
  lemma BubblePolls(input: seq<Elem>, answers: seq<bool>)
    ensures PolledUntilFirstYes(answers, BubbleSort(input, answers))
    ensures var r := BubbleSort(input, answers);
      r.polls == CountCompares(r.trace) + (if r.stopped then 1 else 0)
  {
    PassesPolls(answers, Start(input), 0);
    BubbleReportsHold(input, answers);
  }

  /** A stopped run's trace is a strict prefix of the trace of the run that
      is never stopped, and the event it is missing next is a comparison:
      nothing is emitted after the stop, there is no completion event, and
      the poll sits just before a comparison. A run that is not stopped
      emits exactly the never-stopped trace. */
  lemma BubbleStopTruncates(input: seq<Elem>, answers: seq<bool>)
    ensures var r, full := BubbleSort(input, answers), BubbleSort(input, []);
      !full.stopped
      && if r.stopped then
           |r.trace| < |full.trace| && full.trace[..|r.trace|] == r.trace
           && full.trace[|r.trace|].step.ComparePair?
         else r.trace == full.trace
  {
    PassesAgainstFull(answers, Start(input), 0);
    PassesSame(answers, Start(input), 0);
    PassesNeverStops(Start(input), 0);
  }

  /** On two cells or more, a first poll answering true stops the run
      before any callback. */
  lemma BubbleFirstPollStops(input: seq<Elem>, answers: seq<bool>)
    requires |input| > 1 && Polled(answers, 0)
    ensures BubbleSort(input, answers) == Run(input, 0, 0, [], 1, true)
  {
    PassesUnfold(answers, Start(input), 0);
    PassStops(answers, Start(input), 0, 0);
  }

  /** An empty array is reported once, as completed, with both counters 0,
      and `shouldStop` is never polled. */
  lemma BubbleEmptyInput(answers: seq<bool>)
    ensures BubbleSort([], answers) == Run([], 0, 0, [Event([], BubbleDone, 0, 0)], 0, false)
  {
  }
}
