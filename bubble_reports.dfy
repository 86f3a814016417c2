/** What each report of bubble sort says about the run so far
    (src/utils/sortingAlgorithms.ts:15-68): the counters it carries are the
    numbers of comparison and swap reports up to it, `shouldStop` is polled
    once before every comparison, and the values named in a step text are
    the ones its snapshot shows. */
module BubbleReports {
  import opened Types
  import opened Steps
  import opened BubbleSpec

  /** Cells `j` and `j + 1` of `s` hold the values `a` and `b`, both shown
      in state `st`. */
  ghost predicate PairAt(s: seq<Elem>, j: int, a: int, b: int, st: State) {
    0 <= j && j + 1 < |s| && s[j].value == a && s[j + 1].value == b && s[j].state == st && s[j + 1].state == st
  }

  /** Cells `j` and `j + 1` of `s` hold `b` and `a`: the pair `a`, `b`
      exchanged. */
  ghost predicate Exchanged(s: seq<Elem>, j: int, a: int, b: int) {
    0 <= j && j + 1 < |s| && s[j].value == b && s[j + 1].value == a
  }

  /** Some two adjacent cells of `s` hold `a` and `b`, both shown in state
      `st`. */
  ghost predicate ShowsPair(s: seq<Elem>, a: int, b: int, st: State) {
    exists j :: PairAt(s, j, a, b, st)
  }

  /** The swap reported by `d` is exchanged in the snapshot of `e`, in the
      cells it was swapped in. */
  ghost predicate SwapShown(d: Event, e: Event)
    requires d.step.SwapPair?
  {
    exists j :: PairAt(d.snap, j, d.step.a, d.step.b, Swapping) && Exchanged(e.snap, j, d.step.a, d.step.b)
  }

  /** What event `e` reports is right on its own: a comparison of `a` and
      `b` shows them compared in two adjacent cells, a swap shows them being
      swapped there. */
  ghost predicate PairShown(e: Event) {
    (e.step.ComparePair? ==> ShowsPair(e.snap, e.step.a, e.step.b, Comparing))
    && (e.step.SwapPair? ==> ShowsPair(e.snap, e.step.a, e.step.b, Swapping))
  }

  /** The last event of `t` carries the numbers of comparison and swap
      events up to it and shows the pair it names; when the event before it
      is a swap, it shows that swap done. */
  ghost predicate ReportedLast(t: seq<Event>)
    requires |t| > 0
  {
    var e := t[|t| - 1];
    e.comparisons == CountCompares(t) && e.swaps == CountSwaps(t) && PairShown(e)
    && (|t| > 1 && t[|t| - 2].step.SwapPair? ==> SwapShown(t[|t| - 2], e))
  }

  /** Every event of `t` is reported right against the events before it. */
  ghost predicate ReportsOK(t: seq<Event>)
    decreases |t|
  {
    t == [] || (ReportsOK(t[..|t| - 1]) && ReportedLast(t))
  }

  /** The run's reports are right, its counters count them, and it polled
      once per comparison, plus once more when it stopped. */
  ghost predicate Reporting(r: Run) {
    ReportsOK(r.trace) && CountersCount(r) && r.polls == r.comparisons + (if r.stopped then 1 else 0)
  }

  /** When the last report is a swap, it was a swap of cells `j - 1` and
      `j`, and the array now holds that pair exchanged. */
  ghost predicate SwapDone(r: Run, j: int) {
    var t := r.trace;
    |t| > 0 && t[|t| - 1].step.SwapPair? ==>
      var d := t[|t| - 1];
      PairAt(d.snap, j - 1, d.step.a, d.step.b, Swapping) && Exchanged(r.arr, j - 1, d.step.a, d.step.b)
  }

  lemma AppendReported(t: seq<Event>, e: Event)
    requires ReportsOK(t) && ReportedLast(t + [e])
    ensures ReportsOK(t + [e])
  {
    assert (t + [e])[..|t|] == t;
  }

  /** The facts about event `m - 1` of a trace that reports right. */
  lemma {:induction false} ReportedAt(t: seq<Event>, m: nat)
    requires ReportsOK(t) && 0 < m <= |t|
    ensures ReportedLast(t[..m])
    decreases |t|
  {
    if m < |t| {
      assert t[..|t| - 1][..m] == t[..m];
      ReportedAt(t[..|t| - 1], m);
    } else {
      assert t[..m] == t;
    }
  }

  /** One inner iteration keeps the reports right. */
  lemma CompareAtReports(r: Run, j: nat)
    requires j + 1 < |r.arr| && Reporting(r) && !r.stopped && SwapDone(r, j)
    ensures Reporting(CompareAt(r.(polls := r.polls + 1), j))
  {
    var s, x, y := r.arr, r.arr[j], r.arr[j + 1];
    var c := r.comparisons + 1;
    var e1 := Event(s[j := x.(state := Comparing)][j + 1 := y.(state := Comparing)], ComparePair(x.value, y.value), c, r.swaps);
    var t1 := r.trace + [e1];
    CountsAppend(r.trace, e1);
    assert PairAt(e1.snap, j, x.value, y.value, Comparing);
    if |r.trace| > 0 && r.trace[|r.trace| - 1].step.SwapPair? {
      var d := r.trace[|r.trace| - 1];
      assert t1[|t1| - 2] == d;
      assert PairAt(d.snap, j - 1, d.step.a, d.step.b, Swapping) && Exchanged(e1.snap, j - 1, d.step.a, d.step.b);
    }
    assert ReportedLast(t1);
    AppendReported(r.trace, e1);
    if x.value > y.value {
      var e2 := Event(s[j := x.(state := Swapping)][j + 1 := y.(state := Swapping)], SwapPair(x.value, y.value), c, r.swaps + 1);
      var t2 := t1 + [e2];
      CountsAppend(t1, e2);
      assert PairAt(e2.snap, j, x.value, y.value, Swapping);
      assert t2[|t2| - 2] == e1;
      assert ReportedLast(t2);
      AppendReported(t1, e2);
      assert r.trace + [e1, e2] == t2;
      var r' := Run(s[j := y.(state := Default)][j + 1 := x.(state := Default)], c, r.swaps + 1, t2, r.polls + 1, false);
      assert CompareAt(r.(polls := r.polls + 1), j) == r';
      assert Reporting(r');
    } else {
      var r' := Run(s[j := x.(state := Default)][j + 1 := y.(state := Default)], c, r.swaps, t1, r.polls + 1, false);
      assert CompareAt(r.(polls := r.polls + 1), j) == r';
      assert Reporting(r');
    }
  }

  /** After one inner iteration, a swap reported last was of cells `j` and
      `j + 1`, and the array holds them exchanged. */
  lemma CompareAtSwapDone(r: Run, j: nat)
    requires j + 1 < |r.arr|
    ensures SwapDone(CompareAt(r.(polls := r.polls + 1), j), j + 1)
  {
  }

  /** Unless the inner loop stopped, a swap reported last was of the pass's
      last two cells, and the array holds them exchanged. */
  lemma {:induction false} PassSwapDone(answers: seq<bool>, r: Run, i: nat, j: nat)
    requires i + 1 < |r.arr| && j <= |r.arr| - i - 1 && SwapDone(r, j)
    ensures !Pass(answers, r, i, j).stopped ==> SwapDone(Pass(answers, r, i, j), |r.arr| - i - 1)
    decreases |r.arr| - i - 1 - j
  {
    if j == |r.arr| - i - 1 {
      assert Pass(answers, r, i, j) == r;
    } else if Polled(answers, r.polls) {
      PassStops(answers, r, i, j);
    } else {
      PassUnfold(answers, r, i, j);
      var r1 := CompareAt(r.(polls := r.polls + 1), j);
      CompareAtSwapDone(r, j);
      PassSwapDone(answers, r1, i, j + 1);
    }
  }

  /** The inner loop keeps the reports right. */
  lemma {:induction false} PassReports(answers: seq<bool>, r: Run, i: nat, j: nat)
    requires i + 1 < |r.arr| && j <= |r.arr| - i - 1
    requires Reporting(r) && !r.stopped && SwapDone(r, j)
    ensures Reporting(Pass(answers, r, i, j))
    decreases |r.arr| - i - 1 - j
  {
    if j == |r.arr| - i - 1 {
      assert Pass(answers, r, i, j) == r;
    } else if Polled(answers, r.polls) {
      PassStops(answers, r, i, j);
    } else {
      PassUnfold(answers, r, i, j);
      var r1 := CompareAt(r.(polls := r.polls + 1), j);
      CompareAtReports(r, j);
      CompareAtSwapDone(r, j);
      PassReports(answers, r1, i, j + 1);
    }
  }

  /** The final-position report after a pass keeps the reports right. */
  lemma EndPassReports(r: Run, i: nat)
    requires i + 1 < |r.arr| && Reporting(r) && !r.stopped && SwapDone(r, |r.arr| - i - 1)
    ensures Reporting(EndPass(r, i)) && SwapDone(EndPass(r, i), 0) && !EndPass(r, i).stopped
  {
    var k := |r.arr| - i - 1;
    var s := Mark(r.arr, k, Sorted);
    var e := Event(s, FinalPosition(s[k].value), r.comparisons, r.swaps);
    var t := r.trace + [e];
    CountsAppend(r.trace, e);
    if |r.trace| > 0 && r.trace[|r.trace| - 1].step.SwapPair? {
      var d := r.trace[|r.trace| - 1];
      assert t[|t| - 2] == d;
      assert PairAt(d.snap, k - 1, d.step.a, d.step.b, Swapping) && Exchanged(e.snap, k - 1, d.step.a, d.step.b);
    }
    assert ReportedLast(t);
    AppendReported(r.trace, e);
  }

  /** The completion report keeps the reports right. */
  lemma FinishReports(r: Run)
    requires Reporting(r) && !r.stopped && SwapDone(r, 0)
    ensures Reporting(Finish(r))
  {
    var s := if |r.arr| > 0 then Mark(r.arr, 0, Sorted) else r.arr;
    var e := Event(s, BubbleDone, r.comparisons, r.swaps);
    CountsAppend(r.trace, e);
    assert ReportedLast(r.trace + [e]);
    AppendReported(r.trace, e);
  }

  /** The outer loop keeps the reports right. */
  lemma {:induction false} PassesReports(answers: seq<bool>, r: Run, i: nat)
    requires i == 0 || i < |r.arr|
    requires Reporting(r) && !r.stopped && SwapDone(r, 0)
    ensures Reporting(Passes(answers, r, i))
    decreases |r.arr| - i
  {
    if i + 1 >= |r.arr| {
      FinishUnfold(answers, r, i);
      FinishReports(r);
    } else {
      PassesUnfold(answers, r, i);
      PassReports(answers, r, i, 0);
      PassSwapDone(answers, r, i, 0);
      var r1 := Pass(answers, r, i, 0);
      if !r1.stopped {
        EndPassReports(r1, i);
        PassesReports(answers, EndPass(r1, i), i + 1);
      }
    }
  }

  /** Every run of bubble sort reports right. */
  lemma BubbleReportsHold(input: seq<Elem>, answers: seq<bool>)
    ensures Reporting(BubbleSort(input, answers))
  {
    PassesReports(answers, Start(input), 0);
  }

  /** Every comparison report names the two values its snapshot shows
      compared in adjacent cells, every swap report the two values it shows
      being swapped there, and the snapshot after a swap holds that pair
      exchanged in those cells. */
  lemma BubbleReportsShowPairs(input: seq<Elem>, answers: seq<bool>)
    ensures var t := BubbleSort(input, answers).trace;
      forall k :: 0 <= k < |t| ==>
        PairShown(t[k]) && (k + 1 < |t| && t[k].step.SwapPair? ==> SwapShown(t[k], t[k + 1]))
  {
    BubbleReportsHold(input, answers);
    var t := BubbleSort(input, answers).trace;
    forall k | 0 <= k < |t|
      ensures PairShown(t[k]) && (k + 1 < |t| && t[k].step.SwapPair? ==> SwapShown(t[k], t[k + 1]))
    {
      ReportedAt(t, k + 1);
      assert t[..k + 1][k] == t[k];
      if k + 1 < |t| {
        ReportedAt(t, k + 2);
        assert t[..k + 2][k] == t[k] && t[..k + 2][k + 1] == t[k + 1];
      }
    }
  }
}
