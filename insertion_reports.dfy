/** What each report of insertion sort says about the run so far
    (src/utils/sortingAlgorithms.ts:82-139): the counters it carries are
    the numbers of comparison and shift reports up to it, `shouldStop` is
    polled once per iteration and once before every shift, and the values
    named in a step text are the ones its snapshot shows, with the selected
    value the input's cell of that iteration. */
module InsertionReports {
  import opened Types
  import opened Steps
  import opened InsertionSpec
  import opened InsertionInvariants

  /** How many "Selecting" events `t` holds: one per iteration started. */
  function CountSelected(t: seq<Event>): nat {
    if t == [] then 0
    else CountSelected(t[..|t| - 1]) + (if t[|t| - 1].step.Selecting? then 1 else 0)
  }

  /** Cell `j` of `s`, before the cell `m` being inserted, holds `v` shown
      as being compared. */
  ghost predicate ComparedAt(s: seq<Elem>, j: int, m: int, v: int) {
    0 <= j < m && j < |s| && s[j].value == v && s[j].state == Comparing
  }

  /** Cell `j` of `s`, before the cell `m` being inserted, holds `v`, and
      the cell after it holds a copy of it shown as being moved. */
  ghost predicate MovedAt(s: seq<Elem>, j: int, m: int, v: int) {
    0 <= j < m && j + 1 < |s| && s[j].value == v && s[j + 1] == s[j].(state := Swapping)
  }

  /** What event `e` of iteration `m` reports is right: "Selecting v" shows
      the input's cell `m`, holding `v`, as being compared; "Comparing
      current with v" names the input's value at `m` and shows `v` compared
      in a cell before `m`; "Moving v one position right" shows `v` copied
      into the cell after it. */
  ghost predicate ValuesShown(e: Event, m: int, input: seq<Elem>) {
    (e.step.Selecting? ==>
       0 <= m < |input| && m < |e.snap| && e.step.v == input[m].value && e.snap[m] == input[m].(state := Comparing))
    && (e.step.CompareWith? ==>
       0 <= m < |input| && e.step.current == input[m].value && exists j :: ComparedAt(e.snap, j, m, e.step.v))
    && (e.step.MovingRight? ==> exists j :: MovedAt(e.snap, j, m, e.step.v))
  }

  /** The last event of `t` carries the numbers of comparison and shift
      events up to it, and shows the values it names; it belongs to
      iteration `CountInserted(t) + 1` unless it is itself the report that
      ends an iteration. */
  ghost predicate ReportedLast(t: seq<Event>, input: seq<Elem>)
    requires |t| > 0
  {
    var e := t[|t| - 1];
    e.comparisons == CountCompares(t) && e.swaps == CountSwaps(t) && ValuesShown(e, CountInserted(t) + 1, input)
  }

  /** Every event of `t` is reported right against the events before it. */
  ghost predicate ReportsOK(t: seq<Event>, input: seq<Elem>)
    decreases |t|
  {
    t == [] || (ReportsOK(t[..|t| - 1], input) && ReportedLast(t, input))
  }

  /** The run's reports are right, its counters count them, and it polled
      once per selection and once per comparison, plus once more when it
      stopped. */
  ghost predicate Reporting(r: Run, input: seq<Elem>) {
    ReportsOK(r.trace, input) && CountersCount(r)
    && r.polls == CountSelected(r.trace) + r.comparisons + (if r.stopped then 1 else 0)
  }

  /** At the head of iteration `i`: the reports are right, `i - 1`
      iterations ended, and the cells from `i` on are the input's. */
  ghost predicate IterReporting(r: Run, input: seq<Elem>, i: nat) {
    Reporting(r, input) && !r.stopped && |r.arr| == |input| && 1 <= i && CountInserted(r.trace) == i - 1
    && forall q :: i <= q < |input| ==> r.arr[q] == input[q]
  }

  /** At the head of the `while` loop of iteration `i` with cursor `j`:
      the reports are right, `cur` is the input's cell `i` shown as being
      compared, and the cells after `i` are the input's. */
  ghost predicate ShiftReporting(r: Run, input: seq<Elem>, i: nat, cur: Elem, j: int) {
    Reporting(r, input) && !r.stopped && |r.arr| == |input| && 1 <= i < |input| && -1 <= j < i
    && CountInserted(r.trace) == i - 1 && cur == input[i].(state := Comparing)
    && forall q :: i < q < |input| ==> r.arr[q] == input[q]
  }

  lemma AppendReported(t: seq<Event>, e: Event, input: seq<Elem>)
    requires ReportsOK(t, input) && ReportedLast(t + [e], input)
    ensures ReportsOK(t + [e], input)
  {
    assert (t + [e])[..|t|] == t;
  }

  /** Appending one event counts it once in each count of this module. */
  lemma CountsAppendHere(t: seq<Event>, e: Event)
    ensures CountInserted(t + [e]) == CountInserted(t) + (if e.step.Inserted? then 1 else 0)
    ensures CountSelected(t + [e]) == CountSelected(t) + (if e.step.Selecting? then 1 else 0)
    ensures CountCompares(t + [e]) == CountCompares(t) + (if IsCompare(e.step) then 1 else 0)
    ensures CountSwaps(t + [e]) == CountSwaps(t) + (if IsSwap(e.step) then 1 else 0)
  {
    assert (t + [e])[..|t|] == t;
  }

  /** The facts about event `m - 1` of a trace that reports right. */
  lemma {:induction false} ReportedAt(t: seq<Event>, input: seq<Elem>, m: nat)
    requires ReportsOK(t, input) && 0 < m <= |t|
    ensures ReportedLast(t[..m], input)
    decreases |t|
  {
    if m < |t| {
      assert t[..|t| - 1][..m] == t[..m];
      ReportedAt(t[..|t| - 1], input, m);
    } else {
      assert t[..m] == t;
    }
  }

  /** The first-cell report starts iteration 1 reporting right. */
  lemma BeginReports(input: seq<Elem>)
    ensures IterReporting(Begin(input), input, 1)
  {
    if |input| > 0 {
      var e := Event(Mark(input, 0, Sorted), FirstSorted, 0, 0);
      CountsAppendHere([], e);
      assert [] + [e] == [e];
      AppendReported([], e, input);
    }
  }

  /** Selecting `arr[i]` starts the `while` loop reporting right. */
  lemma SelectReports(r: Run, input: seq<Elem>, i: nat)
    requires IterReporting(r, input, i) && i < |input|
    ensures ShiftReporting(Select(r.(polls := r.polls + 1), i), input, i, Current(r, i), i - 1)
  {
    var c := Current(r, i);
    var e := Event(r.arr[i := c], Selecting(c.value), r.comparisons, r.swaps);
    CountsAppendHere(r.trace, e);
    assert ReportedLast(r.trace + [e], input);
    AppendReported(r.trace, e, input);
  }

  /** One shift keeps the reports right and moves the cursor left. */
  lemma ShiftAtReports(r: Run, input: seq<Elem>, i: nat, cur: Elem, j: nat)
    requires ShiftReporting(r, input, i, cur, j)
    ensures ShiftReporting(ShiftAt(r.(polls := r.polls + 1), cur, j), input, i, cur, j - 1)
  {
    var s1 := Mark(r.arr, j, Comparing);
    var c := r.comparisons + 1;
    var s2 := s1[j + 1 := s1[j].(state := Swapping)];
    var w := r.swaps + 1;
    var e1 := Event(s1, CompareWith(cur.value, s1[j].value), c, r.swaps);
    var e2 := Event(s2, MovingRight(s2[j].value), c, w);
    var t1 := r.trace + [e1];
    CountsAppendHere(r.trace, e1);
    assert ComparedAt(s1, j, i, s1[j].value);
    assert ReportedLast(t1, input);
    AppendReported(r.trace, e1, input);
    CountsAppendHere(t1, e2);
    assert MovedAt(s2, j, i, s2[j].value);
    assert ReportedLast(t1 + [e2], input);
    AppendReported(t1, e2, input);
    assert r.trace + [e1, e2] == t1 + [e2];
  }

  /** The `while` loop keeps the reports right; unless it stopped, it
      leaves the run at the head of the loop with its final cursor. */
  lemma {:induction false} ShiftsReports(answers: seq<bool>, r: Run, input: seq<Elem>, i: nat, cur: Elem, j: int)
    requires ShiftReporting(r, input, i, cur, j)
    ensures Reporting(Shifts(answers, r, cur, j).0, input)
    ensures var res := Shifts(answers, r, cur, j);
      !res.0.stopped ==> ShiftReporting(res.0, input, i, cur, res.1)
    decreases j + 1
  {
    if j >= 0 && r.arr[j].value > cur.value && !Polled(answers, r.polls) {
      ShiftsUnfold(answers, r, cur, j);
      ShiftAtReports(r, input, i, cur, j);
      ShiftsReports(answers, ShiftAt(r.(polls := r.polls + 1), cur, j), input, i, cur, j - 1);
    } else {
      ShiftsEnd(answers, r, cur, j);
    }
  }

  /** Writing the inserted cell ends iteration `i` reporting right. */
  lemma InsertAtReports(r: Run, input: seq<Elem>, i: nat, cur: Elem, j: int)
    requires ShiftReporting(r, input, i, cur, j)
    ensures IterReporting(InsertAt(r, cur, j), input, i + 1)
  {
    var e := Event(r.arr[j + 1 := cur.(state := Sorted)], Inserted(cur.value, j + 1), r.comparisons, r.swaps);
    CountsAppendHere(r.trace, e);
    assert ReportedLast(r.trace + [e], input);
    AppendReported(r.trace, e, input);
  }

  /** One iteration of the `for` loop keeps the reports right. */
  lemma IterationReports(answers: seq<bool>, r: Run, input: seq<Elem>, i: nat)
    requires IterReporting(r, input, i) && i < |input|
    ensures Reporting(Iteration(answers, r, i), input)
    ensures !Iteration(answers, r, i).stopped ==> IterReporting(Iteration(answers, r, i), input, i + 1)
  {
    if !Polled(answers, r.polls) {
      var cur := Current(r, i);
      var r1 := Select(r.(polls := r.polls + 1), i);
      SelectReports(r, input, i);
      ShiftsReports(answers, r1, input, i, cur, i - 1);
      var res := Shifts(answers, r1, cur, i - 1);
      if !res.0.stopped {
        InsertAtReports(res.0, input, i, cur, res.1);
      }
    }
  }

  /** The completion report keeps the reports right. */
  lemma DoneReports(r: Run, input: seq<Elem>, i: nat)
    requires IterReporting(r, input, i)
    ensures Reporting(Emit(r, InsertionDone), input)
  {
    var e := Event(r.arr, InsertionDone, r.comparisons, r.swaps);
    CountsAppendHere(r.trace, e);
    assert ReportedLast(r.trace + [e], input);
    AppendReported(r.trace, e, input);
  }

  /** The `for` loop and the completion report keep the reports right. */
  lemma {:induction false} IterationsReports(answers: seq<bool>, r: Run, input: seq<Elem>, i: nat)
    requires IterReporting(r, input, i)
    ensures Reporting(Iterations(answers, r, i), input)
    decreases |r.arr| - i
  {
    if i >= |r.arr| {
      DoneUnfold(answers, r, i);
      DoneReports(r, input, i);
    } else {
      IterationReports(answers, r, input, i);
      var r1 := Iteration(answers, r, i);
      if r1.stopped {
        assert Iterations(answers, r, i) == r1;
      } else {
        IterationsReports(answers, r1, input, i + 1);
        assert Iterations(answers, r, i) == Iterations(answers, r1, i + 1);
      }
    }
  }

  /** Every run of insertion sort reports right. */
  lemma InsertionReportsHold(input: seq<Elem>, answers: seq<bool>)
    ensures Reporting(InsertionSort(input, answers), input)
  {
    BeginReports(input);
    IterationsReports(answers, Begin(input), input, 1);
  }

  /** Every event of a trace that reports right carries the numbers of
      comparison and shift events up to and including it. */
  lemma TraceCounted(t: seq<Event>, input: seq<Elem>)
    requires ReportsOK(t, input)
    ensures forall k :: 0 <= k < |t| ==> t[k].comparisons == CountCompares(t[..k + 1]) && t[k].swaps == CountSwaps(t[..k + 1])
  {
    forall k | 0 <= k < |t| ensures t[k].comparisons == CountCompares(t[..k + 1]) && t[k].swaps == CountSwaps(t[..k + 1]) {
      ReportedAt(t, input, k + 1);
      assert t[..k + 1][k] == t[k];
    }
  }

  /** Every event of `t` shows the values it names, as an event of the
      iteration after the "Inserted" events up to it. */
  ghost predicate AllValuesShown(t: seq<Event>, input: seq<Elem>) {
    forall k :: 0 <= k < |t| ==> ValuesShown(t[k], CountInserted(t[..k + 1]) + 1, input)
  }

  /** Every event of a trace that reports right shows the values it names. */
  lemma TraceValuesShown(t: seq<Event>, input: seq<Elem>)
    requires ReportsOK(t, input)
    ensures AllValuesShown(t, input)
  {
    forall k | 0 <= k < |t| ensures ValuesShown(t[k], CountInserted(t[..k + 1]) + 1, input) {
      ReportedAt(t, input, k + 1);
      assert t[..k + 1][k] == t[k];
    }
  }

  /** In iteration `m` (the number of "Inserted" events before it, plus
      one), "Selecting v" shows the input's cell `m`, holding `v`, as being
      compared; "Comparing current with v" names the input's value at `m`
      as `current` and shows `v` being compared in a cell before `m`; and
      "Moving v one position right" shows `v` copied, as being moved, into
      the cell after it. */
  lemma InsertionReportsShowValues(input: seq<Elem>, answers: seq<bool>)
    ensures AllValuesShown(InsertionSort(input, answers).trace, input)
  {
    InsertionReportsHold(input, answers);
    TraceValuesShown(InsertionSort(input, answers).trace, input);
  }
}
