/** What a run of insertion sort promises about its event trace, and the
    invariants of its two loops (src/utils/sortingAlgorithms.ts:82-139). */
module InsertionInvariants {
  import opened Types
  import opened Steps

  /** The step texts insertion sort emits. */
  predicate IsInsertionStep(l: Label) {
    l.FirstSorted? || l.Selecting? || l.CompareWith? || l.MovingRight? || l.Inserted? || l.InsertionDone?
  }

  /** The first `m` cells of `s` are sorted, shown as sorted, and a stable
      permutation of the first `m` cells of the input; the cells after them
      are the input's, untouched. */
  ghost predicate SortedPrefix(s: seq<Elem>, input: seq<Elem>, m: int) {
    0 <= m <= |s| == |input| && NonDecreasing(s[..m]) && AllSorted(s[..m])
    && StablePerm(s[..m], input[..m]) && s[m..] == input[m..]
  }

  /** How many "Inserted" events `t` holds: one per finished iteration. */
  function CountInserted(t: seq<Event>): nat {
    if t == [] then 0
    else CountInserted(t[..|t| - 1]) + (if t[|t| - 1].step.Inserted? then 1 else 0)
  }

  /** The `m`-th "Inserted" event ends iteration `m`: the first `m + 1`
      cells are a sorted prefix, and the reported cell, at most `m`, holds
      the input's cell `m` shown as sorted. */
  ghost predicate InsertedAt(t: seq<Event>, k: int, input: seq<Elem>)
    requires 0 <= k < |t|
  {
    t[k].step.Inserted? ==>
      var m := CountInserted(t[..k + 1]);
      m < |input| && SortedPrefix(t[k].snap, input, m + 1)
      && 0 <= t[k].step.pos <= m && t[k].snap[t[k].step.pos] == input[m].(state := Sorted)
      && t[k].step.v == input[m].value
  }

  /** Per event: an insertion step text over a snapshot of the input's
      length; both counters are equal except at a comparison, which is one
      ahead; and a comparison names a cell larger than the inserted one. */
  ghost predicate EventOK(e: Event, input: seq<Elem>) {
    IsInsertionStep(e.step) && |e.snap| == |input|
    && e.comparisons == e.swaps + (if e.step.CompareWith? then 1 else 0)
    && (e.step.CompareWith? ==> e.step.v > e.step.current)
  }

  /** Event `k` is a shift exactly when event `k - 1` is a comparison, and
      then it moves the cell that was compared. */
  ghost predicate MovePairedAt(t: seq<Event>, k: int)
    requires 0 <= k < |t|
  {
    (t[k].step.MovingRight? <==> 0 < k && t[k - 1].step.CompareWith?)
    && (t[k].step.MovingRight? ==> t[k].step.v == t[k - 1].step.v)
  }

  /** The trace ends with a comparison whose shift is not reported yet. */
  ghost predicate MovePending(t: seq<Event>) {
    |t| > 0 && t[|t| - 1].step.CompareWith?
  }

  /** The last event of `t` is right on its own and against the events
      before it: only the first event reports the first cell, and neither
      counter went down. */
  ghost predicate LastOK(t: seq<Event>, input: seq<Elem>)
    requires |t| > 0
  {
    var k := |t| - 1;
    EventOK(t[k], input) && MovePairedAt(t, k) && InsertedAt(t, k, input) && (t[k].step.FirstSorted? ==> k == 0)
    && (k > 0 ==> t[k - 1].comparisons <= t[k].comparisons && t[k - 1].swaps <= t[k].swaps)
  }

  /** Every event of `t` is right against the events before it, and none
      is the completion event. */
  ghost predicate TraceOK(t: seq<Event>, input: seq<Elem>)
    decreases |t|
  {
    t == [] || (TraceOK(t[..|t| - 1], input) && LastOK(t, input) && !t[|t| - 1].step.InsertionDone?)
  }

  /** What holds of the run between two statements of the source; on a
      sorted input nothing has been shifted. */
  ghost predicate InProgress(r: Run, input: seq<Elem>) {
    TraceOK(r.trace, input) && !MovePending(r.trace) && LastBelow(r.trace, r.comparisons, r.swaps)
    && r.comparisons == r.swaps && |r.arr| == |input| && (NonDecreasing(input) ==> r.swaps == 0)
  }

  /** Invariant at the head of the `for` loop with iteration `i`. */
  ghost predicate AtIter(r: Run, input: seq<Elem>, i: nat) {
    InProgress(r, input) && !r.stopped && 1 <= i <= |input|
    && SortedPrefix(r.arr, input, i) && CountInserted(r.trace) == i - 1
  }

  /** Invariant at the head of the `while` loop of iteration `i` with cursor
      `j`, where `prefix` is the sorted prefix the iteration started from:
      the cells up to `j` are untouched, the hole is at `j + 1`, the cells
      of `prefix` after `j` sit one cell to the right and are all larger
      than `cur`, and the cells after `i` are the input's. */
  ghost predicate AtShift(r: Run, input: seq<Elem>, i: nat, prefix: seq<Elem>, cur: Elem, j: int) {
    InProgress(r, input) && !r.stopped && 1 <= i < |input| && -1 <= j < i
    && |prefix| == i && NonDecreasing(prefix) && AllSorted(prefix) && StablePerm(prefix, input[..i])
    && cur == input[i].(state := Comparing)
    && r.arr[..j + 1] == prefix[..j + 1] && r.arr[j + 2..i + 1] == prefix[j + 1..] && r.arr[i + 1..] == input[i + 1..]
    && (forall q :: j + 1 <= q < i ==> prefix[q].value > cur.value)
    && CountInserted(r.trace) == i - 1
  }

  /** What holds of a run that reached its end: the trace ends with the
      completion event, whose snapshot is the whole input sorted, stably
      rearranged and shown as sorted. */
  ghost predicate Completed(r: Run, input: seq<Elem>) {
    var t := r.trace;
    |t| > 0 && t[|t| - 1].step == InsertionDone && TraceOK(t[..|t| - 1], input) && LastOK(t, input)
    && SortedPrefix(t[|t| - 1].snap, input, |input|) && (NonDecreasing(input) ==> t[|t| - 1].swaps == 0)
  }

  /** `t` is a strict prefix of `full`, and the first event it lacks is a
      selection or a comparison. */
  ghost predicate StoppedBefore(t: seq<Event>, full: seq<Event>) {
    |t| < |full| && IsPrefix(t, full) && (full[|t|].step.Selecting? || full[|t|].step.CompareWith?)
  }

  /** A comparison event is immediately followed by the shift of the cell
      it compared, every shift follows a comparison, and every comparison
      names a cell strictly larger than the one being inserted. */
  ghost predicate ShiftsFollowCompares(t: seq<Event>) {
    (forall k :: 0 <= k < |t| && t[k].step.CompareWith? ==>
      t[k].step.v > t[k].step.current && k + 1 < |t| && t[k + 1].step == MovingRight(t[k].step.v))
    && (forall k :: 0 <= k < |t| && t[k].step.MovingRight? ==>
      0 < k && t[k - 1].step.CompareWith? && t[k - 1].step.v == t[k].step.v)
  }
}
