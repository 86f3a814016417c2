/** What a run of bubble sort promises about its event trace, and the
    invariants of its two loops (src/utils/sortingAlgorithms.ts:15-61). */
module BubbleInvariants {
  import opened Types
  import opened Steps

  /** The step texts bubble sort emits. */
  predicate IsBubbleStep(l: Label) {
    l.ComparePair? || l.SwapPair? || l.FinalPosition? || l.BubbleDone?
  }

  /** From index `m` on, every cell is at least as large as every cell
      before it (so that suffix is in its final order) and is displayed as
      sorted. */
  ghost predicate SettledFrom(s: seq<Elem>, m: int) {
    (forall p, q :: 0 <= p < q < |s| && m <= q ==> s[p].value <= s[q].value)
    && (forall q :: 0 <= q < |s| && m <= q ==> s[q].state == Sorted)
  }

  /** How many "final position" events `t` holds: one per finished pass. */
  function CountFinal(t: seq<Event>): nat {
    if t == [] then 0
    else CountFinal(t[..|t| - 1]) + (if t[|t| - 1].step.FinalPosition? then 1 else 0)
  }

  /** The `m`-th "final position" event, which ends pass `m - 1`, reports
      the cell at `n - m`: it holds the reported value, it is the largest of
      the cells up to it, and the suffix it starts is settled. */
  ghost predicate FinalAt(t: seq<Event>, k: int, n: int)
    requires 0 <= k < |t|
  {
    t[k].step.FinalPosition? ==>
      var p := n - CountFinal(t[..k + 1]);
      0 <= p < |t[k].snap| && t[k].snap[p].value == t[k].step.v && SettledFrom(t[k].snap, p)
  }

  /** Per event: a bubble step text, a snapshot that is a stable
      permutation of the input, and no more swaps than comparisons. */
  ghost predicate EventOK(e: Event, input: seq<Elem>) {
    IsBubbleStep(e.step) && |e.snap| == |input| && StablePerm(e.snap, input)
    && e.swaps <= e.comparisons
  }

  /** Event `k` is a swap exactly when event `k - 1` compared an
      out-of-order pair, and then it names that same pair. */
  ghost predicate SwapPairedAt(t: seq<Event>, k: int)
    requires 0 <= k < |t|
  {
    (t[k].step.SwapPair? <==> 0 < k && t[k - 1].step.ComparePair? && t[k - 1].step.a > t[k - 1].step.b)
    && (t[k].step.SwapPair? ==> t[k].step == SwapPair(t[k - 1].step.a, t[k - 1].step.b))
  }

  /** The trace ends with the comparison of an out-of-order pair whose swap
      is not reported yet. */
  ghost predicate SwapPending(t: seq<Event>) {
    |t| > 0 && t[|t| - 1].step.ComparePair? && t[|t| - 1].step.a > t[|t| - 1].step.b
  }

  /** The last event of `t` is right on its own and against the event
      before it: neither counter went down. */
  ghost predicate LastOK(t: seq<Event>, input: seq<Elem>)
    requires |t| > 0
  {
    var k := |t| - 1;
    EventOK(t[k], input) && SwapPairedAt(t, k) && FinalAt(t, k, |input|)
    && (k > 0 ==> t[k - 1].comparisons <= t[k].comparisons && t[k - 1].swaps <= t[k].swaps)
  }

  /** Every event of `t` is right against the events before it, and none
      is the completion event. */
  ghost predicate TraceOK(t: seq<Event>, input: seq<Elem>)
    decreases |t|
  {
    t == [] || (TraceOK(t[..|t| - 1], input) && LastOK(t, input) && !t[|t| - 1].step.BubbleDone?)
  }

  /** What holds of the run between two statements of the source. */
  ghost predicate InProgress(r: Run, input: seq<Elem>) {
    TraceOK(r.trace, input) && !SwapPending(r.trace) && LastBelow(r.trace, r.comparisons, r.swaps)
    && r.swaps <= r.comparisons && |r.arr| == |input| && StablePerm(r.arr, input)
  }

  /** Comparisons made by passes `0 .. i - 1` on `n` cells: pass `p` makes
      `n - p - 1`. */
  function PassesCost(n: int, i: nat): int {
    if i == 0 then 0 else PassesCost(n, i - 1) + (n - i)
  }

  /** Invariant at the head of the inner loop of pass `i` with index `j`:
      the suffix from `n - i` is settled, `arr[j]` is the largest of
      `arr[0..j]`, and each comparison so far was counted once. */
  ghost predicate AtStep(r: Run, input: seq<Elem>, i: nat, j: nat) {
    var n := |input|;
    InProgress(r, input) && !r.stopped && i + 1 < n && j <= n - i - 1
    && SettledFrom(r.arr, n - i)
    && (forall p :: 0 <= p < j ==> r.arr[p].value <= r.arr[j].value)
    && r.comparisons == PassesCost(n, i) + j && CountFinal(r.trace) == i
  }

  /** Invariant at the head of the outer loop with pass `i`. */
  ghost predicate AtPass(r: Run, input: seq<Elem>, i: nat) {
    var n := |input|;
    InProgress(r, input) && !r.stopped && (i == 0 || i < n)
    && SettledFrom(r.arr, n - i) && r.comparisons == PassesCost(n, i) && CountFinal(r.trace) == i
  }

  /** What holds of a run that reached its end: the trace ends with the
      completion event, whose snapshot is sorted, a stable permutation of
      the input and all displayed as sorted, and which reports
      `n (n - 1) / 2` comparisons. */
  ghost predicate Completed(r: Run, input: seq<Elem>) {
    var t, n := r.trace, |input|;
    |t| > 0 && t[|t| - 1].step == BubbleDone && TraceOK(t[..|t| - 1], input) && LastOK(t, input)
    && NonDecreasing(t[|t| - 1].snap) && (n > 0 ==> AllSorted(t[|t| - 1].snap))
    && t[|t| - 1].comparisons == n * (n - 1) / 2
  }

  /** `t` is a strict prefix of `full`, and the first event it lacks is a
      comparison. */
  ghost predicate StoppedBefore(t: seq<Event>, full: seq<Event>) {
    |t| < |full| && IsPrefix(t, full) && full[|t|].step.ComparePair?
  }

  /** A comparison event is immediately followed by the swap of the same
      pair exactly when the pair was out of order, and every swap event
      follows the comparison of its pair. */
  ghost predicate SwapsFollowOutOfOrder(t: seq<Event>) {
    (forall k :: 0 <= k < |t| && t[k].step.ComparePair? ==>
      (t[k].step.a > t[k].step.b <==> k + 1 < |t| && t[k + 1].step == SwapPair(t[k].step.a, t[k].step.b)))
    && (forall k :: 0 <= k < |t| && t[k].step.SwapPair? ==>
      0 < k && t[k - 1].step == ComparePair(t[k].step.a, t[k].step.b))
  }
}
