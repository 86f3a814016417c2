/** What a sort reports to its caller: the events handed to the update
    callback (src/utils/sortingAlgorithms.ts), the run state both sorts
    thread through their steps, and the stop oracle. */
module Steps {
  import opened Types

  /** The step text of each callback, as a constructor carrying the numbers
      the source interpolates into it. */
  datatype Label =
    | ComparePair(a: int, b: int)        // "Comparing a and b"
    | SwapPair(a: int, b: int)           // "Swapping a and b"
    | FinalPosition(v: int)              // "Element v is in its final position"
    | BubbleDone                         // "Bubble sort completed!"
    | FirstSorted                        // "First element is considered sorted"
    | Selecting(v: int)                  // "Selecting element v to insert"
    | CompareWith(current: int, v: int)  // "Comparing current with v"
    | MovingRight(v: int)                // "Moving v one position right"
    | Inserted(v: int, pos: int)         // "Inserted v at position pos"
    | InsertionDone                      // "Insertion sort completed!"

  /** One callback: a snapshot of the working array, the step text and the
      two counters at that moment. */
  datatype Event = Event(snap: seq<Elem>, step: Label, comparisons: nat, swaps: nat)

  /** The state of a run between two statements of the source: the working
      array, the counters, the events emitted so far, how many times
      `shouldStop` was polled, and whether the run returned early. */
  datatype Run = Run(arr: seq<Elem>, comparisons: nat, swaps: nat, trace: seq<Event>, polls: nat, stopped: bool)

  /** A run that has done nothing yet: the copy of the input, zero counters. */
  function Start(input: seq<Elem>): Run {
    Run(input, 0, 0, [], 0, false)
  }

  /** The answer of the `k`-th poll of `shouldStop` (counting from 0) when
      the caller's answers are `answers`; polls past its end answer false. */
  function Polled(answers: seq<bool>, k: nat): bool {
    k < |answers| && answers[k]
  }

  /** Hand the current snapshot and counters to the callback. */
  function Emit(r: Run, l: Label): (r': Run)
    ensures r'.trace == r.trace + [Event(r.arr, l, r.comparisons, r.swaps)]
    ensures r' == r.(trace := r'.trace)
  {
    r.(trace := r.trace + [Event(r.arr, l, r.comparisons, r.swaps)])
  }

  /** Set the state of cell `k` (the source's `arr[k].state = ...`). */
  function Mark(s: seq<Elem>, k: int, st: State): (r: seq<Elem>)
    requires 0 <= k < |s|
    ensures |r| == |s|
  {
    s[k := s[k].(state := st)]
  }

  /** The step texts that report a comparison, and those that report a
      swap (a shift, in insertion sort). */
  predicate IsCompare(l: Label) {
    l.ComparePair? || l.CompareWith?
  }

  predicate IsSwap(l: Label) {
    l.SwapPair? || l.MovingRight?
  }

  /** How many comparison events `t` holds. */
  function CountCompares(t: seq<Event>): nat {
    if t == [] then 0
    else CountCompares(t[..|t| - 1]) + (if IsCompare(t[|t| - 1].step) then 1 else 0)
  }

  /** How many swap events `t` holds. */
  function CountSwaps(t: seq<Event>): nat {
    if t == [] then 0
    else CountSwaps(t[..|t| - 1]) + (if IsSwap(t[|t| - 1].step) then 1 else 0)
  }

  /** Appending one event counts it once. */
  lemma CountsAppend(t: seq<Event>, e: Event)
    ensures CountCompares(t + [e]) == CountCompares(t) + (if IsCompare(e.step) then 1 else 0)
    ensures CountSwaps(t + [e]) == CountSwaps(t) + (if IsSwap(e.step) then 1 else 0)
  {
    assert (t + [e])[..|t|] == t;
  }

  /** The run's counters are the numbers of comparison and swap events it
      reported. */
  ghost predicate CountersCount(r: Run) {
    r.comparisons == CountCompares(r.trace) && r.swaps == CountSwaps(r.trace)
  }

  /** `t` is an exact prefix of `full`. */
  ghost predicate IsPrefix(t: seq<Event>, full: seq<Event>) {
    |t| <= |full| && full[..|t|] == t
  }

  /** The last event reports at most `c` comparisons and `w` swaps. */
  ghost predicate LastBelow(t: seq<Event>, c: nat, w: nat) {
    |t| > 0 ==> t[|t| - 1].comparisons <= c && t[|t| - 1].swaps <= w
  }

  /** Neither counter ever goes down along the trace. */
  ghost predicate CountersMonotone(t: seq<Event>) {
    forall p, q :: 0 <= p < q < |t| ==> t[p].comparisons <= t[q].comparisons && t[p].swaps <= t[q].swaps
  }

  /** A longer prefix holds at least as many comparison and swap events. */
  lemma {:induction false} CountsGrow(t: seq<Event>, p: nat, q: nat)
    requires p <= q <= |t|
    ensures CountCompares(t[..p]) <= CountCompares(t[..q]) && CountSwaps(t[..p]) <= CountSwaps(t[..q])
    decreases q - p
  {
    if p < q {
      assert t[..q][..q - 1] == t[..q - 1];
      CountsGrow(t, p, q - 1);
    }
  }

  /** When every event reports the numbers of comparison and swap events up
      to it, the counters never decrease. */
  lemma CountedMonotone(t: seq<Event>)
    requires forall k :: 0 <= k < |t| ==> t[k].comparisons == CountCompares(t[..k + 1]) && t[k].swaps == CountSwaps(t[..k + 1])
    ensures CountersMonotone(t)
  {
    forall p, q | 0 <= p < q < |t|
      ensures t[p].comparisons <= t[q].comparisons && t[p].swaps <= t[q].swaps
    {
      CountsGrow(t, p + 1, q + 1);
    }
  }

  /** Being a prefix is transitive. */
  lemma PrefixTrans(a: seq<Event>, b: seq<Event>, c: seq<Event>)
    requires IsPrefix(a, b) && IsPrefix(b, c)
    ensures IsPrefix(a, c)
  {
    assert c[..|a|] == c[..|b|][..|a|];
  }

  /** A trace is a prefix of itself extended, and the first added event
      comes right after it. */
  lemma PrefixAppend(t: seq<Event>, u: seq<Event>)
    ensures IsPrefix(t, t + u)
    ensures |u| > 0 ==> (t + u)[|t|] == u[0]
  {
    assert (t + u)[..|t|] == t;
  }

  /** The first `r.polls` polls all answered false. */
  ghost predicate PollsFalse(answers: seq<bool>, r: Run) {
    forall k :: 0 <= k < r.polls ==> !Polled(answers, k)
  }

  /** Polls `0 .. r.polls - 1` answered false, except that the last one
      answered true if and only if the run stopped: the run polled until the
      first true answer and no further. */
  ghost predicate PolledUntilFirstYes(answers: seq<bool>, r: Run) {
    (r.stopped ==> r.polls > 0)
    && forall k :: 0 <= k < r.polls ==> (Polled(answers, k) <==> r.stopped && k == r.polls - 1)
  }
}
