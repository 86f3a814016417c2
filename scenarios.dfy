/** Concrete runs worked through step by step: the three-cell bubble sort,
    the two-cell insertion sort and a bubble sort stopped by its second
    poll. */
module Scenarios {
  import opened Types
  import opened Steps
  import opened BubbleSpec
  import opened InsertionSpec

  /** A cell in the default state. */
  function E(v: int, id: string): Elem { Elem(v, Default, id) }

  /** Bubble sort of 3, 1, 2, never stopped, ends with 1, 2, 3 all shown
      as sorted after 3 comparisons and 2 swaps. */
  lemma BubbleScenario()
    ensures var t := BubbleSort([E(3, "a"), E(1, "b"), E(2, "c")], []).trace;
      |t| > 0 && t[|t| - 1].step == BubbleDone && t[|t| - 1].comparisons == 3 && t[|t| - 1].swaps == 2
      && t[|t| - 1].snap == [Elem(1, Sorted, "b"), Elem(2, Sorted, "c"), Elem(3, Sorted, "a")]
  {
    var r0 := Start([E(3, "a"), E(1, "b"), E(2, "c")]);
    var a1 := CompareAt(r0.(polls := 1), 0);
    assert a1.arr == [E(1, "b"), E(3, "a"), E(2, "c")] && a1.comparisons == 1 && a1.swaps == 1;
    var a2 := CompareAt(a1.(polls := 2), 1);
    assert a2.arr == [E(1, "b"), E(2, "c"), E(3, "a")] && a2.comparisons == 2 && a2.swaps == 2;
    PassUnfold([], r0, 0, 0);
    PassUnfold([], a1, 0, 1);
    var r2 := EndPass(a2, 0);
    assert r2.arr == [E(1, "b"), E(2, "c"), Elem(3, Sorted, "a")];
    var a3 := CompareAt(r2.(polls := 3), 0);
    assert a3.arr == r2.arr && a3.comparisons == 3 && a3.swaps == 2;
    PassUnfold([], r2, 1, 0);
    var r4 := EndPass(a3, 1);
    assert r4.arr == [E(1, "b"), Elem(2, Sorted, "c"), Elem(3, Sorted, "a")];
    PassesUnfold([], r0, 0);
    PassesUnfold([], r2, 1);
    FinishUnfold([], r4, 2);
  }

  /** Insertion sort of 2, 1 reports the first cell, selects 1, compares
      it with 2, moves 2 right, inserts 1 at position 0 and completes. */
  lemma InsertionScenario()
    ensures var t := InsertionSort([E(2, "a"), E(1, "b")], []).trace;
      |t| == 6 && t[0].step == FirstSorted && t[1].step == Selecting(1) && t[2].step == CompareWith(1, 2)
      && t[3].step == MovingRight(2) && t[4].step == Inserted(1, 0) && t[5].step == InsertionDone
      && t[5].snap == [Elem(1, Sorted, "b"), Elem(2, Sorted, "a")]
  {
  }

  /** Bubble sort of 5, 4, 3, 2, 1 whose second poll answers true emits
      the first comparison and its swap, and nothing more. */
  lemma StopScenario()
    ensures var t := BubbleSort([E(5, "a"), E(4, "b"), E(3, "c"), E(2, "d"), E(1, "e")], [false, true]).trace;
      |t| == 2 && t[0].step == ComparePair(5, 4) && t[1].step == SwapPair(5, 4)
  {
    var r0 := Start([E(5, "a"), E(4, "b"), E(3, "c"), E(2, "d"), E(1, "e")]);
    PassesUnfold([false, true], r0, 0);
  }
}
