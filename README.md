# Sorting visualiser steppers, modelled in Dafny

`SortingAlgorithms` (src/utils/sortingAlgorithms.ts) drives a sorting
visualisation. It has two steppers, `bubbleSort` and `insertionSort`. Each one:

- copies the caller's array of elements (`value`, display `state`, `id`) and
  sorts the copy in place;
- counts comparisons and swaps (shifts, for insertion sort);
- after every visible step, hands the callback a snapshot of the array, a
  step text and both counters;
- polls a caller-supplied `shouldStop` at fixed points and returns at once
  when it answers true.

This project models both steppers and proves what their callbacks report.

## Modules

- **Types**: the data model.
  - `Elem` is a cell, and `State` is its display state.
  - The order facts the proofs are stated in:
    - `NonDecreasing`;
    - `AllSorted`, every cell shown as sorted;
    - `StablePerm`, a stable permutation: for every value, the ids that carry
      it appear in the same order.
  - A lemma turns a stable permutation into equal multisets of (value, id)
    keys.
- **Steps**: what the callback receives.
  - `Event(snap, step, comparisons, swaps)`, where `Label` is one constructor
    per step text and carries the numbers the text contains.
  - `Run` is the state a stepper threads through its statements: working
    array, counters, events so far, polls so far, and whether it returned
    early.
  - `Polled(answers, k)` is the answer of the `k`-th poll of `shouldStop`.
- **BubbleSpec** and **InsertionSpec**: the reference runs, one function per
  loop of the source.
- **Bubble** and **Insertion**: the source's loops written imperatively over
  an `array<Elem>` that is a fresh copy of the input. Each method is proved to
  produce exactly the reference run of its loop. The top-level methods
  `BubbleSortRun` and `InsertionSortRun` return the event trace and whether
  the run stopped.
- **BubbleInvariants** / **InsertionInvariants**: the loop invariants and the
  invariant every trace keeps.
- **BubbleProofs** / **InsertionProofs**: the proofs of those invariants and
  the public properties built on them.
- **BubbleReports** / **InsertionReports**: what each report says about the
  run so far, and the proofs that every run keeps it:
  - its counters are the numbers of comparison and swap (shift) reports up to
    and including it (`Steps.CountCompares`, `Steps.CountSwaps`);
  - `shouldStop` was polled once per comparison (and, for insertion sort, once
    per selection), plus once more when the run stopped;
  - the values its step text names are the ones its snapshot shows.
- **Scenarios**: three concrete runs worked through step by step.

`shouldStop` is modelled as a sequence `answers` of booleans. The `k`-th poll
reads `answers[k]`, and polls past the end answer false. `BubbleSort(input, [])`
and `InsertionSort(input, [])` are therefore the runs that are never stopped.

## Model

| member | source | states |
|---|---|---|
| Bubble.CompareStep | src/utils/sortingAlgorithms.ts:19-54 | one inner-loop body on the array marks the pair as comparing, counts and reports the comparison, and, when the left value is larger, marks both as swapping, counts and reports the swap and exchanges them; both cells end in the default state; the new array, counters and trace are those of `BubbleSpec.CompareAt` |
| Bubble.RunPass | src/utils/sortingAlgorithms.ts:16-55 | the inner loop of pass `i` polls `shouldStop` before every comparison and returns at the first true answer; its result is `BubbleSpec.Pass` |
| Bubble.EndPassStep | src/utils/sortingAlgorithms.ts:57-60 | the end of pass `i` marks cell `n - i - 1` as sorted and reports it as in its final position; the new array and trace are those of `BubbleSpec.EndPass` |
| Bubble.FinishStep | src/utils/sortingAlgorithms.ts:63-68 | cell 0 is marked as sorted when it exists, then completion is reported; the final array and trace are those of `BubbleSpec.Finish` |
| Bubble.SortArray | src/utils/sortingAlgorithms.ts:11-68 | the outer loop over passes `0 .. n - 2` and the completion report emit exactly the trace and stop flag of `BubbleSpec.Passes` (lines 15-61, then `Finish`), and leave the array holding that run's final array |
| Bubble.BubbleSortRun | src/utils/sortingAlgorithms.ts:4-69 | sorting a fresh copy of the input returns the trace and stop flag of `BubbleSpec.BubbleSort` |
| BubbleProofs.PassesCostClosed | src/utils/sortingAlgorithms.ts:15-22 | passes `0 .. i - 1` make `i (2n - 1 - i) / 2` comparisons in total |
| BubbleProofs.AllPassesCost | src/utils/sortingAlgorithms.ts:15-22 | all `n - 1` passes make `n (n - 1) / 2` comparisons |
| BubbleProofs.CompareAtKeeps | src/utils/sortingAlgorithms.ts:19-54 | one comparison step keeps the inner-loop invariant and moves it from `j` to `j + 1`: the suffix from `n - i` stays settled, the cell at `j + 1` becomes the largest so far, and the array stays a stable permutation of the input |
| BubbleProofs.PassKeeps | src/utils/sortingAlgorithms.ts:16-55 | the inner loop keeps the trace invariant; when it is not stopped, it ends with the pass's largest cell at `n - i - 1` |
| BubbleProofs.EndPassKeeps | src/utils/sortingAlgorithms.ts:57-59 | marking and reporting the last cell of the pass extends the settled suffix by one: the outer invariant moves to `i + 1` |
| BubbleProofs.PassesKeeps | src/utils/sortingAlgorithms.ts:15-61 | an outer loop that stops, stops in a state where the trace invariant holds and no swap is pending |
| BubbleProofs.PassesCompletes | src/utils/sortingAlgorithms.ts:15-68 | an outer loop that does not stop ends with a completion event whose snapshot is sorted and shown as sorted, after `n (n - 1) / 2` comparisons |
| BubbleProofs.BubbleSortedOnCompletion | src/utils/sortingAlgorithms.ts:15-68 | a run that is not stopped ends with "Bubble sort completed!". Its snapshot is sorted, is a stable permutation of the input with the same multiset of keys, and shows every cell as sorted (when there is one). It reports `n (n - 1) / 2` comparisons. No earlier event is the completion |
| BubbleProofs.BubbleEventsArePermutations | src/utils/sortingAlgorithms.ts:24-68 | every snapshot has the input's length and is a stable permutation of it; every step text is one of bubble sort's; the completion can only be the last event of a run that was not stopped |
| BubbleProofs.BubbleCounters | src/utils/sortingAlgorithms.ts:22-43 | every event carries, as `comparisons`, the number of comparison events up to and including it, and as `swaps` the number of swap events; the run's final counters are those counts over the whole trace; so the counters never decrease along the trace, and no event reports more swaps than comparisons |
| BubbleProofs.BubbleSwapIffOutOfOrder | src/utils/sortingAlgorithms.ts:33-44 | a comparison of `a` and `b` is followed at once by the swap of `a` and `b` if and only if `a > b`, and every swap follows the comparison of its pair |
| BubbleProofs.BubbleFinalPositions | src/utils/sortingAlgorithms.ts:57-59 | the `m`-th final-position event reports the cell at `n - m`; that cell holds the reported value and is at least every cell before it; from it on, cells are in final order and shown as sorted |
| BubbleProofs.BubblePolls | src/utils/sortingAlgorithms.ts:16-17 | `shouldStop` is polled until its first true answer and never after; the run stopped exactly when that answer came; the number of polls is the number of comparison events, plus one when the run stopped |
| BubbleProofs.BubbleStopTruncates | src/utils/sortingAlgorithms.ts:16-17 | a stopped run's trace is a strict prefix of the never-stopped trace, and the first missing event is a comparison (so there is no completion event); a run that is not stopped emits the never-stopped trace |
| BubbleProofs.BubbleFirstPollStops | src/utils/sortingAlgorithms.ts:15-17 | with two cells or more, a first poll that answers true ends the run before any callback |
| BubbleProofs.BubbleEmptyInput | src/utils/sortingAlgorithms.ts:13-68 | an empty array gives exactly one event, the completion with both counters 0, and no poll |
| BubbleReports.CompareAtReports | src/utils/sortingAlgorithms.ts:19-54 | one inner-loop body after its poll keeps every report right: the comparison report names the two values it shows compared in cells `j`, `j + 1`, the swap report the values it shows being swapped there, both carry the counts of comparison and swap events so far, and the poll count stays one per comparison |
| BubbleReports.CompareAtSwapDone | src/utils/sortingAlgorithms.ts:33-54 | after one inner-loop body, a swap reported last was of cells `j` and `j + 1` and the array holds that pair exchanged |
| BubbleReports.PassSwapDone | src/utils/sortingAlgorithms.ts:16-55 | an inner loop that is not stopped ends with any swap reported last being of the pass's last two cells, and the array holding them exchanged |
| BubbleReports.PassReports | src/utils/sortingAlgorithms.ts:16-55 | the inner loop, stopped or not, keeps the reports right, the counters equal to the counts and the polls one per comparison (plus the stopping one) |
| BubbleReports.EndPassReports | src/utils/sortingAlgorithms.ts:57-59 | the final-position report keeps the reports right and shows a swap just before it done |
| BubbleReports.FinishReports | src/utils/sortingAlgorithms.ts:63-68 | the completion report keeps the reports right |
| BubbleReports.PassesReports | src/utils/sortingAlgorithms.ts:15-68 | the outer loop and the completion report keep the reports right |
| BubbleReports.BubbleReportsHold | src/utils/sortingAlgorithms.ts:11-68 | every run of bubble sort reports right: counters equal to the counts and one poll per comparison, plus the stopping one |
| BubbleReports.BubbleReportsShowPairs | src/utils/sortingAlgorithms.ts:19-54 | every "Comparing a and b" shows `a` and `b` in two adjacent cells as being compared, every "Swapping a and b" shows them there as being swapped, and the snapshot after a swap holds `b`, `a` in those same two cells |
| Insertion.ShiftStep | src/utils/sortingAlgorithms.ts:103-128 | one `while` body on the array marks `arr[j]` as comparing, counts and reports the comparison, copies it into `arr[j + 1]` as swapping, counts and reports the shift, then shows the copy as sorted; the result is `InsertionSpec.ShiftAt` |
| Insertion.ShiftLoop | src/utils/sortingAlgorithms.ts:98-130 | from cursor `i - 1` down, while the cell is larger than `current`: poll (returning at once on true), then shift; returns the run and the final cursor of `InsertionSpec.Shifts` |
| Insertion.IterationStep | src/utils/sortingAlgorithms.ts:89-136 | one `for` iteration polls, selects `arr[i]` shown as comparing, runs the `while` loop and writes the selected cell as sorted after the cursor; the result is `InsertionSpec.Iteration`, made of `InsertionSpec.Select` (lines 92-95), `InsertionSpec.Shifts` and `InsertionSpec.InsertAt` (lines 132-135) |
| Insertion.FirstStep | src/utils/sortingAlgorithms.ts:82-87 | a non-empty array has cell 0 marked as sorted and reported, before any poll; the array, counters, trace and poll count are those of `InsertionSpec.Begin` |
| Insertion.SortArray | src/utils/sortingAlgorithms.ts:82-139 | the first-cell report, the `for` loop and the completion report emit exactly the trace and stop flag of `InsertionSpec.Iterations` (lines 89-139) started from `InsertionSpec.Begin`, and leave the array holding that run's final array |
| Insertion.InsertionSortRun | src/utils/sortingAlgorithms.ts:71-140 | sorting a fresh copy of the input returns the trace and stop flag of `InsertionSpec.InsertionSort` |
| InsertionProofs.BeginKeeps | src/utils/sortingAlgorithms.ts:82-87 | after the first-cell report, the first cell is a sorted prefix: the outer invariant holds at `i = 1` |
| InsertionProofs.SelectKeeps | src/utils/sortingAlgorithms.ts:92-98 | selecting `arr[i]` starts the `while` invariant at cursor `i - 1`, from the sorted prefix `arr[..i]` |
| InsertionProofs.ShiftUnsorted | src/utils/sortingAlgorithms.ts:100 | the `while` condition can hold only on an input that is not already sorted |
| InsertionProofs.ShiftKeeps | src/utils/sortingAlgorithms.ts:100-129 | one shift moves the hole one cell left: cells up to the cursor are untouched, the prefix cells after it sit one cell right and are all larger than `current`, and the counters stay equal |
| InsertionProofs.ShiftsKeeps | src/utils/sortingAlgorithms.ts:100-130 | a `while` loop that is not stopped keeps its invariant and exits at a cursor whose cell, if any, is no larger than `current` |
| InsertionProofs.InsertOrder | src/utils/sortingAlgorithms.ts:133 | inserting `current` after the prefix cells no larger than it and before the larger ones keeps the prefix sorted |
| InsertionProofs.InsertStable | src/utils/sortingAlgorithms.ts:133 | that insertion makes a stable permutation of the input's first `i + 1` cells |
| InsertionProofs.InsertSortedRun | src/utils/sortingAlgorithms.ts:133 | the input's cell `i`, shown as sorted and inserted into a sorted, sorted-shown, stable rearrangement of the input's first `i` cells just before the ones larger than it, gives a sorted, sorted-shown, stable rearrangement of the first `i + 1` cells |
| InsertionProofs.InsertKeeps | src/utils/sortingAlgorithms.ts:132-135 | writing `current` as sorted into the hole gives a sorted prefix of `i + 1` cells; it is shown as sorted, is a stable permutation of the input's first `i + 1` cells, and is followed by the untouched input |
| InsertionProofs.IterationKeeps | src/utils/sortingAlgorithms.ts:89-137 | an iteration that is not stopped moves the outer invariant from `i` to `i + 1` |
| InsertionProofs.IterationsCompletes | src/utils/sortingAlgorithms.ts:89-139 | a `for` loop that is not stopped ends with a completion event whose snapshot is the whole input sorted, shown as sorted and stably rearranged |
| InsertionProofs.InsertionSortedOnCompletion | src/utils/sortingAlgorithms.ts:77-139 | a run that is not stopped ends with "Insertion sort completed!". Its snapshot is sorted, shows every cell as sorted, and is a stable permutation of the input with the same multiset of keys. It reports as many comparisons as shifts, and none on an already-sorted input. No earlier event is the completion |
| InsertionProofs.InsertionOuterInvariant | src/utils/sortingAlgorithms.ts:132-135 | the `m`-th "Inserted v at position pos" event ends iteration `m`. The first `m + 1` cells of its snapshot are sorted, shown as sorted, and a stable permutation of the input's first `m + 1` cells; the rest is the input untouched. Cell `pos` (at most `m`) is the input's cell `m`, with value `v` |
| InsertionProofs.InsertionCounters | src/utils/sortingAlgorithms.ts:104-124 | every event carries, as `comparisons`, the number of comparison events up to and including it, and as `swaps` the number of shift events; the run's final counters are those counts over the whole trace; so the counters never decrease, and every event reports as many comparisons as shifts, except a comparison event, which is one ahead |
| InsertionProofs.InsertionShiftPairs | src/utils/sortingAlgorithms.ts:100-124 | every "Comparing current with v" names a `v` larger than `current` and is followed at once by "Moving v one position right"; every shift follows the comparison of the cell it moves |
| InsertionProofs.InsertionSortedInput | src/utils/sortingAlgorithms.ts:100 | on an already-sorted input, no event is a comparison or a shift, and every event reports both counters 0 |
| InsertionProofs.InsertionFirstSorted | src/utils/sortingAlgorithms.ts:82-90 | on a non-empty input, the first event is the first cell shown as sorted, with both counters 0. A first poll answering true (on two cells or more) leaves exactly that event |
| InsertionProofs.InsertionEmptyInput | src/utils/sortingAlgorithms.ts:80-139 | an empty array gives exactly one event, the completion with both counters 0, and no poll |
| InsertionProofs.InsertionPolls | src/utils/sortingAlgorithms.ts:90-101 | `shouldStop` is polled until its first true answer and never after; the run stopped exactly when that answer came; the number of polls is the number of "Selecting" events plus the number of comparison events, plus one when the run stopped |
| InsertionProofs.InsertionStopTruncates | src/utils/sortingAlgorithms.ts:89-101 | a stopped run's trace is a strict prefix of the never-stopped trace, and the first missing event is a selection (the iteration's poll) or a comparison (the poll before a shift); a run that is not stopped emits the never-stopped trace |
| InsertionReports.BeginReports | src/utils/sortingAlgorithms.ts:82-87 | after the first-cell report the reports are right, no iteration has ended and the array is the input from cell 1 on |
| InsertionReports.SelectReports | src/utils/sortingAlgorithms.ts:90-95 | selecting `arr[i]` reports "Selecting v" with `v` the input's value at `i`, shown as being compared in cell `i`, and starts the `while` loop with the reports right |
| InsertionReports.ShiftAtReports | src/utils/sortingAlgorithms.ts:103-128 | one shift reports "Comparing current with v" with `current` the input's value at `i` and `v` shown compared in the cursor's cell, then "Moving v one position right" with the copy shown in the next cell; the counters equal the counts and the poll count stays one per selection and comparison |
| InsertionReports.ShiftsReports | src/utils/sortingAlgorithms.ts:100-130 | the `while` loop, stopped or not, keeps the reports right |
| InsertionReports.InsertAtReports | src/utils/sortingAlgorithms.ts:132-135 | writing the inserted cell ends iteration `i` with the reports right and the cells after `i` untouched |
| InsertionReports.IterationReports | src/utils/sortingAlgorithms.ts:89-136 | one `for` iteration, stopped or not, keeps the reports right, and one that is not stopped starts the next iteration |
| InsertionReports.DoneReports | src/utils/sortingAlgorithms.ts:139 | the completion report keeps the reports right |
| InsertionReports.IterationsReports | src/utils/sortingAlgorithms.ts:89-139 | the `for` loop and the completion report keep the reports right |
| InsertionReports.InsertionReportsHold | src/utils/sortingAlgorithms.ts:82-139 | every run of insertion sort reports right: counters equal to the counts and polls one per selection and per comparison, plus the stopping one |
| InsertionReports.TraceCounted | src/utils/sortingAlgorithms.ts:104-124 | in a trace that reports right, every event's counters are the counts of comparison and shift events up to and including it |
| InsertionReports.TraceValuesShown | src/utils/sortingAlgorithms.ts:92-128 | in a trace that reports right, every event shows the values it names |
| InsertionReports.InsertionReportsShowValues | src/utils/sortingAlgorithms.ts:92-128 | in iteration `m`, "Selecting v" names the input's value at `m` and shows that cell as being compared; "Comparing current with v" names the input's value at `m` as `current` and shows `v` compared in a cell before `m`; "Moving v one position right" shows `v` copied, as being moved, into the cell after it |
| Scenarios.BubbleScenario | src/utils/sortingAlgorithms.ts:4-69 | bubble sort of 3, 1, 2 ends "Bubble sort completed!" with 1, 2, 3 shown as sorted, after 3 comparisons and 2 swaps |
| Scenarios.InsertionScenario | src/utils/sortingAlgorithms.ts:71-140 | insertion sort of 2, 1 emits, in order: first sorted, selecting 1, comparing 1 with 2, moving 2 right, inserted 1 at position 0, completed; it ends with 1, 2 |
| Scenarios.StopScenario | src/utils/sortingAlgorithms.ts:15-44 | bubble sort of 5, 4, 3, 2, 1 whose second poll answers true emits exactly two events: the first comparison and its swap |

## Left out

- The `delay` helper, `speedMs` and `await` are left out: the pauses change no
  state and are not modelled. Each stepper runs to completion as one
  synchronous routine.
- `shouldStop` is an external predicate. It is modelled as the sequence of
  its answers, one per poll.
- The step texts are constructors carrying the numbers they interpolate. The
  string formatting itself is not modelled.
- Values are Dafny integers. JavaScript numbers are floating point, and NaN
  or mixed-type comparisons are not modelled.
- Elements are values, not shared objects. In the source, `[...array]` and
  every `[...arr]` snapshot are shallow copies: the element objects are
  shared with the caller's input and with snapshots already delivered. So
  later in-place writes to `state` (for example `arr[j].state = 'comparing'`
  or `current.state = 'comparing'`) are also visible through earlier
  snapshots and the input. The model's snapshots are the array's value at
  the moment of the callback.
- The callback is modelled by the trace of events it receives. What the
  caller does with a snapshot (rendering) is not part of this model.
- The other members of src/types/index.ts (the sorting-state record and the
  algorithm names) belong to the caller, not to this model.
- Insertion sort's comparison counter counts only the comparisons that lead
  to a shift, which is what the source does: the failing `while` test is not
  counted. No lemma relates the count to the number of inversions of the
  input.

## Notes on the source

- Insertion sort reports "First element is considered sorted" (lines
  83-87) before its first poll of `shouldStop` (line 90). So a run whose
  first poll answers true still emits that one event
  (`InsertionProofs.InsertionFirstSorted`).
- Bubble sort polls before its first callback (lines 16-17). With two
  cells or more, a run whose first poll answers true emits no event at all
  (`BubbleProofs.BubbleFirstPollStops`).
