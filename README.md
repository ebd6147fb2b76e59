# Iterative quicksort engine of TestApp

This project models `TestApp.IterativeQuickSort` in Dafny and proves properties of the model.
The engine is a quicksort without recursion.

- `quickSort(arr, stepCallback, running, compare)` keeps an explicit stack of inclusive `[low, high]` ranges.
- The loop runs while the stack is non-empty and `running` answers true; `running` is asked only when the stack is non-empty.
- Each turn pops a range and, when `low < high`, partitions it.
- It then pushes `[low, p - 1]` and `[p + 1, high]` and calls the step callback with the list.
- `partition` is Lomuto's scheme:
  - the last element of the range is the pivot;
  - a boundary `i` starts at `low - 1`;
  - every element that compares `<= 0` with the pivot is swapped to `++i`;
  - the pivot is swapped to `i + 1`, and that index is returned.

Modelling choices:

- The `List<Integer>` the engine mutates is an `array<int>` changed in place. `Collections.swap` is `SwapElements`.
- The comparator is one of the two lambdas the application passes: `Integer.compare(a, b)` (`ascending`) or `Integer.compare(b, a)`. `Comparators` models both.
- `running` is a function `nat -> bool`: its answer to the `t`-th poll, counting from 0. The model says nothing about where the answers come from. In the application they come from the `sorting` flag, which the user-interface thread clears.
- The step callback is a returned sequence `steps`: the list's contents at each call, in order. A ghost sequence `partitioned` records the range partitioned before each call.
- There are two layers:
  - Functional definitions (`Swap`, `Scan`, `Partition`, and the trace in `SortEngine`) state what each operation computes.
  - The in-place methods (`SwapElements`, `ScanInPlace`, `PartitionInPlace`, `PopAndPartition`, `SortLoop`, `QuickSort`) are proved against them.
- `Run` and `Turn` are a reference definition of the loop over values.
  - `Run` ends at once on an empty stack, without polling.
  - `Turn` polls `running`. A no ends the run there, with the stack left as it is. A yes pops the top range, then partitions and pushes both sides when `low < high`.
  - Each result is an `Outcome`: the final list, the steps, the partitioned ranges, the stack left, the number of polls and whether the run stopped early.
- `SortLoop` is the `while` loop of `quickSort`, and `PopAndPartition` is one turn of it. Both are proved equal to the reference run, so the steps, their order, the polls and the stop are all fixed by it.
- The loop's invariant (`EngineInv`) has several parts:
  - The stack invariant `StackInv`. Its ranges are in bounds and pairwise disjoint. Any two positions not inside one stacked range are already in order. So the empty stack means sorted.
  - The trace: every snapshot is the partition of the previous one and a permutation of the input.
  - Counters tying polls, pushes and partitions together.
  - A work measure bounding the number of partitions by `n - 1`.
- The loop terminates on `TotalLen(stack), |stack|`. Partitioning removes the pivot from the stacked positions, and popping a trivial range shortens the stack.

Edge cases the code handles, which the model follows:

- For a list of zero or one element, `quickSort` still pushes `[0, size - 1]`, so it polls `running` exactly once.
- A failing step callback does not abort the run: the application's callback catches the exception and shows it (TestApp.java:272-274). So the engine stops only through `running`, and `quickSort` has no failure path of its own.

## Model

| member | source | states |
|---|---|---|
| Comparators.IntegerCompare | src/main/java/com/testapp/TestApp.java:280-282 | The result is in -1..1, and it is negative, zero or positive exactly when x < y, x == y or x > y (each an if-and-only-if). |
| Comparators.Compare | src/main/java/com/testapp/TestApp.java:280-282 | The comparator of a run, `Integer.compare(a, b)` when ascending and `Integer.compare(b, a)` otherwise, answers -1, 0 or 1. What each answer means is `CompareMeaning`. |
| Comparators.CompareMeaning | src/main/java/com/testapp/TestApp.java:280-282 | The sign of either lambda. Ascending: negative exactly when x < y, positive exactly when x > y. Descending: the reverse. In both, 0 exactly when x == y, so compare(x, y) <= 0 means x <= y, or x >= y when descending. |
| Comparators.NotAfterIsTotalPreorder | src/main/java/com/testapp/TestApp.java:280-282 | "compare <= 0" is reflexive, total and transitive for either lambda, so sorting by it is well defined. |
| Comparators.SortedMeansMonotone | src/main/java/com/testapp/TestApp.java:280-282 | Sorted under the ascending comparator is exactly non-decreasing; under the descending one, exactly non-increasing. |
| Partitioning.Swap | src/main/java/com/testapp/TestApp.java:335 | `Collections.swap`: the length is kept, positions i and j exchange their values, and every other position is unchanged. |
| Partitioning.SwapPermutes | src/main/java/com/testapp/TestApp.java:335 | A swap keeps the multiset of values. |
| Partitioning.Scan | src/main/java/com/testapp/TestApp.java:332-337 | The scanning loop keeps the length, and its boundary ends in [i0, high), where i0 is the boundary it starts from. |
| Partitioning.Partition | src/main/java/com/testapp/TestApp.java:328-340 | The length is kept, and the returned pivot index lies in [low, high]. |
| Partitioning.ScanArranges | src/main/java/com/testapp/TestApp.java:332-337 | The loop invariant of the scan is kept to the end of the loop: within [low, i] everything compares <= 0 with the pivot, and within (i, j) everything compares > 0. |
| Partitioning.ScanFrame | src/main/java/com/testapp/TestApp.java:332-337 | The scan changes no position outside [low, high - 1]. |
| Partitioning.ScanPermutes | src/main/java/com/testapp/TestApp.java:332-337 | The scan keeps the multiset of values. |
| Partitioning.SwapExtendsPrefix | src/main/java/com/testapp/TestApp.java:333-336 | When arr[j] compares <= 0 with the pivot, the swap to ++i extends the "<= 0" prefix by one and keeps the "> 0" block. |
| Partitioning.FinalSwap | src/main/java/com/testapp/TestApp.java:338-339 | After the scan, swapping the pivot from `high` to i + 1 puts it there, with everything in [low, i] comparing <= 0 with it and everything in (i + 1, high] comparing > 0. Nothing outside [low, high] moves, and the multiset is kept. |
| Partitioning.PartitionCorrect | src/main/java/com/testapp/TestApp.java:328-340 | The original arr[high] sits at the returned index. The range left of it compares <= 0 with it, the range right of it > 0. Nothing outside [low, high] moves. The result is a permutation. |
| Partitioning.PartitionPermutesRange | src/main/java/com/testapp/TestApp.java:328-340 | The partition permutes the segment [low, high] itself, so every value there came from there. |
| Partitioning.PartitionExampleFirst | src/main/java/com/testapp/TestApp.java:328-340 | Partitioning [5, 3, 8, 3, 1] over [0, 4], ascending, gives [1, 3, 8, 3, 5] with pivot index 0. |
| Partitioning.PartitionExampleSecond | src/main/java/com/testapp/TestApp.java:328-340 | Partitioning [1, 3, 8, 3, 5] over [1, 4], ascending, gives [1, 3, 3, 5, 8] with pivot index 3. |
| Partitioning.PartitionsOfExampleRun | src/main/java/com/testapp/TestApp.java:328-340 | The three partitions of an ascending sort of [2, 1, 6, 5, 4]. [0, 4] gives [2, 1, 4, 5, 6] with pivot index 2. [3, 4] of that gives the same list with pivot index 4. [0, 1] gives [1, 2, 4, 5, 6] with pivot index 0. |
| Partitioning.SwapElements | src/main/java/com/testapp/TestApp.java:335 | The in-place swap leaves the array equal to `Swap` of its old contents. |
| Partitioning.ScanInPlace | src/main/java/com/testapp/TestApp.java:330-337 | The in-place `for` loop leaves the array and the boundary `i` equal to `Scan` from i = low - 1 and j = low. |
| Partitioning.PartitionInPlace | src/main/java/com/testapp/TestApp.java:328-340 | The in-place partition matches `Partition`, both the array and the returned index. The old arr[high] is at the index, the sides compare <= 0 and > 0, nothing outside the range moves, and the multiset is kept. |
| SortEngine.RangePositions | src/main/java/com/testapp/TestApp.java:313-315 | The `int[]{low, high}` pair is inclusive at both ends: the range stands for exactly `Len` positions, low..high, and for none when high < low. |
| SortEngine.PushSides | src/main/java/com/testapp/TestApp.java:320-321 | The two pushes add two ranges. The right side [p + 1, high] is on top, so it is popped next; the left side [low, p - 1] is just below it. |
| SortEngine.InitialStackInv | src/main/java/com/testapp/TestApp.java:309-310 | The initial stack [[0, size - 1]] satisfies the stack invariant for any list. |
| SortEngine.EmptyStackSorted | src/main/java/com/testapp/TestApp.java:312 | When the stack is empty the invariant means the list is sorted under the comparator. |
| SortEngine.OutsideRangesIsPlaced | src/main/java/com/testapp/TestApp.java:312-324 | A position in no stacked range is in its final place: nothing left of it comes after it, nothing right of it before it. |
| SortEngine.PopTrivialInv | src/main/java/com/testapp/TestApp.java:313-317 | Popping a range with low >= high, which is then skipped, keeps the stack invariant. |
| SortEngine.PartitionStepInv | src/main/java/com/testapp/TestApp.java:317-321 | Popping [low, high] with low < high, partitioning it and pushing [low, p - 1] and [p + 1, high] keeps the stack invariant. |
| SortEngine.PushSidesShape | src/main/java/com/testapp/TestApp.java:320-321 | The pushed sides lie inside the list and the stack's ranges stay pairwise disjoint. |
| SortEngine.PartitionStepOrders | src/main/java/com/testapp/TestApp.java:318-321 | After the partition, any two positions not sharing a stacked range are in order, the pivot's position included. |
| SortEngine.PlacedAgainstRange | src/main/java/com/testapp/TestApp.java:318-321 | Any value found in the top stacked range is in order with every position outside that range, so permuting the range within itself keeps those pairs in order. |
| SortEngine.PartitionStepShrinks | src/main/java/com/testapp/TestApp.java:317-321 | Replacing [low, high] by its two sides removes exactly the pivot from the stacked positions, and strictly lowers the remaining partition work when low < high. |
| SortEngine.CurrentPermutes | src/main/java/com/testapp/TestApp.java:318-323 | The list at any point of a trace has the input's length and multiset. |
| SortEngine.RecordsExtend | src/main/java/com/testapp/TestApp.java:318-323 | Appending one step keeps the length, multiset and range-bound facts of the trace. |
| SortEngine.TraceExtend | src/main/java/com/testapp/TestApp.java:318-323 | Appending the partition of the current list over an in-bounds range extends a valid trace. |
| SortEngine.TraceFacts | src/main/java/com/testapp/TestApp.java:318-323 | Each step handed to the callback is the partition of the previous snapshot (the input, for the first) over its recorded range. |
| SortEngine.Run | src/main/java/com/testapp/TestApp.java:308-326 | The reference run of the loop. The poll count never goes down, and a run on a non-empty stack polls at least once. |
| SortEngine.Turn | src/main/java/com/testapp/TestApp.java:312-324 | One iteration on a non-empty stack always polls `running` once more. |
| SortEngine.RunPartitionTurn | src/main/java/com/testapp/TestApp.java:313-323 | A turn whose poll answers yes and whose top range has low < high records exactly one step, the partitioned list, and its range. The run then goes on from the partitioned list and the stack with both sides pushed, right side on top. |
| SortEngine.RunTrivialTurn | src/main/java/com/testapp/TestApp.java:313-317 | A turn whose poll answers yes and whose top range has low >= high records nothing; the run goes on from the same list and the rest of the stack, one poll later. |
| SortEngine.RunEndsEmpty | src/main/java/com/testapp/TestApp.java:312 | With an empty stack the run ends without polling: no further step, same list, same poll count, not stopped early. |
| SortEngine.RunEndsNo | src/main/java/com/testapp/TestApp.java:312 | Once `running` answers no, the run ends at once: no further pop, partition or step, the poll counted, the stack left as it is, and the run marked as stopped early. |
| SortEngine.RunKeepsInv | src/main/java/com/testapp/TestApp.java:312-325 | From any state satisfying the loop invariant, the reference run keeps it to the end. Its final list is the list its steps lead to. It stops early only right after a no, with ranges left; otherwise it empties the stack. |
| SortEngine.RunKeepsInvStop | src/main/java/com/testapp/TestApp.java:312 | The same, for a run that ends at once: empty stack or a no. |
| SortEngine.RunKeepsInvTrivial | src/main/java/com/testapp/TestApp.java:313-317 | The same, for a run whose first turn pops a range with low >= high. |
| SortEngine.RunKeepsInvPartition | src/main/java/com/testapp/TestApp.java:313-323 | The same, for a run whose first turn partitions the top range. |
| SortEngine.RunKeepsInvAfterStep | src/main/java/com/testapp/TestApp.java:320-325 | The same, for the run that follows a recorded partition step, with that step counted in. |
| SortEngine.InvAfterRecord | src/main/java/com/testapp/TestApp.java:323 | A step recorded before a run moves from the run's records into the state's, keeping the invariant and the final-list fact. |
| SortEngine.RunExampleComplete | src/main/java/com/testapp/TestApp.java:308-326 | Sorting [2, 1, 6, 5, 4] ascending with `running` always true gives [1, 2, 4, 5, 6]. The three steps are [2, 1, 4, 5, 6], [2, 1, 4, 5, 6] and [1, 2, 4, 5, 6], in that order. The ranges partitioned are [0, 4], then the right side [3, 4], then [0, 1]. There are 7 polls and nothing is left on the stack. |
| SortEngine.RunExampleTail | src/main/java/com/testapp/TestApp.java:312-324 | The same run from its second poll: [3, 4] is partitioned, its trivial sides (low >= high) [5, 4] and [3, 3] are dropped, then [0, 1] is partitioned. |
| SortEngine.RunExampleLast | src/main/java/com/testapp/TestApp.java:312-324 | The same run from its fifth poll: [0, 1] becomes [1, 2, 4, 5, 6], and its trivial sides (low >= high) [1, 1] and [0, -1] are dropped. |
| SortEngine.RunExampleStopped | src/main/java/com/testapp/TestApp.java:312-324 | The same list with `running` answering yes, yes, no: two steps, then the run stops on the third poll with [0, 1], [3, 3] and [5, 4] still stacked. The list is left at [2, 1, 4, 5, 6]. |
| SortEngine.EngineStart | src/main/java/com/testapp/TestApp.java:309-310 | Before the loop, with the stack [[0, size - 1]] and no steps or polls, the loop invariant holds. |
| SortEngine.EnginePartitionStep | src/main/java/com/testapp/TestApp.java:312-324 | A turn that polls true and partitions a range with low < high keeps the loop invariant with one more step and poll, and the stacked length decreases. |
| SortEngine.EngineTrivialStep | src/main/java/com/testapp/TestApp.java:312-317 | A turn that polls true and pops a trivial range keeps the loop invariant with one more poll, recording no step, and the stacked length does not grow. |
| SortEngine.ConclusionSteps | src/main/java/com/testapp/TestApp.java:318-323 | At either loop exit, every step and the final list are permutations of the input. Each step is the partition of the one before it over a recorded range with 0 <= lo < hi < size, and the final list is the last step. |
| SortEngine.ConclusionPolls | src/main/java/com/testapp/TestApp.java:312-325 | At either loop exit, every poll before the last was answered yes, and the run stopped early exactly on a no, with ranges left. If it did not stop early, the list is sorted. For size >= 2 the first step partitions the whole list. The counts agree: answered polls + ranges left == 2·steps + 1, at most size - 1 steps, and one poll and no step for size <= 1. |
| SortEngine.RunFromStart | src/main/java/com/testapp/TestApp.java:308-326 | The reference run from [[0, size - 1]] and no poll ends in a state satisfying the invariant: stopped early only on a no with ranges left, the stack emptied otherwise. |
| SortEngine.RunGuarantees | src/main/java/com/testapp/TestApp.java:308-326 | Every guarantee of the sort engine, stated of the reference run from [[0, size - 1]]. These are the postcondition of `QuickSort` below, with the stack left in place of `pending`. |
| SortEngine.PopAndPartition | src/main/java/com/testapp/TestApp.java:313-324 | One loop turn on the array. For low < high, the array becomes `Partition` of its old contents over the popped range, exactly one step (the new contents) and its range are recorded, and the new stack is the rest with [low, p - 1] and then [p + 1, high] pushed. Otherwise only the top is popped. It equals the first turn of the reference run, and (stacked length, stack size) decreases. |
| SortEngine.SortLoop | src/main/java/com/testapp/TestApp.java:312-325 | The `while` loop equals the reference run from its start stack: final list, steps in order, ranges, stack left, polls and early stop. |
| SortEngine.QuickSort | src/main/java/com/testapp/TestApp.java:308-326 | Full postcondition, listed below. |

The postcondition of `SortEngine.QuickSort`:

- The run is the reference run `Run` from [[0, size - 1]] and no poll. The final array, the steps in order, their ranges, the ranges left on the stack (`pending`), the polls and the early stop are those of the reference run. In particular, once `running` answers no, nothing more is popped, partitioned or recorded.
- The array is always a permutation of the input, whether the run finishes or is stopped, and so is every snapshot passed to the step callback.
- The steps are exactly the successive partitions: step i is the partition of step i - 1 (of the input, for i = 0) over a range with 0 <= lo < hi < size. The final array is the last step. For size >= 2, the first step partitions the whole list.
- `running` is polled at least once. Every answer before the last is true, and the run is cancelled exactly when the last answer is false.
- If the run is not cancelled, nothing is left on the stack, the array is sorted under the comparator (non-decreasing or non-increasing, by `SortedMeansMonotone`) and polls == 2·steps + 1. If it is cancelled, ranges are left and polls <= 2·steps + 1.
- Every pop uses one yes: (polls answered yes) + (ranges left) == 2·steps + 1.
- There are at most size - 1 steps. A list of at most one element gives no step and exactly one poll.

## Left out

- The Swing user interface, including frames, buttons, layout, number rendering and `updateButtons`: it is presentation only.
- Parsing and validating the number entered and `initRandomNumbers`: input handling and randomness outside the sort engine.
- `startSorting` (TestApp.java:255-293), the run controller:
  - the background thread, the `sorting` flag and its toggling, `Thread.sleep` pacing and `SwingUtilities.invokeAndWait` — concurrency and timing;
  - the `if (!sorting) return` and the caught callback exceptions (lines 266-274), which only affect what is shown;
  - the direction toggle at line 285, which runs after every run, stopped or not.
  - `running` stands for the `sorting` flag as an unconstrained sequence of answers.
- SortEngine.QuickSort: comparators other than the two lambdas the application passes are not modelled. `quickSort` accepts any `IntBinaryOperator`, but the sortedness guarantee relies on a total preorder.
- SortEngine.QuickSort: the step callback receives the live list in Java, not a copy. The model records the contents at the moment of the call, so later mutation seen through a retained reference is not modelled.
- Java `int` width: values are only compared through `Integer.compare`, which cannot overflow. Indices stay within the list size, so unbounded integers model it exactly.
- `Stack<int[]>` is a sequence of `Range` values with its top at the end. The `int[]` pair objects and their identity are not modelled.
