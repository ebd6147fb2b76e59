// `IterativeQuickSort.quickSort`: quicksort without recursion, driven by an explicit
// stack of inclusive `[low, high]` ranges. Before each pop it asks the `running`
// predicate whether to go on; after partitioning a range with `low < high` it pushes
// the two sides (pivot excluded) and hands the list to the step callback.
module SortEngine {
  import opened Comparators
  import opened Partitioning

  /** An `int[]{low, high}` on the stack: the inclusive bounds of a segment still to sort. */
  datatype Range = Range(lo: int, hi: int)

  /** Ranges the engine creates are `[lo, hi]` with `0 <= lo <= hi + 1 <= n`; `hi + 1 == lo` is empty. */
  predicate InBounds(r: Range, n: int) {
    0 <= r.lo <= r.hi + 1 <= n
  }

  /** The range holds both positions `k <= m`. */
  predicate Covers(r: Range, k: int, m: int) {
    r.lo <= k && m <= r.hi
  }

  /** No position lies in both ranges. */
  predicate Disjoint(r1: Range, r2: Range) {
    r1.hi < r1.lo || r2.hi < r2.lo || r1.hi < r2.lo || r2.hi < r1.lo
  }

  /** Positions `k` and `m` lie together in some range still on the stack. */
  predicate Together(stack: seq<Range>, k: int, m: int) {
    exists i :: 0 <= i < |stack| && Covers(stack[i], k, m)
  }

  /**
   * The invariant over the range stack: every range lies inside the list, the ranges are
   * pairwise disjoint, and any two positions that are not inside one stacked range are
   * already in order. So an element outside every range is in its final sorted place,
   * and the empty stack means the list is sorted.
   */
  predicate StackInv(s: seq<int>, stack: seq<Range>, ascending: bool) {
    && (forall i :: 0 <= i < |stack| ==> InBounds(stack[i], |s|))
    && (forall i, j :: 0 <= i < j < |stack| ==> Disjoint(stack[i], stack[j]))
    && (forall k, m {:trigger NotAfter(ascending, s[k], s[m])} :: 0 <= k < m < |s| && !Together(stack, k, m) ==> NotAfter(ascending, s[k], s[m]))
  }

  /** Number of positions in a range. */
  function Len(r: Range): nat {
    if r.hi < r.lo then 0 else r.hi - r.lo + 1
  }

  /**
   * The positions a range stands for, both bounds included, are `Len(r)` many; none
   * when `hi < lo`. `Covers(r, k, k)` restates the bounds as the predicate the stack
   * invariant uses, which gives the comprehension its trigger.
   */
  lemma {:induction false} RangePositions(r: Range)
    ensures |set k | r.lo <= k <= r.hi && Covers(r, k, k)| == Len(r)
    decreases Len(r)
  {
    if r.hi < r.lo {
      assert (set k | r.lo <= k <= r.hi && Covers(r, k, k)) == {};
    } else {
      var shorter := Range(r.lo, r.hi - 1);
      RangePositions(shorter);
      assert (set k | r.lo <= k <= r.hi && Covers(r, k, k))
          == (set k | shorter.lo <= k <= shorter.hi && Covers(shorter, k, k)) + {r.hi};
    }
  }

  /** Total number of positions in the stacked ranges. */
  function TotalLen(stack: seq<Range>): nat {
    if stack == [] then 0 else TotalLen(stack[..|stack| - 1]) + Len(stack[|stack| - 1])
  }

  /** At most this many partitions can still happen inside a range: its length less one. */
  function Slack(r: Range): nat {
    if r.hi <= r.lo then 0 else r.hi - r.lo
  }

  /** Sum of `Slack` over the stack. */
  function Work(stack: seq<Range>): nat {
    if stack == [] then 0 else Work(stack[..|stack| - 1]) + Slack(stack[|stack| - 1])
  }

  /**
   * What `stack.push(new int[]{lo, p - 1}); stack.push(new int[]{p + 1, hi})` leaves after
   * popping `[lo, hi]`: two more ranges, the right side popped next and the left side
   * after it.
   */
  function PushSides(rest: seq<Range>, lo: int, p: int, hi: int): (r: seq<Range>)
    ensures |r| == |rest| + 2 && r[|r| - 1] == Range(p + 1, hi) && r[|r| - 2] == Range(lo, p - 1)
  {
    rest + [Range(lo, p - 1), Range(p + 1, hi)]
  }

  /** The stack `stack.push(new int[]{0, arr.size() - 1})` starts with satisfies the invariant. */
  lemma InitialStackInv(s: seq<int>, ascending: bool)
    ensures StackInv(s, [Range(0, |s| - 1)], ascending)
  {
    var stack := [Range(0, |s| - 1)];
    forall k, m | 0 <= k < m < |s|
      ensures Together(stack, k, m)
    {
      assert Covers(stack[0], k, m);
    }
  }

  /** The invariant with an empty stack is sortedness under the comparator. */
  lemma EmptyStackSorted(s: seq<int>, ascending: bool)
    requires StackInv(s, [], ascending)
    ensures Sorted(ascending, s)
  {
  }

  /**
   * A position no stacked range holds is in its final place: nothing left of it comes
   * after it and nothing right of it comes before it.
   */
  lemma OutsideRangesIsPlaced(s: seq<int>, stack: seq<Range>, ascending: bool, k: int)
    requires StackInv(s, stack, ascending)
    requires 0 <= k < |s|
    requires forall i :: 0 <= i < |stack| ==> !(stack[i].lo <= k <= stack[i].hi)
    ensures forall m :: 0 <= m < k ==> NotAfter(ascending, s[m], s[k])
    ensures forall m :: k < m < |s| ==> NotAfter(ascending, s[k], s[m])
  {
    forall m | 0 <= m < k
      ensures NotAfter(ascending, s[m], s[k])
    {
      assert !Together(stack, m, k);
    }
    forall m | k < m < |s|
      ensures NotAfter(ascending, s[k], s[m])
    {
      assert !Together(stack, k, m);
    }
  }

  /** Popping a range with `low >= high` keeps the invariant: it holds no two positions. */
  lemma PopTrivialInv(s: seq<int>, stack: seq<Range>, ascending: bool)
    requires StackInv(s, stack, ascending)
    requires |stack| > 0 && stack[|stack| - 1].lo >= stack[|stack| - 1].hi
    ensures StackInv(s, stack[..|stack| - 1], ascending)
  {
    var rest := stack[..|stack| - 1];
    forall k, m | 0 <= k < m < |s| && !Together(rest, k, m)
      ensures NotAfter(ascending, s[k], s[m])
    {
      forall i | 0 <= i < |stack|
        ensures !Covers(stack[i], k, m)
      {
        if i < |rest| { assert rest[i] == stack[i]; }
      }
    }
  }

  /** A sub-range of a range disjoint from `r` is disjoint from `r`. */
  lemma DisjointSub(r: Range, top: Range, sub: Range)
    requires Disjoint(r, top) && top.lo <= sub.lo && sub.hi <= top.hi
    ensures Disjoint(r, sub)
  {
  }

  /**
   * Partitioning the top range `[lo, hi]`, `lo < hi`, and pushing `[lo, p - 1]` and
   * `[p + 1, hi]` keeps the invariant: the pivot's position joins the ordered part.
   */
  lemma PartitionStepInv(s: seq<int>, stack: seq<Range>, ascending: bool)
    requires StackInv(s, stack, ascending)
    requires |stack| > 0 && stack[|stack| - 1].lo < stack[|stack| - 1].hi
    ensures var top := stack[|stack| - 1];
      var r := Partition(s, top.lo, top.hi, ascending);
      StackInv(r.arr, PushSides(stack[..|stack| - 1], top.lo, r.pivotIndex, top.hi), ascending)
  {
    var top := stack[|stack| - 1];
    assert InBounds(top, |s|);
    var r := Partition(s, top.lo, top.hi, ascending);
    PushSidesShape(s, stack, r.pivotIndex);
    PartitionStepOrders(s, stack, ascending);
  }

  /** The pushed sides lie in the list and are disjoint from each other and from the rest. */
  lemma PushSidesShape(s: seq<int>, stack: seq<Range>, p: int)
    requires |stack| > 0
    requires forall i :: 0 <= i < |stack| ==> InBounds(stack[i], |s|)
    requires forall i, j :: 0 <= i < j < |stack| ==> Disjoint(stack[i], stack[j])
    requires stack[|stack| - 1].lo <= p <= stack[|stack| - 1].hi
    ensures var next := PushSides(stack[..|stack| - 1], stack[|stack| - 1].lo, p, stack[|stack| - 1].hi);
      && (forall i :: 0 <= i < |next| ==> InBounds(next[i], |s|))
      && (forall i, j :: 0 <= i < j < |next| ==> Disjoint(next[i], next[j]))
  {
    var top := stack[|stack| - 1];
    var rest := stack[..|stack| - 1];
    var next := PushSides(rest, top.lo, p, top.hi);
    assert |next| == |rest| + 2;
    assert forall i :: 0 <= i < |rest| ==> next[i] == stack[i];
    assert InBounds(top, |s|);
    forall i | 0 <= i < |next|
      ensures InBounds(next[i], |s|)
    {
      if i < |rest| { assert InBounds(stack[i], |s|); }
    }
    forall i, j | 0 <= i < j < |next|
      ensures Disjoint(next[i], next[j])
    {
      if j < |rest| {
        assert Disjoint(stack[i], stack[j]);
      } else if i < |rest| {
        assert Disjoint(stack[i], stack[|stack| - 1]);
        DisjointSub(stack[i], top, next[j]);
      }
    }
  }

  /** After the partition, two positions not inside one of the new stacked ranges are in order. */
  lemma PartitionStepOrders(s: seq<int>, stack: seq<Range>, ascending: bool)
    requires StackInv(s, stack, ascending)
    requires |stack| > 0 && stack[|stack| - 1].lo < stack[|stack| - 1].hi
    ensures var top := stack[|stack| - 1];
      var r := Partition(s, top.lo, top.hi, ascending);
      var next := PushSides(stack[..|stack| - 1], top.lo, r.pivotIndex, top.hi);
      forall k, m :: 0 <= k < m < |r.arr| && !Together(next, k, m) ==> NotAfter(ascending, r.arr[k], r.arr[m])
  {
    var top := stack[|stack| - 1];
    var rest := stack[..|stack| - 1];
    var lo, hi := top.lo, top.hi;
    assert InBounds(top, |s|);
    var r := Partition(s, lo, hi, ascending);
    var t, p := r.arr, r.pivotIndex;
    PartitionCorrect(s, lo, hi, ascending);
    PartitionPermutesRange(s, lo, hi, ascending);
    var next := PushSides(rest, lo, p, hi);
    assert next[|rest|] == Range(lo, p - 1) && next[|rest| + 1] == Range(p + 1, hi);
    assert forall i :: 0 <= i < |rest| ==> next[i] == stack[i];
    forall k, m | 0 <= k < m < |t| && !Together(next, k, m)
      ensures NotAfter(ascending, t[k], t[m])
    {
      assert !Covers(next[|rest|], k, m) && !Covers(next[|rest| + 1], k, m);
      if lo <= k <= hi && lo <= m <= hi {
        NotAfterIsTotalPreorder(ascending, t[k], s[hi], t[m]);
        NotAfterIsTotalPreorder(ascending, t[m], s[hi], t[k]);
      } else if lo <= k <= hi {
        PlacedAgainstRange(s, stack, ascending, t[k], m);
      } else if lo <= m <= hi {
        PlacedAgainstRange(s, stack, ascending, t[m], k);
      } else {
        forall i | 0 <= i < |stack|
          ensures !Covers(stack[i], k, m)
        {
          if i < |rest| { assert !Covers(next[i], k, m); }
        }
      }
    }
  }

  /**
   * Against a position `m` outside the top range, every value of the top range is in
   * order, so whatever the partition moves into that range is in order with `s[m]` too.
   */
  lemma PlacedAgainstRange(s: seq<int>, stack: seq<Range>, ascending: bool, v: int, m: int)
    requires StackInv(s, stack, ascending)
    requires |stack| > 0
    requires 0 <= m < |s| && !(stack[|stack| - 1].lo <= m <= stack[|stack| - 1].hi)
    requires InBounds(stack[|stack| - 1], |s|)
    requires v in s[stack[|stack| - 1].lo..stack[|stack| - 1].hi + 1]
    ensures m > stack[|stack| - 1].hi ==> NotAfter(ascending, v, s[m])
    ensures m < stack[|stack| - 1].lo ==> NotAfter(ascending, s[m], v)
  {
    var top := stack[|stack| - 1];
    var d :| 0 <= d < top.hi + 1 - top.lo && s[top.lo..top.hi + 1][d] == v;
    var y := top.lo + d;
    assert s[y] == v;
    var k, n := if y < m then y else m, if y < m then m else y;
    forall i | 0 <= i < |stack|
      ensures !Covers(stack[i], k, n)
    {
      if i < |stack| - 1 { assert Disjoint(stack[i], top); }
    }
  }

  /** Each partition removes exactly one position, the pivot's, from the stacked ranges. */
  lemma PartitionStepShrinks(rest: seq<Range>, lo: int, p: int, hi: int)
    requires lo <= p <= hi
    ensures TotalLen(PushSides(rest, lo, p, hi)) == TotalLen(rest + [Range(lo, hi)]) - 1
    ensures Work(PushSides(rest, lo, p, hi)) < Work(rest + [Range(lo, hi)]) || lo == hi
  {
    var next := PushSides(rest, lo, p, hi);
    var left, right := Range(lo, p - 1), Range(p + 1, hi);
    assert next[..|next| - 1] == rest + [left];
    assert (rest + [left])[..|rest|] == rest;
    assert (rest + [Range(lo, hi)])[..|rest|] == rest;
    assert Work(next) == Work(rest) + Slack(left) + Slack(right);
    assert Work(rest + [Range(lo, hi)]) == Work(rest) + Slack(Range(lo, hi));
    assert TotalLen(next) == TotalLen(rest) + Len(left) + Len(right);
  }

  /** The list as it stands after the first `i` recorded steps: step `i - 1`, or the input if `i == 0`. */
  function Before(initial: seq<int>, steps: seq<seq<int>>, i: int): seq<int>
    requires 0 <= i <= |steps|
  {
    if i == 0 then initial else steps[i - 1]
  }

  /** The list as it stands after all the recorded steps. */
  function Current(initial: seq<int>, steps: seq<seq<int>>): seq<int> {
    Before(initial, steps, |steps|)
  }

  /**
   * The steps handed to the callback so far: each is a permutation of the input, and each
   * is the partition of the list before it over a range with `low < high`.
   */
  predicate Trace(initial: seq<int>, steps: seq<seq<int>>, partitioned: seq<Range>, ascending: bool) {
    && |steps| == |partitioned|
    && (forall i :: 0 <= i < |steps| ==> |steps[i]| == |initial|)
    && (forall i :: 0 <= i < |steps| ==> multiset(steps[i]) == multiset(initial))
    && (forall i :: 0 <= i < |partitioned| ==> 0 <= partitioned[i].lo < partitioned[i].hi < |initial|)
    && (forall i {:trigger steps[i], partitioned[i]} :: 0 <= i < |steps| ==>
          steps[i] == Partition(Before(initial, steps, i), partitioned[i].lo, partitioned[i].hi, ascending).arr)
  }

  /** The current list of a trace has the input's length and values. */
  lemma CurrentPermutes(initial: seq<int>, steps: seq<seq<int>>, partitioned: seq<Range>, ascending: bool)
    requires Trace(initial, steps, partitioned, ascending)
    ensures |Current(initial, steps)| == |initial|
    ensures multiset(Current(initial, steps)) == multiset(initial)
  {
    if |steps| > 0 {
      assert Current(initial, steps) == steps[|steps| - 1];
    }
  }

  /** Appending a permutation of the input and a partitionable range keeps the shape of a trace. */
  lemma RecordsExtend(initial: seq<int>, steps: seq<seq<int>>, partitioned: seq<Range>, top: Range, next: seq<int>,
                      ascending: bool)
    requires Trace(initial, steps, partitioned, ascending)
    requires 0 <= top.lo < top.hi < |initial|
    requires |next| == |initial| && multiset(next) == multiset(initial)
    ensures var steps', partitioned' := steps + [next], partitioned + [top];
      && |steps'| == |partitioned'|
      && (forall i :: 0 <= i < |steps'| ==> |steps'[i]| == |initial|)
      && (forall i :: 0 <= i < |steps'| ==> multiset(steps'[i]) == multiset(initial))
      && (forall i :: 0 <= i < |partitioned'| ==> 0 <= partitioned'[i].lo < partitioned'[i].hi < |initial|)
  {
    var steps', partitioned' := steps + [next], partitioned + [top];
    forall i | 0 <= i < |steps'|
      ensures |steps'[i]| == |initial| && multiset(steps'[i]) == multiset(initial)
      ensures 0 <= partitioned'[i].lo < partitioned'[i].hi < |initial|
    {
      if i < |steps| {
        assert steps'[i] == steps[i] && partitioned'[i] == partitioned[i];
      }
    }
  }

  /** Partitioning the current list over a nontrivial range and recording it extends the trace. */
  lemma TraceExtend(initial: seq<int>, steps: seq<seq<int>>, partitioned: seq<Range>, top: Range, ascending: bool)
    requires Trace(initial, steps, partitioned, ascending)
    requires 0 <= top.lo < top.hi < |initial|
    ensures Trace(initial, steps + [Partition(Current(initial, steps), top.lo, top.hi, ascending).arr], partitioned + [top], ascending)
  {
    var cur := Current(initial, steps);
    CurrentPermutes(initial, steps, partitioned, ascending);
    var next := Partition(cur, top.lo, top.hi, ascending).arr;
    assert multiset(next) == multiset(cur) by {
      PartitionCorrect(cur, top.lo, top.hi, ascending);
    }
    RecordsExtend(initial, steps, partitioned, top, next, ascending);
    var steps', partitioned' := steps + [next], partitioned + [top];
    forall i | 0 <= i < |steps'|
      ensures steps'[i] == Partition(Before(initial, steps', i), partitioned'[i].lo, partitioned'[i].hi, ascending).arr
    {
      if i < |steps| {
        assert steps'[i] == steps[i] && partitioned'[i] == partitioned[i];
        assert Before(initial, steps', i) == Before(initial, steps, i);
      } else {
        assert partitioned'[i] == top && Before(initial, steps', i) == cur;
      }
    }
  }

  /** What a trace says about each recorded step, spelled out. */
  lemma TraceFacts(initial: seq<int>, steps: seq<seq<int>>, partitioned: seq<Range>, ascending: bool)
    requires Trace(initial, steps, partitioned, ascending)
    ensures forall i :: 0 <= i < |steps| ==>
      steps[i] == Partition(if i == 0 then initial else steps[i - 1], partitioned[i].lo, partitioned[i].hi, ascending).arr
  {
    forall i | 0 <= i < |steps|
      ensures steps[i] == Partition(if i == 0 then initial else steps[i - 1], partitioned[i].lo, partitioned[i].hi, ascending).arr
    {
      assert steps[i] == Partition(Before(initial, steps, i), partitioned[i].lo, partitioned[i].hi, ascending).arr;
    }
  }

  /** `running` answered yes to each of its first `n` polls. */
  predicate AllRunning(running: nat -> bool, n: nat) {
    forall t :: 0 <= t < n ==> running(t)
  }

  /**
   * What a run yields: the final list, the lists handed to the step callback in order,
   * the ranges whose partition produced them, the stack left at the end, the number of
   * polls of `running`, and whether it stopped early.
   */
  datatype Outcome = Outcome(final: seq<int>, steps: seq<seq<int>>, partitioned: seq<Range>, stack: seq<Range>,
                             polls: nat, cancelled: bool)

  /** An outcome with `steps` and `partitioned` recorded before its own. */
  function Prepend(steps: seq<seq<int>>, partitioned: seq<Range>, o: Outcome): Outcome {
    Outcome(o.final, steps + o.steps, partitioned + o.partitioned, o.stack, o.polls, o.cancelled)
  }

  /**
   * The loop of the sort engine as a reference definition, from list `s` and stack `stack`
   * after `t` polls: with an empty stack it ends without asking `running`; otherwise
   * the next iteration is a `Turn`.
   */
  function Run(s: seq<int>, stack: seq<Range>, running: nat -> bool, t: nat, ascending: bool): (o: Outcome)
    requires forall i :: 0 <= i < |stack| ==> InBounds(stack[i], |s|)
    ensures t <= o.polls && (stack != [] ==> t < o.polls)
    decreases TotalLen(stack), |stack|, 1
  {
    if stack == [] then Outcome(s, [], [], [], t, false) else Turn(s, stack, running, t, ascending)
  }

  /**
   * One iteration on a non-empty stack: it asks `running` (poll `t`), and a no ends the
   * run at once with the stack as it is; a yes pops the top range, which is partitioned,
   * its sides pushed and the list recorded as a step when `low < high`, and merely
   * dropped otherwise; the run then goes on.
   */
  function Turn(s: seq<int>, stack: seq<Range>, running: nat -> bool, t: nat, ascending: bool): (o: Outcome)
    requires stack != [] && forall i :: 0 <= i < |stack| ==> InBounds(stack[i], |s|)
    ensures t < o.polls
    decreases TotalLen(stack), |stack|, 0
  {
    if !running(t) then Outcome(s, [], [], stack, t + 1, true)
    else
      var top, rest := stack[|stack| - 1], stack[..|stack| - 1];
      assert InBounds(top, |s|);
      if top.lo < top.hi then
        var r := Partition(s, top.lo, top.hi, ascending);
        assert stack == rest + [Range(top.lo, top.hi)];
        PartitionStepShrinks(rest, top.lo, r.pivotIndex, top.hi);
        Prepend([r.arr], [top], Run(r.arr, PushSides(rest, top.lo, r.pivotIndex, top.hi), running, t + 1, ascending))
      else
        Run(s, rest, running, t + 1, ascending)
  }

  /** A turn that pops `[lo, hi]`, `lo < hi`: the step is the partitioned list, and the run goes on from the pushed sides. */
  lemma RunPartitionTurn(s: seq<int>, rest: seq<Range>, lo: int, hi: int, arr: seq<int>, p: int,
                         running: nat -> bool, t: nat, ascending: bool)
    requires forall i :: 0 <= i < |rest| ==> InBounds(rest[i], |s|)
    requires 0 <= lo < hi < |s| && running(t)
    requires Partition(s, lo, hi, ascending) == Partitioned(arr, p)
    ensures forall i :: 0 <= i < |rest| + 1 ==> InBounds((rest + [Range(lo, hi)])[i], |s|)
    ensures forall i :: 0 <= i < |rest| + 2 ==> InBounds(PushSides(rest, lo, p, hi)[i], |arr|)
    ensures Run(s, rest + [Range(lo, hi)], running, t, ascending)
         == Prepend([arr], [Range(lo, hi)], Run(arr, PushSides(rest, lo, p, hi), running, t + 1, ascending))
  {
    var stack := rest + [Range(lo, hi)];
    assert stack[..|stack| - 1] == rest;
  }

  /** A turn that pops a range holding at most one position: no step, one more poll. */
  lemma RunTrivialTurn(s: seq<int>, rest: seq<Range>, lo: int, hi: int, running: nat -> bool, t: nat, ascending: bool)
    requires forall i :: 0 <= i < |rest| ==> InBounds(rest[i], |s|)
    requires InBounds(Range(lo, hi), |s|) && lo >= hi && running(t)
    ensures forall i :: 0 <= i < |rest| + 1 ==> InBounds((rest + [Range(lo, hi)])[i], |s|)
    ensures Run(s, rest + [Range(lo, hi)], running, t, ascending) == Run(s, rest, running, t + 1, ascending)
  {
    var stack := rest + [Range(lo, hi)];
    assert stack[..|stack| - 1] == rest;
  }

  /** With an empty stack the run ends at once, without asking `running`: the records stay as they are. */
  lemma RunEndsEmpty(steps: seq<seq<int>>, partitioned: seq<Range>, s: seq<int>, running: nat -> bool, t: nat,
                     ascending: bool)
    ensures Prepend(steps, partitioned, Run(s, [], running, t, ascending)) == Outcome(s, steps, partitioned, [], t, false)
  {
    assert steps + [] == steps && partitioned + [] == partitioned;
  }

  /** A no from `running` ends the run at once, that poll counted and the stack left as it is. */
  lemma RunEndsNo(steps: seq<seq<int>>, partitioned: seq<Range>, s: seq<int>, stack: seq<Range>, running: nat -> bool,
                  t: nat, ascending: bool)
    requires forall i :: 0 <= i < |stack| ==> InBounds(stack[i], |s|)
    requires stack != [] && !running(t)
    ensures Prepend(steps, partitioned, Run(s, stack, running, t, ascending)) == Outcome(s, steps, partitioned, stack, t + 1, true)
  {
    assert steps + [] == steps && partitioned + [] == partitioned;
  }

  /** Recording one batch and then another before a run's own records is recording both at once. */
  lemma PrependTwice(steps: seq<seq<int>>, more: seq<seq<int>>, partitioned: seq<Range>, moreRanges: seq<Range>, o: Outcome)
    ensures Prepend(steps + more, partitioned + moreRanges, o) == Prepend(steps, partitioned, Prepend(more, moreRanges, o))
  {
    assert steps + more + o.steps == steps + (more + o.steps);
    assert partitioned + moreRanges + o.partitioned == partitioned + (moreRanges + o.partitioned);
  }

  /**
   * From any state that satisfies the engine invariant, the reference run `o` keeps it to
   * the end: its final list is the current list after all the steps it adds, and the
   * invariant holds for the stack it leaves, after the polls answered yes.
   */
  lemma {:induction false} RunKeepsInv(initial: seq<int>, stack: seq<Range>, steps: seq<seq<int>>,
                                       partitioned: seq<Range>, polls: nat, running: nat -> bool, ascending: bool,
                                       o: Outcome)
    requires EngineInv(initial, stack, steps, partitioned, polls, running, ascending)
    requires o == Run(Current(initial, steps), stack, running, polls, ascending)
    // it stops early only right after a no, with ranges left; otherwise it empties the stack
    ensures if o.cancelled then 0 < o.polls && o.stack != [] && !running(o.polls - 1) else o.stack == []
    ensures o.final == Current(initial, steps + o.steps)
    ensures EngineInv(initial, o.stack, steps + o.steps, partitioned + o.partitioned,
                      if o.cancelled then o.polls - 1 else o.polls, running, ascending)
    decreases TotalLen(stack), |stack|, 1
  {
    if stack == [] || !running(polls) {
      RunKeepsInvStop(initial, stack, steps, partitioned, polls, running, ascending, o);
    } else if stack[|stack| - 1].lo < stack[|stack| - 1].hi {
      RunKeepsInvPartition(initial, stack, steps, partitioned, polls, running, ascending, o);
    } else {
      RunKeepsInvTrivial(initial, stack, steps, partitioned, polls, running, ascending, o);
    }
  }

  /** The case of `RunKeepsInv` where the run ends at once: the stack is empty or `running` says no. */
  lemma RunKeepsInvStop(initial: seq<int>, stack: seq<Range>, steps: seq<seq<int>>, partitioned: seq<Range>,
                        polls: nat, running: nat -> bool, ascending: bool, o: Outcome)
    requires EngineInv(initial, stack, steps, partitioned, polls, running, ascending)
    requires stack == [] || !running(polls)
    requires o == Run(Current(initial, steps), stack, running, polls, ascending)
    ensures if o.cancelled then 0 < o.polls && o.stack != [] && !running(o.polls - 1) else o.stack == []
    ensures o.final == Current(initial, steps + o.steps)
    ensures EngineInv(initial, o.stack, steps + o.steps, partitioned + o.partitioned,
                      if o.cancelled then o.polls - 1 else o.polls, running, ascending)
  {
    assert o.steps == [] && o.partitioned == [] && o.stack == stack && o.final == Current(initial, steps);
    assert o.polls == if o.cancelled then polls + 1 else polls;
    assert steps + [] == steps && partitioned + [] == partitioned;
  }

  /** The case of `RunKeepsInv` where `running` says yes and the top range holds at most one position. */
  lemma {:induction false} RunKeepsInvTrivial(initial: seq<int>, stack: seq<Range>, steps: seq<seq<int>>,
                                              partitioned: seq<Range>, polls: nat, running: nat -> bool,
                                              ascending: bool, o: Outcome)
    requires EngineInv(initial, stack, steps, partitioned, polls, running, ascending)
    requires stack != [] && running(polls) && stack[|stack| - 1].lo >= stack[|stack| - 1].hi
    requires o == Run(Current(initial, steps), stack, running, polls, ascending)
    ensures if o.cancelled then 0 < o.polls && o.stack != [] && !running(o.polls - 1) else o.stack == []
    ensures o.final == Current(initial, steps + o.steps)
    ensures EngineInv(initial, o.stack, steps + o.steps, partitioned + o.partitioned,
                      if o.cancelled then o.polls - 1 else o.polls, running, ascending)
    decreases TotalLen(stack), |stack|, 0
  {
    var top, rest := stack[|stack| - 1], stack[..|stack| - 1];
    assert stack == rest + [Range(top.lo, top.hi)];
    EngineTrivialStep(initial, stack, steps, partitioned, polls, running, ascending);
    RunTrivialTurn(Current(initial, steps), rest, top.lo, top.hi, running, polls, ascending);
    RunKeepsInv(initial, rest, steps, partitioned, polls + 1, running, ascending, o);
  }

  /** The case of `RunKeepsInv` where `running` says yes and the top range is partitioned. */
  lemma {:induction false} RunKeepsInvPartition(initial: seq<int>, stack: seq<Range>, steps: seq<seq<int>>,
                                                partitioned: seq<Range>, polls: nat, running: nat -> bool,
                                                ascending: bool, o: Outcome)
    requires EngineInv(initial, stack, steps, partitioned, polls, running, ascending)
    requires stack != [] && running(polls) && stack[|stack| - 1].lo < stack[|stack| - 1].hi
    requires o == Run(Current(initial, steps), stack, running, polls, ascending)
    ensures if o.cancelled then 0 < o.polls && o.stack != [] && !running(o.polls - 1) else o.stack == []
    ensures o.final == Current(initial, steps + o.steps)
    ensures EngineInv(initial, o.stack, steps + o.steps, partitioned + o.partitioned,
                      if o.cancelled then o.polls - 1 else o.polls, running, ascending)
    decreases TotalLen(stack), |stack|, 0
  {
    var cur := Current(initial, steps);
    var top, rest := stack[|stack| - 1], stack[..|stack| - 1];
    assert stack == rest + [Range(top.lo, top.hi)];
    EnginePartitionStep(initial, stack, steps, partitioned, polls, running, ascending);
    var r := Partition(cur, top.lo, top.hi, ascending);
    var next := PushSides(rest, top.lo, r.pivotIndex, top.hi);
    RunPartitionTurn(cur, rest, top.lo, top.hi, r.arr, r.pivotIndex, running, polls, ascending);
    assert Current(initial, steps + [r.arr]) == r.arr;
    RunKeepsInvAfterStep(initial, next, steps, partitioned, r.arr, top, polls + 1, running, ascending,
                         Run(r.arr, next, running, polls + 1, ascending), o);
  }

  /**
   * The rest of that case, once the step `arr` of range `top` is recorded: the run `inner`
   * from the pushed sides keeps the invariant, and so does `o`, which records the step
   * before it.
   */
  lemma {:induction false} RunKeepsInvAfterStep(initial: seq<int>, next: seq<Range>, steps: seq<seq<int>>,
                                                partitioned: seq<Range>, arr: seq<int>, top: Range, polls: nat,
                                                running: nat -> bool, ascending: bool, inner: Outcome, o: Outcome)
    requires EngineInv(initial, next, steps + [arr], partitioned + [top], polls, running, ascending)
    requires Current(initial, steps + [arr]) == arr
    requires inner == Run(arr, next, running, polls, ascending)
    requires o == Prepend([arr], [top], inner)
    ensures if o.cancelled then 0 < o.polls && o.stack != [] && !running(o.polls - 1) else o.stack == []
    ensures o.final == Current(initial, steps + o.steps)
    ensures EngineInv(initial, o.stack, steps + o.steps, partitioned + o.partitioned,
                      if o.cancelled then o.polls - 1 else o.polls, running, ascending)
    decreases TotalLen(next), |next|, 2
  {
    RunKeepsInv(initial, next, steps + [arr], partitioned + [top], polls, running, ascending, inner);
    InvAfterRecord(initial, steps, partitioned, arr, top, running, ascending, inner, o);
  }

  /** Recording a step before a run moves it from the outcome's records into the state's records. */
  lemma InvAfterRecord(initial: seq<int>, steps: seq<seq<int>>, partitioned: seq<Range>, arr: seq<int>, top: Range,
                       running: nat -> bool, ascending: bool, inner: Outcome, o: Outcome)
    requires o == Prepend([arr], [top], inner)
    requires if inner.cancelled then 0 < inner.polls && inner.stack != [] && !running(inner.polls - 1)
             else inner.stack == []
    requires inner.final == Current(initial, steps + [arr] + inner.steps)
    requires EngineInv(initial, inner.stack, steps + [arr] + inner.steps, partitioned + [top] + inner.partitioned,
                       if inner.cancelled then inner.polls - 1 else inner.polls, running, ascending)
    ensures if o.cancelled then 0 < o.polls && o.stack != [] && !running(o.polls - 1) else o.stack == []
    ensures o.final == Current(initial, steps + o.steps)
    ensures EngineInv(initial, o.stack, steps + o.steps, partitioned + o.partitioned,
                      if o.cancelled then o.polls - 1 else o.polls, running, ascending)
  {
    assert o.final == inner.final && o.stack == inner.stack && o.polls == inner.polls && o.cancelled == inner.cancelled;
    assert steps + [arr] + inner.steps == steps + ([arr] + inner.steps) == steps + o.steps;
    assert partitioned + [top] + inner.partitioned == partitioned + ([top] + inner.partitioned) == partitioned + o.partitioned;
  }

  /** `[2, 1, 6, 5, 4]` ascending, never stopped: the right side `[3, 4]` is partitioned before the left `[0, 1]`. */
  lemma RunExampleComplete(yes: nat -> bool)
    requires AllRunning(yes, 7)
    ensures Run([2, 1, 6, 5, 4], [Range(0, 4)], yes, 0, true)
         == Outcome([1, 2, 4, 5, 6], [[2, 1, 4, 5, 6], [2, 1, 4, 5, 6], [1, 2, 4, 5, 6]],
                    [Range(0, 4), Range(3, 4), Range(0, 1)], [], 7, false)
  {
    var s0, s1, s2 := [2, 1, 6, 5, 4], [2, 1, 4, 5, 6], [1, 2, 4, 5, 6];
    var tail := Outcome(s2, [s1, s2], [Range(3, 4), Range(0, 1)], [], 7, false);
    RunExampleTail(yes);
    PartitionsOfExampleRun();
    assert PushSides([], 0, 2, 4) == [Range(0, 1), Range(3, 4)];
    RunPartitionTurn(s0, [], 0, 4, s1, 2, yes, 0, true);
    assert [] + [Range(0, 4)] == [Range(0, 4)];
    assert Run(s0, [Range(0, 4)], yes, 0, true) == Prepend([s1], [Range(0, 4)], tail);
    assert [s1] + [s1, s2] == [s1, s1, s2];
    assert [Range(0, 4)] + [Range(3, 4), Range(0, 1)] == [Range(0, 4), Range(3, 4), Range(0, 1)];
  }

  /** The rest of that run after its first partition: `[3, 4]`, then its trivial sides (`low >= high`), then `[0, 1]`. */
  lemma RunExampleTail(yes: nat -> bool)
    requires AllRunning(yes, 7)
    ensures Run([2, 1, 4, 5, 6], [Range(0, 1), Range(3, 4)], yes, 1, true)
         == Outcome([1, 2, 4, 5, 6], [[2, 1, 4, 5, 6], [1, 2, 4, 5, 6]], [Range(3, 4), Range(0, 1)], [], 7, false)
  {
    var s1, s2 := [2, 1, 4, 5, 6], [1, 2, 4, 5, 6];
    var last := Outcome(s2, [s2], [Range(0, 1)], [], 7, false);
    PartitionsOfExampleRun();
    RunExampleLast(yes);
    RunTrivialTurn(s1, [Range(0, 1)], 3, 3, yes, 3, true);
    RunTrivialTurn(s1, [Range(0, 1), Range(3, 3)], 5, 4, yes, 2, true);
    assert PushSides([Range(0, 1)], 3, 4, 4) == [Range(0, 1), Range(3, 3)] + [Range(5, 4)];
    assert [Range(0, 1)] + [Range(3, 3)] == [Range(0, 1), Range(3, 3)];
    assert Run(s1, [Range(0, 1), Range(3, 3)], yes, 3, true) == last;
    assert [Range(0, 1), Range(3, 3)] + [Range(5, 4)] == [Range(0, 1), Range(3, 3), Range(5, 4)];
    assert Run(s1, [Range(0, 1), Range(3, 3), Range(5, 4)], yes, 2, true) == last;
    assert [Range(0, 1)] + [Range(3, 4)] == [Range(0, 1), Range(3, 4)];
    RunPartitionTurn(s1, [Range(0, 1)], 3, 4, s1, 4, yes, 1, true);
    assert Run(s1, [Range(0, 1), Range(3, 4)], yes, 1, true) == Prepend([s1], [Range(3, 4)], last);
  }

  /** The last partition of that run, of `[0, 1]`, and the two trivial sides (`low >= high`) it leaves. */
  lemma RunExampleLast(yes: nat -> bool)
    requires AllRunning(yes, 7)
    ensures Run([2, 1, 4, 5, 6], [Range(0, 1)], yes, 4, true)
         == Outcome([1, 2, 4, 5, 6], [[1, 2, 4, 5, 6]], [Range(0, 1)], [], 7, false)
  {
    var s1, s2 := [2, 1, 4, 5, 6], [1, 2, 4, 5, 6];
    var done := Outcome(s2, [], [], [], 7, false);
    PartitionsOfExampleRun();
    assert Run(s2, [], yes, 7, true) == done;
    RunTrivialTurn(s2, [], 0, -1, yes, 6, true);
    assert [] + [Range(0, -1)] == [Range(0, -1)];
    assert Run(s2, [Range(0, -1)], yes, 6, true) == done;
    RunTrivialTurn(s2, [Range(0, -1)], 1, 1, yes, 5, true);
    assert PushSides([], 0, 0, 1) == [Range(0, -1)] + [Range(1, 1)];
    assert Run(s2, PushSides([], 0, 0, 1), yes, 5, true) == done;
    RunPartitionTurn(s1, [], 0, 1, s2, 0, yes, 4, true);
    assert [] + [Range(0, 1)] == [Range(0, 1)];
    assert Run(s1, [Range(0, 1)], yes, 4, true) == Prepend([s2], [Range(0, 1)], done);
    assert [s2] + [] == [s2] && [Range(0, 1)] + [] == [Range(0, 1)];
  }

  /** The same run, with `running` answering no to its third poll: two steps, then nothing more. */
  lemma RunExampleStopped(answers: nat -> bool)
    requires answers(0) && answers(1) && !answers(2)
    ensures Run([2, 1, 6, 5, 4], [Range(0, 4)], answers, 0, true)
         == Outcome([2, 1, 4, 5, 6], [[2, 1, 4, 5, 6], [2, 1, 4, 5, 6]], [Range(0, 4), Range(3, 4)],
                    [Range(0, 1), Range(3, 3), Range(5, 4)], 3, true)
  {
    var s0, s1 := [2, 1, 6, 5, 4], [2, 1, 4, 5, 6];
    var left := [Range(0, 1), Range(3, 3), Range(5, 4)];
    var stopped := Outcome(s1, [], [], left, 3, true);
    PartitionsOfExampleRun();
    assert Run(s1, left, answers, 2, true) == stopped;
    assert PushSides([Range(0, 1)], 3, 4, 4) == left;
    assert [Range(0, 1)] + [Range(3, 4)] == [Range(0, 1), Range(3, 4)];
    RunPartitionTurn(s1, [Range(0, 1)], 3, 4, s1, 4, answers, 1, true);
    var second := Prepend([s1], [Range(3, 4)], stopped);
    assert Run(s1, [Range(0, 1), Range(3, 4)], answers, 1, true) == second;
    assert PushSides([], 0, 2, 4) == [Range(0, 1), Range(3, 4)];
    RunPartitionTurn(s0, [], 0, 4, s1, 2, answers, 0, true);
    assert [] + [Range(0, 4)] == [Range(0, 4)];
    assert Run(s0, [Range(0, 4)], answers, 0, true) == Prepend([s1], [Range(0, 4)], second);
    assert [s1] + ([s1] + []) == [s1, s1];
    assert [Range(0, 4)] + ([Range(3, 4)] + []) == [Range(0, 4), Range(3, 4)];
  }

  /**
   * What holds each time the loop condition is about to be evaluated, after `polls`
   * questions to `running`: the recorded steps form a trace, the stack invariant holds
   * on the current list, every question so far was answered yes, and the counters agree.
   */
  predicate EngineInv(initial: seq<int>, stack: seq<Range>, steps: seq<seq<int>>, partitioned: seq<Range>,
                      polls: nat, running: nat -> bool, ascending: bool)
  {
    var n := |initial|;
    && Trace(initial, steps, partitioned, ascending)
    && StackInv(Current(initial, steps), stack, ascending)
    && AllRunning(running, polls)
    && (polls == 0 ==> stack == [Range(0, n - 1)])
    && (n >= 2 && polls > 0 ==> |partitioned| > 0 && partitioned[0] == Range(0, n - 1))
    && polls + |stack| == 2 * |steps| + 1
    && |steps| + Work(stack) <= Work([Range(0, n - 1)])
    && (n <= 1 ==> polls <= 1 && (polls == 1 ==> stack == []))
  }

  /** The state before the first poll: only `[0, n - 1]` on the stack, nothing recorded. */
  lemma EngineStart(initial: seq<int>, running: nat -> bool, ascending: bool)
    ensures EngineInv(initial, [Range(0, |initial| - 1)], [], [], 0, running, ascending)
  {
    InitialStackInv(initial, ascending);
  }

  /**
   * `running` said yes and the top range `[lo, hi]` has `lo < hi`: after partitioning it,
   * pushing both sides and recording the step, the invariant holds for one more poll
   * and the stacked length went down.
   */
  lemma EnginePartitionStep(initial: seq<int>, stack: seq<Range>, steps: seq<seq<int>>, partitioned: seq<Range>,
                            polls: nat, running: nat -> bool, ascending: bool)
    requires EngineInv(initial, stack, steps, partitioned, polls, running, ascending)
    requires |stack| > 0 && running(polls)
    requires stack[|stack| - 1].lo < stack[|stack| - 1].hi
    ensures var top := stack[|stack| - 1];
      && 0 <= top.lo < top.hi < |Current(initial, steps)|
      && var r := Partition(Current(initial, steps), top.lo, top.hi, ascending);
         var next := PushSides(stack[..|stack| - 1], top.lo, r.pivotIndex, top.hi);
         && EngineInv(initial, next, steps + [r.arr], partitioned + [top], polls + 1, running, ascending)
         && TotalLen(next) < TotalLen(stack)
  {
    var n := |initial|;
    var top := stack[|stack| - 1];
    var rest := stack[..|stack| - 1];
    var cur := Current(initial, steps);
    CurrentPermutes(initial, steps, partitioned, ascending);
    assert InBounds(top, |cur|);
    var r := Partition(cur, top.lo, top.hi, ascending);
    var next := PushSides(rest, top.lo, r.pivotIndex, top.hi);
    var steps', partitioned' := steps + [r.arr], partitioned + [top];
    TraceExtend(initial, steps, partitioned, top, ascending);
    assert Current(initial, steps') == r.arr;
    PartitionStepInv(cur, stack, ascending);
    assert stack == rest + [Range(top.lo, top.hi)];
    PartitionStepShrinks(rest, top.lo, r.pivotIndex, top.hi);
    if polls == 0 {
      assert top == Range(0, n - 1) && partitioned == [];
    } else if n >= 2 {
      assert partitioned'[0] == partitioned[0];
    }
  }

  /** `running` said yes and the top range holds at most one position: popping it keeps the invariant. */
  lemma EngineTrivialStep(initial: seq<int>, stack: seq<Range>, steps: seq<seq<int>>, partitioned: seq<Range>,
                          polls: nat, running: nat -> bool, ascending: bool)
    requires EngineInv(initial, stack, steps, partitioned, polls, running, ascending)
    requires |stack| > 0 && running(polls)
    requires stack[|stack| - 1].lo >= stack[|stack| - 1].hi
    ensures EngineInv(initial, stack[..|stack| - 1], steps, partitioned, polls + 1, running, ascending)
    ensures TotalLen(stack[..|stack| - 1]) <= TotalLen(stack)
  {
    var top := stack[|stack| - 1];
    var rest := stack[..|stack| - 1];
    PopTrivialInv(Current(initial, steps), stack, ascending);
    assert Work(stack) == Work(rest) + Slack(top);
  }

  /**
   * What the recorded steps tell when the loop ends, either with an empty stack or
   * because `running` answered no: every list handed to the callback, and the final one,
   * is a permutation of the input, and each is the partition of the one before it.
   */
  lemma ConclusionSteps(initial: seq<int>, ascending: bool, o: Outcome)
    requires o.final == Current(initial, o.steps)
    requires Trace(initial, o.steps, o.partitioned, ascending)
    ensures multiset(o.final) == multiset(initial)
    ensures forall i :: 0 <= i < |o.steps| ==> |o.steps[i]| == |initial|
    ensures forall i :: 0 <= i < |o.steps| ==> multiset(o.steps[i]) == multiset(initial)
    ensures |o.steps| == |o.partitioned|
    ensures forall i :: 0 <= i < |o.partitioned| ==> 0 <= o.partitioned[i].lo < o.partitioned[i].hi < |initial|
    ensures forall i :: 0 <= i < |o.steps| ==>
      o.steps[i] == Partition(if i == 0 then initial else o.steps[i - 1], o.partitioned[i].lo, o.partitioned[i].hi, ascending).arr
    ensures o.final == if |o.steps| == 0 then initial else o.steps[|o.steps| - 1]
  {
    TraceFacts(initial, o.steps, o.partitioned, ascending);
    CurrentPermutes(initial, o.steps, o.partitioned, ascending);
  }

  /**
   * What the polls and the stack tell when the loop ends that way, `answered` being the
   * polls answered yes: every poll before the last was answered yes, it stopped early
   * exactly on a no, the list is sorted when it did not, the first step partitions the
   * whole list, and the counts of polls, ranges left and steps agree.
   */
  lemma ConclusionPolls(initial: seq<int>, answered: nat, running: nat -> bool, ascending: bool, o: Outcome)
    requires o.final == Current(initial, o.steps)
    requires EngineInv(initial, o.stack, o.steps, o.partitioned, answered, running, ascending)
    requires if o.cancelled then o.polls == answered + 1 && o.stack != [] && !running(answered)
             else o.polls == answered && o.stack == []
    ensures o.polls > 0 && AllRunning(running, o.polls - 1)
    ensures o.cancelled <==> !running(o.polls - 1)
    ensures AllRunning(running, o.polls) ==> !o.cancelled
    ensures if o.cancelled then o.stack != [] else o.stack == []
    ensures !o.cancelled ==> Sorted(ascending, o.final)
    ensures |initial| >= 2 && running(0) ==> |o.partitioned| > 0 && o.partitioned[0] == Range(0, |initial| - 1)
    ensures !o.cancelled ==> o.polls == 2 * |o.steps| + 1
    ensures o.cancelled ==> o.polls <= 2 * |o.steps| + 1
    ensures answered + |o.stack| == 2 * |o.steps| + 1
    ensures |o.steps| <= if |initial| == 0 then 0 else |initial| - 1
    ensures |initial| <= 1 ==> o.steps == [] && o.polls == 1
  {
    var whole := Range(0, |initial| - 1);
    assert [whole][..0] == [];
    assert Work([whole]) == Slack(whole);
    if !o.cancelled {
      EmptyStackSorted(Current(initial, o.steps), ascending);
    }
  }

  /**
   * The reference run from the whole list and no poll ends in a state that keeps the
   * invariant, with the list it ends on the one its recorded steps lead to.
   */
  lemma RunFromStart(initial: seq<int>, running: nat -> bool, ascending: bool, o: Outcome)
    requires o == Run(initial, [Range(0, |initial| - 1)], running, 0, ascending)
    ensures if o.cancelled then 0 < o.polls && o.stack != [] && !running(o.polls - 1) else o.stack == []
    ensures o.final == Current(initial, o.steps)
    ensures EngineInv(initial, o.stack, o.steps, o.partitioned, if o.cancelled then o.polls - 1 else o.polls,
                      running, ascending)
  {
    EngineStart(initial, running, ascending);
    assert Current(initial, []) == initial;
    RunKeepsInv(initial, [Range(0, |initial| - 1)], [], [], 0, running, ascending, o);
    assert [] + o.steps == o.steps && [] + o.partitioned == o.partitioned;
  }

  /**
   * What the sort engine guarantees, stated of the reference run `o` from the whole list
   * `[0, n - 1]` and no poll yet: `initial` is the list it starts from, `n` its length.
   */
  lemma RunGuarantees(initial: seq<int>, running: nat -> bool, ascending: bool, o: Outcome)
    requires o == Run(initial, [Range(0, |initial| - 1)], running, 0, ascending)
    // the list is always a permutation of its input, at every step and after a stop
    ensures multiset(o.final) == multiset(initial)
    ensures forall i :: 0 <= i < |o.steps| ==> |o.steps[i]| == |initial|
    ensures forall i :: 0 <= i < |o.steps| ==> multiset(o.steps[i]) == multiset(initial)
    // the engine stops early exactly when `running` answers no, and then at once
    ensures o.polls > 0 && AllRunning(running, o.polls - 1)
    ensures o.cancelled <==> !running(o.polls - 1)
    ensures AllRunning(running, o.polls) ==> !o.cancelled
    ensures if o.cancelled then o.stack != [] else o.stack == []
    // uninterrupted, it sorts under the comparator
    ensures !o.cancelled ==> Sorted(ascending, o.final)
    // one step per partition of a range with `low < high`; each step is that partition
    ensures |o.steps| == |o.partitioned|
    ensures forall i :: 0 <= i < |o.partitioned| ==> 0 <= o.partitioned[i].lo < o.partitioned[i].hi < |initial|
    ensures forall i :: 0 <= i < |o.steps| ==>
      o.steps[i] == Partition(if i == 0 then initial else o.steps[i - 1], o.partitioned[i].lo, o.partitioned[i].hi, ascending).arr
    ensures o.final == if |o.steps| == 0 then initial else o.steps[|o.steps| - 1]
    ensures |initial| >= 2 && running(0) ==> |o.partitioned| > 0 && o.partitioned[0] == Range(0, |initial| - 1)
    // counting: every pushed range is popped once, and at most `n - 1` partitions happen
    ensures !o.cancelled ==> o.polls == 2 * |o.steps| + 1
    ensures o.cancelled ==> o.polls <= 2 * |o.steps| + 1
    ensures (if o.cancelled then o.polls - 1 else o.polls) + |o.stack| == 2 * |o.steps| + 1
    ensures |o.steps| <= if |initial| == 0 then 0 else |initial| - 1
    ensures |initial| <= 1 ==> o.steps == [] && o.polls == 1
  {
    RunFromStart(initial, running, ascending, o);
    var answered := if o.cancelled then o.polls - 1 else o.polls;
    ConclusionSteps(initial, ascending, o);
    ConclusionPolls(initial, answered, running, ascending, o);
  }

  /**
   * One turn of the loop after `running` said yes to poll `polls`: pop `[low, high]`; when
   * `low < high`, partition it in place, push both sides and hand the list to the step callback.
   */
  method PopAndPartition(a: array<int>, stack: seq<Range>, ascending: bool, steps: seq<seq<int>>,
                         ghost partitioned: seq<Range>, ghost polls: nat, ghost running: nat -> bool)
    returns (stack': seq<Range>, steps': seq<seq<int>>, ghost partitioned': seq<Range>)
    modifies a
    requires forall i :: 0 <= i < |stack| ==> InBounds(stack[i], a.Length)
    requires |stack| > 0 && running(polls)
    ensures forall i :: 0 <= i < |stack'| ==> InBounds(stack'[i], a.Length)
    ensures TotalLen(stack') < TotalLen(stack) || (TotalLen(stack') == TotalLen(stack) && |stack'| < |stack|)
    ensures var top := stack[|stack| - 1];
      && InBounds(top, a.Length)
      && if top.lo < top.hi
      then && var r := Partition(old(a[..]), top.lo, top.hi, ascending);
           && a[..] == r.arr && steps' == steps + [a[..]] && partitioned' == partitioned + [top]
           && stack' == PushSides(stack[..|stack| - 1], top.lo, r.pivotIndex, top.hi)
      else steps' == steps && partitioned' == partitioned && stack' == stack[..|stack| - 1] && a[..] == old(a[..])
    // the turn is the first iteration of the reference run
    ensures Prepend(steps', partitioned', Run(a[..], stack', running, polls + 1, ascending))
         == Prepend(steps, partitioned, Run(old(a[..]), stack, running, polls, ascending))
  {
    ghost var s := a[..];
    var top, rest := stack[|stack| - 1], stack[..|stack| - 1];
    assert stack == rest + [Range(top.lo, top.hi)];
    assert InBounds(top, a.Length);
    if top.lo < top.hi {
      var p := PartitionInPlace(a, top.lo, top.hi, ascending);
      stack' := PushSides(rest, top.lo, p, top.hi);
      steps' := steps + [a[..]];
      partitioned' := partitioned + [top];
      RunPartitionTurn(s, rest, top.lo, top.hi, a[..], p, running, polls, ascending);
      PartitionStepShrinks(rest, top.lo, p, top.hi);
      PrependTwice(steps, [a[..]], partitioned, [top], Run(a[..], stack', running, polls + 1, ascending));
    } else {
      stack', steps', partitioned' := rest, steps, partitioned;
      RunTrivialTurn(s, rest, top.lo, top.hi, running, polls, ascending);
      assert TotalLen(stack) == TotalLen(rest) + Len(top);
    }
  }

  /**
   * The sort engine. `running(t)` is what the `running` predicate answers the `t`-th time
   * it is asked; it is asked only while the stack is not empty (the `&&` short-circuits).
   * `steps` are the lists the step callback receives, in order; `partitioned` the ranges
   * whose partition produced them; `pending` the ranges left on the stack.
   */
  method QuickSort(a: array<int>, ascending: bool, running: nat -> bool)
    returns (steps: seq<seq<int>>, polls: nat, cancelled: bool, ghost partitioned: seq<Range>, ghost pending: seq<Range>)
    modifies a
    // the run is the reference one: the same steps in the same order, the same polls, the same stop
    ensures Run(old(a[..]), [Range(0, a.Length - 1)], running, 0, ascending)
         == Outcome(a[..], steps, partitioned, pending, polls, cancelled)
    // the list is always a permutation of its input, at every step and after a stop
    ensures multiset(a[..]) == multiset(old(a[..]))
    ensures forall i :: 0 <= i < |steps| ==> |steps[i]| == a.Length
    ensures forall i :: 0 <= i < |steps| ==> multiset(steps[i]) == multiset(old(a[..]))
    // the engine stops early exactly when `running` answers no, and then at once
    ensures polls > 0 && AllRunning(running, polls - 1)
    ensures cancelled <==> !running(polls - 1)
    ensures AllRunning(running, polls) ==> !cancelled
    ensures if cancelled then pending != [] else pending == []
    // uninterrupted, it sorts under the comparator
    ensures !cancelled ==> Sorted(ascending, a[..])
    // one step per partition of a range with `low < high`; each step is that partition
    ensures |steps| == |partitioned|
    ensures forall i :: 0 <= i < |partitioned| ==> 0 <= partitioned[i].lo < partitioned[i].hi < a.Length
    ensures forall i :: 0 <= i < |steps| ==>
      steps[i] == Partition(if i == 0 then old(a[..]) else steps[i - 1], partitioned[i].lo, partitioned[i].hi, ascending).arr
    ensures a[..] == if |steps| == 0 then old(a[..]) else steps[|steps| - 1]
    ensures a.Length >= 2 && running(0) ==> |partitioned| > 0 && partitioned[0] == Range(0, a.Length - 1)
    // counting: every pushed range is popped once, and at most `n - 1` partitions happen
    ensures !cancelled ==> polls == 2 * |steps| + 1
    ensures cancelled ==> polls <= 2 * |steps| + 1
    ensures (if cancelled then polls - 1 else polls) + |pending| == 2 * |steps| + 1
    ensures |steps| <= if a.Length == 0 then 0 else a.Length - 1
    ensures a.Length <= 1 ==> steps == [] && polls == 1
  {
    ghost var initial := a[..];
    var stack := [Range(0, a.Length - 1)];
    stack, steps, polls, cancelled, partitioned := SortLoop(a, stack, ascending, running);
    pending := stack;
    RunGuarantees(initial, running, ascending, Outcome(a[..], steps, partitioned, pending, polls, cancelled));
  }

  /**
   * The `while (!stack.isEmpty() && running.getAsBoolean())` loop of the sort engine, from
   * stack `start`, proved to be the reference run from the list it is given.
   */
  method SortLoop(a: array<int>, start: seq<Range>, ascending: bool, running: nat -> bool)
    returns (stack: seq<Range>, steps: seq<seq<int>>, polls: nat, cancelled: bool, ghost partitioned: seq<Range>)
    modifies a
    requires forall i :: 0 <= i < |start| ==> InBounds(start[i], a.Length)
    ensures Run(old(a[..]), start, running, 0, ascending) == Outcome(a[..], steps, partitioned, stack, polls, cancelled)
  {
    stack, steps, polls, cancelled, partitioned := start, [], 0, false, [];
    ghost var first := Run(a[..], start, running, 0, ascending);
    assert [] + first.steps == first.steps && [] + first.partitioned == first.partitioned;
    while true
      invariant forall i :: 0 <= i < |stack| ==> InBounds(stack[i], a.Length)
      invariant Prepend(steps, partitioned, Run(a[..], stack, running, polls, ascending))
             == Run(old(a[..]), start, running, 0, ascending)
      decreases TotalLen(stack), |stack|
    {
      if stack == [] {
        RunEndsEmpty(steps, partitioned, a[..], running, polls, ascending);
        return;
      }
      var go := running(polls);
      polls := polls + 1;
      if !go {
        cancelled := true;
        RunEndsNo(steps, partitioned, a[..], stack, running, polls - 1, ascending);
        return;
      }
      stack, steps, partitioned := PopAndPartition(a, stack, ascending, steps, partitioned, polls - 1, running);
    }
  }
}
