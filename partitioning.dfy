// `IterativeQuickSort.partition`: the Lomuto scheme over `arr[low..high]` with the last
// element of the range as pivot. The functions below are its value-level meaning; the
// methods at the end run it in place on an array, as the source does on its list.
module Partitioning {
  import opened Comparators

  /** `Collections.swap(arr, i, j)` on a value: exchanges the two positions (nothing when `i == j`). */
  function Swap(s: seq<int>, i: int, j: int): (r: seq<int>)
    requires 0 <= i < |s| && 0 <= j < |s|
    ensures |r| == |s| && r[i] == s[j] && r[j] == s[i]
    ensures forall k :: 0 <= k < |s| && k != i && k != j ==> r[k] == s[k]
  {
    seq(|s|, k requires 0 <= k < |s| => if k == j then s[i] else if k == i then s[j] else s[k])
  }

  /** Swapping two positions leaves the multiset of values unchanged. */
  lemma SwapPermutes(s: seq<int>, i: int, j: int)
    requires 0 <= i < |s| && 0 <= j < |s|
    ensures multiset(Swap(s, i, j)) == multiset(s)
  {
    assert Swap(s, i, j) == s[i := s[j]][j := s[i]];
  }

  /**
   * The `for (j = ...; j < high; j++)` loop of `partition`, continued from boundary `i`
   * and cursor `j`: returns the sequence after the loop and the final boundary.
   */
  function Scan(s: seq<int>, low: int, high: int, pivot: int, ascending: bool, i: int, j: int): (r: (seq<int>, int))
    requires 0 <= low && low - 1 <= i < j <= high < |s|
    ensures |r.0| == |s|
    ensures i <= r.1 < high
    decreases high - j
  {
    if j == high then (s, i)
    else if Compare(ascending, s[j], pivot) <= 0 then
      Scan(Swap(s, i + 1, j), low, high, pivot, ascending, i + 1, j + 1)
    else
      Scan(s, low, high, pivot, ascending, i, j + 1)
  }

  datatype Partitioned = Partitioned(arr: seq<int>, pivotIndex: int)

  /** `partition(arr, low, high, compare)`: the rearranged sequence and the pivot's final index. */
  function Partition(s: seq<int>, low: int, high: int, ascending: bool): (r: Partitioned)
    requires 0 <= low <= high < |s|
    ensures |r.arr| == |s|
    ensures low <= r.pivotIndex <= high
  {
    var (t, i) := Scan(s, low, high, s[high], ascending, low - 1, low);
    Partitioned(Swap(t, i + 1, high), i + 1)
  }

  /**
   * The loop invariant of the scan: `[low, i]` holds elements not after the pivot and
   * `(i, j)` elements after it.
   */
  predicate Arranged(s: seq<int>, low: int, i: int, j: int, pivot: int, ascending: bool)
    requires 0 <= low && low - 1 <= i < j <= |s|
  {
    && (forall k :: low <= k <= i ==> NotAfter(ascending, s[k], pivot))
    && (forall k :: i < k < j ==> !NotAfter(ascending, s[k], pivot))
  }

  /** The scan keeps its invariant up to `high`. */
  lemma {:induction false} ScanArranges(s: seq<int>, low: int, high: int, pivot: int, ascending: bool, i: int, j: int)
    requires 0 <= low && low - 1 <= i < j <= high < |s|
    requires Arranged(s, low, i, j, pivot, ascending)
    ensures var r := Scan(s, low, high, pivot, ascending, i, j);
      Arranged(r.0, low, r.1, high, pivot, ascending)
    decreases high - j
  {
    if j == high {
      assert Scan(s, low, high, pivot, ascending, i, j) == (s, i);
    } else if Compare(ascending, s[j], pivot) <= 0 {
      SwapExtendsPrefix(s, low, pivot, ascending, i, j);
      ScanArranges(Swap(s, i + 1, j), low, high, pivot, ascending, i + 1, j + 1);
    } else {
      ScanArranges(s, low, high, pivot, ascending, i, j + 1);
    }
  }

  /** The scan only swaps inside `[low, high)`: everything else stays where it is. */
  lemma {:induction false} ScanFrame(s: seq<int>, low: int, high: int, pivot: int, ascending: bool, i: int, j: int)
    requires 0 <= low && low - 1 <= i < j <= high < |s|
    ensures var r := Scan(s, low, high, pivot, ascending, i, j);
      forall k :: 0 <= k < |s| && (k < low || high <= k) ==> r.0[k] == s[k]
    decreases high - j
  {
    if j == high {
      assert Scan(s, low, high, pivot, ascending, i, j) == (s, i);
    } else if Compare(ascending, s[j], pivot) <= 0 {
      var s' := Swap(s, i + 1, j);
      ScanFrame(s', low, high, pivot, ascending, i + 1, j + 1);
      var r := Scan(s', low, high, pivot, ascending, i + 1, j + 1);
      assert Scan(s, low, high, pivot, ascending, i, j) == r;
      forall k | 0 <= k < |s| && (k < low || high <= k)
        ensures r.0[k] == s[k]
      {
        assert r.0[k] == s'[k];
      }
    } else {
      ScanFrame(s, low, high, pivot, ascending, i, j + 1);
    }
  }

  /** The scan permutes the sequence. */
  lemma {:induction false} ScanPermutes(s: seq<int>, low: int, high: int, pivot: int, ascending: bool, i: int, j: int)
    requires 0 <= low && low - 1 <= i < j <= high < |s|
    ensures multiset(Scan(s, low, high, pivot, ascending, i, j).0) == multiset(s)
    decreases high - j
  {
    if j == high {
      assert Scan(s, low, high, pivot, ascending, i, j) == (s, i);
    } else if Compare(ascending, s[j], pivot) <= 0 {
      var s' := Swap(s, i + 1, j);
      var r := Scan(s', low, high, pivot, ascending, i + 1, j + 1);
      assert Scan(s, low, high, pivot, ascending, i, j) == r;
      ScanPermutes(s', low, high, pivot, ascending, i + 1, j + 1);
      SwapPermutes(s, i + 1, j);
      assert multiset(r.0) == multiset(s);
    } else {
      assert Scan(s, low, high, pivot, ascending, i, j) == Scan(s, low, high, pivot, ascending, i, j + 1);
      ScanPermutes(s, low, high, pivot, ascending, i, j + 1);
    }
  }

  /** One swapping step of the scan moves `s[j]` to the end of the "not after" prefix. */
  lemma SwapExtendsPrefix(s: seq<int>, low: int, pivot: int, ascending: bool, i: int, j: int)
    requires 0 <= low && low - 1 <= i < j < |s|
    requires NotAfter(ascending, s[j], pivot)
    requires Arranged(s, low, i, j, pivot, ascending)
    ensures Arranged(Swap(s, i + 1, j), low, i + 1, j + 1, pivot, ascending)
  {
    var s' := Swap(s, i + 1, j);
    forall k | i + 1 < k < j + 1
      ensures !NotAfter(ascending, s'[k], pivot)
    {
      if k == j { assert s'[k] == s[i + 1]; } else { assert s'[k] == s[k]; }
    }
  }

  /**
   * The partition postcondition: the pivot, the original `arr[high]`, sits at the returned
   * index; everything left of it in the range compares `<= 0` with it and everything right
   * of it `> 0`; elements outside `[low, high]` stay where they are; and the result is a
   * permutation of the input.
   */
  lemma PartitionCorrect(s: seq<int>, low: int, high: int, ascending: bool)
    requires 0 <= low <= high < |s|
    ensures var r := Partition(s, low, high, ascending);
      && r.arr[r.pivotIndex] == s[high]
      && (forall k :: low <= k < r.pivotIndex ==> Compare(ascending, r.arr[k], s[high]) <= 0)
      && (forall k :: r.pivotIndex < k <= high ==> Compare(ascending, r.arr[k], s[high]) > 0)
      && (forall k :: 0 <= k < |s| && (k < low || high < k) ==> r.arr[k] == s[k])
      && multiset(r.arr) == multiset(s)
  {
    var pivot := s[high];
    var sc := Scan(s, low, high, pivot, ascending, low - 1, low);
    ScanArranges(s, low, high, pivot, ascending, low - 1, low);
    ScanFrame(s, low, high, pivot, ascending, low - 1, low);
    ScanPermutes(s, low, high, pivot, ascending, low - 1, low);
    var t, e := sc.0, sc.1;
    assert Partition(s, low, high, ascending) == Partitioned(Swap(t, e + 1, high), e + 1);
    assert t[high] == pivot;
    FinalSwap(t, low, high, pivot, ascending, e);
  }

  /**
   * The closing `Collections.swap(arr, i + 1, high)` of `partition`: after the scan has
   * arranged `[low, i]` and `(i, high)`, it puts the pivot between the two.
   */
  lemma FinalSwap(t: seq<int>, low: int, high: int, pivot: int, ascending: bool, i: int)
    requires 0 <= low && low - 1 <= i < high < |t| && t[high] == pivot
    requires Arranged(t, low, i, high, pivot, ascending)
    ensures var u := Swap(t, i + 1, high);
      && u[i + 1] == pivot
      && (forall k :: low <= k < i + 1 ==> Compare(ascending, u[k], pivot) <= 0)
      && (forall k :: i + 1 < k <= high ==> Compare(ascending, u[k], pivot) > 0)
      && (forall k :: 0 <= k < |t| && (k < low || high < k) ==> u[k] == t[k])
      && multiset(u) == multiset(t)
  {
    var u := Swap(t, i + 1, high);
    forall k | low <= k < i + 1
      ensures Compare(ascending, u[k], pivot) <= 0
    {
      assert u[k] == t[k];
    }
    forall k | i + 1 < k <= high
      ensures Compare(ascending, u[k], pivot) > 0
    {
      if k == high { assert u[k] == t[i + 1]; } else { assert u[k] == t[k]; }
    }
    SwapPermutes(t, i + 1, high);
  }

  /** The partition permutes the range `[low, high]` itself: every value there came from there. */
  lemma PartitionPermutesRange(s: seq<int>, low: int, high: int, ascending: bool)
    requires 0 <= low <= high < |s|
    ensures var r := Partition(s, low, high, ascending);
      && multiset(r.arr[low..high + 1]) == multiset(s[low..high + 1])
      && (forall x :: low <= x <= high ==> r.arr[x] in s[low..high + 1])
  {
    PartitionCorrect(s, low, high, ascending);
    PermutationWithinRange(s, Partition(s, low, high, ascending).arr, low, high);
  }

  /** A permutation that leaves everything outside `[lo, hi]` alone permutes `[lo, hi]`. */
  lemma PermutationWithinRange(s: seq<int>, t: seq<int>, lo: int, hi: int)
    requires |s| == |t| && 0 <= lo <= hi + 1 <= |s|
    requires forall k :: 0 <= k < |s| && (k < lo || hi < k) ==> t[k] == s[k]
    requires multiset(t) == multiset(s)
    ensures multiset(t[lo..hi + 1]) == multiset(s[lo..hi + 1])
    ensures forall x :: lo <= x <= hi ==> t[x] in s[lo..hi + 1]
  {
    assert t[..lo] == s[..lo];
    assert t[hi + 1..] == s[hi + 1..];
    SplitMultiset(s, lo, hi);
    SplitMultiset(t, lo, hi);
    CancelSides(multiset(s[..lo]), multiset(t[lo..hi + 1]), multiset(s[lo..hi + 1]), multiset(s[hi + 1..]));
    SameMultisetSameValues(s, t, lo, hi);
  }

  /** The multiset of a sequence is that of its three pieces around `[lo, hi]`. */
  lemma SplitMultiset(s: seq<int>, lo: int, hi: int)
    requires 0 <= lo <= hi + 1 <= |s|
    ensures multiset(s) == multiset(s[..lo]) + multiset(s[lo..hi + 1]) + multiset(s[hi + 1..])
  {
    assert s == s[..lo] + s[lo..hi + 1] + s[hi + 1..];
  }

  /** Equal multisets with equal outer parts have equal middle parts. */
  lemma CancelSides(before: multiset<int>, x: multiset<int>, y: multiset<int>, after: multiset<int>)
    requires before + x + after == before + y + after
    ensures x == y
  {
    forall v
      ensures x[v] == y[v]
    {
      assert (before + x + after)[v] == (before + y + after)[v];
    }
  }

  /** Two ranges with the same multiset hold the same values. */
  lemma SameMultisetSameValues(s: seq<int>, t: seq<int>, lo: int, hi: int)
    requires |s| == |t| && 0 <= lo <= hi + 1 <= |s|
    requires multiset(t[lo..hi + 1]) == multiset(s[lo..hi + 1])
    ensures forall x :: lo <= x <= hi ==> t[x] in s[lo..hi + 1]
  {
    forall x | lo <= x <= hi
      ensures t[x] in s[lo..hi + 1]
    {
      assert t[lo..hi + 1][x - lo] == t[x];
      assert t[x] in multiset(t[lo..hi + 1]);
    }
  }

  /** The first partition of `[5, 3, 8, 3, 1]`, ascending: the pivot 1 goes to the front. */
  lemma PartitionExampleFirst()
    ensures Partition([5, 3, 8, 3, 1], 0, 4, true) == Partitioned([1, 3, 8, 3, 5], 0)
  {
  }

  /** The partition that follows it, of the range `[1, 4]`: the pivot 5 lands at index 3. */
  lemma PartitionExampleSecond()
    ensures Partition([1, 3, 8, 3, 5], 1, 4, true) == Partitioned([1, 3, 3, 5, 8], 3)
  {
  }

  /** The three partitions of a sort of `[2, 1, 6, 5, 4]`, ascending, in the order the engine makes them. */
  lemma PartitionsOfExampleRun()
    ensures Partition([2, 1, 6, 5, 4], 0, 4, true) == Partitioned([2, 1, 4, 5, 6], 2)
    ensures Partition([2, 1, 4, 5, 6], 3, 4, true) == Partitioned([2, 1, 4, 5, 6], 4)
    ensures Partition([2, 1, 4, 5, 6], 0, 1, true) == Partitioned([1, 2, 4, 5, 6], 0)
  {
  }

  /** `Collections.swap` on the array. */
  method SwapElements(a: array<int>, i: int, j: int)
    requires 0 <= i < a.Length && 0 <= j < a.Length
    modifies a
    ensures a[..] == Swap(old(a[..]), i, j)
  {
    a[i], a[j] := a[j], a[i];
  }

  /** The scanning loop of `partition`, in place: returns the final boundary `i`. */
  method ScanInPlace(a: array<int>, low: int, high: int, pivot: int, ascending: bool) returns (i: int)
    requires 0 <= low <= high < a.Length
    modifies a
    ensures (a[..], i) == Scan(old(a[..]), low, high, pivot, ascending, low - 1, low)
  {
    i := low - 1;
    for j := low to high
      invariant low - 1 <= i < j
      invariant Scan(a[..], low, high, pivot, ascending, i, j)
             == Scan(old(a[..]), low, high, pivot, ascending, low - 1, low)
    {
      if Compare(ascending, a[j], pivot) <= 0 {
        i := i + 1;
        SwapElements(a, i, j);
      }
    }
  }

  /** `partition`, in place: the array becomes `Partition(old(a[..]), ...)`. */
  method PartitionInPlace(a: array<int>, low: int, high: int, ascending: bool) returns (p: int)
    requires 0 <= low <= high < a.Length
    modifies a
    ensures a[..] == Partition(old(a[..]), low, high, ascending).arr
    ensures p == Partition(old(a[..]), low, high, ascending).pivotIndex
    ensures low <= p <= high && a[p] == old(a[high])
    ensures forall k :: low <= k < p ==> Compare(ascending, a[k], a[p]) <= 0
    ensures forall k :: p < k <= high ==> Compare(ascending, a[k], a[p]) > 0
    ensures forall k :: 0 <= k < a.Length && (k < low || high < k) ==> a[k] == old(a[k])
    ensures multiset(a[..]) == multiset(old(a[..]))
  {
    ghost var s := a[..];
    ghost var r := Partition(s, low, high, ascending);
    var i := ScanInPlace(a, low, high, a[high], ascending);
    SwapElements(a, i + 1, high);
    p := i + 1;
    assert a[..] == r.arr && p == r.pivotIndex;
    PartitionCorrect(s, low, high, ascending);
    assert a[p] == s[high];
    forall k | low <= k < p
      ensures Compare(ascending, a[k], a[p]) <= 0
    {
      assert a[k] == r.arr[k];
    }
    forall k | p < k <= high
      ensures Compare(ascending, a[k], a[p]) > 0
    {
      assert a[k] == r.arr[k];
    }
    forall k | 0 <= k < a.Length && (k < low || high < k)
      ensures a[k] == s[k]
    {
      assert a[k] == r.arr[k];
    }
  }
}
