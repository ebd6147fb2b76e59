// The two orderings the sort engine is run with: `(a, b) -> Integer.compare(a, b)`
// for an ascending run and `(a, b) -> Integer.compare(b, a)` for a descending one.
module Comparators {

  /** Java's `Integer.compare`: negative, zero or positive as `x` is below, equal to or above `y`. */
  function IntegerCompare(x: int, y: int): (r: int)
    ensures -1 <= r <= 1
    ensures r < 0 <==> x < y
    ensures r == 0 <==> x == y
    ensures r > 0 <==> x > y
  {
    if x < y then -1 else if x == y then 0 else 1
  }

  /**
   * The comparator chosen for a run: natural order when `ascending`, its inverse
   * otherwise. Like `Integer.compare` it answers -1, 0 or 1; `CompareMeaning` says which.
   */
  function Compare(ascending: bool, x: int, y: int): (r: int)
    ensures -1 <= r <= 1
  {
    if ascending then IntegerCompare(x, y) else IntegerCompare(y, x)
  }

  /**
   * The sign of the comparator under either direction: under the ascending one `x` is not
   * after `y` when `x <= y`, under the descending one when `x >= y`, and 0 means equal.
   */
  lemma CompareMeaning(ascending: bool, x: int, y: int)
    ensures -1 <= Compare(ascending, x, y) <= 1
    ensures Compare(ascending, x, y) < 0 <==> (if ascending then x < y else x > y)
    ensures Compare(ascending, x, y) == 0 <==> x == y
    ensures Compare(ascending, x, y) > 0 <==> (if ascending then x > y else x < y)
    ensures Compare(ascending, x, y) <= 0 <==> (if ascending then x <= y else x >= y)
  {
  }

  /** `compare(x, y) <= 0`: under the active ordering, `x` does not come after `y`. */
  predicate NotAfter(ascending: bool, x: int, y: int) {
    Compare(ascending, x, y) <= 0
  }

  /** Every element is "not after" every element to its right. */
  predicate Sorted(ascending: bool, s: seq<int>) {
    forall i, j :: 0 <= i < j < |s| ==> NotAfter(ascending, s[i], s[j])
  }

  /** "Not after" is a total preorder, for either direction. */
  lemma NotAfterIsTotalPreorder(ascending: bool, x: int, y: int, z: int)
    ensures NotAfter(ascending, x, x)
    ensures NotAfter(ascending, x, y) || NotAfter(ascending, y, x)
    ensures NotAfter(ascending, x, y) && NotAfter(ascending, y, z) ==> NotAfter(ascending, x, z)
    ensures !NotAfter(ascending, x, y) ==> NotAfter(ascending, y, x)
  {
  }

  /** Sorted under `Integer.compare(a, b)` is non-decreasing; under `Integer.compare(b, a)` non-increasing. */
  lemma SortedMeansMonotone(s: seq<int>)
    ensures Sorted(true, s) <==> forall i, j :: 0 <= i < j < |s| ==> s[i] <= s[j]
    ensures Sorted(false, s) <==> forall i, j :: 0 <= i < j < |s| ==> s[i] >= s[j]
  {
  }
}
