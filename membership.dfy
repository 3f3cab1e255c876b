/** The two membership scans `linear_contains` and `binary_contains`
    (generic_search.py, lines 38-56). */
module Membership {

  /** Ascending order, repeats allowed. */
  ghost predicate Sorted(s: seq<int>) {
    forall i, j :: 0 <= i < j < |s| ==> s[i] <= s[j]
  }

  /** A scan in iteration order that stops at the first match. Falling off the
      end returns Python's `None`, which is falsy: it is modelled as `false`. */
  method LinearContains<T(==)>(items: seq<T>, key: T) returns (found: bool)
    ensures found <==> key in items
  {
    for i := 0 to |items|
      invariant key !in items[..i]
    {
      if items[i] == key {
        return true;
      }
    }
    assert items[..|items|] == items;
    return false;
  }

  /** Low/high midpoint search. A `true` answer is always a real occurrence;
      on an ascending sequence the answer is exact. */
  method BinaryContains(s: seq<int>, key: int) returns (found: bool)
    ensures found ==> key in s
    ensures Sorted(s) ==> (found <==> key in s)
  {
    var low, high := 0, |s| - 1;
    while low <= high
      invariant 0 <= low <= high + 1 <= |s|
      invariant Sorted(s) ==> forall i :: 0 <= i < low ==> s[i] < key
      invariant Sorted(s) ==> forall i :: high < i < |s| ==> key < s[i]
      decreases high - low
    {
      // low + high >= 0 here, so Python's floor division agrees with Dafny's.
      var mid := (low + high) / 2;
      if s[mid] < key {
        low := mid + 1;
      } else if s[mid] > key {
        high := mid - 1;
      } else {
        return true;
      }
    }
    return false;
  }
}
