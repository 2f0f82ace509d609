/** bisect_right of Python's standard library. */
module Bisect {

  predicate Ascending(a: seq<int>) {
    forall i, j :: 0 <= i < j < |a| ==> a[i] <= a[j]
  }

  /** Binary search between `lo` and `hi`. */
  function Search(a: seq<int>, x: int, lo: nat, hi: nat): (r: nat)
    requires lo <= hi <= |a| && Ascending(a)
    requires forall i :: 0 <= i < lo ==> a[i] <= x
    requires forall i :: hi <= i < |a| ==> x < a[i]
    ensures r <= |a|
    ensures forall i :: 0 <= i < r ==> a[i] <= x
    ensures forall i :: r <= i < |a| ==> x < a[i]
    decreases hi - lo
  {
    if lo == hi then lo
    else
      var mid := (lo + hi) / 2;
      if x < a[mid] then Search(a, x, lo, mid) else Search(a, x, mid + 1, hi)
  }

  /** How many elements are at most `x`. */
  function BisectRight(a: seq<int>, x: int): (r: nat)
    requires Ascending(a)
    ensures r <= |a|
    ensures forall i :: 0 <= i < r ==> a[i] <= x
    ensures forall i :: r <= i < |a| ==> x < a[i]
  {
    Search(a, x, 0, |a|)
  }
}
