/** The `Searching` class: linear and binary search over a list of integers. */
module Searching {
  import opened Sequences

  /** `linear_search`: the first index holding `target`, or -1 when there is none. */
  method LinearSearch(a: seq<int>, target: int) returns (r: int)
    ensures -1 <= r < |a|
    ensures r == -1 <==> target !in a
    ensures r != -1 ==> a[r] == target && target !in a[..r]
  {
    var i := 0;
    while i < |a|
      invariant 0 <= i <= |a|
      invariant target !in a[..i]
    {
      if a[i] == target {
        return i;
      }
      i := i + 1;
    }
    return -1;
  }

  /** `binary_search`: any index it returns holds `target`; on an ascending list, -1
      means `target` does not occur. The midpoint `(left + right) // 2` is taken with
      `left + right >= 0`, where floor and Euclidean division agree. */
  method BinarySearch(a: seq<int>, target: int) returns (r: int)
    ensures -1 <= r < |a|
    ensures r != -1 ==> a[r] == target
    ensures Sorted(a) && r == -1 ==> target !in a
  {
    var left, right := 0, |a| - 1;
    while left <= right
      invariant 0 <= left <= right + 1 <= |a|
      invariant Sorted(a) ==> forall i :: 0 <= i < left ==> a[i] < target
      invariant Sorted(a) ==> forall i :: right < i < |a| ==> target < a[i]
      decreases right - left
    {
      var mid := (left + right) / 2;
      if a[mid] == target {
        return mid;
      } else if a[mid] < target {
        left := mid + 1;
      } else {
        right := mid - 1;
      }
    }
    return -1;
  }

  /** On an ascending list the two searches agree on whether `target` occurs, and the
      linear one finds the first occurrence, at or before the binary one's. */
  method SearchesAgree(a: seq<int>, target: int) returns (linear: int, binary: int)
    requires Sorted(a)
    ensures -1 <= linear < |a| && -1 <= binary < |a|
    ensures linear == -1 <==> binary == -1
    ensures binary != -1 ==> 0 <= linear <= binary && a[linear] == a[binary]
  {
    linear := LinearSearch(a, target);
    binary := BinarySearch(a, target);
  }
}
