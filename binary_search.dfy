/** `iterative_search`: binary search over a list of colour names. */
module BinarySearch {
  import opened StringOrder

  /**
   * Narrows `low`/`high` around the midpoint until the target is found or
   * the bounds cross; `-1` means "not found". A returned index always holds
   * the target, whatever the order of `arr`; when `arr` is sorted, `-1` is
   * returned only if the target does not occur at all.
   */
  method IterativeSearch(arr: seq<string>, target: string) returns (r: int)
    ensures r == -1 || (0 <= r < |arr| && arr[r] == target)
    ensures Sorted(arr) && target in arr ==> r != -1
    ensures |arr| == 0 ==> r == -1
  {
    var low, high := 0, |arr| - 1;
    while low <= high
      invariant 0 <= low <= high + 1 <= |arr|
      invariant Sorted(arr) ==> forall i :: 0 <= i < low ==> Less(arr[i], target)
      invariant Sorted(arr) ==> forall i :: high < i < |arr| ==> Less(target, arr[i])
      decreases high - low
    {
      var mid := (low + high) / 2;
      if arr[mid] == target {
        return mid;
      } else if Less(target, arr[mid]) {
        if Sorted(arr) {
          forall i | mid <= i <= high
            ensures Less(target, arr[i])
          {
            LessLessEq(target, arr[mid], arr[i]);
          }
        }
        high := mid - 1;
      } else {
        LessTotal(arr[mid], target);
        if Sorted(arr) {
          forall i | low <= i <= mid
            ensures Less(arr[i], target)
          {
            LessEqLess(arr[i], arr[mid], target);
          }
        }
        low := mid + 1;
      }
    }
    if Sorted(arr) && target in arr {
      var i :| 0 <= i < |arr| && arr[i] == target;
      LessIrreflexive(target);
      assert false;
    }
    return -1;
  }
}
