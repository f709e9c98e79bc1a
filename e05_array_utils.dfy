/**
 * e05 ArrayUtils.binarySearch: the index of the value, or -1 when it is
 * absent. It probes the same midpoints as the s06 search (it tests equality
 * first, which picks the same branch), so it is proved to agree with
 * ArrayUtils.Search, with -1 in place of every negative result.
 */
module ArrayUtilsMinusOne {
  import ArrayUtils

  /** -1 stands for every miss. */
  function MissAsMinusOne(r: int): int {
    if r >= 0 then r else -1
  }

  method BinarySearch(arr: array<int>, value: int) returns (r: int)
    ensures r == MissAsMinusOne(ArrayUtils.Search(arr[..], value, 0, arr.Length - 1))
    ensures -1 <= r < arr.Length
    ensures r >= 0 ==> arr[r] == value
  {
    ghost var a := arr[..];
    ghost var target := ArrayUtils.Search(a, value, 0, |a| - 1);
    var low := 0;
    var high := arr.Length - 1;
    while low <= high
      invariant 0 <= low <= high + 1 <= arr.Length
      invariant ArrayUtils.Search(a, value, low, high) == target
      decreases high - low
    {
      var mid := ArrayUtils.Midpoint(low, high);
      if arr[mid] == value {
        return mid;
      } else if value > arr[mid] {
        low := mid + 1;
      } else {
        high := mid - 1;
      }
    }
    return -1;
  }

  /**
   * On a sorted array the result is -1 exactly when the value is absent, and
   * otherwise an index holding the value.
   */
  lemma MinusOneIffAbsent(a: seq<int>, value: int)
    requires ArrayUtils.Sorted(a)
    ensures var r := MissAsMinusOne(ArrayUtils.Search(a, value, 0, |a| - 1));
            (r == -1 <==> value !in a) && (r >= 0 ==> r < |a| && a[r] == value)
  {
    ArrayUtils.SearchFacts(a, value);
  }
}
