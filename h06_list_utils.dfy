/**
 * h06 ListUtils.binarySearch: a string in a list sorted by compareTo, found
 * at some index, or -1.
 */
module ListUtils {
  import opened JavaString
  import ArrayUtils

  /**
   * (lo + high) >>> 1 for 0 <= lo <= high: the unsigned shift halves the
   * sum exactly even when it overflows, so this is the mathematical midpoint
   * rounded down, and it lies in the window.
   */
  function ShiftMidpoint(lo: int, high: int): (mid: int)
    requires 0 <= lo <= high
    ensures lo <= mid <= high
  {
    ArrayUtils.HalfBounds(lo + high);
    ArrayUtils.Half(lo + high)
  }

  /** A string above the probe is not at or after it in a sorted list. */
  lemma AboveProbe(needle: string, probe: string, x: string)
    requires Less(needle, probe) && (Less(probe, x) || probe == x)
    ensures x != needle
  {
    if probe != x {
      LessTransitive(needle, probe, x);
    }
    LessTrichotomy(needle, x);
  }

  /** A string below the probe is not at or before it in a sorted list. */
  lemma BelowProbe(needle: string, probe: string, x: string)
    requires Less(probe, needle) && (Less(x, probe) || x == probe)
    ensures x != needle
  {
    if probe != x {
      LessTransitive(x, probe, needle);
    }
    LessTrichotomy(needle, x);
  }

  /**
   * binarySearch: an index holding the needle, or -1; on a sorted list the
   * result is -1 exactly when the needle is absent. The list is a value, so
   * it is not changed.
   */
  method BinarySearch(haystack: seq<string>, needle: string) returns (r: int)
    ensures -1 <= r < |haystack|
    ensures r >= 0 ==> haystack[r] == needle
    ensures Sorted(haystack) ==> (r == -1 <==> needle !in haystack)
  {
    var lo, high := 0, |haystack| - 1;
    while lo <= high
      invariant 0 <= lo <= high + 1 <= |haystack|
      invariant Sorted(haystack) ==>
        forall k :: 0 <= k < |haystack| && haystack[k] == needle ==> lo <= k <= high
      decreases high - lo
    {
      var mid := ShiftMidpoint(lo, high);
      var midString := haystack[mid];
      CompareZeroIff(needle, midString);
      CompareAntisymmetric(needle, midString);
      if Compare(needle, midString) < 0 {
        if Sorted(haystack) {
          forall k | mid <= k < |haystack| ensures haystack[k] != needle {
            AboveProbe(needle, midString, haystack[k]);
          }
        }
        high := mid - 1;
      } else if Compare(needle, midString) > 0 {
        if Sorted(haystack) {
          forall k | 0 <= k <= mid ensures haystack[k] != needle {
            BelowProbe(needle, midString, haystack[k]);
          }
        }
        lo := mid + 1;
      } else {
        return mid;
      }
    }
    return -1;
  }
}
