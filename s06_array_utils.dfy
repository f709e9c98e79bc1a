/**
 * s06 ArrayUtils (binarySearch, insertAt, fill). The binarySearch of s05 and
 * e06 is the same code and is modelled once, here.
 */
module ArrayUtils {

  /** In increasing order (equal neighbours allowed). */
  ghost predicate Sorted(s: seq<int>) {
    forall i, j :: 0 <= i < j < |s| ==> s[i] <= s[j]
  }

  /** Without duplicates. */
  ghost predicate StrictlySorted(s: seq<int>) {
    forall i, j :: 0 <= i < j < |s| ==> s[i] < s[j]
  }

  /**
   * `ip` is the insertion point of `needle`: every element before it is
   * smaller, every element from it on is greater.
   */
  ghost predicate InsertionPoint(s: seq<int>, ip: int, needle: int) {
    0 <= ip <= |s|
    && (forall k :: 0 <= k < ip ==> s[k] < needle)
    && (forall k :: ip <= k < |s| ==> needle < s[k])
  }

  /** n / 2 for a non-negative n, by halving steps (see HalfIsDivision). */
  function Half(n: nat): (h: nat)
    ensures h <= n
  {
    if n < 2 then 0 else Half(n - 2) + 1
  }

  /** Half is integer division by two. */
  lemma {:induction false} HalfIsDivision(n: nat)
    ensures Half(n) == n / 2
  {
    if n >= 2 {
      HalfIsDivision(n - 2);
    }
  }

  /** Half rounds down: twice the half is n or n - 1. */
  lemma {:induction false} HalfBounds(n: nat)
    ensures Half(n) + Half(n) == n || Half(n) + Half(n) + 1 == n
  {
    if n >= 2 {
      HalfBounds(n - 2);
    }
  }

  /** The midpoint lo + (hi - lo) / 2, which cannot overflow, lies in the window. */
  function Midpoint(lo: int, hi: int): (mid: int)
    requires lo <= hi
    ensures lo <= mid <= hi
  {
    lo + Half(hi - lo)
  }

  /**
   * The search loop on the window [lo, hi]: look at the midpoint
   * lo + (hi - lo) / 2, go left or right, stop when it holds the needle,
   * and give -lo - 1 once the window is empty.
   */
  function Search(a: seq<int>, needle: int, lo: int, hi: int): (r: int)
    requires 0 <= lo <= hi + 1 <= |a|
    ensures r >= 0 ==> lo <= r <= hi && a[r] == needle
    ensures r < 0 ==> lo <= -r - 1 <= hi + 1
    decreases hi - lo + 1
  {
    if lo > hi then -lo - 1
    else
      var mid := Midpoint(lo, hi);
      if needle < a[mid] then Search(a, needle, lo, mid - 1)
      else if needle > a[mid] then Search(a, needle, mid + 1, hi)
      else mid
  }

  /**
   * On a sorted array, when everything left of the window is smaller and
   * everything right of it is greater than the needle, a negative result
   * encodes the insertion point.
   */
  lemma {:induction false} SearchMisses(a: seq<int>, needle: int, lo: int, hi: int)
    requires 0 <= lo <= hi + 1 <= |a| && Sorted(a)
    requires forall k :: 0 <= k < lo ==> a[k] < needle
    requires forall k :: hi < k < |a| ==> needle < a[k]
    ensures Search(a, needle, lo, hi) < 0 ==> InsertionPoint(a, -Search(a, needle, lo, hi) - 1, needle)
    decreases hi - lo + 1
  {
    if lo <= hi {
      var mid := Midpoint(lo, hi);
      if needle < a[mid] {
        SearchMisses(a, needle, lo, mid - 1);
      } else if needle > a[mid] {
        SearchMisses(a, needle, mid + 1, hi);
      }
    }
  }

  /** A needle with an insertion point does not occur. */
  lemma InsertionPointAbsent(s: seq<int>, ip: int, needle: int)
    requires InsertionPoint(s, ip, needle)
    ensures needle !in s
  {
  }

  /**
   * binarySearch: the loop computes Search over the whole array, so it
   * returns the index of an occurrence of the needle or, by SearchFacts,
   * -(insertion point) - 1 on a sorted array.
   */
  method BinarySearch(haystack: array<int>, needle: int) returns (r: int)
    ensures r == Search(haystack[..], needle, 0, haystack.Length - 1)
    ensures r >= 0 ==> r < haystack.Length && haystack[r] == needle
  {
    ghost var a := haystack[..];
    ghost var target := Search(a, needle, 0, |a| - 1);
    var lo := 0;
    var hi := haystack.Length - 1;
    while lo <= hi
      invariant 0 <= lo <= hi + 1 <= haystack.Length
      invariant Search(a, needle, lo, hi) == target
      decreases hi - lo
    {
      var mid := Midpoint(lo, hi);
      if needle < haystack[mid] {
        hi := mid - 1;
      } else if needle > haystack[mid] {
        lo := mid + 1;
      } else {
        return mid;
      }
    }
    r := -lo - 1;
  }

  /**
   * What binarySearch promises on a sorted array: a negative result encodes
   * the insertion point, and the result is non-negative exactly when the
   * needle occurs.
   */
  lemma SearchFacts(a: seq<int>, needle: int)
    requires Sorted(a)
    ensures var r := Search(a, needle, 0, |a| - 1);
            r < 0 ==> InsertionPoint(a, -r - 1, needle)
    ensures Search(a, needle, 0, |a| - 1) >= 0 <==> needle in a
  {
    var r := Search(a, needle, 0, |a| - 1);
    SearchMisses(a, needle, 0, |a| - 1);
    if r < 0 {
      InsertionPointAbsent(a, -r - 1, needle);
    }
  }

  /**
   * The s05 documentation promises the first occurrence; that holds when the
   * array has no duplicates.
   */
  lemma FirstOccurrenceWhenStrict(a: seq<int>, needle: int)
    requires StrictlySorted(a)
    ensures var r := Search(a, needle, 0, |a| - 1);
            r >= 0 ==> forall k :: 0 <= k < r ==> a[k] != needle
  {
  }

  /** With duplicates it does not: in [1, 1, 1] the search for 1 stops at index 1. */
  lemma NotFirstWithDuplicates()
    ensures Search([1, 1, 1], 1, 0, 2) == 1 && [1, 1, 1][0] == 1
  {
  }

  /**
   * insertAt: for 0 <= ip < length, shift a[ip..] one place right, dropping
   * the last element, and put `value` at ip.
   */
  method InsertAt(a: array<int>, ip: int, value: int)
    requires 0 <= ip < a.Length
    modifies a
    ensures a[..] == old(a[..ip]) + [value] + old(a[ip..a.Length - 1])
  {
    ghost var before := a[..];
    var i := a.Length - 1;
    while i > ip
      invariant ip <= i <= a.Length - 1
      invariant forall k :: 0 <= k <= i ==> a[k] == before[k]
      invariant forall k :: i < k < a.Length ==> a[k] == before[k - 1]
    {
      a[i] := a[i - 1];
      i := i - 1;
    }
    a[ip] := value;
    assert a[..] == before[..ip] + [value] + before[ip..a.Length - 1];
  }

  /**
   * Inserting an absent value at its insertion point, as insertAt does,
   * keeps a sorted array sorted.
   */
  lemma InsertKeepsSorted(s: seq<int>, ip: int, value: int)
    requires Sorted(s) && InsertionPoint(s, ip, value) && ip < |s|
    ensures Sorted(s[..ip] + [value] + s[ip..|s| - 1])
  {
    var t := s[..ip] + [value] + s[ip..|s| - 1];
    forall i, j | 0 <= i < j < |t| ensures t[i] <= t[j] {
      if j < ip {
        assert t[i] == s[i] && t[j] == s[j];
      } else if j == ip {
        assert t[i] == s[i] && t[j] == value;
      } else if i < ip {
        assert t[i] == s[i] && t[j] == s[j - 1];
      } else if i == ip {
        assert t[i] == value && t[j] == s[j - 1];
      } else {
        assert t[i] == s[i - 1] && t[j] == s[j - 1];
      }
    }
  }

  /** fill: every element set to `value`. */
  method Fill(a: array<int>, value: int)
    modifies a
    ensures forall i :: 0 <= i < a.Length ==> a[i] == value
  {
    for i := 0 to a.Length
      invariant forall k :: 0 <= k < i ==> a[k] == value
    {
      a[i] := value;
    }
  }
}
