/**
 * The element sequences of the integer sets (h08 ArrayIntSet and h17
 * ListIntSet): the representation invariant that forbids duplicates, the
 * search for an element, and the removal that moves the last element into
 * the freed slot.
 */
module IntSetElements {

  /** No element occurs twice. */
  ghost predicate NoDuplicates(s: seq<int>) {
    forall i, j :: 0 <= i < j < |s| ==> s[i] != s[j]
  }

  /** The set a sequence represents. */
  ghost function AsSet(s: seq<int>): set<int> {
    set x | x in s
  }

  /** indexOf: the first index holding x, or -1. */
  function IndexIn(s: seq<int>, x: int): (i: int)
    ensures -1 <= i < |s|
    ensures i == -1 <==> x !in s
    ensures i >= 0 ==> s[i] == x && x !in s[..i]
  {
    if s == [] then -1
    else if s[0] == x then 0
    else
      var j := IndexIn(s[1..], x);
      assert s[1..][..if j >= 0 then j else 0] == s[1..if j >= 0 then j + 1 else 1];
      if j == -1 then -1 else j + 1
  }

  /**
   * Remove index i by moving the last element into slot i and dropping the
   * last slot.
   */
  function SwapRemove(s: seq<int>, i: int): seq<int>
    requires 0 <= i < |s|
  {
    s[i := s[|s| - 1]][..|s| - 1]
  }

  /**
   * Swap-removal keeps the sequence free of duplicates, shortens it by one,
   * and removes exactly the element at i.
   */
  lemma SwapRemoveElements(s: seq<int>, i: int)
    requires NoDuplicates(s) && 0 <= i < |s|
    ensures NoDuplicates(SwapRemove(s, i))
    ensures |SwapRemove(s, i)| == |s| - 1
    ensures forall y :: y in SwapRemove(s, i) <==> y in s && y != s[i]
  {
    var t := SwapRemove(s, i);
    forall y | y in s && y != s[i] ensures y in t {
      var k :| 0 <= k < |s| && s[k] == y;
      if k == |s| - 1 {
        assert t[i] == y;
      } else {
        assert t[k] == y;
      }
    }
    forall y | y in t ensures y in s && y != s[i] {
      var k :| 0 <= k < |t| && t[k] == y;
      if k == i {
        assert y == s[|s| - 1];
      } else {
        assert y == s[k];
      }
    }
  }

  /** Without duplicates, the length of the sequence is the size of its set. */
  lemma {:induction false} DistinctCardinality(s: seq<int>)
    requires NoDuplicates(s)
    ensures |AsSet(s)| == |s|
  {
    if s != [] {
      DistinctCardinality(s[1..]);
      assert AsSet(s) == {s[0]} + AsSet(s[1..]);
      assert s[0] !in AsSet(s[1..]);
    }
  }

  /** Appending an absent element keeps the sequence free of duplicates. */
  lemma AppendAbsent(s: seq<int>, x: int)
    requires NoDuplicates(s) && x !in s
    ensures NoDuplicates(s + [x])
  {
  }
}
