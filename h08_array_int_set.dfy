/**
 * h08 ArrayIntSet: a mutable set of ints kept in the first `size` slots of
 * an array that starts with 16 slots and doubles when full; removal moves the
 * last element into the freed slot.
 */
module ArrayIntSets {
  import opened Wrappers
  import opened IntSetElements

  /** Arrays.copyOf: a fresh array of the new length, the old prefix copied, zeros after. */
  method CopyOf(a: array<int>, newLength: int) returns (b: array<int>)
    requires a.Length <= newLength
    ensures fresh(b) && b.Length == newLength
    ensures b[..a.Length] == a[..]
    ensures forall k :: a.Length <= k < newLength ==> b[k] == 0
  {
    b := new int[newLength](_ => 0);
    for k := 0 to a.Length
      invariant forall j :: 0 <= j < k ==> b[j] == a[j]
      invariant forall j :: a.Length <= j < newLength ==> b[j] == 0
    {
      b[k] := a[k];
    }
  }

  class ArrayIntSet {
    const INITIAL_CAPACITY: int := 16
    var els: array<int>
    var size: int

    /** The representation invariant: the first `size` slots hold distinct elements. */
    ghost predicate Valid()
      reads this, els
    {
      0 <= size <= els.Length && 0 < els.Length && NoDuplicates(els[..size])
    }

    /** The elements, in slot order. */
    function Elements(): seq<int>
      reads this, els
      requires 0 <= size <= els.Length
    {
      els[..size]
    }

    /** A new set is empty, over an array of INITIAL_CAPACITY slots. */
    constructor ()
      ensures Valid() && Elements() == [] && fresh(els) && els.Length == 16
    {
      els := new int[INITIAL_CAPACITY](_ => 0);
      size := 0;
    }

    /** indexOf: the loop over the first `size` slots. */
    method IndexOf(x: int) returns (i: int)
      requires Valid()
      ensures i == IndexIn(Elements(), x)
      ensures i == -1 <==> x !in Elements()
    {
      for k := 0 to size
        invariant x !in els[..k]
      {
        if els[k] == x {
          assert els[..size][..k] == els[..k];
          return k;
        }
        assert els[..k + 1] == els[..k] + [els[k]];
      }
      assert els[..size] == Elements();
      return -1;
    }

    /**
     * insert: nothing when x is already there; otherwise x goes after the
     * last element, the array doubling first when it is full.
     */
    method Insert(x: int)
      requires Valid()
      modifies this, els
      ensures Valid()
      ensures Elements() == if x in old(Elements()) then old(Elements()) else old(Elements()) + [x]
      ensures forall y :: y in Elements() <==> y in old(Elements()) || y == x
      ensures x !in old(Elements()) && old(size) == old(els.Length) ==> els.Length == 2 * old(els.Length)
    {
      var i := IndexOf(x);
      if i != -1 {
        return;
      }
      if size == els.Length {
        els := CopyOf(els, els.Length * 2);
      }
      ghost var before := els[..size];
      els[size] := x;
      size := size + 1;
      assert Elements() == before + [x];
      AppendAbsent(before, x);
    }

    /**
     * remove: nothing when x is absent; otherwise the last element moves into
     * x's slot and the size drops by one.
     */
    method Remove(x: int)
      requires Valid()
      modifies this, els
      ensures Valid() && els == old(els)
      ensures x !in old(Elements()) ==> Elements() == old(Elements())
      ensures x in old(Elements()) ==> Elements() == SwapRemove(old(Elements()), IndexIn(old(Elements()), x))
      ensures forall y :: y in Elements() <==> y in old(Elements()) && y != x
      ensures size == if x in old(Elements()) then old(size) - 1 else old(size)
    {
      var i := IndexOf(x);
      if i == -1 {
        return;
      }
      ghost var before := Elements();
      size := size - 1;
      els[i] := els[size];
      assert Elements() == SwapRemove(before, i);
      SwapRemoveElements(before, i);
    }

    /** isIn: whether indexOf finds x. */
    method IsIn(x: int) returns (b: bool)
      requires Valid()
      ensures b <==> x in Elements()
    {
      var i := IndexOf(x);
      b := i != -1;
    }

    /** size(): the number of elements, which is the size of the set they form. */
    function Size(): (n: int)
      reads this, els
      requires Valid()
      ensures n == |AsSet(Elements())|
    {
      DistinctCardinality(Elements());
      size
    }

    /** choose: IllegalStateException on an empty set, otherwise the element in slot 0. */
    method Choose() returns (r: Result<int>)
      requires Valid()
      ensures r.Failure? <==> Elements() == []
      ensures r.Failure? ==> r.error == IllegalState
      ensures r.Success? ==> r.value in Elements() && r.value == Elements()[0]
    {
      if size == 0 {
        return Failure(IllegalState);
      }
      return Success(els[0]);
    }
  }
}
