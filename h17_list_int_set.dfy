/**
 * h17 ListIntSet: a mutable set of ints kept in a list without duplicates,
 * next to the element count it inherits from its abstract parent.
 */
module ListIntSets {
  import opened Wrappers
  import opened IntSetElements

  class ListIntSet {
    var els: seq<int>
    /** The counter the parent class keeps. */
    var size: int

    /** The representation invariant: no duplicates, and the counter matches the list. */
    ghost predicate Valid()
      reads this
    {
      NoDuplicates(els) && size == |els|
    }

    /** A new set is empty. */
    constructor ()
      ensures Valid() && els == []
    {
      els := [];
      size := 0;
    }

    /** insert: x appended, and the counter bumped, exactly when x is absent. */
    method Insert(x: int)
      requires Valid()
      modifies this
      ensures Valid()
      ensures els == if x in old(els) then old(els) else old(els) + [x]
      ensures forall y :: y in els <==> y in old(els) || y == x
    {
      if IndexIn(els, x) < 0 {
        AppendAbsent(els, x);
        els := els + [x];
        size := size + 1;
      }
    }

    /**
     * remove: nothing when x is absent; otherwise the last element is copied
     * into x's slot, the last slot is dropped and the counter decremented.
     */
    method Remove(x: int)
      requires Valid()
      modifies this
      ensures Valid()
      ensures x !in old(els) ==> els == old(els)
      ensures x in old(els) ==> els == SwapRemove(old(els), IndexIn(old(els), x))
      ensures forall y :: y in els <==> y in old(els) && y != x
    {
      var i := IndexIn(els, x);
      if i < 0 {
        return;
      }
      SwapRemoveElements(els, i);
      var last := |els| - 1;
      els := els[i := els[last]];
      els := els[..last];
      size := size - 1;
    }

    /** choose: NoSuchElementException on an empty set, otherwise the last element. */
    function Choose(): (r: Result<int>)
      reads this
      ensures r.Failure? <==> els == []
      ensures r.Failure? ==> r.error == NoSuchElement
      ensures r.Success? ==> r.value in els && r.value == els[|els| - 1]
    {
      if els == [] then Failure(NoSuchElement) else Success(els[|els| - 1])
    }
  }
}
