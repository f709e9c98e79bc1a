/**
 * h15 MaxIntSet: an int set that also tracks its largest element. Its parent,
 * the h13 ArrayIntSet, is not part of this model; its state is represented
 * by its element sequence, updated as the h08 ArrayIntSet updates its own
 * (insertion appends an absent element, removal moves the last element into
 * the freed slot).
 */
module MaxIntSets {
  import opened Wrappers
  import opened JavaInt
  import opened IntSetElements

  class MaxIntSet {
    /** The elements held by the parent set, in its slot order. */
    var els: seq<int>
    var biggest: int

    /**
     * The elements are distinct Java ints and, for a non-empty set,
     * `biggest` is an element no smaller than any other.
     */
    ghost predicate Valid()
      reads this
    {
      NoDuplicates(els)
      && (forall y :: y in els ==> IsInt(y))
      && (els != [] ==> biggest in els && forall i :: 0 <= i < |els| ==> els[i] <= biggest)
    }

    /** A new set is empty. */
    constructor ()
      ensures Valid() && els == []
    {
      els := [];
      biggest := 0;
    }

    /** insert: x becomes the maximum when the set was empty or x exceeds it. */
    method Insert(x: int)
      requires Valid() && IsInt(x)
      modifies this
      ensures Valid()
      ensures els == if x in old(els) then old(els) else old(els) + [x]
      ensures biggest == if old(els) == [] || x > old(biggest) then x else old(biggest)
    {
      if |els| == 0 || x > biggest {
        biggest := x;
      }
      SuperInsert(x);
    }

    /** The parent's insert: an absent element is appended. */
    method SuperInsert(x: int)
      requires NoDuplicates(els)
      modifies this
      ensures NoDuplicates(els) && biggest == old(biggest)
      ensures els == if x in old(els) then old(els) else old(els) + [x]
    {
      if x !in els {
        AppendAbsent(els, x);
        els := els + [x];
      }
    }

    /** The parent's remove: a present element is replaced by the last one, and the last slot dropped. */
    method SuperRemove(x: int)
      requires NoDuplicates(els)
      modifies this
      ensures NoDuplicates(els) && biggest == old(biggest)
      ensures x !in old(els) ==> els == old(els)
      ensures x in old(els) ==> els == SwapRemove(old(els), IndexIn(old(els), x))
      ensures forall y :: y in els <==> y in old(els) && y != x
    {
      var i := IndexIn(els, x);
      if i >= 0 {
        SwapRemoveElements(els, i);
        els := SwapRemove(els, i);
      }
    }

    /**
     * remove: when a non-empty set remains and x was the maximum, the maximum
     * is recomputed by a pass over the remaining elements starting from
     * Integer.MIN_VALUE; otherwise it is kept.
     */
    method Remove(x: int)
      requires Valid()
      modifies this
      ensures Valid()
      ensures x !in old(els) ==> els == old(els)
      ensures x in old(els) ==> els == SwapRemove(old(els), IndexIn(old(els), x))
      ensures forall y :: y in els <==> y in old(els) && y != x
      ensures els == [] || x != old(biggest) ==> biggest == old(biggest)
    {
      SuperRemove(x);
      if |els| == 0 || x != biggest {
        return;
      }
      biggest := MIN_INT;
      var remaining := els;
      for k := 0 to |remaining|
        invariant els == remaining
        invariant biggest == MIN_INT || biggest in remaining[..k]
        invariant forall j :: 0 <= j < k ==> remaining[j] <= biggest
        invariant MIN_INT <= biggest
      {
        if remaining[k] > biggest {
          biggest := remaining[k];
        }
      }
      assert remaining[..|remaining|] == remaining;
      assert remaining[0] in old(els);
    }

    /** max: NoSuchElementException on an empty set, otherwise the largest element. */
    function Max(): (r: Result<int>)
      reads this
      requires Valid()
      ensures r.Failure? <==> els == []
      ensures r.Failure? ==> r.error == NoSuchElement
      ensures r.Success? ==> r.value in els && forall y :: y in els ==> y <= r.value
    {
      if |els| == 0 then Failure(NoSuchElement) else Success(biggest)
    }
  }
}
