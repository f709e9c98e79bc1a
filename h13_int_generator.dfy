/**
 * h13 IntGenerator: an iterator over the first `size` slots of an int array,
 * as ArrayIntSet hands it out.
 */
module IntGenerators {
  import opened Wrappers

  class IntGenerator {
    const els: array<int>
    const size: int
    /** The slot of the next element to return. */
    var idx: int

    ghost predicate Valid()
      reads this
    {
      0 <= idx <= size <= els.Length
    }

    /** The elements still to be returned. */
    function Output(): seq<int>
      reads this, els
      requires Valid()
    {
      els[idx..size]
    }

    /**
     * The constructor is partial: it is only called with a `size` within the
     * array, and a new generator will return the whole prefix.
     */
    constructor (els: array<int>, size: int)
      requires 0 <= size <= els.Length
      ensures Valid() && this.els == els && this.size == size
      ensures Output() == els[..size]
    {
      this.els := els;
      this.size := size;
      idx := 0;
    }

    /** hasNext: idx is below size, that is, something is left. */
    predicate HasNext()
      reads this
    {
      idx < size
    }

    /**
     * next: NoSuchElementException when exhausted, otherwise els[idx], and
     * idx moves on by one.
     */
    method Next() returns (r: Result<int>)
      requires Valid()
      modifies this
      ensures Valid()
      ensures r.Failure? <==> old(Output()) == []
      ensures r.Failure? ==> r.error == NoSuchElement && idx == old(idx)
      ensures r.Success? ==> r.value == old(Output())[0] && Output() == old(Output())[1..]
                             && idx == old(idx) + 1
    {
      if !HasNext() {
        return Failure(NoSuchElement);
      }
      r := Success(els[idx]);
      idx := idx + 1;
    }
  }
}
