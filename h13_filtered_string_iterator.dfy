/**
 * h13 FilteredStringIterator, as written: hasNext stores every candidate it
 * reads in `next`, including a rejected one, and leaves it there when the
 * underlying iterator runs out. The iterator in StringIterators, which only
 * buffers accepted candidates, is the corrected form.
 */
module FilteredStringIterators {
  import opened Wrappers
  import opened StringSources
  import StringEndsWiths
  import StringIterators

  class FilteredStringIterator {
    const original: StringSource
    const predicate_: string -> bool
    /** The last candidate read by hasNext, if it has not been returned. */
    var next: Option<string>

    ghost predicate Valid()
      reads this, original
    {
      original.Valid()
    }

    constructor (original: StringSource, predicate_: string -> bool)
      requires original.Valid()
      ensures Valid() && this.original == original && this.predicate_ == predicate_ && next == None
    {
      this.original := original;
      this.predicate_ := predicate_;
      next := None;
    }

    /**
     * hasNext: true with a stored string, whatever it is; otherwise
     * candidates are read into `next` until one is accepted. When none is,
     * the answer is false, `original` is exhausted, and `next` keeps the last
     * rejected candidate.
     */
    method HasNext() returns (b: bool)
      requires Valid()
      modifies this, original
      ensures Valid()
      ensures old(next).Some? ==> b && next == old(next) && original.pos == old(original.pos)
      ensures old(next).None? ==> (b <==> Filter(predicate_, old(original.Rest())) != [])
      ensures old(next).None? && b ==>
                next.Some? && predicate_(next.value)
                && [next.value] + Filter(predicate_, original.Rest()) == Filter(predicate_, old(original.Rest()))
      ensures !b ==> original.Rest() == []
                     && next == if old(original.Rest()) == [] then None
                                else Some(old(original.Rest())[|old(original.Rest())| - 1])
    {
      if next.Some? {
        return true;
      }
      ghost var rest := original.Rest();
      ghost var k := 0;
      while original.HasNext()
        invariant original.Valid() && 0 <= k <= |rest|
        invariant original.Rest() == rest[k..]
        invariant Filter(predicate_, rest[k..]) == Filter(predicate_, rest)
        invariant next == if k == 0 then None else Some(rest[k - 1])
        decreases |rest| - k
      {
        var candidate := original.Next();
        next := Some(candidate);
        assert rest[k..][1..] == rest[k + 1..];
        k := k + 1;
        if predicate_(candidate) {
          return true;
        }
      }
      return false;
    }

    /**
     * next: NoSuchElementException when hasNext is false, otherwise the
     * stored string, which is then cleared.
     */
    method Next() returns (r: Result<string>)
      requires Valid()
      modifies this, original
      ensures Valid()
      ensures old(next).Some? ==> r == Success(old(next).value) && next == None
                                  && original.pos == old(original.pos)
      ensures old(next).None? ==> (r.Success? <==> Filter(predicate_, old(original.Rest())) != [])
      ensures old(next).None? && r.Success? ==>
                r.value == Filter(predicate_, old(original.Rest()))[0] && next == None
                && Filter(predicate_, original.Rest()) == Filter(predicate_, old(original.Rest()))[1..]
      ensures r.Failure? ==> r.error == NoSuchElement
    {
      var b := HasNext();
      if !b {
        return Failure(NoSuchElement);
      }
      var result := next.value;
      next := None;
      return Success(result);
    }
  }

  /**
   * The stored rejected candidate: over ["a"] filtered by "ends with x",
   * hasNext answers false and then true, and next returns "a", which the
   * predicate rejects.
   */
  method RejectedCandidateReturned() returns (first: bool, second: bool, r: Result<string>)
    ensures !first && second && r == Success("a")
    ensures !StringEndsWiths.StringEndsWith("x").Test("a")
  {
    var source := new StringSource(["a"]);
    var it := new FilteredStringIterator(source, StringEndsWiths.StringEndsWith("x").Test);
    first := it.HasNext();
    second := it.HasNext();
    r := it.Next();
  }

  /**
   * The corrected iterator on the same input: hasNext stays false and next
   * fails.
   */
  method RejectedCandidateDropped() returns (first: bool, second: bool, r: Result<string>)
    ensures !first && !second && r.Failure?
  {
    var source := new StringSource(["a"]);
    var it := new StringIterators.FilteringIterator(source, StringEndsWiths.StringEndsWith("x").Test);
    assert Filter(StringEndsWiths.StringEndsWith("x").Test, ["a"]) == [];
    first := it.HasNext();
    second := it.HasNext();
    r := it.Next();
  }
}
