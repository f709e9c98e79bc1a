/**
 * e14 StringIterators: evenIterator, which yields the even-length strings of
 * an underlying iterator, and uppercase, which yields each of its strings in
 * upper case. The filtering iterator buffers only accepted candidates; it is
 * written for any predicate, evenIterator being the even-length instance.
 */
module StringIterators {
  import opened Wrappers
  import opened StringSources
  import opened JavaString

  /** The test of evenIterator: the length in UTF-16 units is even. */
  predicate EvenLength(s: string) {
    JavaLength(s) % 2 == 0
  }

  class FilteringIterator {
    const it: StringSource
    const pred: string -> bool
    /** The accepted candidate read ahead by hasNext, if any. */
    var next: Option<string>

    ghost predicate Valid()
      reads this, it
    {
      it.Valid() && (next.Some? ==> pred(next.value))
    }

    /** What is still to be returned: the buffered string, then the accepted rest of `it`. */
    ghost function Output(): seq<string>
      reads this, it
      requires it.Valid()
    {
      (if next.Some? then [next.value] else []) + Filter(pred, it.Rest())
    }

    constructor (it: StringSource, pred: string -> bool)
      requires it.Valid()
      ensures Valid() && this.it == it && this.pred == pred
      ensures Output() == Filter(pred, it.Rest())
    {
      this.it := it;
      this.pred := pred;
      next := None;
    }

    /**
     * hasNext: true with a buffered string; otherwise candidates are read
     * until one is accepted, and only that one is buffered. What remains to
     * be returned does not change, so repeated calls agree.
     */
    method HasNext() returns (b: bool)
      requires Valid()
      modifies this, it
      ensures Valid()
      ensures Output() == old(Output())
      ensures b <==> Output() != []
      ensures b <==> next.Some?
    {
      if next.Some? {
        return true;
      }
      while it.HasNext()
        invariant it.Valid() && next == None
        invariant Filter(pred, it.Rest()) == old(Output())
        decreases |it.Rest()|
      {
        var candidate := it.Next();
        if pred(candidate) {
          next := Some(candidate);
          return true;
        }
      }
      return false;
    }

    /** next: IllegalStateException when exhausted, otherwise the first string still to be returned. */
    method Next() returns (r: Result<string>)
      requires Valid()
      modifies this, it
      ensures Valid()
      ensures r.Failure? <==> old(Output()) == []
      ensures r.Failure? ==> r.error == IllegalState && Output() == []
      ensures r.Success? ==> r.value == old(Output())[0] && Output() == old(Output())[1..]
    {
      var b := HasNext();
      if !b {
        return Failure(IllegalState);
      }
      var result := next.value;
      next := None;
      return Success(result);
    }
  }

  /** evenIterator: a filtering iterator over `it` keeping the even-length strings. */
  method EvenIterator(it: StringSource) returns (r: FilteringIterator)
    requires it.Valid()
    ensures fresh(r) && r.Valid() && r.it == it
    ensures r.Output() == Filter(EvenLength, it.Rest())
  {
    r := new FilteringIterator(it, EvenLength);
  }

  class UppercaseIterator {
    const it: StringSource
    /** String.toUpperCase, which depends on the locale. */
    const upper: string -> string

    ghost function Output(): seq<string>
      reads it
      requires it.Valid()
    {
      Map(upper, it.Rest())
    }

    constructor (it: StringSource, upper: string -> string)
      requires it.Valid()
      ensures this.it == it && this.upper == upper
      ensures Output() == Map(upper, it.Rest())
    {
      this.it := it;
      this.upper := upper;
    }

    /** hasNext: that of `it`. */
    predicate HasNext()
      reads it
      requires it.Valid()
    {
      it.HasNext()
    }

    /** next: IllegalStateException when exhausted, otherwise the next string of `it` in upper case. */
    method Next() returns (r: Result<string>)
      requires it.Valid()
      modifies it
      ensures it.Valid()
      ensures r.Failure? <==> old(Output()) == []
      ensures r.Failure? ==> r.error == IllegalState && Output() == []
      ensures r.Success? ==> r.value == old(Output())[0] && Output() == old(Output())[1..]
    {
      if !HasNext() {
        return Failure(IllegalState);
      }
      var s := it.Next();
      return Success(upper(s));
    }
  }
}
