/**
 * e14 IntRange: a mutable range with a start, an exclusive end and a non-zero
 * step, and its iterator. The iterator copies the start when it is created
 * but reads the end and the step from the range at every call.
 */
module IntRanges {
  import opened Wrappers
  import opened JavaInt

  /** Whether `current` has not yet reached `to`, in the direction of `step`. */
  predicate Before(current: int, to: int, step: int) {
    if step > 0 then current < to else current > to
  }

  /** The values an iterator starting at `from` yields while the range stays as it is. */
  function Values(from: int, to: int, step: int): (r: seq<int>)
    requires step != 0
    ensures r == [] <==> !Before(from, to, step)
    decreases if step > 0 then to - from else from - to
  {
    if Before(from, to, step) then [from] + Values(from + step, to, step) else []
  }

  /**
   * The values start at `from`, go up (or down) by `step`, and stay on the
   * `from` side of `to`.
   */
  lemma {:induction false} ValuesMeaning(from: int, to: int, step: int)
    requires step != 0
    ensures forall i :: 0 <= i < |Values(from, to, step)| ==>
              Values(from, to, step)[i] == from + i * step && Before(from + i * step, to, step)
    decreases if step > 0 then to - from else from - to
  {
    if Before(from, to, step) {
      ValuesMeaning(from + step, to, step);
      forall i | 0 < i < |Values(from, to, step)|
        ensures Values(from, to, step)[i] == from + i * step
      {
        assert Values(from, to, step)[i] == Values(from + step, to, step)[i - 1];
        assert from + step + (i - 1) * step == from + i * step;
      }
    }
  }

  /** With a positive step and a start at or beyond the end there is nothing to yield. */
  lemma EmptyWhenStartPastEnd(from: int, to: int, step: int)
    requires step > 0 && from >= to
    ensures Values(from, to, step) == []
  {
  }

  class IntRange {
    var from: int
    var to: int
    var step: int

    /** The representation invariant: the step is not zero. */
    ghost predicate Valid()
      reads this
    {
      step != 0
    }

    /** The default range: from Integer.MIN_VALUE to Integer.MAX_VALUE by 1. */
    constructor ()
      ensures Valid() && from == MIN_INT && to == MAX_INT && step == 1
    {
      from := MIN_INT;
      to := MAX_INT;
      step := 1;
    }

    method SetFrom(from: int)
      modifies this
      ensures this.from == from && to == old(to) && step == old(step)
    {
      this.from := from;
    }

    method SetTo(to: int)
      modifies this
      ensures this.to == to && from == old(from) && step == old(step)
    {
      this.to := to;
    }

    /** setStep: IllegalArgumentException, and no change, when the new step is 0. */
    method SetStep(step: int) returns (o: Outcome)
      requires Valid()
      modifies this
      ensures Valid() && from == old(from) && to == old(to)
      ensures o.Fail? <==> step == 0
      ensures o.Fail? ==> o.error == IllegalArgument && this.step == old(this.step)
      ensures o.Pass? ==> this.step == step
    {
      if step == 0 {
        return Fail(IllegalArgument);
      }
      this.step := step;
      return Pass;
    }

    /** iterator: a new iterator positioned at the current start. */
    method Iterator() returns (it: RangeIterator)
      requires Valid()
      ensures fresh(it) && it.range == this && it.current == from
      ensures it.Output() == Values(from, to, step)
    {
      it := new RangeIterator(this);
    }
  }

  class RangeIterator {
    const range: IntRange
    var current: int

    constructor (range: IntRange)
      ensures this.range == range && current == range.from
    {
      this.range := range;
      current := range.from;
    }

    /** What is still to be yielded, for the range as it is now. */
    function Output(): seq<int>
      reads this, range
      requires range.Valid()
    {
      Values(current, range.to, range.step)
    }

    /** hasNext: `current` is before the range's present end, in its present direction. */
    predicate HasNext()
      reads this, range
    {
      Before(current, range.to, range.step)
    }

    /**
     * next: IllegalStateException when exhausted, otherwise `current`, which
     * then moves on by the range's present step (Java's int overflow is not
     * modelled).
     */
    method Next() returns (r: Result<int>)
      requires range.Valid()
      modifies this
      ensures r.Failure? <==> old(Output()) == []
      ensures r.Failure? ==> r.error == IllegalState && current == old(current)
      ensures r.Success? ==> r.value == old(Output())[0] && Output() == old(Output())[1..]
      ensures r.Success? ==> current == old(current) + range.step
    {
      if !HasNext() {
        return Failure(IllegalState);
      }
      var value := current;
      current := current + range.step;
      return Success(value);
    }
  }

  /**
   * The end is read live: an iterator over 0..10 by 3 that has yielded 0
   * stops after 3 once the range's end is moved to 4.
   */
  method LiveEnd() returns (first: Result<int>, second: Result<int>, third: Result<int>)
    ensures first == Success(0) && second == Success(3) && third == Failure(IllegalState)
  {
    var range := new IntRange();
    range.SetFrom(0);
    range.SetTo(10);
    var o := range.SetStep(3);
    var it := range.Iterator();
    assert it.Output() == [0] + Values(3, 10, 3);
    first := it.Next();
    range.SetTo(4);
    assert it.Output() == [3] + Values(6, 4, 3);
    second := it.Next();
    assert it.Output() == [];
    third := it.Next();
  }
}
