/**
 * e12 BoundedIntQueue: a first-in/first-out queue of ints whose capacity is
 * fixed at creation, kept in a circular buffer. The queue holds the `size`
 * slots that start at `head` and wrap around the end of `elements`.
 */
module BoundedIntQueues {
  import opened Wrappers

  /** x % n for 0 <= x < 2n: x itself, or x - n once past the end. */
  lemma ModOnce(x: int, n: int)
    requires 0 < n && 0 <= x < 2 * n
    ensures x % n == if x < n then x else x - n
  {
    if x >= n {
      assert x == 1 * n + (x - n);
    }
  }

  /** The buffer slot of the element `i` places after `head`, wrapping around at `n`. */
  function Slot(head: nat, i: nat, n: nat): (k: nat)
    requires head < n && i < n
    ensures k < n
    ensures k == if head + i < n then head + i else head + i - n
  {
    ModOnce(head + i, n);
    (head + i) % n
  }

  /** The `size` elements of the circular buffer `buf` that start at `head`. */
  function ContentsOf(buf: seq<int>, head: nat, size: nat): (c: seq<int>)
    requires size <= |buf| && (size > 0 ==> head < |buf|)
    ensures |c| == size
  {
    seq(size, i requires 0 <= i < size && size <= |buf| && head < |buf| => buf[Slot(head, i, |buf|)])
  }

  /** Writing x into the slot just past the last element appends it. */
  lemma ContentsAppend(buf: seq<int>, head: nat, size: nat, x: int)
    requires head < |buf| && size < |buf|
    ensures ContentsOf(buf[(head + size) % |buf| := x], head, size + 1) == ContentsOf(buf, head, size) + [x]
  {
    var n := |buf|;
    ModOnce(head + size, n);
    var t := (head + size) % n;
    assert t == Slot(head, size, n);
    var after := ContentsOf(buf[t := x], head, size + 1);
    var before := ContentsOf(buf, head, size);
    forall i | 0 <= i < size + 1 ensures after[i] == (before + [x])[i] {
      if i < size {
        assert Slot(head, i, n) != t;
      }
    }
  }

  /** Moving head one slot on drops the first element. */
  lemma ContentsDropFirst(buf: seq<int>, head: nat, size: nat)
    requires head < |buf| && 0 < size <= |buf|
    ensures ContentsOf(buf, head, size)[0] == buf[head]
    ensures ContentsOf(buf, (head + 1) % |buf|, size - 1) == ContentsOf(buf, head, size)[1..]
  {
    var n := |buf|;
    ModOnce(head + 1, n);
    var h := (head + 1) % n;
    var after := ContentsOf(buf, h, size - 1);
    var before := ContentsOf(buf, head, size);
    forall i | 0 <= i < size - 1 ensures after[i] == before[i + 1] {
      assert Slot(h, i, n) == Slot(head, i + 1, n);
    }
  }

  /** The sum of the elements (Integer.hashCode is the identity). */
  function Sum(s: seq<int>): int {
    if s == [] then 0 else Sum(s[..|s| - 1]) + s[|s| - 1]
  }

  /**
   * The hash of a queue with contents `c`: Objects.hash(size), which is
   * 31 + size, plus the hash of every element.
   */
  function HashOf(c: seq<int>): int {
    31 + |c| + Sum(c)
  }

  class BoundedIntQueue {
    const elements: array<int>
    var head: nat
    var tail: nat
    var size: nat

    /**
     * The representation invariant: at most `elements.Length` elements, head
     * and tail inside the buffer, and tail just past the last element.
     */
    ghost predicate Valid()
      reads this
    {
      size <= elements.Length
      && (elements.Length == 0 ==> head == 0 && tail == 0)
      && (elements.Length > 0 ==> head < elements.Length && size <= elements.Length
                                  && tail == (head + size) % elements.Length)
    }

    /** The abstraction function: the queued elements, oldest first. */
    function Contents(): (c: seq<int>)
      reads this, elements
      requires Valid()
      ensures |c| == size
    {
      ContentsOf(elements[..], head, size)
    }

    /** Only called with a non-negative capacity; see `Create`. */
    constructor (capacity: nat)
      ensures Valid() && elements.Length == capacity && Contents() == []
      ensures fresh(elements)
    {
      elements := new int[capacity];
      head, tail, size := 0, 0, 0;
    }

    /** Appends `x`; IllegalStateException, and no change, when the queue is full. */
    method Enqueue(x: int) returns (o: Outcome)
      requires Valid()
      modifies this, elements
      ensures Valid()
      ensures o.Fail? <==> old(size) == elements.Length
      ensures o.Fail? ==> o.error == IllegalState && Contents() == old(Contents())
      ensures o.Pass? ==> Contents() == old(Contents()) + [x]
    {
      if size == elements.Length {
        return Fail(IllegalState);
      }
      var n := elements.Length;
      ContentsAppend(elements[..], head, size, x);
      ModOnce(head + size, n);
      ModOnce(tail + 1, n);
      ModOnce(head + size + 1, n);
      elements[tail] := x;
      tail := (tail + 1) % n;
      size := size + 1;
      return Pass;
    }

    /** Removes and returns the oldest element; IllegalStateException when the queue is empty. */
    method Dequeue() returns (r: Result<int>)
      requires Valid()
      modifies this
      ensures Valid()
      ensures r.Failure? <==> old(size) == 0
      ensures r.Failure? ==> r.error == IllegalState && Contents() == old(Contents())
      ensures r.Success? ==> r.value == old(Contents())[0] && Contents() == old(Contents())[1..]
    {
      if size == 0 {
        return Failure(IllegalState);
      }
      var n := elements.Length;
      ContentsDropFirst(elements[..], head, size);
      var x := elements[head];
      ModOnce(head + 1, n);
      ModOnce(head + size, n);
      head := (head + 1) % n;
      size := size - 1;
      ModOnce(head + size, n);
      return Success(x);
    }

    /** Equal when the queued elements are, whatever the capacities and head offsets. */
    method Equals(other: BoundedIntQueue) returns (b: bool)
      requires Valid() && other.Valid()
      ensures b <==> Contents() == other.Contents()
    {
      if size != other.size {
        return false;
      }
      for i := 0 to size
        invariant Contents()[..i] == other.Contents()[..i]
      {
        if elements[(head + i) % elements.Length]
           != other.elements[(other.head + i) % other.elements.Length] {
          assert Contents()[i] != other.Contents()[i];
          return false;
        }
        assert Contents()[..i + 1] == Contents()[..i] + [Contents()[i]];
        assert other.Contents()[..i + 1] == other.Contents()[..i] + [other.Contents()[i]];
      }
      assert Contents() == Contents()[..size];
      assert other.Contents() == other.Contents()[..size];
      return true;
    }

    /** Objects.hash(size) plus the hash of every queued element. */
    method HashCode() returns (h: int)
      requires Valid()
      ensures h == HashOf(Contents())
    {
      h := 31 + size;
      for i := 0 to size
        invariant h == 31 + size + Sum(Contents()[..i])
      {
        assert Contents()[..i + 1][..i] == Contents()[..i];
        h := h + elements[(head + i) % elements.Length];
      }
      assert Contents()[..size] == Contents();
    }
  }

  /**
   * The constructor: IllegalArgumentException for a negative capacity,
   * otherwise an empty queue of that capacity.
   */
  method Create(capacity: int) returns (r: Result<BoundedIntQueue>)
    ensures r.Failure? <==> capacity < 0
    ensures r.Failure? ==> r.error == IllegalArgument
    ensures r.Success? ==> fresh(r.value) && fresh(r.value.elements) && r.value.Valid()
                           && r.value.elements.Length == capacity && r.value.Contents() == []
  {
    if capacity < 0 {
      return Failure(IllegalArgument);
    }
    var q := new BoundedIntQueue(capacity);
    return Success(q);
  }

  /** Enqueueing `x` adds 1 + x to the hash code. */
  lemma HashOfEnqueue(c: seq<int>, x: int)
    ensures HashOf(c + [x]) == HashOf(c) + 1 + x
  {
    assert (c + [x])[..|c|] == c;
  }
}
