/**
 * h12 GuestList: the guests of a party, by name, up to a fixed positive
 * capacity. Names must not be empty; duplicates are allowed.
 */
module GuestLists {
  import opened Wrappers

  class GuestList {
    var guests: seq<string>
    const capacity: int

    /** The representation invariant: positive capacity, not exceeded, no empty name. */
    ghost predicate Valid()
      reads this
    {
      capacity > 0 && |guests| <= capacity && forall i :: 0 <= i < |guests| ==> guests[i] != ""
    }

    /** The shared end of both constructors, once their checks have passed. */
    constructor Init(guests: seq<string>, capacity: int)
      requires capacity > 0 && |guests| <= capacity
      requires forall i :: 0 <= i < |guests| ==> guests[i] != ""
      ensures Valid() && this.guests == guests && this.capacity == capacity
    {
      this.guests := guests;
      this.capacity := capacity;
    }

    /**
     * invite: IllegalStateException on a full list (checked first), then
     * IllegalArgumentException for an empty name; otherwise the guest is
     * appended.
     */
    method Invite(guest: string) returns (o: Outcome)
      requires Valid()
      modifies this
      ensures Valid()
      ensures o == if old(|guests|) >= capacity then Fail(IllegalState)
                   else if guest == "" then Fail(IllegalArgument)
                   else Pass
      ensures o.Fail? ==> guests == old(guests)
      ensures o.Pass? ==> guests == old(guests) + [guest]
    {
      if |guests| >= capacity {
        return Fail(IllegalState);
      }
      if guest == "" {
        return Fail(IllegalArgument);
      }
      guests := guests + [guest];
      return Pass;
    }
  }

  /** GuestList(capacity): IllegalArgumentException unless the capacity is positive. */
  method NewEmpty(capacity: int) returns (r: Result<GuestList>)
    ensures r.Failure? <==> capacity <= 0
    ensures r.Failure? ==> r.error == IllegalArgument
    ensures r.Success? ==> fresh(r.value) && r.value.Valid() && r.value.guests == [] && r.value.capacity == capacity
  {
    if capacity <= 0 {
      return Failure(IllegalArgument);
    }
    var g := new GuestList.Init([], capacity);
    return Success(g);
  }

  /**
   * The checks of GuestList(guests, capacity), in order: a positive
   * capacity, no more guests than the capacity, then no empty name.
   */
  method CheckGuests(guests: seq<string>, capacity: int) returns (o: Outcome)
    ensures o.Pass? <==> capacity > 0 && |guests| <= capacity && forall i :: 0 <= i < |guests| ==> guests[i] != ""
    ensures o.Fail? ==> o.error == IllegalArgument
  {
    if capacity <= 0 {
      return Fail(IllegalArgument);
    }
    if |guests| > capacity {
      return Fail(IllegalArgument);
    }
    for i := 0 to |guests|
      invariant forall k :: 0 <= k < i ==> guests[k] != ""
    {
      if guests[i] == "" {
        return Fail(IllegalArgument);
      }
    }
    return Pass;
  }

  /** GuestList(guests, capacity): the checks, then a copy of the given guests. */
  method NewWithGuests(guests: seq<string>, capacity: int) returns (r: Result<GuestList>)
    ensures r.Failure? <==> !(capacity > 0 && |guests| <= capacity && forall i :: 0 <= i < |guests| ==> guests[i] != "")
    ensures r.Failure? ==> r.error == IllegalArgument
    ensures r.Success? ==> fresh(r.value) && r.value.Valid() && r.value.guests == guests && r.value.capacity == capacity
  {
    var o := CheckGuests(guests, capacity);
    if o.Fail? {
      return Failure(o.error);
    }
    var g := new GuestList.Init(guests, capacity);
    return Success(g);
  }
}
