/**
 * The Iterator<String> that the string iterators of e14 and h13 wrap: a
 * cursor over a fixed sequence of strings. It stands for any source; the
 * wrappers only call hasNext and next on it.
 */
module StringSources {

  class StringSource {
    const items: seq<string>
    var pos: int

    ghost predicate Valid()
      reads this
    {
      0 <= pos <= |items|
    }

    /** The strings still to be returned. */
    function Rest(): seq<string>
      reads this
      requires Valid()
    {
      items[pos..]
    }

    constructor (items: seq<string>)
      ensures Valid() && this.items == items && Rest() == items
    {
      this.items := items;
      pos := 0;
    }

    predicate HasNext()
      reads this
      requires Valid()
    {
      pos < |items|
    }

    /** next: the first remaining string, which is then consumed. */
    method Next() returns (s: string)
      requires Valid() && HasNext()
      modifies this
      ensures Valid()
      ensures s == old(Rest())[0] && Rest() == old(Rest())[1..]
    {
      s := items[pos];
      pos := pos + 1;
    }
  }

  /** The strings of s that satisfy p, in order. */
  function Filter(p: string -> bool, s: seq<string>): (r: seq<string>)
    ensures |r| <= |s|
    ensures forall x :: x in r ==> x in s && p(x)
  {
    if s == [] then []
    else (if p(s[0]) then [s[0]] else []) + Filter(p, s[1..])
  }

  /** Every string of s that satisfies p is kept. */
  lemma {:induction false} FilterKeeps(p: string -> bool, s: seq<string>, x: string)
    requires x in s && p(x)
    ensures x in Filter(p, s)
  {
    if s[0] != x {
      FilterKeeps(p, s[1..], x);
    }
  }

  /** f applied to every string of s, in order. */
  function Map(f: string -> string, s: seq<string>): (r: seq<string>)
    ensures |r| == |s| && forall i :: 0 <= i < |s| ==> r[i] == f(s[i])
  {
    if s == [] then [] else [f(s[0])] + Map(f, s[1..])
  }
}
