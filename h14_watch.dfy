/**
 * h14 Watch: a watch model name and a fixed list of gears; each gear counts
 * its rotations. The gear objects are shared, not copied: the list a watch
 * keeps is a copy, but its gears are the caller's.
 */
module Watches {
  import opened Wrappers

  class Gear {
    /** The diameter, a positive double in the source; nothing depends on its value. */
    const diameter: real
    var rotations: int

    constructor (diameter: real)
      requires diameter > 0.0
      ensures this.diameter == diameter && rotations == 0
    {
      this.diameter := diameter;
      rotations := 0;
    }

    /** tick: one more rotation. */
    method Tick()
      modifies this
      ensures rotations == old(rotations) + 1
    {
      rotations := rotations + 1;
    }
  }

  /** Gear(diameter): IllegalArgumentException unless the diameter is positive; a new gear has no rotations. */
  method NewGear(diameter: real) returns (r: Result<Gear>)
    ensures r.Failure? <==> diameter <= 0.0
    ensures r.Failure? ==> r.error == IllegalArgument
    ensures r.Success? ==> fresh(r.value) && r.value.rotations == 0 && r.value.diameter == diameter
  {
    if diameter <= 0.0 {
      return Failure(IllegalArgument);
    }
    var g := new Gear(diameter);
    return Success(g);
  }

  /** How many times g occurs in the list. */
  function Occurrences(gears: seq<Gear>, g: Gear): nat {
    multiset(gears)[g]
  }

  class Watch {
    const model: string
    const gears: seq<Gear>

    constructor (model: string, gears: seq<Gear>)
      requires model != ""
      ensures this.model == model && this.gears == gears
    {
      this.model := model;
      this.gears := gears;
    }

    /**
     * tick: every gear in the list ticks once per place it holds, so a gear
     * listed once turns by one; nothing else changes.
     */
    method Tick()
      modifies set g | g in gears
      ensures forall g :: g in gears ==> g.rotations == old(g.rotations) + Occurrences(gears, g)
    {
      for i := 0 to |gears|
        invariant forall g :: g in gears ==> g.rotations == old(g.rotations) + Occurrences(gears[..i], g)
      {
        assert gears[..i + 1] == gears[..i] + [gears[i]];
        gears[i].Tick();
      }
      assert gears[..|gears|] == gears;
    }

    /** iterator: always UnsupportedOperationException. */
    function Iterator(): (o: Outcome)
      ensures o.Fail? && o.error == UnsupportedOperation
    {
      Fail(UnsupportedOperation)
    }
  }

  /** Watch(model, gears): IllegalArgumentException for an empty model, otherwise a copy of the list. */
  method NewWatch(model: string, gears: seq<Gear>) returns (r: Result<Watch>)
    ensures r.Failure? <==> model == ""
    ensures r.Failure? ==> r.error == IllegalArgument
    ensures r.Success? ==> fresh(r.value) && r.value.model == model && r.value.gears == gears
  {
    if model == "" {
      return Failure(IllegalArgument);
    }
    var w := new Watch(model, gears);
    return Success(w);
  }

  /** A gear that occurs twice in one watch's list turns twice in one tick. */
  method GearListedTwice() returns (rotations: int)
    ensures rotations == 2
  {
    var g := new Gear(1.0);
    var w := new Watch("w", [g, g]);
    w.Tick();
    rotations := g.rotations;
  }

  /** A gear shared by two watches turns once for each watch that ticks. */
  method SharedGear() returns (rotations: int)
    ensures rotations == 2
  {
    var g := new Gear(1.0);
    var first := new Watch("first", [g]);
    var second := new Watch("second", [g]);
    first.Tick();
    second.Tick();
    rotations := g.rotations;
  }
}
