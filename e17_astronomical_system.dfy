/**
 * e17 AstronomicalSystem: celestial bodies kept in a list sorted strictly by
 * name, and a discrete simulation step. The step is specified by the pure
 * function `Step` on snapshots of the bodies (`BodyState`s), which first works
 * out every planet's new velocity from the positions before the step and only
 * then moves the planets.
 */
module AstronomicalSystems {
  import opened Wrappers
  import opened JavaInt
  import opened JavaString
  import opened SpacePoints
  import opened CelestialBodies

  // ---------------------------------------------------------------------------
  // The simulation on snapshots

  /**
   * The total attraction on body `i` from the bodies before index `upto`,
   * other than `i` itself, all at their positions in `s`.
   */
  function Pull(s: seq<BodyState>, i: nat, upto: nat): SpacePoint
    requires i < |s| && upto <= |s|
  {
    if upto == 0 then ORIGIN
    else if upto - 1 == i then Pull(s, i, upto - 1)
    else Pull(s, i, upto - 1).Add(Attraction(s[i].position, s[upto - 1].position))
  }

  /** Body `i` after gravitating towards the bodies before index `upto` (phase 1). */
  function Gravitated(s: seq<BodyState>, i: nat, upto: nat): BodyState
    requires i < |s| && upto <= |s|
  {
    match s[i]
    case StarState(_, _) => s[i]
    case PlanetState(n, p, v) => PlanetState(n, p, v.Add(Pull(s, i, upto)))
  }

  /** A body after applying its velocity (phase 2). */
  function Moved(b: BodyState): BodyState {
    match b
    case StarState(_, _) => b
    case PlanetState(n, p, v) => PlanetState(n, p.Add(v), v)
  }

  /** One time step: every planet gravitates towards all other bodies, then moves. */
  function Step(s: seq<BodyState>): (r: seq<BodyState>)
    ensures |r| == |s|
  {
    seq(|s|, i requires 0 <= i < |s| => Moved(Gravitated(s, i, |s|)))
  }

  /** `k` time steps. */
  function Steps(s: seq<BodyState>, k: nat): (r: seq<BodyState>)
    ensures |r| == |s|
  {
    if k == 0 then s else Step(Steps(s, k - 1))
  }

  /** The sum of the energies of the bodies. */
  function EnergySum(s: seq<BodyState>): nat {
    if s == [] then 0 else EnergySum(s[..|s| - 1]) + s[|s| - 1].Energy()
  }

  /** One line per body, then the total energy. */
  function Lines(s: seq<BodyState>): string {
    if s == [] then [] else Lines(s[..|s| - 1]) + s[|s| - 1].ToString() + "\n"
  }

  /** One more body adds its line. */
  lemma LinesSnoc(s: seq<BodyState>, i: nat, line: string)
    requires i < |s| && line == s[i].ToString()
    ensures Lines(s[..i + 1]) == Lines(s[..i]) + line + "\n"
  {
    assert s[..i + 1][..i] == s[..i];
  }

  /** One more body adds its energy. */
  lemma EnergySumSnoc(s: seq<BodyState>, i: nat)
    requires i < |s|
    ensures EnergySum(s[..i + 1]) == EnergySum(s[..i]) + s[i].Energy()
  {
    assert s[..i + 1][..i] == s[..i];
  }

  const TOTAL_LABEL := "Total Energy: "

  function Render(s: seq<BodyState>): string {
    Lines(s) + TOTAL_LABEL + ValueOf(EnergySum(s)) + "\n"
  }

  // ---------------------------------------------------------------------------
  // Views of a list of bodies

  function NamesOf(bs: seq<Body>): (r: seq<string>)
    ensures |r| == |bs| && forall k :: 0 <= k < |bs| ==> r[k] == bs[k].Name()
  {
    seq(|bs|, i requires 0 <= i < |bs| => bs[i].Name())
  }

  function StatesOf(bs: seq<Body>): (r: seq<BodyState>)
    reads set i | 0 <= i < |bs| :: bs[i].Ref()
    ensures |r| == |bs| && forall k :: 0 <= k < |bs| ==> r[k] == bs[k].State()
  {
    if bs == [] then []
    else StatesOf(bs[..|bs| - 1]) + [bs[|bs| - 1].State()]
  }

  // ---------------------------------------------------------------------------

  class AstronomicalSystem {
    var bodies: seq<Body>

    /** Strictly sorted by name, so names are unique. */
    ghost predicate Valid()
      reads this
    {
      StrictlySorted(NamesOf(bodies))
    }

    ghost function Objects(): set<object>
      reads this
    {
      set i | 0 <= i < |bodies| :: bodies[i].Ref()
    }

    ghost function Planets(): set<Planet>
      reads this
    {
      set i | 0 <= i < |bodies| && bodies[i].PlanetBody? :: bodies[i].planet
    }

    /** The snapshot of every body, in list order. */
    function State(): seq<BodyState>
      reads this, Objects()
    {
      StatesOf(bodies)
    }

    constructor ()
      ensures Valid() && bodies == []
    {
      bodies := [];
    }

    /** No object occurs twice in the list. */
    ghost predicate Distinct()
      reads this
    {
      forall a, b :: 0 <= a < |bodies| && 0 <= b < |bodies| && a != b ==>
        bodies[a].Ref() != bodies[b].Ref()
    }

    /** Distinct names mean distinct objects. */
    lemma DistinctObjects()
      requires Valid()
      ensures Distinct()
    {
      forall a, b | 0 <= a < |bodies| && 0 <= b < |bodies| && a != b
        ensures bodies[a].Ref() != bodies[b].Ref()
      {
        var lo, hi := if a < b then a else b, if a < b then b else a;
        assert Less(NamesOf(bodies)[lo], NamesOf(bodies)[hi]);
        LessTrichotomy(bodies[lo].Name(), bodies[hi].Name());
      }
    }

    /**
     * The index of the body named like `b`, or -ip-1 where ip is the position
     * at which `b` belongs.
     */
    method BinarySearch(b: Body) returns (r: int)
      requires Valid()
      ensures 0 <= r ==> r < |bodies| && bodies[r].Name() == b.Name()
      ensures r < 0 ==> InsertionPoint(NamesOf(bodies), -r - 1, b.Name())
    {
      ghost var names := NamesOf(bodies);
      var lo, hi := 0, |bodies| - 1;
      while lo <= hi
        invariant 0 <= lo <= hi + 1 <= |bodies|
        invariant forall k :: 0 <= k < lo ==> Less(names[k], b.Name())
        invariant forall k :: hi < k < |bodies| ==> Less(b.Name(), names[k])
      {
        var mid := lo + (hi - lo) / 2;
        if bodies[mid].CompareTo(b) > 0 {
          forall k | mid < k < |bodies| ensures Less(b.Name(), names[k]) {
            LessTransitive(b.Name(), names[mid], names[k]);
          }
          hi := mid - 1;
        } else if bodies[mid].CompareTo(b) < 0 {
          forall k | 0 <= k < mid ensures Less(names[k], b.Name()) {
            LessTransitive(names[k], names[mid], b.Name());
          }
          lo := mid + 1;
        } else {
          return mid;
        }
      }
      return -lo - 1;
    }

    /**
     * Inserts `body` at its place in name order; a body with the same name
     * already present makes it throw IllegalArgumentException instead.
     */
    method AddBody(body: Body) returns (o: Outcome)
      requires Valid()
      modifies this
      ensures Valid()
      ensures body.Name() in old(NamesOf(bodies)) <==> o == Fail(IllegalArgument)
      ensures o.Fail? ==> bodies == old(bodies)
      ensures o.Pass? ==> |bodies| == |old(bodies)| + 1
                          && exists ip :: 0 <= ip < |bodies| && bodies[ip] == body
                                          && bodies[..ip] + bodies[ip + 1..] == old(bodies)
    {
      var index := BinarySearch(body);
      if index >= 0 {
        assert NamesOf(bodies)[index] == body.Name();
        return Fail(IllegalArgument);
      }
      InsertionPointAbsent(NamesOf(bodies), -index - 1, body.Name());
      index := -index - 1;
      InsertStrictlySorted(NamesOf(bodies), index, body.Name());
      ghost var before := bodies;
      bodies := bodies[..index] + [body] + bodies[index..];
      assert NamesOf(bodies) == NamesOf(before)[..index] + [body.Name()] + NamesOf(before)[index..];
      assert bodies[..index] + bodies[index + 1..] == before;
      return Pass;
    }

    /**
     * Phase 1 then phase 2: every planet gravitates towards every other body,
     * and only afterwards does every planet apply its velocity. Stars are not
     * modified.
     */
    method TimeStep()
      requires Valid()
      modifies Planets()
      ensures bodies == old(bodies)
      ensures State() == Step(old(State()))
    {
      DistinctObjects();
      ghost var s0 := State();
      UpdateVelocities(s0);
      ApplyVelocities();
      assert forall k :: 0 <= k < |bodies| ==> State()[k] == Step(s0)[k];
    }

    /** Phase 1 of TimeStep, from the snapshot `s0` taken before it. */
    method UpdateVelocities(ghost s0: seq<BodyState>)
      requires Distinct() && s0 == State()
      modifies Planets()
      ensures forall k :: 0 <= k < |bodies| ==> bodies[k].State() == Gravitated(s0, k, |bodies|)
    {
      var i := 0;
      while i < |bodies|
        invariant 0 <= i <= |bodies|
        invariant forall k :: 0 <= k < |bodies| ==>
                    bodies[k].State() == (if k < i then Gravitated(s0, k, |bodies|) else s0[k])
      {
        if bodies[i].PlanetBody? {
          assert bodies[i].planet in Planets();
          GravitateTowardsOthers(i, s0);
        }
        i := i + 1;
      }
    }

    /** The inner loop of phase 1, for the planet at index `i`. */
    method GravitateTowardsOthers(i: nat, ghost s0: seq<BodyState>)
      requires Distinct() && i < |bodies| && bodies[i].PlanetBody? && |s0| == |bodies|
      requires forall k :: 0 <= k < |bodies| ==> bodies[k].Position() == s0[k].position
      requires bodies[i].State() == s0[i]
      modifies bodies[i].planet`velocity
      ensures bodies[i].State() == Gravitated(s0, i, |bodies|)
    {
      var planet := bodies[i].planet;
      var j := 0;
      while j < |bodies|
        invariant 0 <= j <= |bodies|
        invariant bodies[i].State() == Gravitated(s0, i, j)
      {
        if bodies[j] != bodies[i] {
          planet.GravitateTowards(bodies[j]);
        }
        j := j + 1;
      }
    }

    /** Phase 2 of TimeStep. */
    method ApplyVelocities()
      requires Distinct()
      modifies Planets()
      ensures forall k :: 0 <= k < |bodies| ==> bodies[k].State() == Moved(old(bodies[k].State()))
    {
      ghost var s1 := State();
      var i := 0;
      while i < |bodies|
        invariant 0 <= i <= |bodies|
        invariant forall k :: 0 <= k < |bodies| ==>
                    bodies[k].State() == (if k < i then Moved(s1[k]) else s1[k])
      {
        if bodies[i].PlanetBody? {
          assert bodies[i].planet in Planets();
          bodies[i].planet.ApplyVelocity();
        }
        i := i + 1;
      }
    }

    /** The sum of the bodies' energies. */
    method TotalEnergy() returns (e: int)
      ensures e == EnergySum(State())
    {
      e := 0;
      var i := 0;
      while i < |bodies|
        invariant 0 <= i <= |bodies|
        invariant e == EnergySum(State()[..i])
      {
        EnergyStep(i);
        e := e + bodies[i].Energy();
        i := i + 1;
      }
      assert State()[..i] == State();
    }

    /** The energy of the first i + 1 bodies adds body i's energy to that of the first i. */
    lemma EnergyStep(i: nat)
      requires i < |bodies|
      ensures EnergySum(State()[..i + 1]) == EnergySum(State()[..i]) + bodies[i].Energy()
    {
      EnergySumSnoc(State(), i);
    }

    /** One line per body, then "Total Energy: " and the total. */
    method ToString() returns (r: string)
      ensures r == Render(State())
    {
      ghost var s := State();
      r := BodyLines();
      assert State() == s;
      var total := TotalEnergy();
      assert State() == s;
      r := r + TOTAL_LABEL + ValueOf(total) + "\n";
    }

    /** The loop of ToString: each body's description on a line of its own. */
    method BodyLines() returns (r: string)
      ensures r == Lines(State())
    {
      r := [];
      var i := 0;
      while i < |bodies|
        invariant 0 <= i <= |bodies|
        invariant r == Lines(State()[..i])
      {
        LinesStep(i);
        r := r + bodies[i].ToString() + "\n";
        i := i + 1;
      }
      assert State()[..i] == State();
    }

    /** The lines of the first i + 1 bodies add body i's line to those of the first i. */
    lemma LinesStep(i: nat)
      requires i < |bodies|
      ensures Lines(State()[..i + 1]) == Lines(State()[..i]) + bodies[i].ToString() + "\n"
    {
      LinesSnoc(State(), i, bodies[i].ToString());
    }
  }

  // ---------------------------------------------------------------------------
  // Properties of the step and of the energy

  /** A step keeps the count, the order, the names and the kinds of the bodies, and moves no star. */
  lemma StepKeepsBodies(s: seq<BodyState>)
    ensures |Step(s)| == |s|
    ensures forall i :: 0 <= i < |s| ==>
              Step(s)[i].name == s[i].name && (Step(s)[i].StarState? <==> s[i].StarState?)
    ensures forall i :: 0 <= i < |s| && s[i].StarState? ==> Step(s)[i] == s[i]
  {
  }

  /** However many steps run, a star stays where it was. */
  lemma {:induction false} StarsNeverMove(s: seq<BodyState>, k: nat, i: nat)
    requires i < |s| && s[i].StarState?
    ensures Steps(s, k)[i] == s[i]
  {
    if k > 0 {
      StarsNeverMove(s, k - 1, i);
      StepKeepsBodies(Steps(s, k - 1));
    }
  }

  /** Each axis of the pull on a body changes by at most one per other body. */
  lemma {:induction false} PullBounded(s: seq<BodyState>, i: nat, upto: nat)
    requires i < |s| && upto <= |s|
    ensures Abs(Pull(s, i, upto).x) <= upto
    ensures Abs(Pull(s, i, upto).y) <= upto
    ensures Abs(Pull(s, i, upto).z) <= upto
  {
    if upto > 0 {
      PullBounded(s, i, upto - 1);
      AttractionIsUnit(s[i].position, s[upto - 1].position);
    }
  }

  /** A planet whose position coincides with every other body's feels no pull. */
  lemma {:induction false} PullAtSamePosition(s: seq<BodyState>, i: nat, upto: nat)
    requires i < |s| && upto <= |s|
    requires forall k :: 0 <= k < upto ==> s[k].position == s[i].position
    ensures Pull(s, i, upto) == ORIGIN
  {
    if upto > 0 {
      PullAtSamePosition(s, i, upto - 1);
      AttractionIsUnit(s[i].position, s[upto - 1].position);
    }
  }

  lemma {:induction false} EnergySumAppend(a: seq<BodyState>, b: seq<BodyState>)
    ensures EnergySum(a + b) == EnergySum(a) + EnergySum(b)
  {
    if b != [] {
      assert (a + b)[..|a + b| - 1] == a + b[..|b| - 1];
      EnergySumAppend(a, b[..|b| - 1]);
    } else {
      assert a + b == a;
    }
  }

  /** The total energy is zero exactly when every body has zero energy. */
  lemma {:induction false} EnergySumZero(s: seq<BodyState>)
    ensures EnergySum(s) == 0 <==> forall i :: 0 <= i < |s| ==> s[i].Energy() == 0
  {
    if s != [] {
      EnergySumZero(s[..|s| - 1]);
      assert forall i :: 0 <= i < |s| - 1 ==> s[..|s| - 1][i] == s[i];
    }
  }

  /** A system of stars alone has no energy. */
  lemma OnlyStarsNoEnergy(s: seq<BodyState>)
    requires forall i :: 0 <= i < |s| ==> s[i].StarState?
    ensures EnergySum(s) == 0
  {
    EnergySumZero(s);
  }

  lemma EnergySumSingleton(b: BodyState)
    ensures EnergySum([b]) == b.Energy()
  {
    assert [b][..0] == [];
  }

  /** Taking one body out of the system takes its energy out of the total. */
  lemma EnergySumRemove(t: seq<BodyState>, j: nat)
    requires j < |t|
    ensures EnergySum(t) == EnergySum(t[..j] + t[j + 1..]) + t[j].Energy()
  {
    var x, before, after := t[j], t[..j], t[j + 1..];
    assert t[j..] == [x] + after;
    assert t == before + t[j..];
    EnergySumAppend(before, [x] + after);
    EnergySumAppend([x], after);
    EnergySumAppend(before, after);
    EnergySumSingleton(x);
  }

  lemma MultisetRemove(t: seq<BodyState>, j: nat)
    requires j < |t|
    ensures multiset(t[..j] + t[j + 1..]) == multiset(t) - multiset{t[j]}
  {
    assert t == t[..j] + [t[j]] + t[j + 1..];
  }

  /** The total energy does not depend on the order of the bodies. */
  lemma {:induction false} EnergySumPermutation(s: seq<BodyState>, t: seq<BodyState>)
    requires multiset(s) == multiset(t)
    ensures EnergySum(s) == EnergySum(t)
  {
    if s == [] {
      assert |t| == |multiset(t)| == 0;
    } else {
      var x := s[|s| - 1];
      var init := s[..|s| - 1];
      assert s == init + [x];
      assert multiset(init) == multiset(s) - multiset{x};
      assert x in multiset(t);
      var j :| 0 <= j < |t| && t[j] == x;
      MultisetRemove(t, j);
      EnergySumPermutation(init, t[..j] + t[j + 1..]);
      EnergySumRemove(t, j);
    }
  }
}
