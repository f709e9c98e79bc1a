/**
 * Hand-checkable runs of the e17 simulation: a planet falling towards a star,
 * and two planets whose outcome shows why TimeStep collects every velocity
 * change before it moves any planet.
 */
module AstronomicalScenarios {
  import opened SpacePoints
  import opened CelestialBodies
  import opened AstronomicalSystems

  /** With two bodies, each one is pulled towards the other only. */
  lemma PairPulls(s: seq<BodyState>)
    requires |s| == 2
    ensures Pull(s, 0, 2) == Attraction(s[0].position, s[1].position)
    ensures Pull(s, 1, 2) == Attraction(s[1].position, s[0].position)
  {
    assert Pull(s, 0, 1) == ORIGIN;
    assert Pull(s, 1, 1) == Attraction(s[1].position, s[0].position);
    OriginNeutral(Attraction(s[0].position, s[1].position));
  }

  /** One step of a two-body system, from the new states of both bodies. */
  lemma PairStep(s: seq<BodyState>, r: seq<BodyState>)
    requires |s| == 2 && |r| == 2
    requires r[0] == Moved(Gravitated(s, 0, 2)) && r[1] == Moved(Gravitated(s, 1, 2))
    ensures Step(s) == r
  {
  }

  /** A planet and a star: the planet's velocity moves one unit per axis towards the star. */
  lemma PlanetAndStarStep(n: string, p: SpacePoint, v: SpacePoint, m: string, q: SpacePoint)
    ensures var a := Attraction(p, q);
            Step([PlanetState(n, p, v), StarState(m, q)])
            == [PlanetState(n, p.Add(v.Add(a)), v.Add(a)), StarState(m, q)]
  {
    var s := [PlanetState(n, p, v), StarState(m, q)];
    var a := Attraction(p, q);
    PairPulls(s);
    PairStep(s, [PlanetState(n, p.Add(v.Add(a)), v.Add(a)), StarState(m, q)]);
  }

  /** Two planets: each one's velocity moves one unit per axis towards the other's old position. */
  lemma PlanetPairStep(n: string, p: SpacePoint, v: SpacePoint, m: string, q: SpacePoint, w: SpacePoint)
    ensures var a, b := Attraction(p, q), Attraction(q, p);
            Step([PlanetState(n, p, v), PlanetState(m, q, w)])
            == [PlanetState(n, p.Add(v.Add(a)), v.Add(a)), PlanetState(m, q.Add(w.Add(b)), w.Add(b))]
  {
    var s := [PlanetState(n, p, v), PlanetState(m, q, w)];
    var a, b := Attraction(p, q), Attraction(q, p);
    PairPulls(s);
    PairStep(s, [PlanetState(n, p.Add(v.Add(a)), v.Add(a)), PlanetState(m, q.Add(w.Add(b)), w.Add(b))]);
  }

  /** The pull on a planet two or three units along the x axis from a star at `c`. */
  lemma FallingPulls(c: SpacePoint)
    ensures Attraction(c.Add(SpacePoint(3, 0, 0)), c) == SpacePoint(-1, 0, 0)
    ensures Attraction(c.Add(SpacePoint(2, 0, 0)), c) == SpacePoint(-1, 0, 0)
  {
  }

  /** First step: the planet, at rest three units away, moves one unit towards the star. */
  lemma FallingFirstStep(n: string, m: string, c: SpacePoint)
    ensures Step([PlanetState(n, c.Add(SpacePoint(3, 0, 0)), ORIGIN), StarState(m, c)])
         == [PlanetState(n, c.Add(SpacePoint(2, 0, 0)), SpacePoint(-1, 0, 0)), StarState(m, c)]
  {
    FallingPulls(c);
    assert ORIGIN.Add(SpacePoint(-1, 0, 0)) == SpacePoint(-1, 0, 0);
    assert c.Add(SpacePoint(3, 0, 0)).Add(SpacePoint(-1, 0, 0)) == c.Add(SpacePoint(2, 0, 0));
    PlanetAndStarStep(n, c.Add(SpacePoint(3, 0, 0)), ORIGIN, m, c);
  }

  /** Second step: the planet, two units away at speed one, reaches the star's position. */
  lemma FallingSecondStep(n: string, m: string, c: SpacePoint)
    ensures Step([PlanetState(n, c.Add(SpacePoint(2, 0, 0)), SpacePoint(-1, 0, 0)), StarState(m, c)])
         == [PlanetState(n, c, SpacePoint(-2, 0, 0)), StarState(m, c)]
  {
    FallingPulls(c);
    assert SpacePoint(-1, 0, 0).Add(SpacePoint(-1, 0, 0)) == SpacePoint(-2, 0, 0);
    assert c.Add(SpacePoint(2, 0, 0)).Add(SpacePoint(-2, 0, 0)) == c;
    PlanetAndStarStep(n, c.Add(SpacePoint(2, 0, 0)), SpacePoint(-1, 0, 0), m, c);
  }

  /** The energy of two bodies is the sum of theirs. */
  lemma EnergySumPair(a: BodyState, b: BodyState)
    ensures EnergySum([a, b]) == a.Energy() + b.Energy()
  {
    EnergySumAppend([a], [b]);
    EnergySumSingleton(a);
    EnergySumSingleton(b);
    assert [a] + [b] == [a, b];
  }

  /** A planet at `c` with speed two along one axis has twice the norm of `c` as energy. */
  lemma FallenEnergy(n: string, c: SpacePoint)
    ensures PlanetState(n, c, SpacePoint(-2, 0, 0)).Energy() == c.Norm() * 2
  {
  }

  /**
   * A planet at rest three units along the x axis from a star at `c` falls
   * towards it: after one step v = (-1, 0, 0) and the planet is two units
   * away; after two v = (-2, 0, 0) and the planet is at the star's position,
   * where its energy is twice the norm of that position (0 when the star
   * sits at the origin).
   */
  lemma SunAndPlanetScenario(n: string, m: string, c: SpacePoint)
    ensures var s := [PlanetState(n, c.Add(SpacePoint(3, 0, 0)), ORIGIN), StarState(m, c)];
            && Steps(s, 1) == [PlanetState(n, c.Add(SpacePoint(2, 0, 0)), SpacePoint(-1, 0, 0)), StarState(m, c)]
            && Steps(s, 2) == [PlanetState(n, c, SpacePoint(-2, 0, 0)), StarState(m, c)]
            && EnergySum(Steps(s, 2)) == c.Norm() * 2
  {
    FallingFirstStep(n, m, c);
    FallingSecondStep(n, m, c);
    EnergySumPair(PlanetState(n, c, SpacePoint(-2, 0, 0)), StarState(m, c));
    FallenEnergy(n, c);
  }

  /**
   * The alternative TimeStep does not take: each body gravitates and moves at
   * once, so later bodies see earlier ones at their new positions.
   */
  function InterleavedFrom(s: seq<BodyState>, i: nat): (r: seq<BodyState>)
    requires i <= |s|
    ensures |r| == |s|
    decreases |s| - i
  {
    if i == |s| then s else InterleavedFrom(s[i := Moved(Gravitated(s, i, |s|))], i + 1)
  }

  /** Two planets, interleaved: the second one is pulled towards the first one's new position. */
  lemma InterleavedPlanetPair(n: string, p: SpacePoint, v: SpacePoint, m: string, q: SpacePoint, w: SpacePoint)
    ensures var a := Attraction(p, q);
            var p' := p.Add(v.Add(a));
            var b := Attraction(q, p');
            InterleavedFrom([PlanetState(n, p, v), PlanetState(m, q, w)], 0)
            == [PlanetState(n, p', v.Add(a)), PlanetState(m, q.Add(w.Add(b)), w.Add(b))]
  {
    var s := [PlanetState(n, p, v), PlanetState(m, q, w)];
    var a := Attraction(p, q);
    var p' := p.Add(v.Add(a));
    var b := Attraction(q, p');
    PairPulls(s);
    var s1 := s[0 := PlanetState(n, p', v.Add(a))];
    assert InterleavedFrom(s, 0) == InterleavedFrom(s1, 1);
    PairPulls(s1);
    var s2 := s1[1 := PlanetState(m, q.Add(w.Add(b)), w.Add(b))];
    assert InterleavedFrom(s1, 1) == InterleavedFrom(s2, 2) == s2;
  }

  /** Two points one unit apart along the x axis attract each other along that axis. */
  lemma UnitApartPulls(p: SpacePoint, q: SpacePoint)
    requires q == p.Add(SpacePoint(1, 0, 0))
    ensures Attraction(p, q) == SpacePoint(1, 0, 0)
    ensures Attraction(q, p) == SpacePoint(-1, 0, 0)
    ensures Attraction(q, q) == ORIGIN
  {
  }

  /** The sums of points one step of UnitApartPulls needs. */
  lemma UnitApartSums(p: SpacePoint, q: SpacePoint)
    requires q == p.Add(SpacePoint(1, 0, 0))
    ensures ORIGIN.Add(SpacePoint(1, 0, 0)) == SpacePoint(1, 0, 0)
    ensures ORIGIN.Add(SpacePoint(-1, 0, 0)) == SpacePoint(-1, 0, 0)
    ensures ORIGIN.Add(ORIGIN) == ORIGIN
    ensures q.Add(SpacePoint(-1, 0, 0)) == p
    ensures q.Add(ORIGIN) == q
  {
  }

  /** Collect-then-commit: two planets at rest one unit apart swap places. */
  lemma UnitApartSwap(n: string, m: string, p: SpacePoint, q: SpacePoint)
    requires q == p.Add(SpacePoint(1, 0, 0))
    ensures var r := Step([PlanetState(n, p, ORIGIN), PlanetState(m, q, ORIGIN)]);
            r[0].position == q && r[1].position == p
  {
    UnitApartPulls(p, q);
    UnitApartSums(p, q);
    PlanetPairStep(n, p, ORIGIN, m, q, ORIGIN);
  }

  /** Interleaved: the second planet sees the first at its own position and stays. */
  lemma UnitApartInterleaved(n: string, m: string, p: SpacePoint, q: SpacePoint)
    requires q == p.Add(SpacePoint(1, 0, 0))
    ensures InterleavedFrom([PlanetState(n, p, ORIGIN), PlanetState(m, q, ORIGIN)], 0)[1].position == q
  {
    UnitApartPulls(p, q);
    UnitApartSums(p, q);
    InterleavedPlanetPair(n, p, ORIGIN, m, q, ORIGIN);
  }

  /**
   * The two phases matter. Two planets at rest one unit apart swap places
   * under collect-then-commit, whereas moving each planet at once would leave
   * the second one, which then sees the first at its own position, where it
   * was.
   */
  lemma PhaseOrderMatters(n: string, m: string, p: SpacePoint)
    ensures var q := p.Add(SpacePoint(1, 0, 0));
            var s := [PlanetState(n, p, ORIGIN), PlanetState(m, q, ORIGIN)];
            && Step(s)[0].position == q
            && Step(s)[1].position == p
            && InterleavedFrom(s, 0)[1].position == q
            && Step(s) != InterleavedFrom(s, 0)
  {
    var q := p.Add(SpacePoint(1, 0, 0));
    UnitApartSwap(n, m, p, q);
    UnitApartInterleaved(n, m, p, q);
  }

  /**
   * The two orders agree on the first body: it gravitates before anything
   * has moved, and nothing later in the interleaved pass touches it again.
   */
  lemma InterleavedFirstAgrees(s: seq<BodyState>)
    requires |s| > 0
    ensures InterleavedFrom(s, 0)[0] == Step(s)[0]
  {
    var s1 := s[0 := Moved(Gravitated(s, 0, |s|))];
    assert InterleavedFrom(s, 0) == InterleavedFrom(s1, 1);
    InterleavedKeepsDone(s1, 1, 0);
  }

  /** Bodies before index `i` are not touched by the rest of the interleaved pass. */
  lemma {:induction false} InterleavedKeepsDone(s: seq<BodyState>, i: nat, k: nat)
    requires k < i <= |s|
    ensures InterleavedFrom(s, i)[k] == s[k]
    decreases |s| - i
  {
    if i < |s| {
      InterleavedKeepsDone(s[i := Moved(Gravitated(s, i, |s|))], i + 1, k);
    }
  }
}
