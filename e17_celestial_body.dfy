/**
 * e17 CelestialBody, Star and Planet. A body has a fixed name and a position;
 * a planet also has a velocity and is the only kind of body that moves. The
 * abstract class CelestialBody and its dynamic dispatch are the datatype `Body`,
 * whose two variants hold a `Star` or a `Planet` object.
 */
module CelestialBodies {
  import opened JavaInt
  import opened JavaString
  import opened SpacePoints

  /**
   * The attraction of a body at `to` on a body at `from`: one unit, per axis,
   * in the direction of the other body (Integer.signum of the difference).
   */
  function Attraction(from: SpacePoint, to: SpacePoint): SpacePoint {
    SpacePoint(Signum(to.x - from.x), Signum(to.y - from.y), Signum(to.z - from.z))
  }

  /**
   * Each axis of the attraction is -1, 0 or 1, positive exactly when the
   * other body lies further along that axis, and the attraction vanishes
   * exactly when the two positions coincide.
   */
  lemma AttractionIsUnit(from: SpacePoint, to: SpacePoint)
    ensures var a := Attraction(from, to);
            -1 <= a.x <= 1 && -1 <= a.y <= 1 && -1 <= a.z <= 1
            && (a == ORIGIN <==> from == to)
            && (a.x > 0 <==> from.x < to.x) && (a.x < 0 <==> from.x > to.x)
            && (a.y > 0 <==> from.y < to.y) && (a.y < 0 <==> from.y > to.y)
            && (a.z > 0 <==> from.z < to.z) && (a.z < 0 <==> from.z > to.z)
  {
  }

  /**
   * The energy of a planet: kinetic energy (norm of the velocity) times
   * potential energy (norm of the position); zero exactly when the planet is
   * at rest or at the origin.
   */
  function PlanetEnergy(position: SpacePoint, velocity: SpacePoint): (e: nat)
    ensures e == 0 <==> position == ORIGIN || velocity == ORIGIN
    ensures position != ORIGIN ==> e >= velocity.Norm()
    ensures velocity != ORIGIN ==> e >= position.Norm()
  {
    OriginNeutral(position);
    OriginNeutral(velocity);
    ProductOfNaturals(velocity.Norm(), position.Norm());
    velocity.Norm() * position.Norm()
  }

  lemma ProductOfNaturals(a: nat, b: nat)
    ensures a * b == 0 <==> a == 0 || b == 0
    ensures b > 0 ==> a * b >= a
    ensures a > 0 ==> a * b >= b
  {
    if b > 0 {
      assert a * b == a * (b - 1) + a;
    }
    if a > 0 {
      assert a * b == (a - 1) * b + b;
    }
  }

  /** A star: it never moves, and its energy is 0. */
  class Star {
    const name: string
    var position: SpacePoint

    /** The representation invariant asks for a non-empty name, which no code checks. */
    constructor (name: string, position: SpacePoint)
      requires name != []
      ensures this.name == name && this.position == position
    {
      this.name := name;
      this.position := position;
    }
  }

  /** A planet: its velocity starts at the origin and changes under attraction. */
  class Planet {
    const name: string
    var position: SpacePoint
    var velocity: SpacePoint

    constructor (name: string, position: SpacePoint)
      requires name != []
      ensures this.name == name && this.position == position && velocity == ORIGIN
    {
      this.name := name;
      this.position := position;
      velocity := ORIGIN;
    }

    function KineticEnergy(): (k: nat)
      reads this
      ensures k == 0 <==> velocity == ORIGIN
    {
      OriginNeutral(velocity);
      velocity.Norm()
    }

    /** CelestialBody.setPosition, which only planets call. */
    method SetPosition(p: SpacePoint)
      modifies this`position
      ensures position == p
    {
      position := p;
    }

    /** Adds to the velocity one unit per axis towards the position of `c`. */
    method GravitateTowards(c: Body)
      modifies this`velocity
      ensures velocity == old(velocity).Add(Attraction(position, old(c.Position())))
    {
      var other := c.Position();
      var pull := SpacePoint(Signum(other.x - position.x), Signum(other.y - position.y),
                             Signum(other.z - position.z));
      velocity := velocity.Add(pull);
    }

    /** Moves the planet by its velocity. */
    method ApplyVelocity()
      modifies this`position
      ensures position == old(position).Add(velocity)
    {
      SetPosition(position.Add(velocity));
    }
  }

  /** The abstract class CelestialBody: a star or a planet. */
  datatype Body = StarBody(star: Star) | PlanetBody(planet: Planet) {

    /** The object behind this reference. */
    function Ref(): object {
      match this
      case StarBody(s) => s
      case PlanetBody(p) => p
    }

    function Name(): string {
      match this
      case StarBody(s) => s.name
      case PlanetBody(p) => p.name
    }

    function Position(): SpacePoint
      reads Ref()
    {
      match this
      case StarBody(s) => s.position
      case PlanetBody(p) => p.position
    }

    /** The norm of the position. */
    function PotentialEnergy(): (e: nat)
      reads Ref()
      ensures e == 0 <==> Position() == ORIGIN
    {
      OriginNeutral(Position());
      Position().Norm()
    }

    /** The value the body's fields hold now. */
    function State(): (b: BodyState)
      reads Ref()
      ensures b.name == Name() && b.position == Position()
      ensures b.PlanetState? <==> PlanetBody?
    {
      match this
      case StarBody(s) => StarState(s.name, s.position)
      case PlanetBody(p) => PlanetState(p.name, p.position, p.velocity)
    }

    /** CelestialBody.energy, dispatched to Star and Planet. */
    function Energy(): (e: nat)
      reads Ref()
      ensures e == State().Energy()
    {
      match this
      case StarBody(_) => 0
      case PlanetBody(p) => PlanetEnergy(p.position, p.velocity)
    }

    /** CelestialBody.compareTo: bodies are ordered by name alone. */
    function CompareTo(other: Body): (r: int)
      ensures r == 0 <==> Name() == other.Name()
      ensures r < 0 <==> Less(Name(), other.Name())
      ensures r > 0 <==> Less(other.Name(), Name())
    {
      CompareZeroIff(Name(), other.Name());
      CompareAntisymmetric(Name(), other.Name());
      Compare(Name(), other.Name())
    }

    function ToString(): string
      reads Ref()
    {
      State().ToString()
    }
  }

  /** The contents of a body at one instant, as a value. */
  datatype BodyState =
    | StarState(name: string, position: SpacePoint)
    | PlanetState(name: string, position: SpacePoint, velocity: SpacePoint)
  {
    /** Star.energy is 0; Planet.energy is kinetic times potential energy. */
    function Energy(): nat {
      match this
      case StarState(_, _) => 0
      case PlanetState(_, p, v) => PlanetEnergy(p, v)
    }

    /** Star.toString and Planet.toString. */
    function ToString(): string {
      match this
      case StarState(n, p) => "Star, name: " + n + ", pos: " + p.ToString()
      case PlanetState(n, p, v) =>
        "Planet, name: " + n + ", pos: " + p.ToString() + ", vel: " + v.ToString()
    }
  }

  /** A new planet has no kinetic energy, hence no energy at all. */
  lemma NewPlanetHasNoEnergy(name: string, p: SpacePoint)
    ensures PlanetState(name, p, ORIGIN).Energy() == 0
  {
  }

  lemma StarToStringExample()
    ensures StarState("Sun", ORIGIN).ToString() == "Star, name: Sun, pos: (0, 0, 0)"
  {
    assert ValueOf(0) == "0";
    assert ORIGIN.ToString() == "(0, 0, 0)";
  }
}
