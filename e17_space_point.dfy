/**
 * e17 SpacePoint: an immutable point of three-dimensional integer space, with
 * componentwise addition and subtraction and the L1 (Manhattan) norm.
 */
module SpacePoints {
  import opened JavaInt
  import opened JavaString

  /** All three coordinates are final, so a point is a value. */
  datatype SpacePoint = SpacePoint(x: int, y: int, z: int) {

    /** |x| + |y| + |z|: never negative, and zero exactly at ORIGIN. */
    function Norm(): (n: nat)
      ensures n == 0 <==> x == 0 && y == 0 && z == 0
      ensures Abs(x) <= n && Abs(y) <= n && Abs(z) <= n
    {
      Abs(x) + Abs(y) + Abs(z)
    }

    function Add(other: SpacePoint): SpacePoint {
      SpacePoint(x + other.x, y + other.y, z + other.z)
    }

    function Sub(other: SpacePoint): SpacePoint {
      SpacePoint(x - other.x, y - other.y, z - other.z)
    }

    /** "(x, y, z)", as StringJoiner(", ", "(", ")") renders it. */
    function ToString(): string {
      "(" + ValueOf(x) + ", " + ValueOf(y) + ", " + ValueOf(z) + ")"
    }
  }

  /** The point the no-argument constructor builds. */
  const ORIGIN := SpacePoint(0, 0, 0)

  /** Subtracting undoes adding and vice versa. */
  lemma AddSubInverse(p: SpacePoint, q: SpacePoint)
    ensures p.Add(q).Sub(q) == p
    ensures p.Sub(q).Add(q) == p
    ensures p.Sub(p) == ORIGIN
  {
  }

  /** The origin is the only point of norm 0 and the neutral element of addition. */
  lemma OriginNeutral(p: SpacePoint)
    ensures p.Norm() == 0 <==> p == ORIGIN
    ensures p.Add(ORIGIN) == p && ORIGIN.Add(p) == p
  {
  }

  /** Addition is commutative. */
  lemma AddCommutes(p: SpacePoint, q: SpacePoint)
    ensures p.Add(q) == q.Add(p)
  {
  }

  /** The norm is subadditive. */
  lemma NormTriangle(p: SpacePoint, q: SpacePoint)
    ensures p.Add(q).Norm() <= p.Norm() + q.Norm()
  {
  }

  lemma ToStringExample()
    ensures SpacePoint(3, -1, 0).ToString() == "(3, -1, 0)"
  {
    assert ValueOf(3) == "3";
    assert ValueOf(-1) == "-1";
    assert ValueOf(0) == "0";
  }
}
