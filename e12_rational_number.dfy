/**
 * e12 RationalNumber: an immutable fraction of two ints, reduced to lowest
 * terms by its constructor. Java's int overflow is not modelled.
 */
module RationalNumbers {
  import opened Wrappers
  import opened JavaInt

  // ---------------------------------------------------------------------------
  // Greatest common divisor

  /** RationalNumber.gcd; its callers pass non-negative arguments, where Java's % is Dafny's. */
  function Gcd(a: nat, b: nat): nat
    decreases b
  {
    if b == 0 then a else Gcd(b, a % b)
  }

  /** `c` divides `a`. */
  ghost predicate Divides(c: int, a: int) {
    exists k :: c * k == a
  }

  /** gcd(a, b) is 0 only for a = b = 0. */
  lemma {:induction false} GcdZero(a: nat, b: nat)
    ensures Gcd(a, b) == 0 <==> a == 0 && b == 0
    decreases b
  {
    if b != 0 {
      GcdZero(b, a % b);
    }
  }

  /** gcd(a, b) divides both a and b. */
  lemma {:induction false} GcdDivides(a: nat, b: nat)
    ensures Divides(Gcd(a, b), a) && Divides(Gcd(a, b), b)
    decreases b
  {
    var g := Gcd(a, b);
    if b == 0 {
      assert g * 1 == a && g * 0 == b;
    } else {
      GcdDivides(b, a % b);
      var kb :| g * kb == b;
      var kr :| g * kr == a % b;
      var q := a / b;
      assert a == b * q + a % b;
      assert b * q == g * (kb * q) by {
        assert b * q == (g * kb) * q;
      }
      assert a == g * (kb * q + kr);
    }
  }

  /** Every common divisor of a and b divides gcd(a, b). */
  lemma {:induction false} GcdGreatest(a: nat, b: nat, c: int)
    requires Divides(c, a) && Divides(c, b)
    ensures Divides(c, Gcd(a, b))
    decreases b
  {
    if b != 0 {
      var ka :| c * ka == a;
      var kb :| c * kb == b;
      var q := a / b;
      assert a % b == a - b * q;
      assert b * q == c * (kb * q) by {
        assert b * q == (c * kb) * q;
      }
      assert c * (ka - kb * q) == a % b;
      GcdGreatest(b, a % b, c);
    }
  }

  /** Bezout's identity: gcd(a, b) is an integer combination of a and b. */
  lemma {:induction false} GcdBezout(a: nat, b: nat) returns (x: int, y: int)
    ensures a * x + b * y == Gcd(a, b)
    decreases b
  {
    if b == 0 {
      x, y := 1, 0;
    } else {
      var x', y' := GcdBezout(b, a % b);
      var q := a / b;
      assert a % b == a - b * q;
      assert (a - b * q) * y' == a * y' - b * (q * y');
      x, y := y', x' - q * y';
    }
  }

  /** A natural number with an integer inverse is 1. */
  lemma UnitFactor(h: nat, k: int)
    requires h * k == 1
    ensures h == 1 && k == 1
  {
  }

  /** Cancelling a non-zero factor. */
  lemma Cancel(x: int, y: int, k: int)
    requires k != 0 && x * k == y * k
    ensures x == y
  {
    assert (x - y) * k == 0;
  }

  // ---------------------------------------------------------------------------
  // Rational numbers

  datatype RationalNumber = RationalNumber(numerator: int, denominator: int) {

    /** The representation invariant: a non-zero denominator, in lowest terms. */
    ghost predicate Valid() {
      denominator != 0 && Gcd(Abs(numerator), Abs(denominator)) == 1
    }

    /** This fraction has the value n/d (cross-multiplication). */
    predicate Represents(n: int, d: int) {
      numerator * d == n * denominator
    }
  }

  /** |x·g| = |x|·g for a positive g. */
  lemma ScaleAbs(x: int, g: int)
    requires g > 0
    ensures Abs(x * g) == Abs(x) * g
  {
    if x < 0 {
      assert x * g == -((-x) * g);
    }
  }

  /** Java's division by a positive divisor of |n| is exact. */
  lemma ExactQuotient(n: int, g: int)
    requires g > 0 && Divides(g, Abs(n))
    ensures Div(n, g) * g == n
  {
    var k :| g * k == Abs(n);
    var q := if n >= 0 then k else -k;
    assert g * q == n by {
      if n < 0 {
        assert g * -k == -(g * k);
      }
    }
    DivExact(n, g, q);
  }

  /** A divisor of `a` scaled by `g` divides a·g. */
  lemma DividesScaled(h: int, a: int, g: int)
    requires Divides(h, a)
    ensures Divides(g * h, a * g)
  {
    var k :| h * k == a;
    assert (g * h) * k == a * g;
  }

  /** g·h divides g > 0 only for h = 1. */
  lemma OnlyUnitScale(g: nat, h: nat)
    requires g > 0 && Divides(g * h, g)
    ensures h == 1
  {
    var k :| (g * h) * k == g;
    assert (h * k) * g == 1 * g by {
      assert (g * h) * k == (h * k) * g;
    }
    Cancel(h * k, 1, g);
    UnitFactor(h, k);
  }

  /** After dividing naturals a and b by their gcd g, the quotients have no common factor left. */
  lemma CoprimeQuotients(a: nat, b: nat, qa: nat, qb: nat, g: nat)
    requires g > 0 && g == Gcd(a, b) && qa * g == a && qb * g == b
    ensures Gcd(qa, qb) == 1
  {
    var h := Gcd(qa, qb);
    GcdDivides(qa, qb);
    DividesScaled(h, qa, g);
    DividesScaled(h, qb, g);
    GcdGreatest(a, b, g * h);
    OnlyUnitScale(g, h);
  }

  /** qn/qd has the value of (qn·g)/(qd·g). */
  lemma CrossMultiply(qn: int, qd: int, g: int)
    ensures qn * (qd * g) == (qn * g) * qd
  {
  }

  /** The reduced form of n/d: both parts divided by their gcd. */
  function Reduced(n: int, d: int): (r: RationalNumber)
    requires d != 0
    ensures r.Valid() && r.Represents(n, d)
    ensures r.denominator > 0 <==> d > 0
  {
    var g := Gcd(Abs(n), Abs(d));
    GcdZero(Abs(n), Abs(d));
    GcdDivides(Abs(n), Abs(d));
    ExactQuotient(n, g);
    ExactQuotient(d, g);
    ScaleAbs(Div(n, g), g);
    ScaleAbs(Div(d, g), g);
    CoprimeQuotients(Abs(n), Abs(d), Abs(Div(n, g)), Abs(Div(d, g)), g);
    CrossMultiply(Div(n, g), Div(d, g), g);
    RationalNumber(Div(n, g), Div(d, g))
  }

  /**
   * The constructor: IllegalArgumentException for a zero denominator,
   * otherwise both parts divided (truncating, but exactly) by their gcd,
   * which is positive, so the stored denominator keeps the sign of `d`.
   */
  function Make(n: int, d: int): (r: Result<RationalNumber>)
    ensures r.Failure? <==> d == 0
    ensures r.Failure? ==> r.error == IllegalArgument
    ensures r.Success? ==> r.value.Valid() && r.value.Represents(n, d)
    ensures r.Success? ==> (r.value.denominator > 0 <==> d > 0)
  {
    if d == 0 then Failure(IllegalArgument) else Success(Reduced(n, d))
  }

  lemma NonZeroProduct(a: int, b: int)
    requires a != 0 && b != 0
    ensures a * b != 0
  {
  }

  /** a/b + c/d, built as the reduced form of (a·d + c·b)/(b·d). */
  function Add(x: RationalNumber, y: RationalNumber): (r: RationalNumber)
    requires x.Valid() && y.Valid()
    ensures r.Valid()
    ensures r.Represents(x.numerator * y.denominator + y.numerator * x.denominator,
                         x.denominator * y.denominator)
  {
    NonZeroProduct(x.denominator, y.denominator);
    Make(x.numerator * y.denominator + y.numerator * x.denominator,
         x.denominator * y.denominator).value
  }

  /** (a/b)·(c/d), built as the reduced form of (a·c)/(b·d). */
  function Mul(x: RationalNumber, y: RationalNumber): (r: RationalNumber)
    requires x.Valid() && y.Valid()
    ensures r.Valid()
    ensures r.Represents(x.numerator * y.numerator, x.denominator * y.denominator)
  {
    NonZeroProduct(x.denominator, y.denominator);
    Make(x.numerator * y.numerator, x.denominator * y.denominator).value
  }

  /** RationalNumber.equals: numerator and denominator compared field by field. */
  predicate Equals(x: RationalNumber, y: RationalNumber) {
    x.numerator == y.numerator && x.denominator == y.denominator
  }

  /** The numerator 0 reduces to 0/1 or 0/-1, following the sign of the denominator. */
  lemma ZeroNumerator(d: int)
    requires d != 0
    ensures Make(0, d) == Success(RationalNumber(0, Signum(d)))
  {
    assert Gcd(0, Abs(d)) == Abs(d);
    DivExact(0, Abs(d), 0);
    DivExact(d, Abs(d), Signum(d));
  }

  /**
   * The constructor keeps the sign where the caller put it, so 1/-2 and -1/2
   * are different objects of the same value, and equals tells them apart.
   */
  lemma SignNotNormalised()
    ensures Make(1, -2) == Success(RationalNumber(1, -2))
    ensures Make(-1, 2) == Success(RationalNumber(-1, 2))
    ensures RationalNumber(1, -2).Represents(-1, 2)
    ensures !Equals(Make(1, -2).value, Make(-1, 2).value)
  {
    assert Gcd(1, 2) == 1;
    DivExact(1, 1, 1);
    DivExact(-1, 1, -1);
    DivExact(2, 1, 2);
    DivExact(-2, 1, -2);
  }

  // ---------------------------------------------------------------------------
  // The constructor with the sign normalised

  /** Negating both parts keeps a fraction in lowest terms and keeps its value. */
  lemma NegateBoth(r: RationalNumber, n: int, d: int)
    requires r.Valid() && r.Represents(n, d)
    ensures RationalNumber(-r.numerator, -r.denominator).Valid()
    ensures RationalNumber(-r.numerator, -r.denominator).Represents(n, d)
  {
    assert Abs(-r.numerator) == Abs(r.numerator) && Abs(-r.denominator) == Abs(r.denominator);
    assert (-r.numerator) * d == -(r.numerator * d);
    assert n * (-r.denominator) == -(n * r.denominator);
  }

  /** The constructor followed by moving the sign into the numerator. */
  function MakeCanonical(n: int, d: int): (r: Result<RationalNumber>)
    ensures r.Failure? <==> d == 0
    ensures r.Failure? ==> r.error == IllegalArgument
    ensures r.Success? ==> r.value.Valid() && r.value.denominator > 0 && r.value.Represents(n, d)
  {
    if d == 0 then Failure(IllegalArgument)
    else
      var r := Reduced(n, d);
      if r.denominator > 0 then Success(r)
      else
        NegateBoth(r, n, d);
        Success(RationalNumber(-r.numerator, -r.denominator))
  }

  /** A positive number times k is positive only for a positive k. */
  lemma PositiveFactor(a: int, k: int)
    requires a > 0 && a * k > 0
    ensures k > 0
  {
  }

  /** From a·x + b·y = 1 and a·c = b·w: b·(w·x + y·c) = c, so b divides c. */
  lemma BezoutScaled(a: int, x: int, b: int, y: int, c: int, w: int)
    requires a * x + b * y == 1 && a * c == b * w
    ensures b * (w * x + y * c) == c
  {
    calc {
      b * (w * x + y * c);
      (b * w) * x + (b * y) * c;
      (a * c) * x + (b * y) * c;
      (a * x + b * y) * c;
    }
  }

  /** n1·d2 = n2·d1 carries over to |n1|, with the sign of n1 moved to n2. */
  lemma AbsCross(n1: int, d1: int, n2: int, d2: int)
    requires n1 * d2 == n2 * d1
    ensures Abs(n1) * d2 == d1 * ((if n1 >= 0 then 1 else -1) * n2)
  {
    if n1 < 0 {
      assert Abs(n1) * d2 == -(n1 * d2);
      assert d1 * (-1 * n2) == -(n2 * d1);
    }
  }

  /** `d1` divides `d2` when n1/d1 = n2/d2 and n1/d1 is in lowest terms. */
  lemma DenominatorDivides(n1: int, d1: int, n2: int, d2: int)
    requires d1 > 0 && Gcd(Abs(n1), d1) == 1 && n1 * d2 == n2 * d1
    ensures Divides(d1, d2)
  {
    var x, y := GcdBezout(Abs(n1), d1);
    var w := (if n1 >= 0 then 1 else -1) * n2;
    AbsCross(n1, d1, n2, d2);
    BezoutScaled(Abs(n1), x, d1, y, d2, w);
  }

  /** Two positive numbers that divide each other are equal. */
  lemma MutualDivisors(d1: int, d2: int, k1: int, k2: int)
    requires d1 > 0 && d2 > 0 && d1 * k1 == d2 && d2 * k2 == d1
    ensures d1 == d2
  {
    assert (k1 * k2) * d1 == 1 * d1 by {
      assert (k1 * k2) * d1 == (d1 * k1) * k2;
    }
    Cancel(k1 * k2, 1, d1);
    PositiveFactor(d1, k1);
    UnitFactor(k1, k2);
  }

  /** Two fractions in lowest terms with positive denominators and the same value are equal. */
  lemma LowestTermsUnique(n1: int, d1: int, n2: int, d2: int)
    requires d1 > 0 && Gcd(Abs(n1), d1) == 1
    requires d2 > 0 && Gcd(Abs(n2), d2) == 1
    requires n1 * d2 == n2 * d1
    ensures n1 == n2 && d1 == d2
  {
    DenominatorDivides(n1, d1, n2, d2);
    DenominatorDivides(n2, d2, n1, d1);
    var k1 :| d1 * k1 == d2;
    var k2 :| d2 * k2 == d1;
    MutualDivisors(d1, d2, k1, k2);
    Cancel(n1, n2, d1);
  }

  /** If x1/y1 and x2/y2 stand for a/b and c/d, and a/b = c/d, then x1/y1 = x2/y2. */
  lemma SameValueCarries(x1: int, y1: int, x2: int, y2: int, a: int, b: int, c: int, d: int)
    requires b != 0 && d != 0
    requires x1 * b == a * y1 && x2 * d == c * y2 && a * d == c * b
    ensures x1 * y2 == x2 * y1
  {
    assert (x1 * y2) * (b * d) == (x2 * y1) * (b * d) by {
      calc {
        (x1 * y2) * (b * d);
        (x1 * b) * (y2 * d);
        (a * y1) * (y2 * d);
        (a * d) * (y1 * y2);
        (c * b) * (y1 * y2);
        (c * y2) * (y1 * b);
        (x2 * d) * (y1 * b);
        (x2 * y1) * (b * d);
      }
    }
    NonZeroProduct(b, d);
    Cancel(x1 * y2, x2 * y1, b * d);
  }

  /** If one fraction x/y stands for both a/b and c/d, then a/b = c/d. */
  lemma SharedValue(x: int, y: int, a: int, b: int, c: int, d: int)
    requires y != 0 && x * b == a * y && x * d == c * y
    ensures a * d == c * b
  {
    assert (a * d) * y == (c * b) * y by {
      calc {
        (a * d) * y;
        (a * y) * d;
        (x * b) * d;
        (x * d) * b;
        (c * y) * b;
        (c * b) * y;
      }
    }
    Cancel(a * d, c * b, y);
  }

  /** With the sign normalised, equals holds exactly for fractions of the same value. */
  lemma CanonicalEqualsIffSameValue(a: int, b: int, c: int, d: int)
    requires b != 0 && d != 0
    ensures Equals(MakeCanonical(a, b).value, MakeCanonical(c, d).value) <==> a * d == c * b
  {
    var x, y := MakeCanonical(a, b).value, MakeCanonical(c, d).value;
    if a * d == c * b {
      SameValueCarries(x.numerator, x.denominator, y.numerator, y.denominator, a, b, c, d);
      LowestTermsUnique(x.numerator, x.denominator, y.numerator, y.denominator);
    }
    if Equals(x, y) {
      SharedValue(x.numerator, x.denominator, a, b, c, d);
    }
  }
}
