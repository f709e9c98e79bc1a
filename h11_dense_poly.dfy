/**
 * h11 DensePoly: the same polynomials built through static factories, with
 * one shared instance ZERO for the zero polynomial. `isZero` tests identity
 * with ZERO, so object identity is part of the behaviour: the datatype tag
 * `Zero` stands for that one instance, `Poly` for every other object.
 */
module DensePolysWithZero {
  import opened Wrappers
  import opened JavaString
  import opened PolyCoefficients

  datatype DensePoly = Zero | Poly(coefficient: seq<int>) {

    /** The coefficient array (ZERO holds the empty one). */
    function Coefficients(): seq<int> {
      if Zero? then [] else coefficient
    }

    /** The representation invariant: no trailing zero. */
    ghost predicate Valid() {
      NoTrailingZero(Coefficients())
    }

    /**
     * Every factory keeps ZERO the only instance with no coefficients; a copy
     * of ZERO breaks this.
     */
    predicate Canonical() {
      Poly? ==> coefficient != []
    }

    /** isZero(): this object is ZERO. */
    predicate IsZero() {
      Zero?
    }

    /** coeff(d): the coefficient of x^d, 0 outside the array. */
    function Coeff(d: int): int {
      CoeffAt(Coefficients(), d)
    }

    /**
     * degree(): IllegalStateException for an empty array (ZERO or a copy of
     * it), otherwise the largest exponent with a non-zero coefficient.
     */
    function Degree(): (r: Result<nat>)
      requires Valid()
      ensures r.Failure? <==> Coefficients() == []
      ensures r.Failure? ==> r.error == IllegalState
      ensures r.Success? ==> Coeff(r.value) != 0 && forall d :: d > r.value ==> Coeff(d) == 0
    {
      if |Coefficients()| == 0 then Failure(IllegalState) else Success(|Coefficients()| - 1)
    }
  }

  /** The shared instance ZERO. */
  const ZERO: DensePoly := Zero

  /** The copy constructor: a new object with a copy of the coefficients. */
  function Copy(p: DensePoly): (r: DensePoly)
    ensures r.Poly? && r.Coefficients() == p.Coefficients()
  {
    Poly(p.Coefficients())
  }

  /**
   * The copy of ZERO has the coefficients of ZERO but is another object, so
   * isZero() is false and degree() throws.
   */
  lemma CopyOfZero()
    ensures Equals(Copy(ZERO), ZERO)
    ensures !Copy(ZERO).IsZero() && ZERO.IsZero()
    ensures Copy(ZERO).Degree().Failure?
    ensures !Copy(ZERO).Canonical()
  {
  }

  /** The copy constructor keeping ZERO the only zero polynomial. */
  function CopyKeepingZero(p: DensePoly): (r: DensePoly)
    ensures Equals(r, p)
    ensures r.IsZero() <==> p.IsZero()
    ensures p.Canonical() ==> r.Canonical()
  {
    if p.IsZero() then p else Poly(p.Coefficients())
  }

  /**
   * ofCoefficients: the trimming loop; ZERO when nothing is left, otherwise a
   * new object with the trimmed coefficients.
   */
  method OfCoefficients(a: array<int>) returns (p: DensePoly)
    ensures p.Valid() && p.Canonical()
    ensures forall d :: p.Coeff(d) == CoeffAt(a[..], d)
    ensures p.IsZero() <==> forall i :: 0 <= i < a.Length ==> a[i] == 0
  {
    var c := TrimCopy(a);
    TrimmedCoefficients(a[..]);
    if c == [] {
      p := ZERO;
      forall i | 0 <= i < a.Length ensures a[i] == 0 {
        assert CoeffAt(a[..], i) == CoeffAt(c, i);
      }
    } else {
      p := Poly(c);
    }
  }

  /**
   * ofCoefficientDegree(c, n): IllegalArgumentException for a negative n,
   * ZERO for c = 0, otherwise a new object for c·x^n.
   */
  function OfCoefficientDegree(c: int, n: int): (r: Result<DensePoly>)
    ensures r.Failure? <==> n < 0
    ensures r.Failure? ==> r.error == IllegalArgument
    ensures r.Success? ==> r.value.Valid() && r.value.Canonical()
                           && r.value.Coeff(n) == c
                           && (forall d :: d != n ==> r.value.Coeff(d) == 0)
                           && (r.value.IsZero() <==> c == 0)
  {
    if n < 0 then Failure(IllegalArgument)
    else if c == 0 then Success(ZERO)
    else Success(Poly(seq(n + 1, i => if i == n then c else 0)))
  }

  /** The result of an arithmetic operation when neither operand can make degree() throw. */
  predicate Defined(p: DensePoly) {
    p.IsZero() || p.Coefficients() != []
  }

  /**
   * add: q when this is ZERO, this when q is ZERO; otherwise degree() is
   * asked of both (IllegalStateException on a copy of ZERO) and the sum goes
   * through ofCoefficients.
   */
  method Add(p: DensePoly, q: DensePoly) returns (r: Result<DensePoly>)
    requires p.Valid() && q.Valid()
    ensures r.Failure? <==> !p.IsZero() && !q.IsZero() && (!Defined(p) || !Defined(q))
    ensures r.Failure? ==> r.error == IllegalState
    ensures r.Success? ==> r.value.Valid() && forall d :: r.value.Coeff(d) == p.Coeff(d) + q.Coeff(d)
    ensures p.IsZero() ==> r == Success(q)
    ensures !p.IsZero() && q.IsZero() ==> r == Success(p)
    ensures p.Canonical() && q.Canonical() ==> r.Success? && r.value.Canonical()
  {
    if p.IsZero() {
      return Success(q);
    }
    if q.IsZero() {
      return Success(p);
    }
    if p.Degree().Failure? || q.Degree().Failure? {
      return Failure(IllegalState);
    }
    var larger, smaller;
    if p.Degree().value > q.Degree().value {
      larger, smaller := p, q;
    } else {
      larger, smaller := q, p;
    }
    var result := AddInto(smaller.Coefficients(), larger.Coefficients());
    var s := OfCoefficients(result);
    forall d ensures s.Coeff(d) == p.Coeff(d) + q.Coeff(d) {
      assert s.Coeff(d) == CoeffAt(result[..], d);
    }
    return Success(s);
  }

  /**
   * mul: ZERO when either is ZERO; otherwise degree() is asked of both and
   * the convolution goes through ofCoefficients.
   */
  method Mul(p: DensePoly, q: DensePoly) returns (r: Result<DensePoly>)
    requires p.Valid() && q.Valid()
    ensures r.Failure? <==> !p.IsZero() && !q.IsZero() && (!Defined(p) || !Defined(q))
    ensures r.Failure? ==> r.error == IllegalState
    ensures r.Success? ==> r.value.Valid() && r.value.Canonical()
                           && forall k :: r.value.Coeff(k) == Conv(p.Coefficients(), q.Coefficients(), k)
    ensures p.IsZero() || q.IsZero() ==> r == Success(ZERO)
    ensures r.Success? && !p.IsZero() && !q.IsZero() ==>
              !r.value.IsZero() && r.value.Degree().value == p.Degree().value + q.Degree().value
  {
    ProductCoefficientsAt(p.Coefficients(), q.Coefficients());
    if p.IsZero() || q.IsZero() {
      return Success(ZERO);
    }
    if p.Degree().Failure? || q.Degree().Failure? {
      return Failure(IllegalState);
    }
    var result := MulInto(p.Coefficients(), q.Coefficients());
    var s := OfCoefficients(result);
    assert s.Coefficients() == Trimmed(result[..]) by {
      TrimmedCoefficients(result[..]);
      CoefficientsDetermine(s.Coefficients(), Trimmed(result[..]));
    }
    return Success(s);
  }

  /**
   * minus: this when ZERO; otherwise degree() bounds the loop (so a copy of
   * ZERO throws) and the negated coefficients go through ofCoefficients.
   */
  method Minus(p: DensePoly) returns (r: Result<DensePoly>)
    requires p.Valid()
    ensures r.Failure? <==> !Defined(p)
    ensures r.Failure? ==> r.error == IllegalState
    ensures r.Success? ==> r.value.Valid() && forall d :: r.value.Coeff(d) == -p.Coeff(d)
    ensures p.IsZero() ==> r == Success(p)
    ensures r.Success? ==> (r.value.IsZero() <==> p.IsZero())
    ensures p.Canonical() ==> r.Success? && r.value.Canonical()
  {
    if p.IsZero() {
      return Success(p);
    }
    if p.Degree().Failure? {
      return Failure(IllegalState);
    }
    NegCoefficientsAt(p.Coefficients());
    var result := NegateInto(p.Coefficients());
    var last := |p.Coefficients()| - 1;
    assert result[last] == CoeffAt(NegCoefficients(p.Coefficients()), last) == -p.Coeff(last) != 0;
    var s := OfCoefficients(result);
    return Success(s);
  }

  /** sub: -q when this is ZERO, this when q is ZERO, otherwise this + (-q). */
  method Sub(p: DensePoly, q: DensePoly) returns (r: Result<DensePoly>)
    requires p.Valid() && q.Valid()
    ensures r.Failure? <==> !Defined(q) || (!Defined(p) && !q.IsZero())
    ensures r.Failure? ==> r.error == IllegalState
    ensures r.Success? ==> r.value.Valid() && forall d :: r.value.Coeff(d) == p.Coeff(d) - q.Coeff(d)
    ensures p.Canonical() && q.Canonical() ==> r.Success? && r.value.Canonical()
  {
    if p.IsZero() {
      r := Minus(q);
      return;
    }
    if q.IsZero() {
      return Success(p);
    }
    var mq := Minus(q);
    if mq.Failure? {
      return mq;
    }
    r := Add(p, mq.value);
  }

  /** equals: Arrays.equals on the coefficient arrays. */
  predicate Equals(p: DensePoly, q: DensePoly) {
    p.Coefficients() == q.Coefficients()
  }

  /** Arrays.hashCode: 31·h + e over the elements, starting from 1. */
  function ArraysHashCode(s: seq<int>): int {
    if s == [] then 1 else 31 * ArraysHashCode(s[..|s| - 1]) + s[|s| - 1]
  }

  /** hashCode is the hash of the coefficient array. */
  function HashCode(p: DensePoly): int {
    ArraysHashCode(p.Coefficients())
  }

  /** Among canonical values, equals is identity: ZERO equals only itself. */
  lemma EqualsCanonical(p: DensePoly, q: DensePoly)
    requires p.Canonical() && q.Canonical()
    ensures Equals(p, q) <==> p == q
    ensures Equals(p, q) ==> HashCode(p) == HashCode(q)
  {
  }

  // ---------------------------------------------------------------------------
  // toString

  /** "x" followed by "^d" for exponents above 1. */
  function Power(d: nat): string {
    "x" + (if d > 1 then "^" + ValueOf(d) else "")
  }

  /** The leading term: its coefficient shown only when it is not 1, "-" alone for -1. */
  function Leading(c: int, d: nat): string {
    (if c < -1 then "-" + ValueOf(-c)
     else if c == -1 then "-"
     else if c > 1 then ValueOf(c)
     else "")
    + Power(d)
  }

  /** A middle term: nothing for 0, otherwise " + " or " - " and the magnitude unless it is 1. */
  function Middle(c: int, d: nat): string {
    if c == 0 then ""
    else
      (if c < -1 then " - " + ValueOf(-c)
       else if c == -1 then " - "
       else if c == 1 then " + "
       else " + " + ValueOf(c))
      + Power(d)
  }

  /** The constant term: nothing for 0, otherwise " + c" or " - |c|". */
  function Constant(c: int): string {
    if c > 0 then " + " + ValueOf(c) else if c < 0 then " - " + ValueOf(-c) else ""
  }

  /** The middle terms for exponents `hi` down to `lo`, highest first. */
  function MiddleTerms(c: seq<int>, hi: int, lo: int): string
    requires 0 < lo && hi < |c|
    decreases hi - lo
  {
    if hi < lo then "" else MiddleTerms(c, hi, lo + 1) + Middle(c[lo], lo)
  }

  /**
   * The rendering of a polynomial of degree > 0: "DensePoly: ", the leading
   * term, the middle terms from the top down, and the constant term.
   */
  function Rendering(c: seq<int>): string
    requires |c| > 1
  {
    var n := |c| - 1;
    "DensePoly: " + Leading(c[n], n) + MiddleTerms(c, n - 1, 1) + Constant(c[0])
  }

  /**
   * toString: degree() first (so ZERO and its copies throw); for degree > 0 a
   * StringBuilder loop over the middle exponents, otherwise "DensePoly: c".
   */
  method ToString(p: DensePoly) returns (r: Result<string>)
    requires p.Valid()
    ensures r.Failure? <==> p.Coefficients() == []
    ensures r.Failure? ==> r.error == IllegalState
    ensures r.Success? && |p.Coefficients()| == 1 ==> r.value == "DensePoly: " + ValueOf(p.Coeff(0))
    ensures r.Success? && |p.Coefficients()| > 1 ==> r.value == Rendering(p.Coefficients())
  {
    var deg := p.Degree();
    if deg.Failure? {
      return Failure(IllegalState);
    }
    var n := deg.value;
    if n > 0 {
      var c := p.Coefficients();
      var head := "DensePoly: " + Leading(c[n], n);
      var sb := head;
      var d := n - 1;
      while d > 0
        invariant 0 <= d <= n - 1
        invariant sb == head + MiddleTerms(c, n - 1, d + 1)
      {
        ghost var before := MiddleTerms(c, n - 1, d + 1);
        assert MiddleTerms(c, n - 1, d) == before + Middle(c[d], d);
        ConcatAssociates(head, before, Middle(c[d], d));
        sb := sb + Middle(c[d], d);
        d := d - 1;
      }
      sb := sb + Constant(c[0]);
      return Success(sb);
    }
    return Success("DensePoly: " + ValueOf(p.Coeff(0)));
  }

  lemma ConcatAssociates(a: string, b: string, c: string)
    ensures a + b + c == a + (b + c)
  {
  }

  /** x^2 - 1 renders as "DensePoly: x^2 - 1". */
  lemma RenderingExample()
    ensures Rendering([-1, 0, 1]) == "DensePoly: x^2 - 1"
  {
    assert ValueOf(1) == "1" && ValueOf(2) == "2";
    assert MiddleTerms([-1, 0, 1], 1, 1) == "";
  }
}
