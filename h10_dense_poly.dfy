/**
 * h10 DensePoly: immutable polynomials with int coefficients, kept as the
 * array of coefficients with no trailing zero (the zero polynomial has the
 * empty array). The value is a datatype; the constructors' trimming loop and
 * the loops of add, mul and minus are methods over local arrays.
 */
module DensePolys {
  import opened Wrappers
  import opened PolyCoefficients

  datatype DensePoly = DensePoly(coefficient: seq<int>) {

    /** The representation invariant: no trailing zero. */
    ghost predicate Valid() {
      NoTrailingZero(coefficient)
    }

    /** isZero(): the coefficient array is empty. */
    predicate IsZero() {
      |coefficient| == 0
    }

    /** coeff(d): the coefficient of x^d, 0 for exponents outside the array. */
    function Coeff(d: int): int {
      CoeffAt(coefficient, d)
    }

    /**
     * degree(): IllegalStateException on the zero polynomial, otherwise the
     * largest exponent with a non-zero coefficient.
     */
    function Degree(): (r: Result<nat>)
      requires Valid()
      ensures r.Failure? <==> IsZero()
      ensures r.Failure? ==> r.error == IllegalState
      ensures r.Success? ==> Coeff(r.value) != 0 && forall d :: d > r.value ==> Coeff(d) == 0
    {
      if |coefficient| == 0 then Failure(IllegalState) else Success(|coefficient| - 1)
    }
  }

  /** DensePoly(): the zero polynomial. */
  function Zero(): (p: DensePoly)
    ensures p.Valid() && p.IsZero() && forall d :: p.Coeff(d) == 0
  {
    DensePoly([])
  }

  /**
   * DensePoly(c, n): IllegalArgumentException for a negative n, the zero
   * polynomial for c = 0, otherwise c·x^n.
   */
  function Monomial(c: int, n: int): (r: Result<DensePoly>)
    ensures r.Failure? <==> n < 0
    ensures r.Failure? ==> r.error == IllegalArgument
    ensures r.Success? ==> r.value.Valid() && r.value.Coeff(n) == c
                           && (forall d :: d != n ==> r.value.Coeff(d) == 0)
                           && (r.value.IsZero() <==> c == 0)
  {
    if n < 0 then Failure(IllegalArgument)
    else if c == 0 then Success(DensePoly([]))
    else Success(DensePoly(seq(n + 1, i => if i == n then c else 0)))
  }

  /**
   * DensePoly(int[]): the given coefficients with the trailing zeros dropped;
   * every exponent keeps its coefficient.
   */
  method FromArray(a: array<int>) returns (p: DensePoly)
    ensures p.Valid()
    ensures forall d :: p.Coeff(d) == CoeffAt(a[..], d)
    ensures |p.coefficient| <= a.Length && p.coefficient == a[..|p.coefficient|]
  {
    var c: seq<int>;
    if a.Length == 0 {
      c := [];
    } else {
      c := TrimCopy(a);
    }
    TrimmedCoefficients(a[..]);
    p := DensePoly(c);
  }

  /** add: p itself or q itself when the other is zero, otherwise the coefficientwise sum. */
  method Add(p: DensePoly, q: DensePoly) returns (r: DensePoly)
    requires p.Valid() && q.Valid()
    ensures r.Valid()
    ensures forall d :: r.Coeff(d) == p.Coeff(d) + q.Coeff(d)
    ensures p.IsZero() ==> r == q
    ensures !p.IsZero() && q.IsZero() ==> r == p
  {
    if p.IsZero() {
      return q;
    }
    if q.IsZero() {
      return p;
    }
    var larger, smaller;
    if p.Degree().value > q.Degree().value {
      larger, smaller := p, q;
    } else {
      larger, smaller := q, p;
    }
    var result := AddInto(smaller.coefficient, larger.coefficient);
    r := FromArray(result);
    forall d ensures r.Coeff(d) == p.Coeff(d) + q.Coeff(d) {
      assert r.Coeff(d) == CoeffAt(result[..], d);
    }
  }

  /** mul: zero when either factor is zero, otherwise the convolution of the coefficients. */
  method Mul(p: DensePoly, q: DensePoly) returns (r: DensePoly)
    requires p.Valid() && q.Valid()
    ensures r.Valid()
    ensures forall k :: r.Coeff(k) == Conv(p.coefficient, q.coefficient, k)
    ensures r.IsZero() <==> p.IsZero() || q.IsZero()
    ensures !r.IsZero() ==> r.Degree().value == p.Degree().value + q.Degree().value
  {
    ProductCoefficientsAt(p.coefficient, q.coefficient);
    if p.IsZero() || q.IsZero() {
      return Zero();
    }
    var result := MulInto(p.coefficient, q.coefficient);
    r := FromArray(result);
    CoefficientsDetermine(r.coefficient, ProductCoefficients(p.coefficient, q.coefficient));
  }

  /** minus: p itself when zero, otherwise every coefficient negated. */
  method Minus(p: DensePoly) returns (r: DensePoly)
    requires p.Valid()
    ensures r.Valid()
    ensures forall d :: r.Coeff(d) == -p.Coeff(d)
    ensures p.IsZero() ==> r == p
  {
    if p.IsZero() {
      return p;
    }
    NegCoefficientsAt(p.coefficient);
    var result := NegateInto(p.coefficient);
    r := FromArray(result);
  }

  /** sub: -q when p is zero, p when q is zero, otherwise p + (-q). */
  method Sub(p: DensePoly, q: DensePoly) returns (r: DensePoly)
    requires p.Valid() && q.Valid()
    ensures r.Valid()
    ensures forall d :: r.Coeff(d) == p.Coeff(d) - q.Coeff(d)
  {
    if p.IsZero() {
      r := Minus(q);
      return;
    }
    if q.IsZero() {
      return p;
    }
    var mq := Minus(q);
    r := Add(p, mq);
  }

  /** Two valid polynomials with the same coefficients are the same value. */
  lemma SameCoefficients(p: DensePoly, q: DensePoly)
    requires p.Valid() && q.Valid()
    requires forall d :: p.Coeff(d) == q.Coeff(d)
    ensures p == q
  {
    forall d ensures CoeffAt(p.coefficient, d) == CoeffAt(q.coefficient, d) {
      assert p.Coeff(d) == q.Coeff(d);
    }
    CoefficientsDetermine(p.coefficient, q.coefficient);
  }
}
