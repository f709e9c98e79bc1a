/**
 * The coefficient arrays shared by both DensePoly versions (h10 and h11):
 * the specification of a polynomial as its coefficient sequence, where entry
 * i is the coefficient of x^i and a valid sequence has no trailing zero, and
 * the loops of the two classes that fill local arrays (trimming, addition,
 * multiplication, negation), proved against that specification. Java's int
 * overflow is not modelled.
 */
module PolyCoefficients {

  // ---------------------------------------------------------------------------
  // Specification

  /** coeff(d): the coefficient of x^d, 0 outside the array. */
  function CoeffAt(s: seq<int>, d: int): int {
    if 0 <= d < |s| then s[d] else 0
  }

  /** The representation invariant: empty, or the last coefficient is non-zero. */
  predicate NoTrailingZero(s: seq<int>) {
    s == [] || s[|s| - 1] != 0
  }

  /** The sequence with its trailing zeros removed. */
  function Trimmed(s: seq<int>): (t: seq<int>)
    ensures |t| <= |s| && t == s[..|t|]
  {
    if s == [] || s[|s| - 1] != 0 then s else Trimmed(s[..|s| - 1])
  }

  /** Trimming yields a valid sequence with the same coefficient for every exponent. */
  lemma {:induction false} TrimmedCoefficients(s: seq<int>)
    ensures NoTrailingZero(Trimmed(s))
    ensures forall d :: CoeffAt(Trimmed(s), d) == CoeffAt(s, d)
  {
    if s != [] && s[|s| - 1] == 0 {
      TrimmedCoefficients(s[..|s| - 1]);
    }
  }

  /** Two valid sequences with the same coefficients everywhere are the same sequence. */
  lemma CoefficientsDetermine(a: seq<int>, b: seq<int>)
    requires NoTrailingZero(a) && NoTrailingZero(b)
    requires forall d :: CoeffAt(a, d) == CoeffAt(b, d)
    ensures a == b
  {
    assert CoeffAt(a, |b| - 1) == CoeffAt(b, |b| - 1);
    assert CoeffAt(a, |a| - 1) == CoeffAt(b, |a| - 1);
    forall i | 0 <= i < |a| ensures a[i] == b[i] {
      assert CoeffAt(a, i) == CoeffAt(b, i);
    }
  }

  /** A valid sequence is its own trimmed form. */
  lemma TrimmedValid(s: seq<int>)
    requires NoTrailingZero(s)
    ensures Trimmed(s) == s
  {
  }

  function Max(a: nat, b: nat): nat {
    if a >= b then a else b
  }

  /** The coefficients of p + q. */
  function SumCoefficients(p: seq<int>, q: seq<int>): seq<int> {
    Trimmed(seq(Max(|p|, |q|), k => CoeffAt(p, k) + CoeffAt(q, k)))
  }

  /** The coefficients of -p. */
  function NegCoefficients(p: seq<int>): seq<int> {
    seq(|p|, k requires 0 <= k < |p| => -p[k])
  }

  /** Σ_{i < n} p_i · q_{k-i}: the first n rows of the convolution at exponent k. */
  function PartialConv(p: seq<int>, q: seq<int>, n: nat, k: int): int
    requires n <= |p|
  {
    if n == 0 then 0 else PartialConv(p, q, n - 1, k) + p[n - 1] * CoeffAt(q, k - (n - 1))
  }

  /** The coefficient of x^k in p · q: Σ_{i + j = k} p_i · q_j. */
  function Conv(p: seq<int>, q: seq<int>, k: int): int {
    PartialConv(p, q, |p|, k)
  }

  /** The coefficients of p · q. */
  function ProductCoefficients(p: seq<int>, q: seq<int>): seq<int> {
    if p == [] || q == [] then []
    else Trimmed(seq(|p| + |q| - 1, k => Conv(p, q, k)))
  }

  // ---------------------------------------------------------------------------
  // Laws of the specification

  /** Addition works coefficient by coefficient and yields a valid sequence. */
  lemma SumCoefficientsAt(p: seq<int>, q: seq<int>)
    ensures NoTrailingZero(SumCoefficients(p, q))
    ensures forall d :: CoeffAt(SumCoefficients(p, q), d) == CoeffAt(p, d) + CoeffAt(q, d)
  {
    var s := seq(Max(|p|, |q|), k => CoeffAt(p, k) + CoeffAt(q, k));
    TrimmedCoefficients(s);
    forall d ensures CoeffAt(s, d) == CoeffAt(p, d) + CoeffAt(q, d) {
    }
  }

  /** Negation works coefficient by coefficient and keeps the invariant. */
  lemma NegCoefficientsAt(p: seq<int>)
    requires NoTrailingZero(p)
    ensures NoTrailingZero(NegCoefficients(p))
    ensures forall d :: CoeffAt(NegCoefficients(p), d) == -CoeffAt(p, d)
  {
  }

  /** Addition is commutative. */
  lemma SumCommutes(p: seq<int>, q: seq<int>)
    ensures SumCoefficients(p, q) == SumCoefficients(q, p)
  {
    SumCoefficientsAt(p, q);
    SumCoefficientsAt(q, p);
    CoefficientsDetermine(SumCoefficients(p, q), SumCoefficients(q, p));
  }

  /** Addition is associative. */
  lemma SumAssociates(p: seq<int>, q: seq<int>, r: seq<int>)
    ensures SumCoefficients(SumCoefficients(p, q), r) == SumCoefficients(p, SumCoefficients(q, r))
  {
    SumCoefficientsAt(p, q);
    SumCoefficientsAt(q, r);
    SumCoefficientsAt(SumCoefficients(p, q), r);
    SumCoefficientsAt(p, SumCoefficients(q, r));
    CoefficientsDetermine(SumCoefficients(SumCoefficients(p, q), r),
                          SumCoefficients(p, SumCoefficients(q, r)));
  }

  /** The zero polynomial is the identity of addition. */
  lemma SumZero(p: seq<int>)
    requires NoTrailingZero(p)
    ensures SumCoefficients([], p) == p && SumCoefficients(p, []) == p
  {
    SumCoefficientsAt([], p);
    SumCoefficientsAt(p, []);
    CoefficientsDetermine(SumCoefficients([], p), p);
    CoefficientsDetermine(SumCoefficients(p, []), p);
  }

  /** p + (-p) is the zero polynomial, and negation is an involution. */
  lemma SumNeg(p: seq<int>)
    requires NoTrailingZero(p)
    ensures SumCoefficients(p, NegCoefficients(p)) == []
    ensures NegCoefficients(NegCoefficients(p)) == p
  {
    NegCoefficientsAt(p);
    SumCoefficientsAt(p, NegCoefficients(p));
    CoefficientsDetermine(SumCoefficients(p, NegCoefficients(p)), []);
  }

  /** Rows of the convolution that only reach exponents outside q contribute nothing. */
  lemma {:induction false} PartialConvVanishes(p: seq<int>, q: seq<int>, n: nat, k: int)
    requires n <= |p|
    requires q == [] || k < 0 || k >= n + |q| - 1
    ensures PartialConv(p, q, n, k) == 0
  {
    if n > 0 {
      PartialConvVanishes(p, q, n - 1, k);
    }
  }

  /** The top coefficient of p · q is the product of the top coefficients. */
  lemma ConvLeading(p: seq<int>, q: seq<int>)
    requires p != [] && q != []
    ensures Conv(p, q, |p| + |q| - 2) == p[|p| - 1] * q[|q| - 1]
  {
    PartialConvVanishes(p, q, |p| - 1, |p| + |q| - 2);
  }

  /** The product of non-zero integers is non-zero. */
  lemma ProductNonZero(a: int, b: int)
    requires a != 0 && b != 0
    ensures a * b != 0
  {
  }

  /**
   * Multiplication: the coefficients are the convolution, zero absorbs, and
   * the degree of a product of non-zero polynomials is the sum of the degrees.
   */
  lemma ProductCoefficientsAt(p: seq<int>, q: seq<int>)
    requires NoTrailingZero(p) && NoTrailingZero(q)
    ensures NoTrailingZero(ProductCoefficients(p, q))
    ensures forall k :: CoeffAt(ProductCoefficients(p, q), k) == Conv(p, q, k)
    ensures ProductCoefficients(p, q) == [] <==> p == [] || q == []
    ensures p != [] && q != [] ==> |ProductCoefficients(p, q)| == |p| + |q| - 1
  {
    if p != [] && q != [] {
      var s := seq(|p| + |q| - 1, k => Conv(p, q, k));
      ConvLeading(p, q);
      ProductNonZero(p[|p| - 1], q[|q| - 1]);
      TrimmedValid(s);
      forall k ensures CoeffAt(s, k) == Conv(p, q, k) {
        if k < 0 || k >= |p| + |q| - 1 {
          PartialConvVanishes(p, q, |p|, k);
        }
      }
    } else if p == [] {
      forall k ensures Conv(p, q, k) == 0 {
      }
    } else {
      forall k ensures Conv(p, q, k) == 0 {
        PartialConvVanishes(p, q, |p|, k);
      }
    }
  }

  // ---------------------------------------------------------------------------
  // The loops over local arrays

  /**
   * The trimming loop of the array constructor (h10) and of ofCoefficients
   * (h11): walk `degree` down past the trailing zeros, then copy the prefix.
   */
  method TrimCopy(a: array<int>) returns (c: seq<int>)
    ensures c == Trimmed(a[..])
  {
    var degree := a.Length - 1;
    assert a[..degree + 1] == a[..];
    while degree >= 0 && a[degree] == 0
      invariant -1 <= degree < a.Length
      invariant Trimmed(a[..degree + 1]) == Trimmed(a[..])
    {
      assert a[..degree + 1][..degree] == a[..degree];
      degree := degree - 1;
    }
    c := a[..degree + 1];
  }

  /**
   * The two loops of add: the shared exponents summed, then the rest of the
   * larger polynomial copied.
   */
  method AddInto(smaller: seq<int>, larger: seq<int>) returns (result: array<int>)
    requires |smaller| <= |larger|
    ensures fresh(result)
    ensures result[..] == seq(|larger|, k => CoeffAt(smaller, k) + CoeffAt(larger, k))
  {
    result := new int[|larger|](_ => 0);
    var i := 0;
    while i < |smaller|
      invariant 0 <= i <= |smaller|
      invariant forall k :: 0 <= k < i ==> result[k] == smaller[k] + larger[k]
    {
      result[i] := smaller[i] + larger[i];
      i := i + 1;
    }
    var j := i;
    while j < |larger|
      invariant i <= j <= |larger|
      invariant forall k :: 0 <= k < |smaller| ==> result[k] == smaller[k] + larger[k]
      invariant forall k :: |smaller| <= k < j ==> result[k] == larger[k]
    {
      result[j] := larger[j];
      j := j + 1;
    }
  }

  /** The nested loops of mul: every p_i · q_j added into result[i + j]. */
  method MulInto(p: seq<int>, q: seq<int>) returns (result: array<int>)
    requires p != [] && q != []
    ensures fresh(result)
    ensures result[..] == seq(|p| + |q| - 1, k => Conv(p, q, k))
  {
    result := new int[|p| + |q| - 1](_ => 0);
    for i := 0 to |p|
      invariant forall k :: 0 <= k < result.Length ==> result[k] == PartialConv(p, q, i, k)
    {
      for j := 0 to |q|
        invariant forall k :: 0 <= k < result.Length ==>
          result[k] == PartialConv(p, q, i, k) + (if i <= k < i + j then p[i] * q[k - i] else 0)
      {
        result[i + j] := result[i + j] + p[i] * q[j];
      }
    }
  }

  /** The loop of minus: every coefficient negated. */
  method NegateInto(p: seq<int>) returns (result: array<int>)
    ensures fresh(result)
    ensures result[..] == NegCoefficients(p)
  {
    result := new int[|p|](_ => 0);
    for i := 0 to |p|
      invariant forall k :: 0 <= k < i ==> result[k] == -p[k]
    {
      result[i] := -p[i];
    }
  }
}
