/**
 * Java `int` arithmetic that differs from Dafny's: `/` and `%` truncate toward
 * zero, `Math.abs` and `Integer.signum`, and the bounds of the 32-bit range.
 * Everything else in the model uses unbounded `int`.
 */
module JavaInt {

  const MIN_INT: int := -0x8000_0000  // Integer.MIN_VALUE
  const MAX_INT: int := 0x7fff_ffff   // Integer.MAX_VALUE

  /** `x` is representable as a Java `int`. */
  predicate IsInt(x: int) {
    MIN_INT <= x <= MAX_INT
  }

  /** Math.abs, without the overflow at Integer.MIN_VALUE. */
  function Abs(x: int): nat {
    if x < 0 then -x else x
  }

  /** Integer.signum. */
  function Signum(x: int): int {
    if x < 0 then -1 else if x == 0 then 0 else 1
  }

  /** Java's `a / b`: the quotient truncated toward zero. */
  function Div(a: int, b: int): int
    requires b != 0
  {
    if a >= 0 then
      (if b > 0 then a / b else -(a / -b))
    else
      (if b > 0 then -(-a / b) else -a / -b)
  }

  /** Java's `a % b`: the remainder takes the sign of the dividend. */
  function Rem(a: int, b: int): int
    requires b != 0
  {
    a - b * Div(a, b)
  }

  /** Java's division and remainder satisfy a == b*q + r with |r| < |b|, r signed as a. */
  lemma DivRem(a: int, b: int)
    requires b != 0
    ensures a == b * Div(a, b) + Rem(a, b)
    ensures Abs(Rem(a, b)) < Abs(b)
    ensures a >= 0 ==> Rem(a, b) >= 0
    ensures a < 0 ==> Rem(a, b) <= 0
  {
  }

  /** For a non-negative dividend and a positive divisor Java and Dafny agree. */
  lemma DivRemNonNegative(a: nat, b: int)
    requires b > 0
    ensures Div(a, b) == a / b && Rem(a, b) == a % b
  {
  }

  /** Dividing a negative number truncates its magnitude. */
  lemma DivRemNegative(a: int, b: int)
    requires a < 0 && b > 0
    ensures Div(a, b) == -((-a) / b) && Rem(a, b) == -((-a) % b)
  {
  }

  /** A non-zero multiple of a positive `b` is at least b away from 0. */
  lemma MultipleBound(b: int, x: int)
    requires b > 0
    ensures x >= 1 ==> b * x >= b
    ensures x <= -1 ==> b * x <= -b
  {
    if x >= 1 {
      assert b * x == b + b * (x - 1);
    } else if x <= -1 {
      assert b * x == -b + b * (x + 1);
    }
  }

  /** A multiple of a positive `b` strictly between -b and b is 0. */
  lemma SmallMultiple(b: int, x: int)
    requires b > 0 && -b < b * x < b
    ensures x == 0
  {
    MultipleBound(b, x);
  }

  /** Dafny's `/` is exact on a multiple of a positive divisor. */
  lemma DivMultiple(q: int, b: int)
    requires b > 0
    ensures (b * q) / b == q
  {
    var a := b * q;
    var d := a / b;
    assert a == b * d + a % b;
    assert b * (q - d) == a % b;
    SmallMultiple(b, q - d);
  }

  /** Java's `/` is exact on a multiple of the divisor. */
  lemma DivExact(a: int, b: int, q: int)
    requires b != 0 && a == b * q
    ensures Div(a, b) == q
  {
    if b > 0 {
      if a >= 0 {
        DivMultiple(q, b);
      } else {
        assert -a == b * -q;
        DivMultiple(-q, b);
      }
    } else {
      if a >= 0 {
        assert a == -b * -q;
        DivMultiple(-q, -b);
      } else {
        assert -a == -b * q;
        DivMultiple(q, -b);
      }
    }
  }
}
