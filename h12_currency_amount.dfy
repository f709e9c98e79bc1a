/**
 * h12 CurrencyAmount: an immutable amount of money, positive or negative,
 * stored as a whole number of cents (3.24 is 324). Java's int overflow in the
 * arithmetic is not modelled.
 */
module CurrencyAmounts {
  import opened Wrappers
  import opened JavaInt
  import opened JavaString

  datatype CurrencyAmount = CurrencyAmount(amount: int) {

    /** sign(): 1, 0 or -1 as the stored cents are positive, zero or negative. */
    function Sign(): (s: int)
      ensures s == -1 || s == 0 || s == 1
      ensures s == 0 <==> amount == 0
      ensures s == -1 <==> amount < 0
    {
      if amount == 0 then 0 else if amount < 0 then -1 else 1
    }

    /** cents(): |amount % 100| with Java's truncating remainder. */
    function Cents(): nat {
      Abs(Rem(amount, 100))
    }

    /** units(): |amount / 100| with Java's truncating division. */
    function Units(): nat {
      Abs(Div(amount, 100))
    }

    /** somma: the sum of the stored cents. */
    function Somma(other: CurrencyAmount): CurrencyAmount {
      CurrencyAmount(amount + other.amount)
    }

    /** sottrai: the difference of the stored cents; it never fails. */
    function Sottrai(other: CurrencyAmount): CurrencyAmount {
      CurrencyAmount(amount - other.amount)
    }

    /** toString: an optional "-", the units, a dot and the cents on two digits. */
    function ToString(): string {
      (if amount < 0 then "-" else "") + Rendering(Units(), Cents())
    }
  }

  /** The constant ZERO. */
  const ZERO := CurrencyAmount(0)

  /** equals: the stored cents are equal. */
  predicate Equals(a: CurrencyAmount, b: CurrencyAmount) {
    a.amount == b.amount
  }

  /** The part of `toString` after the sign: String.format("%d.%02d", u, c). */
  function Rendering(u: nat, c: nat): string {
    ValueOf(u) + "." + TwoDigits(c)
  }

  /** String.format("%02d", c) for a non-negative c: padded with a zero to two characters. */
  function TwoDigits(c: nat): string {
    if c < 10 then "0" + ValueOf(c) else ValueOf(c)
  }

  /**
   * The units and cents of an amount put back together give its magnitude,
   * the cents below 100; with the sign they give the amount back.
   */
  lemma UnitsAndCents(a: CurrencyAmount)
    ensures a.Cents() < 100
    ensures a.Units() * 100 + a.Cents() == Abs(a.amount)
    ensures a.amount == a.Sign() * (a.Units() * 100 + a.Cents())
  {
    if a.amount >= 0 {
      DivRemNonNegative(a.amount, 100);
    } else {
      DivRemNegative(a.amount, 100);
    }
  }

  /** positive(units, cents): IllegalArgumentException unless units >= 0 and 0 <= cents <= 99. */
  function Positive(units: int, cents: int): (r: Result<CurrencyAmount>)
    ensures r.Failure? <==> units < 0 || cents < 0 || cents > 99
    ensures r.Failure? ==> r.error == IllegalArgument
    ensures r.Success? ==> r.value.Units() == units && r.value.Cents() == cents
                           && r.value.Sign() == (if units == 0 && cents == 0 then 0 else 1)
  {
    if units < 0 then Failure(IllegalArgument)
    else if cents < 0 || cents > 99 then Failure(IllegalArgument)
    else
      var r := CurrencyAmount(units * 100 + cents);
      SplitCents(units, cents);
      Success(r)
  }

  /** negative(units, cents): as `positive`, with the amount negated. */
  function Negative(units: int, cents: int): (r: Result<CurrencyAmount>)
    ensures r.Failure? <==> units < 0 || cents < 0 || cents > 99
    ensures r.Failure? ==> r.error == IllegalArgument
    ensures r.Success? ==> r.value.Units() == units && r.value.Cents() == cents
                           && r.value.Sign() == (if units == 0 && cents == 0 then 0 else -1)
  {
    if units < 0 then Failure(IllegalArgument)
    else if cents < 0 || cents > 99 then Failure(IllegalArgument)
    else
      var r := CurrencyAmount(-(units * 100 + cents));
      SplitCents(units, cents);
      Success(r)
  }

  /** Java's division and remainder by 100 recover units and cents, whatever the sign. */
  lemma SplitCents(units: nat, cents: nat)
    requires cents < 100
    ensures Abs(Div(units * 100 + cents, 100)) == units && Abs(Rem(units * 100 + cents, 100)) == cents
    ensures Abs(Div(-(units * 100 + cents), 100)) == units && Abs(Rem(-(units * 100 + cents), 100)) == cents
  {
    var m := units * 100 + cents;
    DivRemNonNegative(m, 100);
    if m > 0 {
      DivRemNegative(-m, 100);
      assert Div(-m, 100) == -Div(m, 100);
    }
  }

  /** The part of the input after an optional leading '-'. */
  function Body(s: string): string {
    if s != [] && s[0] == '-' then s[1..] else s
  }

  /**
   * parseCurrencyAmount: an optional leading '-', then String.split on "\\."
   * must give exactly two pieces, the second of length 2; both are read with
   * Integer.parseInt, the units must be non-negative and the cents 0..99.
   * Every failure is IllegalArgumentException.
   */
  function Parse(s: string): (r: Result<CurrencyAmount>)
    ensures r.Failure? ==> r.error == IllegalArgument
  {
    if s == [] then Failure(IllegalArgument)
    else FromParts(s[0] == '-', Split(Body(s), '.'))
  }

  /** The checks made on the pieces of the split. */
  function FromParts(negative: bool, parts: seq<string>): (r: Result<CurrencyAmount>)
    ensures r.Failure? ==> r.error == IllegalArgument
  {
    if |parts| != 2 then Failure(IllegalArgument)
    else if JavaLength(parts[1]) != 2 then Failure(IllegalArgument)
    else
      match (ParseInt(parts[0]), ParseInt(parts[1]))
      case (None, _) => Failure(IllegalArgument)
      case (_, None) => Failure(IllegalArgument)
      case (Some(units), Some(cents)) =>
        if units < 0 then Failure(IllegalArgument)
        else if cents < 0 || cents > 99 then Failure(IllegalArgument)
        else Success(CurrencyAmount((if negative then -1 else 1) * (units * 100 + cents)))
  }

  /** Two pieces that read as non-negative units and cents 0..99 give the amount. */
  lemma FromTwoParts(negative: bool, u: string, w: string, units: int, cents: int)
    requires |w| == 2 && ParseInt(u) == Some(units) && ParseInt(w) == Some(cents)
    requires units >= 0 && 0 <= cents <= 99
    ensures FromParts(negative, [u, w])
            == Success(CurrencyAmount((if negative then -1 else 1) * (units * 100 + cents)))
  {
    ParseIntLength(w);
  }

  /** The empty string and a string without a dot are rejected. */
  lemma ParseRejectsNoDot(s: string)
    requires '.' !in s
    ensures Parse(s).Failure?
  {
    if s != [] && s[0] == '-' {
      assert forall i :: 0 <= i < |s[1..]| ==> s[1..][i] == s[i + 1];
    }
  }

  /** Integer.parseInt reads back the two-digit rendering of cents. */
  lemma ParseTwoDigits(c: nat)
    requires c < 100
    ensures |TwoDigits(c)| == 2 && '.' !in TwoDigits(c) && AllDigits(TwoDigits(c))
    ensures ParseInt(TwoDigits(c)) == Some(c)
  {
    if c < 10 {
      var t := TwoDigits(c);
      DigitCharValue(0);
      DigitCharValue(c);
      assert t == ['0'] + [DigitChar(c)];
      assert ['0'] == [] + ['0'];
      DigitsValueSnoc([], '0');
      DigitsValueSnoc(['0'], DigitChar(c));
      ParseIntDigits(t);
    } else {
      assert Digits(c) == Digits(c / 10) + [DigitChar(c % 10)];
      ParseIntValueOf(c);
    }
  }

  /** The rendering of the units holds only digits. */
  lemma UnitsText(u: nat)
    requires IsInt(u)
    ensures '.' !in ValueOf(u) && ValueOf(u) != [] && IsDigit(ValueOf(u)[0])
    ensures ParseInt(ValueOf(u)) == Some(u)
  {
    ParseIntValueOf(u);
  }

  /** Prefixing "-" or nothing to a string that does not start with '-'. */
  lemma BodyAfterSign(neg: bool, body: string)
    requires body != [] && body[0] != '-'
    ensures var s := (if neg then "-" else "") + body;
            s != [] && (s[0] == '-' <==> neg) && Body(s) == body
  {
    var s := (if neg then "-" else "") + body;
    if neg {
      assert s[0] == '-' && s[1..] == body;
    } else {
      assert s == body;
    }
  }

  /** The units, a dot and the two cents digits split back into their two pieces. */
  lemma SplitRendering(u: nat, c: nat)
    requires IsInt(u) && c < 100
    ensures var body := Rendering(u, c);
            body != [] && body[0] != '-' && Split(body, '.') == [ValueOf(u), TwoDigits(c)]
  {
    var body := Rendering(u, c);
    UnitsText(u);
    ParseTwoDigits(c);
    assert body == ValueOf(u) + ['.'] + TwoDigits(c);
    SplitTwo(ValueOf(u), '.', TwoDigits(c));
    assert body[0] == ValueOf(u)[0];
  }

  /** An optional '-' before a body that splits into readable units and cents. */
  lemma ParseSigned(neg: bool, body: string, w: string, v: string, u: int, c: int)
    requires body != [] && body[0] != '-' && Split(body, '.') == [w, v]
    requires |v| == 2 && ParseInt(w) == Some(u) && ParseInt(v) == Some(c)
    requires u >= 0 && 0 <= c <= 99
    ensures Parse((if neg then "-" else "") + body)
            == Success(CurrencyAmount((if neg then -1 else 1) * (u * 100 + c)))
  {
    BodyAfterSign(neg, body);
    FromTwoParts(neg, w, v, u, c);
  }

  /** The rendering after the sign parses back to units and cents. */
  lemma ParseBody(u: nat, c: nat, neg: bool)
    requires IsInt(u) && c < 100
    ensures Parse((if neg then "-" else "") + Rendering(u, c))
            == Success(CurrencyAmount((if neg then -1 else 1) * (u * 100 + c)))
  {
    SplitRendering(u, c);
    UnitsText(u);
    ParseTwoDigits(c);
    ParseSigned(neg, Rendering(u, c), ValueOf(u), TwoDigits(c), u, c);
  }

  /** The sign applied to the magnitude gives the number back. */
  lemma SignedMagnitude(x: int, m: int)
    requires m == Abs(x)
    ensures (if x < 0 then -1 else 1) * m == x
  {
  }

  /** The amount is its sign applied to its units and cents. */
  lemma AmountFromParts(a: CurrencyAmount)
    ensures (if a.amount < 0 then -1 else 1) * (a.Units() * 100 + a.Cents()) == a.amount
  {
    var m: int := a.Units() * 100 + a.Cents();
    UnitsAndCents(a);
    SignedMagnitude(a.amount, m);
  }

  /** The units of an int amount fit an int, and the cents are below 100. */
  lemma PartsFit(a: CurrencyAmount)
    requires IsInt(a.amount)
    ensures IsInt(a.Units()) && a.Cents() < 100
  {
    UnitsAndCents(a);
  }

  /** The rendering of an amount made of its sign, units and cents parses back to it. */
  lemma ParseSignedParts(amount: int, u: nat, c: nat)
    requires IsInt(u) && c < 100
    requires (if amount < 0 then -1 else 1) * (u * 100 + c) == amount
    ensures Parse((if amount < 0 then "-" else "") + Rendering(u, c)) == Success(CurrencyAmount(amount))
  {
    ParseBody(u, c, amount < 0);
  }

  /** Parsing the rendering of any int amount gives an equal amount back. */
  lemma ParseToString(a: CurrencyAmount)
    requires IsInt(a.amount)
    ensures Parse(a.ToString()) == Success(a)
    ensures Equals(Parse(a.ToString()).value, a)
  {
    PartsFit(a);
    AmountFromParts(a);
    ParseSignedParts(a.amount, a.Units(), a.Cents());
  }

  /** somma is commutative and has ZERO as identity; sottrai undoes somma. */
  lemma SommaSottrai(a: CurrencyAmount, b: CurrencyAmount)
    ensures a.Somma(b) == b.Somma(a)
    ensures a.Somma(ZERO) == a
    ensures a.Somma(b).Sottrai(b) == a
  {
  }

  /**
   * sottrai does not reject a larger subtrahend: 1.00 - 2.00 is -1.00,
   * a negative amount.
   */
  lemma SottraiGoesNegative()
    ensures CurrencyAmount(100).Sottrai(CurrencyAmount(200)) == CurrencyAmount(-100)
    ensures CurrencyAmount(-100).Sign() == -1
  {
  }

  // ---------------------------------------------------------------------------
  // Parsing as written against the documented format U.C / -U.C

  /** The documented format: digits, a dot, exactly two digits. */
  predicate WellFormedBody(body: string) {
    |body| >= 4 && body[|body| - 3] == '.'
    && AllDigits(body[..|body| - 3]) && AllDigits(body[|body| - 2..])
  }

  /** "00" reads as 0 and "1" as 1. */
  lemma SmallNumerals()
    ensures ParseInt("00") == Some(0) && ParseInt("1") == Some(1)
  {
    ParseIntSmall('0', '0');
    ParseIntSmall('1', '0');
  }

  /** As written, split drops the empty piece after a trailing dot, so "1.00." parses as 1.00. */
  lemma ParseAcceptsTrailingDot()
    ensures Parse("1.00.") == Success(CurrencyAmount(100))
    ensures !WellFormedBody(Body("1.00."))
  {
    assert "1.00." == "1" + ['.'] + "00" + ['.'];
    SplitTrailingSeparator("1", '.', "00");
    SmallNumerals();
    FromTwoParts(false, "1", "00", 1, 0);
  }

  /** As written, Integer.parseInt takes a leading '+', so "1.+5" parses as 1.05. */
  lemma ParseAcceptsSignedCents()
    ensures Parse("1.+5") == Success(CurrencyAmount(105))
    ensures !WellFormedBody(Body("1.+5"))
  {
    SignedCentsPieces();
    SmallNumerals();
    PlusFive();
    FromTwoParts(false, "1", "+5", 1, 5);
    assert !IsDigit("1.+5"[2]);
  }

  /** "1.+5" has no leading '-' and splits into "1" and "+5". */
  lemma SignedCentsPieces()
    ensures Body("1.+5") == "1.+5" && Split("1.+5", '.') == ["1", "+5"]
  {
    assert "1.+5" == "1" + ['.'] + "+5";
    SplitTwo("1", '.', "+5");
  }

  /** Integer.parseInt("+5") is 5. */
  lemma PlusFive()
    ensures ParseInt("+5") == Some(5)
  {
    assert "+5"[1..] == [] + ['5'];
    DigitsValueSnoc([], '5');
  }

  /** parseCurrencyAmount with the documented format checked first. */
  function ParseStrict(s: string): (r: Result<CurrencyAmount>)
    ensures r.Failure? ==> r.error == IllegalArgument
  {
    if !WellFormedBody(Body(s)) then Failure(IllegalArgument) else Parse(s)
  }

  /** Splitting a well-formed body gives the units digits and the two cents digits. */
  lemma SplitWellFormed(body: string)
    requires WellFormedBody(body)
    ensures Split(body, '.') == [body[..|body| - 3], body[|body| - 2..]]
  {
    var k := |body| - 3;
    var u, w := body[..k], body[k + 1..];
    assert forall i :: 0 <= i < |u| ==> u[i] == body[i] && IsDigit(u[i]);
    assert forall i :: 0 <= i < |w| ==> IsDigit(w[i]);
    assert body == u + ['.'] + w;
    SplitTwo(u, '.', w);
  }

  /**
   * The strict parser accepts exactly the well-formed strings whose units fit
   * an int, and reads them as their decimal value.
   */
  lemma ParseStrictMeaning(s: string)
    ensures var body := Body(s);
            ParseStrict(s).Success? <==>
              WellFormedBody(body) && IsInt(DigitsValue(body[..|body| - 3]))
    ensures var body := Body(s);
            ParseStrict(s).Success? ==>
              ParseStrict(s).value.amount ==
                (if s[0] == '-' then -1 else 1)
                * (DigitsValue(body[..|body| - 3]) * 100 + DigitsValue(body[|body| - 2..]))
  {
    var body := Body(s);
    if WellFormedBody(body) {
      var u, w := body[..|body| - 3], body[|body| - 2..];
      SplitWellFormed(body);
      assert s != [];
      assert w == [] + [w[0]] + [w[1]];
      DigitsValueSnoc([], w[0]);
      DigitsValueSnoc([w[0]], w[1]);
      ParseIntDigits(w);
      ParseIntLength(w);
      if IsInt(DigitsValue(u)) {
        ParseIntDigits(u);
      } else {
        assert IsDigit(u[0]);
      }
    }
  }

  /** The strict parser still reads back every rendering. */
  lemma ParseStrictToString(a: CurrencyAmount)
    requires IsInt(a.amount)
    ensures ParseStrict(a.ToString()) == Success(a)
  {
    UnitsAndCents(a);
    SplitRendering(a.Units(), a.Cents());
    RenderingWellFormed(a.Units(), a.Cents());
    BodyAfterSign(a.amount < 0, Rendering(a.Units(), a.Cents()));
    ParseToString(a);
  }

  /** Every rendering has the documented format. */
  lemma RenderingWellFormed(u: nat, c: nat)
    requires IsInt(u) && c < 100
    ensures WellFormedBody(Rendering(u, c))
  {
    var body := Rendering(u, c);
    UnitsText(u);
    ParseTwoDigits(c);
    var k := |body| - 3;
    assert body[..k] == ValueOf(u) && body[k] == '.' && body[k + 1..] == TwoDigits(c);
  }
}
