/** Conversion and comparison stated over the digits of the texts, with every decimal
    of a rate, an amount or a factor counting (amounts.go). */
module ConversionTexts {
  import opened Wrappers
  import opened Decimals
  import opened Rationals
  import opened Amounts
  import opened Conversion
  import opened Comparison
  import opened Rounding

  /** `x` is `c / p`. */
  predicate IsQuotient(x: real, c: int, p: int) {
    x * p as real == c as real
  }

  lemma QuotientExactly(x: real, c: int, p: int)
    requires p >= 1
    ensures x == c as real / p as real <==> IsQuotient(x, c, p)
  {
    var y := c as real / p as real;
    DivMul(c as real, p as real);
    if IsQuotient(x, c, p) {
      assert (x - y) * p as real == 0.0;
    }
  }

  lemma SignOfQuotient(x: real, c: int, p: int)
    requires p >= 1 && IsQuotient(x, c, p)
    ensures (x > 0.0 <==> c > 0) && (x == 0.0 <==> c == 0) && (x < 0.0 <==> c < 0)
  {
  }

  /** The number that the digits of a strict decimal denote. */
  predicate DigitsSay(s: string, x: real) {
    DecimalShape(s) && IsQuotient(x, ReadDecimal(s).coefficient, Pow10(ReadDecimal(s).places))
  }

  /** A text is read as a number exactly when it is a strict decimal, and then the
      number is its digits over the power of ten of its decimals, of which all count. */
  lemma AmountReadsDigits(s: string, x: real)
    ensures ParseAmount(s) == Success(x) <==> DigitsSay(s, x)
    ensures ParseAmount(s).Success? <==> DecimalShape(s)
  {
    StrictExpressionIsShape(s);
    if DecimalShape(s) {
      QuotientExactly(x, ReadDecimal(s).coefficient, Pow10(ReadDecimal(s).places));
    }
  }

  lemma SignOfDigits(s: string, x: real)
    requires DigitsSay(s, x)
    ensures (x > 0.0 <==> ReadDecimal(s).coefficient > 0) && (x == 0.0 <==> ReadDecimal(s).coefficient == 0)
  {
    SignOfQuotient(x, ReadDecimal(s).coefficient, Pow10(ReadDecimal(s).places));
  }

  lemma NoRateErrors(s: string)
    requires ParseAmount(s).Failure?
    ensures ParseAmount(s).error != ZeroRate && ParseAmount(s).error != NegativeRate
  {
  }

  /** An exchange rate is a strict decimal above zero; any other is refused by name. */
  lemma RateReadsDigits(rate: string)
    ensures ParseExchangeRate(rate).Success? <==> DecimalShape(rate) && ReadDecimal(rate).coefficient > 0
    ensures ParseExchangeRate(rate) == Failure(ZeroRate) <==> DecimalShape(rate) && ReadDecimal(rate).coefficient == 0
    ensures ParseExchangeRate(rate) == Failure(NegativeRate) <==> DecimalShape(rate) && ReadDecimal(rate).coefficient < 0
    ensures ParseExchangeRate(rate).Success? ==> DigitsSay(rate, ParseExchangeRate(rate).value)
  {
    AmountReadsDigits(rate, 0.0);
    if DecimalShape(rate) {
      AmountReadsDigits(rate, ParseAmount(rate).value);
      SignOfDigits(rate, ParseAmount(rate).value);
    } else {
      NoRateErrors(rate);
    }
  }

  // ------------------------------------------------------------ conversion

  lemma ScaledBy(x: real, y: real, p: real)
    requires p >= 1.0
    ensures x <= y <==> x * p <= y * p
    ensures x == y <==> x * p == y * p
  {
    if x < y {
      assert (y - x) * p > 0.0;
    } else if y < x {
      assert (x - y) * p > 0.0;
    }
  }

  lemma ScaledHalf(e: real, p: real, d: real)
    requires p >= 1.0 && d == e * p
    ensures -0.5 <= e <= 0.5 ==> -p <= 2.0 * d <= p
    ensures 2.0 * d == p <==> e == 0.5
    ensures 2.0 * d == -p <==> e == -0.5
  {
    ScaledBy(-0.5, e, p);
    ScaledBy(e, 0.5, p);
  }

  lemma DistanceScaled(a: real, z: int, x: int, p: int, d: real)
    requires IsQuotient(a, x, p) && d == (z as real - a) * p as real
    ensures d == (z * p - x) as real
  {
  }

  lemma NearWithin(d: real, e: int, p: int)
    requires d == e as real
    ensures -(p as real) <= 2.0 * d <= p as real ==> -p <= 2 * e <= p
    ensures 2.0 * d == p as real <==> 2 * e == p
    ensures 2.0 * d == -(p as real) <==> 2 * e == -p
  {
  }

  /** A nearest integer to a quotient of integers, without the quotient. */
  lemma NearestOfQuotient(a: real, z: int, x: int, p: int)
    requires p >= 1 && IsQuotient(a, x, p) && NearestAwayFromZero(a, z)
    ensures NearRatio(z, x, p)
  {
    SignOfQuotient(a, x, p);
    var d := (z as real - a) * p as real;
    DistanceScaled(a, z, x, p, d);
    ScaledHalf(z as real - a, p as real, d);
    NearWithin(d, z * p - x, p);
  }

  lemma ProductOfRate(n: int, q: real, c: int, p: int)
    requires IsQuotient(q, c, p)
    ensures IsQuotient(n as real * q, n * c, p)
  {
    assert (n as real * q) * p as real == n as real * (q * p as real);
  }

  /** `y` is a text of seven decimals that denotes `x / p` units of 10^-7, rounded to
      the nearest, ties away from zero. */
  predicate IsNearestUnits(y: string, x: int, p: int) {
    DecimalShape(y) && ReadDecimal(y).places == 7 && NearRatio(ReadDecimal(y).coefficient, x, p)
  }

  lemma OutsideUnits(xlmAmount: string, rate: string, n: int, q: real)
    requires ParseStellarAmount(xlmAmount) == Success(n) && ParseExchangeRate(rate) == Success(q) && DigitsSay(rate, q)
    ensures XlmToOutside(xlmAmount, rate).Success?
    ensures IsNearestUnits(XlmToOutside(xlmAmount, rate).value,
      n * ReadDecimal(rate).coefficient, Pow10(ReadDecimal(rate).places))
  {
    var y := XlmToOutside(xlmAmount, rate).value;
    ProductOfRate(n, q, ReadDecimal(rate).coefficient, Pow10(ReadDecimal(rate).places));
    XlmToOutsideIsNearest(xlmAmount, rate, n, q);
    NearestOfQuotient(n as real * q, ReadDecimal(y).coefficient, n * ReadDecimal(rate).coefficient, Pow10(ReadDecimal(rate).places));
  }

  lemma WorthIsParsed(s: string, n: int)
    requires ParseStellarAmount(s).Success? && IsWorth(s, n)
    ensures ParseStellarAmount(s) == Success(n)
  {
    var v := ParseStellarAmount(s).value;
    ParseAccepts(s, v);
    WholeStroops(s);
    assert IsWorth(s, v);
  }

  /** Lumens are converted exactly when they are an amount and the rate is a strict
      decimal above zero; the result is the product rounded to seven decimals, however
      many decimals the rate has. */
  lemma XlmToOutsideByDigits(xlmAmount: string, rate: string, n: int)
    ensures XlmToOutside(xlmAmount, rate).Success? <==>
      ParseStellarAmount(xlmAmount).Success? && DecimalShape(rate) && ReadDecimal(rate).coefficient > 0
    ensures XlmToOutside(xlmAmount, rate).Success? && IsWorth(xlmAmount, n) ==>
      IsNearestUnits(XlmToOutside(xlmAmount, rate).value,
        n * ReadDecimal(rate).coefficient, Pow10(ReadDecimal(rate).places))
  {
    RateReadsDigits(rate);
    if XlmToOutside(xlmAmount, rate).Success? && IsWorth(xlmAmount, n) {
      WorthIsParsed(xlmAmount, n);
      OutsideUnits(xlmAmount, rate, n, ParseExchangeRate(rate).value);
    }
  }

  lemma ProductsOfFour(y: real, q: real, p: real, r: real)
    ensures y * (q * r) * p == (y * q) * p * r
  {
  }

  lemma TenMillionTimes(y: real, d: real, p: real, z: real)
    requires y * d * p == z
    ensures (y * 10_000_000.0) * (d * p) == z * 10_000_000.0
  {
  }

  lemma IntegerProducts(c: int, r: int, d: int, p: int)
    ensures (d * p) as real == d as real * p as real
    ensures (c * r * 10_000_000) as real == c as real * r as real * 10_000_000.0
  {
  }

  lemma QuotientOfRates(x: real, q: real, c: int, p: int, d: int, r: int)
    requires IsQuotient(x, c, p) && IsQuotient(q, d, r) && q > 0.0
    ensures IsQuotient(x / q * UNITS, c * r * 10_000_000, d * p)
  {
    var y := x / q;
    DivMul(x, q);
    ProductsOfFour(y, q, p as real, r as real);
    TenMillionTimes(y, d as real, p as real, c as real * r as real);
    IntegerProducts(c, r, d, p);
  }

  lemma PositiveProduct(x: int, y: int)
    requires x >= 1 && y >= 1
    ensures x * y >= 1
  {
  }

  lemma LumenUnits(outsideAmount: string, rate: string, x: real, q: real)
    requires ParseAmount(outsideAmount) == Success(x) && DigitsSay(outsideAmount, x)
    requires ParseExchangeRate(rate) == Success(q) && DigitsSay(rate, q) && ReadDecimal(rate).coefficient > 0
    ensures OutsideToXlm(outsideAmount, rate).Success?
    ensures IsNearestUnits(OutsideToXlm(outsideAmount, rate).value,
      ReadDecimal(outsideAmount).coefficient * Pow10(ReadDecimal(rate).places) * 10_000_000,
      ReadDecimal(rate).coefficient * Pow10(ReadDecimal(outsideAmount).places))
  {
    var y, d, r := OutsideToXlm(outsideAmount, rate).value, ReadDecimal(outsideAmount), ReadDecimal(rate);
    OutsideToXlmIsNearest(outsideAmount, rate, x, q);
    RateIsPositive(rate, q);
    QuotientOfRates(x, q, d.coefficient, Pow10(d.places), r.coefficient, Pow10(r.places));
    PositiveProduct(r.coefficient, Pow10(d.places));
    NearestOfQuotient(x / q * UNITS, ReadDecimal(y).coefficient,
      d.coefficient * Pow10(r.places) * 10_000_000, r.coefficient * Pow10(d.places));
  }

  /** Any strict decimal is converted to lumens at a rate above zero; the result is the
      quotient rounded to seven decimals, all decimals of both texts counting. */
  lemma OutsideToXlmByDigits(outsideAmount: string, rate: string)
    ensures OutsideToXlm(outsideAmount, rate).Success? <==>
      DecimalShape(outsideAmount) && DecimalShape(rate) && ReadDecimal(rate).coefficient > 0
    ensures OutsideToXlm(outsideAmount, rate).Success? ==>
      IsNearestUnits(OutsideToXlm(outsideAmount, rate).value,
        ReadDecimal(outsideAmount).coefficient * Pow10(ReadDecimal(rate).places) * 10_000_000,
        ReadDecimal(rate).coefficient * Pow10(ReadDecimal(outsideAmount).places))
  {
    RateReadsDigits(rate);
    AmountReadsDigits(outsideAmount, 0.0);
    if OutsideToXlm(outsideAmount, rate).Success? {
      AmountReadsDigits(outsideAmount, ParseAmount(outsideAmount).value);
      LumenUnits(outsideAmount, rate, ParseAmount(outsideAmount).value, ParseExchangeRate(rate).value);
    }
  }

  /** A rate that is none is reported before the amount is looked at. */
  lemma BadRateComesFirst(amount: string, rate: string)
    requires ParseExchangeRate(rate).Failure?
    ensures XlmToOutside(amount, rate) == Failure(ParseExchangeRate(rate).error)
    ensures OutsideToXlm(amount, rate) == Failure(ParseExchangeRate(rate).error)
  {
  }

  // ------------------------------------------------------------ comparison

  /** `x` is at most `c / p`. */
  predicate AtMostQuotient(x: real, c: int, p: int) {
    x * p as real <= c as real
  }

  lemma BelowQuotient(x: real, f: real, c: int, p: int)
    requires p >= 1 && IsQuotient(f, c, p)
    ensures x <= f <==> AtMostQuotient(x, c, p)
  {
    ScaledBy(x, f, p as real);
  }

  /** Two amounts can be compared exactly when both are amounts and the factor is a
      strict decimal not below zero. */
  lemma ComparedExactly(amount1: string, amount2: string, maxFactor: string)
    ensures WithinFactorOfTexts(amount1, amount2, maxFactor).Success? <==>
      && ParseStellarAmount(amount1).Success? && ParseStellarAmount(amount2).Success?
      && DecimalShape(maxFactor) && ReadDecimal(maxFactor).coefficient >= 0
  {
    AmountReadsDigits(maxFactor, 0.0);
    if DecimalShape(maxFactor) {
      AmountReadsDigits(maxFactor, ParseAmount(maxFactor).value);
      SignOfDigits(maxFactor, ParseAmount(maxFactor).value);
    }
  }

  lemma ComparedAsParsed(amount1: string, amount2: string, maxFactor: string, a: int, b: int)
    requires WithinFactorOfTexts(amount1, amount2, maxFactor).Success? && IsWorth(amount1, a) && IsWorth(amount2, b)
    ensures ParseAmount(maxFactor).Success?
    ensures WithinFactorOfTexts(amount1, amount2, maxFactor).value == WithinFactor(a, b, ParseAmount(maxFactor).value)
  {
    WorthIsParsed(amount1, a);
    WorthIsParsed(amount2, b);
  }

  /** The answer is yes for two zeros, and no for a single one. */
  lemma ZerosCompared(amount1: string, amount2: string, maxFactor: string, a: int, b: int)
    requires WithinFactorOfTexts(amount1, amount2, maxFactor).Success? && IsWorth(amount1, a) && IsWorth(amount2, b)
    requires a == 0 || b == 0
    ensures WithinFactorOfTexts(amount1, amount2, maxFactor).value == (a == b)
  {
    ComparedAsParsed(amount1, amount2, maxFactor, a, b);
  }

  /** Otherwise it is yes exactly when one of the two quotients of the comment is at
      most the factor, read to its last decimal. */
  lemma QuotientsCompared(amount1: string, amount2: string, maxFactor: string, a: int, b: int, x: real, y: real)
    requires WithinFactorOfTexts(amount1, amount2, maxFactor).Success? && IsWorth(amount1, a) && IsWorth(amount2, b)
    requires a != 0 && b != 0 && IsQuotient(x, a - b, a) && IsQuotient(y, a - b, b)
    ensures DecimalShape(maxFactor)
    ensures var c, p := ReadDecimal(maxFactor).coefficient, Pow10(ReadDecimal(maxFactor).places);
      WithinFactorOfTexts(amount1, amount2, maxFactor).value ==
        (AtMostQuotient(if x < 0.0 then -x else x, c, p) || AtMostQuotient(if y < 0.0 then -y else y, c, p))
  {
    ComparedAsParsed(amount1, amount2, maxFactor, a, b);
    var f, d := ParseAmount(maxFactor).value, ReadDecimal(maxFactor);
    AmountReadsDigits(maxFactor, f);
    BelowQuotient(AbsReal(x), f, d.coefficient, Pow10(d.places));
    BelowQuotient(AbsReal(y), f, d.coefficient, Pow10(d.places));
    QuotientsDecide(a, b, f, x, y);
  }

  /** The refusals of a comparison in their order: the first amount, the second, the
      factor, and a factor below zero. */
  lemma ComparisonRefusals(amount1: string, amount2: string, maxFactor: string)
    requires WithinFactorOfTexts(amount1, amount2, maxFactor).Failure?
    ensures var e := WithinFactorOfTexts(amount1, amount2, maxFactor).error;
      e == (if ParseStellarAmount(amount1).Failure? then ParseStellarAmount(amount1).error
            else if ParseStellarAmount(amount2).Failure? then ParseStellarAmount(amount2).error
            else if ParseAmount(maxFactor).Failure? then ParseAmount(maxFactor).error
            else NegativeFactor)
  {
  }
}
