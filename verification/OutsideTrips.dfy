/** The opposite round trip: outside currency to lumens and back, which an amount
    survives if the lumens in between are an int64 and neither rounding loses it. */
module OutsideTrips {
  import opened Wrappers
  import opened Decimals
  import opened Rationals
  import opened Amounts
  import opened Conversion
  import opened RoundTrips

  /** Converting the outside text to lumens and back gives the rendering of `m`. */
  predicate OutsideReturns(outsideAmount: string, rate: string, m: int) {
    && OutsideToXlm(outsideAmount, rate).Success?
    && XlmToOutside(OutsideToXlm(outsideAmount, rate).value, rate) == Success(StringFromStellarAmount(m))
  }

  /** `m` units survive dividing by `q` and multiplying by it, each time rounded. */
  predicate OutsideComesBack(m: int, q: real)
    requires q > 0.0
  {
    Multiplied(Divided(m, q), q) == m
  }

  /** Dividing first is multiplying first at the inverse rate. */
  lemma InverseTrip(m: int, q: real, r: real)
    requires q > 0.0 && r > 0.0 && r == 1.0 / q
    ensures OutsideComesBack(m, q) == ComesBack(m, r)
  {
    InverseRate(m, q, r);
    InverseRate(Divided(m, q), q, r);
  }

  lemma InverseIsPositive(q: real)
    requires q > 0.0
    ensures 1.0 / q > 0.0 && (1.0 / q >= 1.0 <==> q <= 1.0)
  {
    OrderOfQuotient(1.0, 1.0, q);
    DivMul(1.0, q);
    QuotientSign(1.0, q);
  }

  /** As integers, all numbers survive exactly at rates of at most one. The code does
      not get as far with large ones: it refuses lumens outside int64. */
  lemma EveryOutsideComesBackExactly(q: real)
    requires q > 0.0
    ensures (forall m: int :: OutsideComesBack(m, q)) <==> q <= 1.0
  {
    var r := 1.0 / q;
    InverseIsPositive(q);
    EverythingComesBackExactly(r);
    forall m: int ensures OutsideComesBack(m, q) == ComesBack(m, r) {
      InverseTrip(m, q, r);
    }
    if forall m: int :: OutsideComesBack(m, q) {
      forall m: int ensures ComesBack(m, r) {
        assert OutsideComesBack(m, q);
      }
    }
  }

  lemma LumenTextReads(x: real, m: int, q: real, s: string)
    requires q > 0.0 && x * UNITS == m as real && s == XlmText(x, q)
    ensures DecimalShape(s) && ReadDecimal(s) == Decimal(Divided(m, q), AMOUNT_DIGITS)
  {
    FloatStringReads(x / q);
    ScaledQuotientRounds(x, m, q);
  }

  /** The lumen text is an amount only if it stands for an int64 number of stroops. */
  lemma LumenTextParses(s: string, n: int, k: int)
    requires DecimalShape(s) && ReadDecimal(s) == Decimal(n, AMOUNT_DIGITS)
    requires ParseStellarAmount(s) == Success(k)
    ensures k == n && IsInt64(n)
  {
    ParseAccepts(s, k);
    SameScale(n, k, AMOUNT_DIGITS);
  }

  lemma ConvertedParses(xlmAmount: string, rate: string)
    requires XlmToOutside(xlmAmount, rate).Success?
    ensures ParseStellarAmount(xlmAmount).Success?
  {
  }

  lemma ReturnMeansSurvival(s: string, rate: string, m: int, n: int, q: real)
    requires ParseExchangeRate(rate) == Success(q)
    requires DecimalShape(s) && ReadDecimal(s) == Decimal(n, AMOUNT_DIGITS)
    requires XlmToOutside(s, rate) == Success(StringFromStellarAmount(m))
    ensures IsInt64(n) && Multiplied(n, q) == m
  {
    ConvertedParses(s, rate);
    LumenTextParses(s, n, ParseStellarAmount(s).value);
    XlmToOutsideUnits(s, rate, n, q);
    UnitsOfPrinted(m);
  }

  lemma ZeroTimes(n: int, q: real)
    ensures n == 0 ==> Multiplied(n, q) == 0
  {
  }

  lemma FarFromZero(m: int, n: int, q: real)
    requires q > 0.0 && n == Divided(m, q) && Multiplied(n, q) == m
    ensures m as real / q >= 0.0 || m as real / q <= -0.5
    ensures n as real * q >= 0.0 || n as real * q <= -0.5
  {
    if m == 0 {
      QuotientIs(0.0, m as real, q);
    } else {
      ZeroTimes(n, q);
      ProductFarFromZero(n, q);
      QuotientFarFromZero(m, q);
    }
  }

  lemma SurvivalMeansReturn(rate: string, m: int, n: int, q: real)
    requires ParseExchangeRate(rate) == Success(q) && q > 0.0 && n == Divided(m, q)
    requires IsInt64(n) && Multiplied(n, q) == m
    ensures XlmToOutside(XlmText(m as real / UNITS, q), rate) == Success(StringFromStellarAmount(m))
  {
    FarFromZero(m, n, q);
    XlmTextPrints(m, q);
    ParseInvertsPrint(n);
    OutsideTextPrintsFar(n, q);
  }

  /** One outside amount of at most seven decimals returns exactly when the lumens in
      between are an int64 amount and its units survive both roundings. */
  lemma OutsideReturnsExactly(outsideAmount: string, rate: string, m: int, n: int, q: real)
    requires ParseAmount(outsideAmount) == Success(m as real / UNITS)
    requires ParseExchangeRate(rate) == Success(q) && q > 0.0 && n == Divided(m, q)
    ensures OutsideReturns(outsideAmount, rate, m) <==> IsInt64(n) && Multiplied(n, q) == m
  {
    DivMul(m as real, UNITS);
    UnitsOfQuotient(outsideAmount, m as real / UNITS, m, rate, q);
    LumenTextReads(m as real / UNITS, m, q, XlmText(m as real / UNITS, q));
    if OutsideReturns(outsideAmount, rate, m) {
      ReturnMeansSurvival(XlmText(m as real / UNITS, q), rate, m, n, q);
    } else if IsInt64(n) && Multiplied(n, q) == m {
      SurvivalMeansReturn(rate, m, n, q);
    }
  }

  // ------------------------------------- all the amounts that are not refused

  function LumenLimit(): real {
    -MIN_INT64 as real + 0.5
  }

  /** The largest number of units whose lumens do not exceed 2^63 stroops: the last
      one below (2^63 + 1/2) * q. */
  function LargestOutside(q: real): int {
    -((-(LumenLimit() * q)).Floor) - 1
  }

  /** Multiplying by the rate adds less than half a unit to `m`. */
  predicate OutsideSafe(m: int, q: real) {
    2.0 * (m as real * q - m as real) < 1.0
  }

  lemma FloorBelow(m: int, x: real)
    ensures m <= -((-x).Floor) - 1 <==> m as real < x
  {
  }

  lemma LargestIsLast(m: nat, q: real)
    requires q > 0.0
    ensures Divided(m, q) <= -MIN_INT64 <==> m <= LargestOutside(q)
  {
    OrderOfQuotient(m as real, LumenLimit(), q);
    FloorBelow(m, LumenLimit() * q);
    QuotientSign(m as real, q);
  }

  lemma LargestIsNatural(q: real)
    requires q > 0.0
    ensures LargestOutside(q) >= 0
  {
    FloorBelow(0, LumenLimit() * q);
  }

  lemma DividedIsOdd(m: int, n: int, q: real)
    requires q > 0.0 && n == -m
    ensures Divided(n, q) == -Divided(m, q)
  {
    DivMul(m as real, q);
    QuotientIs(-(m as real / q), n as real, q);
    RoundIsOdd(m as real / q);
  }

  lemma DividedKeepsSign(m: int, q: real)
    requires q > 0.0
    ensures m <= 0 ==> Divided(m, q) <= 0
  {
    if m < 0 {
      QuotientSign((-m) as real, q);
      DividedIsOdd(-m, m, q);
      RoundKeepsSign((-m) as real / q);
    } else if m == 0 {
      QuotientIs(0.0, m as real, q);
    }
  }

  /** Lumens in int64 come from amounts up to the largest, and all negative ones down
      to its opposite have such lumens. */
  lemma RefusedBeyondLargest(m: int, q: real)
    requires q > 0.0
    ensures IsInt64(Divided(m, q)) ==> -LargestOutside(q) <= m <= LargestOutside(q)
    ensures -LargestOutside(q) <= m <= 0 ==> IsInt64(Divided(m, q))
  {
    if m >= 0 {
      LargestIsLast(m, q);
    } else {
      LargestIsLast(-m, q);
      DividedIsOdd(-m, m, q);
    }
    DividedKeepsSign(m, q);
  }

  lemma TimesRate(x: real, q: real, r: real)
    requires q > 0.0 && r * q == 1.0
    ensures 2.0 * (x - x * r) < r <==> 2.0 * (x * q - x) < 1.0
  {
    var d := r - 2.0 * (x - x * r);
    assert d * q == 1.0 - 2.0 * (x * q - x) by {
      assert (x * r) * q == x * (r * q);
    }
    assert d > 0.0 <==> d * q > 0.0;
  }

  lemma SafeAtInverse(m: int, q: real, r: real)
    requires q > 0.0 && r > 0.0 && r == 1.0 / q
    ensures Safe(m, r) <==> OutsideSafe(m, q)
  {
    DivMul(1.0, q);
    TimesRate(m as real, q, r);
  }

  lemma AcceptedComesBack(m: int, q: real)
    requires q > 0.0 && OutsideSafe(LargestOutside(q), q) && IsInt64(Divided(m, q))
    ensures OutsideComesBack(m, q)
  {
    var r := 1.0 / q;
    InverseIsPositive(q);
    SafeAtInverse(LargestOutside(q), q, r);
    RefusedBeyondLargest(m, q);
    WithinComesBack(m, LargestOutside(q), r);
    InverseTrip(m, q, r);
  }

  lemma SomeOutsideIsLost(q: real) returns (m: int)
    requires q > 0.0 && !OutsideSafe(LargestOutside(q), q)
    ensures IsInt64(Divided(m, q)) && !OutsideComesBack(m, q)
  {
    var r := 1.0 / q;
    InverseIsPositive(q);
    SafeAtInverse(LargestOutside(q), q, r);
    LargestIsNatural(q);
    var n := SomeUnsafeIsLost(LargestOutside(q), r);
    m := -n;
    RefusedBeyondLargest(m, q);
    InverseTrip(m, q, r);
  }

  /** All numbers of units whose lumens are not refused come back exactly when the
      rate adds less than half a unit to the largest of them. */
  lemma AllOutsideComeBackExactly(q: real)
    requires q > 0.0
    ensures (forall m: int :: IsInt64(Divided(m, q)) ==> OutsideComesBack(m, q)) <==> OutsideSafe(LargestOutside(q), q)
  {
    if OutsideSafe(LargestOutside(q), q) {
      forall m: int | IsInt64(Divided(m, q)) ensures OutsideComesBack(m, q) {
        AcceptedComesBack(m, q);
      }
    } else {
      var m := SomeOutsideIsLost(q);
      assert IsInt64(Divided(m, q)) && !OutsideComesBack(m, q);
    }
  }

  /** Every outside amount of at most seven decimals whose lumens are not refused
      returns, as text, exactly under the same condition on the rate. */
  lemma AllOutsideReturnExactly(rate: string, q: real)
    requires ParseExchangeRate(rate) == Success(q) && q > 0.0
    ensures (forall outsideAmount, m ::
        ParseAmount(outsideAmount) == Success(m as real / UNITS) && IsInt64(Divided(m, q)) ==> OutsideReturns(outsideAmount, rate, m))
      <==> OutsideSafe(LargestOutside(q), q)
  {
    if OutsideSafe(LargestOutside(q), q) {
      forall outsideAmount, m | ParseAmount(outsideAmount) == Success(m as real / UNITS) && IsInt64(Divided(m, q))
        ensures OutsideReturns(outsideAmount, rate, m)
      {
        AcceptedComesBack(m, q);
        OutsideReturnsExactly(outsideAmount, rate, m, Divided(m, q), q);
      }
    } else {
      var m := SomeOutsideIsLost(q);
      ReadBackValue(m);
      OutsideReturnsExactly(StringFromStellarAmount(m), rate, m, Divided(m, q), q);
    }
  }

  /** No rate returns outside amounts of any size: beyond the largest the second
      conversion refuses the lumens. */
  lemma LargeOutsideIsRefused(outsideAmount: string, rate: string, m: int, q: real)
    requires ParseAmount(outsideAmount) == Success(m as real / UNITS) && ParseExchangeRate(rate) == Success(q) && q > 0.0
    requires m > LargestOutside(q) || -m > LargestOutside(q)
    ensures !OutsideReturns(outsideAmount, rate, m)
  {
    RefusedBeyondLargest(m, q);
    OutsideReturnsExactly(outsideAmount, rate, m, Divided(m, q), q);
  }
}
