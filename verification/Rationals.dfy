/** Exact rationals as amounts.go uses them: math/big's mutable `Rat`, its
    rounding to a fixed number of places, and what that rounding means.
    Every value is a quotient of integers, held exactly as a `real`. */
module Rationals {
  import opened Decimals

  function AbsReal(x: real): real {
    if x < 0.0 then -x else x
  }

  function AbsInt(n: int): nat {
    if n < 0 then -n else n
  }

  /** The nearest integer, ties away from zero. */
  function RoundHalfAway(x: real): int {
    if x < 0.0 then -((0.5 - x).Floor) else (x + 0.5).Floor
  }

  /** `z` is a nearest integer to `x`, and the outer one on a tie. */
  predicate NearestAwayFromZero(x: real, z: int) {
    && -0.5 <= z as real - x <= 0.5
    && (z as real - x == 0.5 ==> x >= 0.0)
    && (z as real - x == -0.5 ==> x <= 0.0)
  }

  lemma RoundIsNearest(x: real, z: int)
    ensures NearestAwayFromZero(x, z) <==> z == RoundHalfAway(x)
  {
  }

  lemma RoundIsOdd(x: real)
    ensures RoundHalfAway(-x) == -RoundHalfAway(x)
  {
  }

  lemma RoundIsMonotone(x: real, y: real)
    requires x <= y
    ensures RoundHalfAway(x) <= RoundHalfAway(y)
  {
  }

  function Scale(places: nat): (p: real)
    ensures p >= 1.0
  {
    Pow10(places) as real
  }

  function ValueOf(d: Decimal): real {
    d.coefficient as real / Scale(d.places)
  }

  lemma DivMul(x: real, p: real)
    requires p != 0.0
    ensures (x / p) * p == x
  {
  }

  const UNITS: real := 10_000_000.0
  const AMOUNT_DIGITS: nat := 7

  lemma SevenPlaces()
    ensures Pow10(AMOUNT_DIGITS) == 10_000_000
  {
  }

  /** math/big's `Rat.FloatString(7)`: `x` rounded to seven places. A negative `x`
      keeps its sign even when every printed digit is zero. */
  function FloatString7(x: real): string {
    Fixed(x < 0.0, AbsInt(RoundHalfAway(x * UNITS)), AMOUNT_DIGITS)
  }

  lemma RoundKeepsSign(x: real)
    ensures x < 0.0 ==> RoundHalfAway(x) <= 0
    ensures x >= 0.0 ==> RoundHalfAway(x) >= 0
  {
  }

  /** The printed text is a strict decimal denoting the rounded number. */
  lemma FloatStringReads(x: real)
    ensures DecimalShape(FloatString7(x))
    ensures ReadDecimal(FloatString7(x)) == Decimal(RoundHalfAway(x * UNITS), AMOUNT_DIGITS)
  {
    var z := RoundHalfAway(x * UNITS);
    RoundKeepsSign(x * UNITS);
    assert Signed(x < 0.0, AbsInt(z)) == z;
    FixedReads(x < 0.0, AbsInt(z), AMOUNT_DIGITS);
  }

  /** The printed text is the only one with seven decimals and no spare zero in front
      that denotes a nearest number and has the sign of the exact one. */
  lemma PrintedExactly(x: real, s: string)
    ensures s == FloatString7(x) <==>
      && DecimalShape(s) && NearestAwayFromZero(x * 10_000_000.0, ReadDecimal(s).coefficient)
      && Writes(s, x < 0.0, AbsInt(ReadDecimal(s).coefficient), 7)
  {
    var n := AbsInt(RoundHalfAway(x * UNITS));
    FixedIsOnlyText(s, x < 0.0, n, AMOUNT_DIGITS);
    if DecimalShape(s) {
      RoundIsNearest(x * UNITS, ReadDecimal(s).coefficient);
      FloatStringReads(x);
    }
  }

  const NEGATIVE_ZERO: string := "-0.0000000"

  lemma NegativeZeroIsFixed()
    ensures NEGATIVE_ZERO == Fixed(true, 0, AMOUNT_DIGITS)
  {
    LeadingZero(AMOUNT_DIGITS);
    assert Zeros(AMOUNT_DIGITS) == "0000000";
    assert NatToString(0) == "0";
  }

  /** A zero with a sign is printed for exactly the negative numbers that are less
      than half a unit of 10^-7 away from zero. */
  lemma NegativeZeroExactly(x: real)
    ensures FloatString7(x) == NEGATIVE_ZERO <==> -0.5 < x * UNITS < 0.0
  {
    NegativeZeroIsFixed();
    if FloatString7(x) == NEGATIVE_ZERO {
      FixedIsInjective(x < 0.0, AbsInt(RoundHalfAway(x * UNITS)), true, 0, AMOUNT_DIGITS);
    }
  }

  lemma RoundOfInt(n: int)
    ensures RoundHalfAway(n as real) == n
  {
  }

  /** math/big's `Rat`. Every operation overwrites its receiver, which may also be
      one of its operands. */
  class Rat {
    var v: real

    constructor (numerator: int, denominator: int)
      requires denominator != 0
      ensures v == numerator as real / denominator as real
    {
      v := numerator as real / denominator as real;
    }

    constructor FromValue(value: real)
      ensures v == value
    {
      v := value;
    }

    method Mul(x: Rat, y: Rat)
      modifies this
      ensures v == old(x.v) * old(y.v)
    {
      v := x.v * y.v;
    }

    method Sub(x: Rat, y: Rat)
      modifies this
      ensures v == old(x.v) - old(y.v)
    {
      v := x.v - y.v;
    }

    method Quo(x: Rat, y: Rat)
      requires y.v != 0.0
      modifies this
      ensures v == old(x.v) / old(y.v)
    {
      v := x.v / y.v;
    }

    method Set(x: Rat)
      modifies this
      ensures v == old(x.v)
    {
      v := x.v;
    }

    method Abs(x: Rat)
      modifies this
      ensures v == AbsReal(old(x.v))
    {
      v := AbsReal(x.v);
    }

    function Sign(): int
      reads this
    {
      if v < 0.0 then -1 else if v == 0.0 then 0 else 1
    }

    function Cmp(y: Rat): int
      reads this, y
    {
      if v < y.v then -1 else if v == y.v then 0 else 1
    }
  }
}
