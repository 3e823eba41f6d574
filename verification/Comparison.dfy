/** WithinFactorStellarAmounts (amounts.go): are two amounts within a factor of
    each other? The source computes two quotients on rationals whose receivers
    are also operands; the answer is one inequality. */
module Comparison {
  import opened Wrappers
  import opened Rationals
  import opened Amounts
  import opened Conversion

  function MaxInt(a: int, b: int): int {
    if a < b then b else a
  }

  predicate AtMostTimes(n: int, f: real, m: int) {
    n as real <= f * m as real
  }

  /** The difference is at most `f` times the larger magnitude. */
  predicate Within(a: int, b: int, f: real) {
    AtMostTimes(AbsInt(a - b), f, MaxInt(AbsInt(a), AbsInt(b)))
  }

  /** The answer for two parsed amounts. */
  predicate WithinFactor(a: int, b: int, f: real) {
    if a == 0 && b == 0 then true
    else if a == 0 || b == 0 then false
    else Within(a, b, f)
  }

  function WithinFactorOfTexts(amount1: string, amount2: string, maxFactor: string): Result<bool, AmountError> {
    var a :- ParseStellarAmount(amount1);
    var b :- ParseStellarAmount(amount2);
    var f :- ParseAmount(maxFactor);
    if f < 0.0 then Failure(NegativeFactor) else Success(WithinFactor(a, b, f))
  }

  /** A fresh rational holding `n` stroops as units. */
  method NewRat(n: int) returns (r: Rat)
    ensures fresh(r) && r.v == n as real / UNITS
  {
    r := new Rat(n, STROOPS_PER_LUMEN);
  }

  lemma EitherBoundIsWithin(a: int, b: int, f: real)
    requires a != 0 && b != 0
    ensures Within(a, b, f) ==
      (AtMostTimes(AbsInt(a - b), f, AbsInt(a)) || AtMostTimes(AbsInt(a - b), f, AbsInt(b)))
  {
  }

  lemma QuotientBound(n: int, a: int, x: real, f: real)
    requires a != 0 && x * a as real == n as real
    ensures AbsReal(x) <= f <==> AtMostTimes(AbsInt(n), f, AbsInt(a))
  {
  }

  lemma QuotientsDecide(a: int, b: int, f: real, x: real, y: real)
    requires a != 0 && b != 0
    requires x * a as real == (a - b) as real && y * b as real == (a - b) as real
    ensures (AbsReal(x) <= f || AbsReal(y) <= f) == Within(a, b, f)
  {
    QuotientBound(a - b, a, x, f);
    QuotientBound(a - b, b, y, f);
    EitherBoundIsWithin(a, b, f);
  }

  /** Dividing the difference by one of the amounts: the unit cancels. */
  lemma UnitsCancel(a: int, b: int, divisor: int, x: real)
    requires divisor != 0
    requires x == (a as real / UNITS - b as real / UNITS) / (divisor as real / UNITS)
    ensures x * divisor as real == (a - b) as real
  {
  }

  method CompareQuotients(a: int, b: int, f: real) returns (within: bool)
    requires a != 0 && b != 0
    ensures within == Within(a, b, f)
  {
    var left := NewRat(a);
    var subtrahend := NewRat(b);
    left.Sub(left, subtrahend);
    var right := new Rat(1, 1);
    right.Set(left);
    var divisorA := NewRat(a);
    var divisorB := NewRat(b);
    left.Quo(left, divisorA);
    right.Quo(right, divisorB);
    ghost var x, y := left.v, right.v;
    UnitsCancel(a, b, a, x);
    UnitsCancel(a, b, b, y);
    left.Abs(left);
    right.Abs(right);
    var fac := new Rat.FromValue(f);
    within := left.Cmp(fac) < 1 || right.Cmp(fac) < 1;
    assert within == (AbsReal(x) <= f || AbsReal(y) <= f);
    QuotientsDecide(a, b, f, x, y);
  }

  method WithinFactorStellarAmounts(amount1: string, amount2: string, maxFactor: string)
    returns (r: Result<bool, AmountError>)
    ensures r == WithinFactorOfTexts(amount1, amount2, maxFactor)
  {
    var a :- ParseStellarAmount(amount1);
    var b :- ParseStellarAmount(amount2);
    var f :- ParseAmount(maxFactor);
    if f < 0.0 {
      return Failure(NegativeFactor);
    }
    if a == 0 && b == 0 {
      return Success(true);
    }
    if a == 0 || b == 0 {
      return Success(false);
    }
    var within := CompareQuotients(a, b, f);
    return Success(within);
  }

  // -------------------------------------------------------------- properties

  /** The order of the amounts does not matter. */
  lemma WithinIsSymmetric(a: int, b: int, f: real)
    ensures WithinFactor(a, b, f) == WithinFactor(b, a, f)
  {
  }

  /** A larger factor never turns a yes into a no. */
  lemma WithinIsMonotone(a: int, b: int, f: real, g: real)
    requires f <= g && WithinFactor(a, b, f)
    ensures WithinFactor(a, b, g)
  {
  }

  lemma ScaledBound(n: nat, m: nat, n': nat, m': nat, p: nat, f: real)
    requires p > 0 && n' == p * n && m' == p * m
    ensures AtMostTimes(n', f, m') == AtMostTimes(n, f, m)
  {
  }

  lemma ScaledWithin(a: int, b: int, c: int, d: int, p: nat, f: real)
    requires p > 0
    requires AbsInt(c - d) == p * AbsInt(a - b)
    requires MaxInt(AbsInt(c), AbsInt(d)) == p * MaxInt(AbsInt(a), AbsInt(b))
    ensures Within(c, d, f) == Within(a, b, f)
  {
    ScaledBound(AbsInt(a - b), MaxInt(AbsInt(a), AbsInt(b)), AbsInt(c - d), MaxInt(AbsInt(c), AbsInt(d)), p, f);
  }

  lemma AbsIntProduct(k: int, n: int)
    ensures AbsInt(k * n) == AbsInt(k) * AbsInt(n)
  {
  }

  lemma MaxScaled(p: nat, a: nat, b: nat)
    ensures MaxInt(p * a, p * b) == p * MaxInt(a, b)
  {
  }

  lemma ScaledMagnitudes(a: int, b: int, k: int)
    ensures AbsInt(k * a - k * b) == AbsInt(k) * AbsInt(a - b)
    ensures MaxInt(AbsInt(k * a), AbsInt(k * b)) == AbsInt(k) * MaxInt(AbsInt(a), AbsInt(b))
  {
    assert k * a - k * b == k * (a - b);
    AbsIntProduct(k, a - b);
    AbsIntProduct(k, a);
    AbsIntProduct(k, b);
    MaxScaled(AbsInt(k), AbsInt(a), AbsInt(b));
  }

  lemma ZeroProduct(k: int, a: int)
    requires k != 0
    ensures k * a == 0 <==> a == 0
  {
  }

  /** Only the ratio counts: multiplying both amounts changes nothing. */
  lemma WithinIsScaleFree(a: int, b: int, k: int, f: real)
    requires k != 0
    ensures WithinFactor(k * a, k * b, f) == WithinFactor(a, b, f)
  {
    ZeroProduct(k, a);
    ZeroProduct(k, b);
    ScaledMagnitudes(a, b, k);
    ScaledWithin(a, b, k * a, k * b, AbsInt(k), f);
  }

  /** At zero the source leaves the inequality: a zero and a non-zero amount are
      never within a factor, although the inequality holds from factor one on. */
  lemma ZeroIsNeverWithin(b: int, f: real)
    requires b != 0
    ensures !WithinFactor(0, b, f) && !WithinFactor(b, 0, f)
    ensures Within(0, b, f) <==> f >= 1.0
  {
  }

  // ------------------------------------------------- the comment's promise

  predicate LessThanTimes(n: int, f: real, m: int) {
    (n as real) < f * m as real
  }

  /** The relation of the comment, whose inequalities are strict: the difference is
      less than `f` times the larger magnitude. */
  predicate StrictlyWithin(a: int, b: int, f: real) {
    LessThanTimes(AbsInt(a - b), f, MaxInt(AbsInt(a), AbsInt(b)))
  }

  lemma AbsOfProduct(x: real, a: int, n: int)
    requires x * a as real == n as real
    ensures AbsReal(x) * AbsInt(a) as real == AbsInt(n) as real
  {
  }

  lemma StrictOrder(x: real, y: real, p: real)
    requires p > 0.0
    ensures x < y <==> x * p < y * p
  {
  }

  lemma StrictBound(n: int, a: int, x: real, f: real)
    requires a != 0 && x * a as real == n as real
    ensures AbsReal(x) < f <==> LessThanTimes(AbsInt(n), f, AbsInt(a))
  {
    AbsOfProduct(x, a, n);
    StrictOrder(AbsReal(x), f, AbsInt(a) as real);
  }

  lemma EitherStrictBound(n: real, p: real, q: real, f: real)
    requires n >= 0.0 && p > 0.0 && q > 0.0
    ensures (n < f * p || n < f * q) == (n < f * (if p < q then q else p))
  {
  }

  /** The comment's two quotients, each compared strictly, say just that. */
  lemma StrictQuotients(a: int, b: int, f: real, x: real, y: real)
    requires a != 0 && b != 0
    requires x * a as real == (a - b) as real && y * b as real == (a - b) as real
    ensures (AbsReal(x) < f || AbsReal(y) < f) == StrictlyWithin(a, b, f)
  {
    StrictBound(a - b, a, x, f);
    StrictBound(a - b, b, y, f);
    EitherStrictBound(AbsInt(a - b) as real, AbsInt(a) as real, AbsInt(b) as real, f);
  }

  lemma EqualityDecides(n: int, f: real, m: int)
    ensures AtMostTimes(n, f, m) == LessThanTimes(n, f, m) <==> n as real != f * m as real
  {
  }

  lemma TimesOne(n: int, f: real)
    requires n > 0
    ensures LessThanTimes(n, f, n) <==> f > 1.0
  {
    StrictOrder(1.0, f, n as real);
  }

  lemma StrictAtZero(a: int, b: int, f: real)
    requires (a == 0) != (b == 0)
    ensures StrictlyWithin(a, b, f) <==> f > 1.0
  {
    var n := MaxInt(AbsInt(a), AbsInt(b));
    assert AbsInt(a - b) == n;
    TimesOne(n, f);
  }

  /** The code keeps the comment's promise exactly where equality does not decide,
      and for a single zero exactly up to factor one. */
  lemma StrictPromiseExactly(a: int, b: int, f: real)
    requires a != 0 || b != 0
    ensures WithinFactor(a, b, f) == StrictlyWithin(a, b, f) <==>
      if a == 0 || b == 0 then f <= 1.0 else AbsInt(a - b) as real != f * MaxInt(AbsInt(a), AbsInt(b)) as real
  {
    if a == 0 || b == 0 {
      StrictAtZero(a, b, f);
    } else {
      EqualityDecides(AbsInt(a - b), f, MaxInt(AbsInt(a), AbsInt(b)));
    }
  }

  lemma TenthIsWritten()
    ensures ParseAmount(StringFromStellarAmount(1_000_000)) == Success(0.1)
  {
    ReadBackValue(1_000_000);
  }

  /** Equality at work: 90 and 100 are within a tenth of each other for the code. */
  lemma EqualityCounts()
    ensures var tenth := StringFromStellarAmount(1_000_000);
      && ParseAmount(tenth) == Success(0.1)
      && WithinFactorOfTexts(StringFromStellarAmount(90), StringFromStellarAmount(100), tenth) == Success(true)
      && !StrictlyWithin(90, 100, 0.1)
  {
    TenthIsWritten();
    ParseInvertsPrint(90);
    ParseInvertsPrint(100);
  }
}
