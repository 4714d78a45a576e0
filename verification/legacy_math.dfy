/**
 * The legacy compounding helpers of the backend: future value, a saver who
 * adds the yearly contribution after each year's growth, a plain monthly
 * withdrawal and an inflation adjustment.
 */
module LegacyMath {
  import opened Numeric

  /** principal * (1 + annualRate)^years */
  function FutureValue(principal: real, annualRate: real, years: nat): (v: real)
    ensures years == 0 ==> v == principal
    ensures annualRate == 0.0 ==> v == principal
  {
    PowOfOne(years);
    principal * Pow(1.0 + annualRate, years)
  }

  lemma {:induction false} PowOfOne(n: nat)
    ensures Pow(1.0, n) == 1.0
  {
    if n > 0 {
      PowOfOne(n - 1);
    }
  }

  /** Growing for a years and then for b more is growing for a + b years. */
  lemma FutureValueCompose(principal: real, annualRate: real, a: nat, b: nat)
    ensures FutureValue(FutureValue(principal, annualRate, a), annualRate, b) == FutureValue(principal, annualRate, a + b)
  {
    var g := 1.0 + annualRate;
    PowAdd(g, a, b);
    assert principal * Pow(g, a) * Pow(g, b) == principal * (Pow(g, a) * Pow(g, b));
  }

  /**
   * The yearly loop of calculateRetirementSavings: each of the remaining
   * years grows the running total by one year and then adds the contribution.
   * A non-positive year count leaves the savings untouched.
   */
  function CalculateRetirementSavings(currentSavings: real, annualContribution: real, annualRate: real, years: int): real
    decreases years
  {
    if years <= 0 then currentSavings
    else CalculateRetirementSavings(FutureValue(currentSavings, annualRate, 1) + annualContribution, annualContribution, annualRate, years - 1)
  }

  /**
   * The savings grown for n years plus n end-of-year payments accumulated at
   * the same rate.
   */
  function SavingsFormula(s: real, c: real, r: real, n: nat): real
  {
    s * Pow(1.0 + r, n) + c * AnnuitySum(r, n)
  }

  /** Closed form of the yearly loop. */
  lemma {:induction false} SavingsClosedForm(s: real, c: real, r: real, n: nat)
    ensures CalculateRetirementSavings(s, c, r, n) == SavingsFormula(s, c, r, n)
    decreases n
  {
    if n > 0 {
      var s' := FutureValue(s, r, 1) + c;
      SavingsClosedForm(s', c, r, n - 1);
      SavingsStep(s, s', c, r, n);
    }
  }

  /** The closed form after the first year, carried back to the start. */
  lemma SavingsStep(s: real, s': real, c: real, r: real, n: nat)
    requires n > 0 && s' == FutureValue(s, r, 1) + c
    requires CalculateRetirementSavings(s', c, r, n - 1) == SavingsFormula(s', c, r, n - 1)
    ensures CalculateRetirementSavings(s, c, r, n) == SavingsFormula(s, c, r, n)
  {
    assert CalculateRetirementSavings(s, c, r, n) == CalculateRetirementSavings(s', c, r, n - 1);
    FirstYear(s, c, r);
    FormulaStep(s, s', c, r, n);
  }

  /** The formula one year on from s' = s (1 + r) + c is the formula one year longer from s. */
  lemma FormulaStep(s: real, s': real, c: real, r: real, n: nat)
    requires n > 0 && s' == s * (1.0 + r) + c
    ensures SavingsFormula(s', c, r, n - 1) == SavingsFormula(s, c, r, n)
  {
    var g := 1.0 + r;
    FormulaTerms(s', c, r, n - 1);
    PowStep(g, n);
    AnnuitySumTail(r, n - 1);
    Regroup(SavingsFormula(s', c, r, n - 1), s', s, c, g, Pow(g, n - 1), AnnuitySum(r, n - 1), Pow(g, n), AnnuitySum(r, n));
    FormulaTerms(s, c, r, n);
  }

  lemma PowStep(x: real, n: nat)
    requires n > 0
    ensures Pow(x, n) == x * Pow(x, n - 1)
  {
  }

  lemma FormulaTerms(s: real, c: real, r: real, n: nat)
    ensures SavingsFormula(s, c, r, n) == s * Pow(1.0 + r, n) + c * AnnuitySum(r, n)
  {
  }

  /** One year of the loop: grow by 1 + r, then add the contribution. */
  lemma FirstYear(s: real, c: real, r: real)
    ensures FutureValue(s, r, 1) + c == s * (1.0 + r) + c
  {
    assert Pow(1.0 + r, 1) == 1.0 + r;
  }

  /** One step of the closed form: x = (s g + c) q + c a = s (g q) + c (a + q). */
  lemma Regroup(x: real, s': real, s: real, c: real, g: real, q: real, a: real, power: real, factor: real)
    requires x == s' * q + c * a && s' == s * g + c
    requires power == g * q && factor == a + q
    ensures x == s * power + c * factor
  {
    assert (s * g + c) * q == s * (g * q) + c * q;
  }

  /** With no years to go the current savings are returned. */
  lemma SavingsNoYears(s: real, c: real, r: real, years: int)
    requires years <= 0
    ensures CalculateRetirementSavings(s, c, r, years) == s
  {
  }

  /** At a zero rate the savings grow linearly: currentSavings + years * contribution. */
  lemma SavingsZeroRate(s: real, c: real, n: nat)
    ensures CalculateRetirementSavings(s, c, 0.0, n) == s + n as real * c
  {
    SavingsClosedForm(s, c, 0.0, n);
    PowOfOne(n);
    AnnuityFactorIsSum(0.0, n);
  }

  /** totalSavings * withdrawalRate / 12, not rounded. */
  function CalculateMonthlyWithdrawal(totalSavings: real, withdrawalRate: real): (m: real)
    ensures 12.0 * m == totalSavings * withdrawalRate
  {
    totalSavings * withdrawalRate / 12.0
  }

  /** amount * (1 + inflationRate)^years: the same computation as FutureValue. */
  function AdjustForInflation(amount: real, inflationRate: real, years: nat): (v: real)
    ensures v == FutureValue(amount, inflationRate, years)
  {
    amount * Pow(1.0 + inflationRate, years)
  }

  /** Dividing by the same power undoes the adjustment, as the projections' real-terms column does. */
  lemma DeflateInflated(amount: real, inflationRate: real, years: nat)
    requires inflationRate > -1.0
    ensures Pow(1.0 + inflationRate, years) > 0.0
    ensures AdjustForInflation(amount, inflationRate, years) / Pow(1.0 + inflationRate, years) == amount
  {
    PowPositive(1.0 + inflationRate, years);
  }
}
