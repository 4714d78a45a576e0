/**
 * The plan and result records shared by the backend engine, the solver and
 * the frontend copy of the engine (both sides declare the same shapes).
 *
 * Fields that the engine reads through `??` defaults, and the fields that the
 * saved-plan migration fills in, are optional here so that both the defaults
 * and the migration can be stated exactly.
 */
module PlanTypes {
  import opened Numeric

  datatype Option<T> = None | Some(value: T) {
    function GetOr(default: T): T
    {
      match this
      case Some(v) => v
      case None => default
    }
  }

  datatype FilingStatus = Single | Married

  datatype ContributionMode = Fixed | Salary

  datatype RetirementPlan = RetirementPlan(
    currentAge: int,
    retirementAge: int,
    currentSavings: real,
    currentSavingsRoth: Option<real>,
    expectedReturnRate: real,
    inflationRate: real,
    monthlySpendingGoal: real,
    rothPct: real,
    filingStatus: Option<FilingStatus>,
    contributionMode: ContributionMode,
    annualContribution: real,
    currentSalary: real,
    salaryContributionPct: real,
    expectedSalaryGrowthPct: real,
    lifeExpectancy: int,
    dieWithTarget: Option<real>,
    postRetirementReturnRate: Option<real>,
    withdrawalRate: Option<real>
  )

  /** `plan.withdrawalRate ?? 0.04` */
  function Swr(p: RetirementPlan): real
  {
    p.withdrawalRate.GetOr(0.04)
  }

  /** `plan.postRetirementReturnRate ?? 0.05` */
  function PostReturn(p: RetirementPlan): real
  {
    p.postRetirementReturnRate.GetOr(0.05)
  }

  /** `plan.filingStatus ?? 'single'` */
  function Filing(p: RetirementPlan): FilingStatus
  {
    p.filingStatus.GetOr(Single)
  }

  function YearsToRetirement(p: RetirementPlan): int
  {
    p.retirementAge - p.currentAge
  }

  /**
   * The plans the model projects. Retiring in the current year makes the
   * glide path divide by a zero annuity factor, and a zero withdrawal rate
   * makes the nest egg divide by zero. Retiring before the current age does
   * not fail in the source: the projection has no rows, the nest egg is 0 and
   * the drawdown starts from 0; the model leaves that case out. The bounds on
   * the rates keep every power of 1 + rate positive (an inflation rate of
   * -100% divides by a zero power; a return rate of -200% over an even number
   * of years gives a zero annuity factor); a return rate of exactly -100% is
   * defined in the source but also left out.
   */
  predicate ValidPlan(p: RetirementPlan)
  {
    && p.currentAge < p.retirementAge
    && Swr(p) > 0.0
    && p.expectedReturnRate > -1.0
    && p.inflationRate > -1.0
  }

  datatype YearlyProjection = YearlyProjection(
    age: int,
    year: int,
    balance: int,
    balanceInflationAdjusted: int,
    annualContribution: real,
    estimatedSalary: int,
    isRetirementYear: bool,
    onTrackTarget: int,
    doNothingBalance: int
  )

  datatype DrawdownYear = DrawdownYear(
    age: int,
    year: int,
    startBalance: int,
    withdrawal: int,
    growth: int,
    endBalance: int,
    depleted: bool,
    effectiveTaxRate: real
  )

  datatype Milestone = Milestone(
    age: int,
    targetBalance: int,
    projectedBalance: int,
    reached: bool
  )
}
