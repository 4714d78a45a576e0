/**
 * The accumulation half of the projection engine: yearly contributions, the
 * closed-form on-track glide path and the year-by-year projection up to the
 * retirement year.
 *
 * Both copies of the engine (backend and frontend) run exactly this
 * arithmetic; they differ only in how the nest egg is sized, which is a
 * parameter here and is supplied by BackendMath and FrontendMath.
 */
module Engine {
  import opened Numeric
  import opened PlanTypes
  import LegacyMath

  /** Today's monthly spending goal in retirement-year dollars, for a year. */
  function FutureAnnualSpend(p: RetirementPlan): real
    requires p.currentAge <= p.retirementAge
  {
    p.monthlySpendingGoal * Pow(1.0 + p.inflationRate, YearsToRetirement(p)) * 12.0
  }

  /** currentSalary * (1 + expectedSalaryGrowthPct / 100)^yearIndex */
  function SalaryAt(p: RetirementPlan, yearIndex: nat): real
  {
    p.currentSalary * Pow(1.0 + Percent(p.expectedSalaryGrowthPct), yearIndex)
  }

  /** pct percent of an amount, rounded to whole dollars. */
  function Share(amount: real, pct: real): real
  {
    Round(amount * Percent(pct)) as real
  }

  /**
   * getAnnualContribution: the fixed amount in fixed mode, otherwise the
   * salary share rounded to whole dollars.
   */
  function AnnualContribution(p: RetirementPlan, yearIndex: nat): real
  {
    if p.contributionMode == Fixed then p.annualContribution
    else Share(SalaryAt(p, yearIndex), p.salaryContributionPct)
  }

  /** In fixed mode every year contributes the plan's annualContribution. */
  lemma FixedContributionConstant(p: RetirementPlan, i: nat, j: nat)
    requires p.contributionMode == Fixed
    ensures AnnualContribution(p, i) == AnnualContribution(p, j) == p.annualContribution
  {
  }

  /** A $100,000 salary growing 3% a year with 10% saved contributes 10000, 10300, 10609. */
  lemma SalaryContributionExample(p: RetirementPlan)
    requires p.contributionMode == Salary
    requires p.currentSalary == 100000.0 && p.expectedSalaryGrowthPct == 3.0 && p.salaryContributionPct == 10.0
    ensures AnnualContribution(p, 0) == 10000.0
    ensures AnnualContribution(p, 1) == 10300.0
    ensures AnnualContribution(p, 2) == 10609.0
  {
    assert Pow(1.03, 1) == 1.03 by { assert Pow(1.03, 0) == 1.0; }
    assert Pow(1.03, 2) == 1.0609;
    RoundOfInt(10000);
    RoundOfInt(10300);
    RoundOfInt(10609);
  }

  /**
   * With a non-negative salary, growth and contribution percentage, the
   * salary-mode contribution never falls from one year to a later one.
   */
  lemma SalaryContributionGrows(p: RetirementPlan, i: nat, j: nat)
    requires p.contributionMode == Salary
    requires p.currentSalary >= 0.0 && p.expectedSalaryGrowthPct >= 0.0 && p.salaryContributionPct >= 0.0
    requires i <= j
    ensures 0.0 <= AnnualContribution(p, i) <= AnnualContribution(p, j)
  {
    SalaryGrows(p, i, j);
    ShareMonotone(SalaryAt(p, i), SalaryAt(p, j), p.salaryContributionPct);
  }

  /** A larger non-negative amount has a share at least as large, and no share is negative. */
  lemma ShareMonotone(x: real, y: real, pct: real)
    requires 0.0 <= x <= y && pct >= 0.0
    ensures 0.0 <= Share(x, pct) <= Share(y, pct)
  {
    ScaledMonotone(x, y, pct);
    RoundedMonotone(x * Percent(pct), y * Percent(pct));
  }

  lemma ScaledMonotone(x: real, y: real, pct: real)
    requires 0.0 <= x <= y && pct >= 0.0
    ensures 0.0 <= x * Percent(pct) <= y * Percent(pct)
  {
    MulMonotone(x, y, Percent(pct));
    MulMonotone(0.0, x, Percent(pct));
  }

  lemma RoundedMonotone(a: real, b: real)
    requires 0.0 <= a <= b
    ensures 0.0 <= Round(a) as real <= Round(b) as real
  {
    RoundMonotone(a, b);
    RoundNonNegative(a);
  }

  lemma SalaryGrows(p: RetirementPlan, i: nat, j: nat)
    requires p.currentSalary >= 0.0 && p.expectedSalaryGrowthPct >= 0.0 && i <= j
    ensures 0.0 <= SalaryAt(p, i) <= SalaryAt(p, j)
  {
    var g := 1.0 + Percent(p.expectedSalaryGrowthPct);
    PowExponentMonotone(g, i, j);
    ScaleMonotone(p.currentSalary, Pow(g, i), Pow(g, j));
    ScaleMonotone(p.currentSalary, 0.0, Pow(g, i));
  }

  /** The estimated salary column: 0 in fixed mode, the rounded salary otherwise. */
  function EstimatedSalary(p: RetirementPlan, yearIndex: nat): (s: int)
    ensures p.contributionMode == Fixed ==> s == 0
    ensures p.contributionMode == Salary && p.currentSalary >= 0.0 && p.expectedSalaryGrowthPct >= -100.0 ==> s >= 0
  {
    if p.contributionMode == Salary then
      SalaryNonNegative(p, yearIndex);
      Round(SalaryAt(p, yearIndex))
    else 0
  }

  lemma SalaryNonNegative(p: RetirementPlan, yearIndex: nat)
    ensures p.currentSalary >= 0.0 && p.expectedSalaryGrowthPct >= -100.0 ==> SalaryAt(p, yearIndex) >= 0.0
  {
    if p.currentSalary >= 0.0 && p.expectedSalaryGrowthPct >= -100.0 {
      PowBaseMonotone(0.0, 1.0 + Percent(p.expectedSalaryGrowthPct), yearIndex);
      MulMonotone(0.0, Pow(1.0 + Percent(p.expectedSalaryGrowthPct), yearIndex), p.currentSalary);
    }
  }

  /** Saving the whole salary contributes exactly the estimated salary. */
  lemma FullSalarySaved(p: RetirementPlan, yearIndex: nat)
    requires p.contributionMode == Salary && p.salaryContributionPct == 100.0
    ensures AnnualContribution(p, yearIndex) == EstimatedSalary(p, yearIndex) as real
  {
    WholeShare(SalaryAt(p, yearIndex));
  }

  lemma WholeShare(x: real)
    ensures Share(x, 100.0) == Round(x) as real
  {
    assert x * Percent(100.0) == x;
  }

  function Growth(p: RetirementPlan): real
  {
    1.0 + p.expectedReturnRate
  }

  /** The glide path's annuity factor over the whole accumulation phase is at least 1. */
  lemma GlideFactorPositive(p: RetirementPlan)
    requires ValidPlan(p)
    ensures AnnuityFactor(p.expectedReturnRate, YearsToRetirement(p)) >= 1.0
  {
    AnnuityFactorIsSum(p.expectedReturnRate, YearsToRetirement(p));
    AnnuitySumAtLeastOne(p.expectedReturnRate, YearsToRetirement(p));
  }

  /**
   * The level yearly contribution that turns currentSavings into the nest egg
   * exactly at retirement.
   */
  function ImpliedContribution(p: RetirementPlan, nestEgg: real): real
    requires ValidPlan(p)
  {
    var n := YearsToRetirement(p);
    GlideFactorPositive(p);
    (nestEgg - p.currentSavings * Pow(Growth(p), n)) / AnnuityFactor(p.expectedReturnRate, n)
  }

  /** The glide path's value after i years, before rounding. */
  function GlideValue(p: RetirementPlan, c: real, i: nat): real
  {
    p.currentSavings * Pow(Growth(p), i) + c * AnnuityFactor(p.expectedReturnRate, i)
  }

  /** The on-track target of every year from now to retirement. */
  function OnTrackTargets(p: RetirementPlan, nestEgg: real): (ts: seq<int>)
    requires ValidPlan(p)
    ensures |ts| == YearsToRetirement(p) + 1
  {
    var c := ImpliedContribution(p, nestEgg);
    seq(YearsToRetirement(p) + 1, i requires 0 <= i => Round(GlideValue(p, c, i)))
  }

  /** The path starts at today's savings and ends exactly at the nest egg. */
  lemma OnTrackEnds(p: RetirementPlan, nestEgg: real)
    requires ValidPlan(p)
    ensures OnTrackTargets(p, nestEgg)[0] == Round(p.currentSavings)
    ensures OnTrackTargets(p, nestEgg)[YearsToRetirement(p)] == Round(nestEgg)
  {
    var n := YearsToRetirement(p);
    var ts := OnTrackTargets(p, nestEgg);
    var c := ImpliedContribution(p, nestEgg);
    assert ts[0] == Round(GlideValue(p, c, 0));
    assert GlideValue(p, c, 0) == p.currentSavings by {
      assert AnnuityFactor(p.expectedReturnRate, 0) == 0.0;
    }
    assert ts[n] == Round(GlideValue(p, c, n));
    GlideFactorPositive(p);
    CancelFactor(nestEgg, p.currentSavings * Pow(Growth(p), n), AnnuityFactor(p.expectedReturnRate, n));
  }

  lemma CancelFactor(total: real, grown: real, factor: real)
    requires factor != 0.0
    ensures grown + ((total - grown) / factor) * factor == total
  {
  }

  /**
   * Each target is what the legacy saver reaches after i years: today's
   * savings compounding, plus the implied contribution added at the end of
   * every year.
   */
  lemma OnTrackIsLegacySaver(p: RetirementPlan, nestEgg: real, i: nat)
    requires ValidPlan(p) && i <= YearsToRetirement(p)
    ensures OnTrackTargets(p, nestEgg)[i]
         == Round(LegacyMath.CalculateRetirementSavings(p.currentSavings, ImpliedContribution(p, nestEgg), p.expectedReturnRate, i))
  {
    var c := ImpliedContribution(p, nestEgg);
    LegacyMath.SavingsClosedForm(p.currentSavings, c, p.expectedReturnRate, i);
    AnnuityFactorIsSum(p.expectedReturnRate, i);
  }

  /** An amount after one year at the expected return. */
  function Grown(p: RetirementPlan, x: real): real
  {
    x * Growth(p)
  }

  /**
   * The reference balance: today's savings, then each year the contribution
   * is added before the year's growth.
   */
  function Balance(p: RetirementPlan, k: nat): real
  {
    if k == 0 then p.currentSavings
    else Grown(p, Balance(p, k - 1) + AnnualContribution(p, k - 1))
  }

  /** Today's savings left to compound with no further contributions. */
  function DoNothing(p: RetirementPlan, k: nat): real
  {
    if k == 0 then p.currentSavings else Grown(p, DoNothing(p, k - 1))
  }

  /** The do-nothing line is today's savings compounded: currentSavings * (1 + r)^k. */
  lemma {:induction false} DoNothingClosedForm(p: RetirementPlan, k: nat)
    ensures DoNothing(p, k) == p.currentSavings * Pow(Growth(p), k)
  {
    if k > 0 {
      DoNothingClosedForm(p, k - 1);
      var g := Growth(p);
      assert Pow(g, k) == g * Pow(g, k - 1);
      assert p.currentSavings * (g * Pow(g, k - 1)) == p.currentSavings * Pow(g, k - 1) * g;
    }
  }

  /** The do-nothing line is the balance of the same plan contributing $0 a year. */
  lemma {:induction false} DoNothingIsZeroContribution(p: RetirementPlan, k: nat)
    ensures DoNothing(p, k) == Balance(p.(contributionMode := Fixed, annualContribution := 0.0), k)
  {
    if k > 0 {
      DoNothingIsZeroContribution(p, k - 1);
      var q := p.(contributionMode := Fixed, annualContribution := 0.0);
      assert Grown(q, Balance(q, k - 1) + 0.0) == Grown(p, DoNothing(p, k - 1));
    }
  }

  /** The plan fields the accumulation reads: savings, contributions, salary and return. */
  predicate SameAccumulation(p: RetirementPlan, q: RetirementPlan)
  {
    && p.currentSavings == q.currentSavings
    && p.contributionMode == q.contributionMode
    && p.annualContribution == q.annualContribution
    && p.currentSalary == q.currentSalary
    && p.salaryContributionPct == q.salaryContributionPct
    && p.expectedSalaryGrowthPct == q.expectedSalaryGrowthPct
    && p.expectedReturnRate == q.expectedReturnRate
  }

  /**
   * The balances read nothing else: plans that differ only in, say, the
   * spending goal, the withdrawal rate or the ages accumulate identically.
   */
  lemma {:induction false} BalanceReadsOnlyAccumulation(p: RetirementPlan, q: RetirementPlan, k: nat)
    requires SameAccumulation(p, q)
    ensures Balance(p, k) == Balance(q, k)
  {
    if k > 0 {
      BalanceReadsOnlyAccumulation(p, q, k - 1);
      ContributionReadsOnlyAccumulation(p, q, k - 1);
      var x := Balance(p, k - 1) + AnnualContribution(p, k - 1);
      assert x == Balance(q, k - 1) + AnnualContribution(q, k - 1);
      assert Growth(p) == Growth(q);
      assert Grown(p, x) == Grown(q, x);
    }
  }

  lemma ContributionReadsOnlyAccumulation(p: RetirementPlan, q: RetirementPlan, i: nat)
    requires SameAccumulation(p, q)
    ensures AnnualContribution(p, i) == AnnualContribution(q, i)
  {
    assert SalaryAt(p, i) == SalaryAt(q, i);
  }

  /** balance / (1 + inflationRate)^years: an amount in today's dollars. */
  function Deflate(amount: real, inflationRate: real, years: nat): real
    requires inflationRate > -1.0
  {
    PowPositive(1.0 + inflationRate, years);
    amount / Pow(1.0 + inflationRate, years)
  }

  /** Deflating undoes the legacy inflation adjustment over the same years. */
  lemma DeflateUndoesInflation(amount: real, inflationRate: real, years: nat)
    requires inflationRate > -1.0
    ensures Deflate(LegacyMath.AdjustForInflation(amount, inflationRate, years), inflationRate, years) == amount
  {
    LegacyMath.DeflateInflated(amount, inflationRate, years);
  }

  /**
   * One projection row for year index i given the unrounded balances: the
   * rounded nominal and real balances, the contribution (none in the
   * retirement year), the salary column, the retirement flag, the glide-path
   * target and the rounded do-nothing balance.
   */
  function Row(p: RetirementPlan, targets: seq<int>, startYear: int, i: nat, balance: real, doNothing: real): YearlyProjection
    requires p.inflationRate > -1.0 && i < |targets|
  {
    var age := p.currentAge + i;
    var retiring := age == p.retirementAge;
    YearlyProjection(
      age,
      startYear + i,
      Round(balance),
      Round(Deflate(balance, p.inflationRate, i)),
      if retiring then 0.0 else AnnualContribution(p, i),
      EstimatedSalary(p, i),
      retiring,
      targets[i],
      Round(doNothing))
  }

  /** The row year k should hold, read off the reference balances. */
  function ExpectedRow(p: RetirementPlan, targets: seq<int>, startYear: int, k: nat): YearlyProjection
    requires p.inflationRate > -1.0 && k < |targets|
  {
    Row(p, targets, startYear, k, Balance(p, k), DoNothing(p, k))
  }

  /**
   * The projection loop from year index i with the running balance and
   * do-nothing balance: emit a row, and unless this is the retirement year
   * add the contribution and grow both balances for a year.
   */
  function ProjectionLoop(p: RetirementPlan, targets: seq<int>, startYear: int, i: nat, balance: real, doNothing: real): seq<YearlyProjection>
    requires ValidPlan(p) && |targets| == YearsToRetirement(p) + 1
    decreases YearsToRetirement(p) + 1 - i
  {
    if i > YearsToRetirement(p) then []
    else
      var row := Row(p, targets, startYear, i, balance, doNothing);
      if row.isRetirementYear then [row] + ProjectionLoop(p, targets, startYear, i + 1, balance, doNothing)
      else [row] + ProjectionLoop(p, targets, startYear, i + 1, Grown(p, balance + row.annualContribution), Grown(p, doNothing))
  }

  /** The expected rows of years i..n, in order. */
  function ExpectedRows(p: RetirementPlan, targets: seq<int>, startYear: int, i: nat): (rows: seq<YearlyProjection>)
    requires p.inflationRate > -1.0 && |targets| == YearsToRetirement(p) + 1
    decreases YearsToRetirement(p) + 1 - i
  {
    if i > YearsToRetirement(p) then []
    else [ExpectedRow(p, targets, startYear, i)] + ExpectedRows(p, targets, startYear, i + 1)
  }

  /** Started from the reference balances of year i, the loop emits the expected rows of years i..n. */
  lemma {:induction false} ProjectionLoopIsExpected(p: RetirementPlan, targets: seq<int>, startYear: int, i: nat)
    requires ValidPlan(p) && |targets| == YearsToRetirement(p) + 1
    ensures ProjectionLoop(p, targets, startYear, i, Balance(p, i), DoNothing(p, i)) == ExpectedRows(p, targets, startYear, i)
    decreases YearsToRetirement(p) + 1 - i
  {
    if i < YearsToRetirement(p) {
      ProjectionLoopIsExpected(p, targets, startYear, i + 1);
      LoopStep(p, targets, startYear, i);
    } else if i == YearsToRetirement(p) {
      assert ProjectionLoop(p, targets, startYear, i + 1, Balance(p, i), DoNothing(p, i)) == [];
    }
  }

  /** Before retirement the loop carries the reference balances forward by one year. */
  lemma LoopStep(p: RetirementPlan, targets: seq<int>, startYear: int, i: nat)
    requires ValidPlan(p) && |targets| == YearsToRetirement(p) + 1 && i < YearsToRetirement(p)
    ensures ProjectionLoop(p, targets, startYear, i, Balance(p, i), DoNothing(p, i))
         == [ExpectedRow(p, targets, startYear, i)] + ProjectionLoop(p, targets, startYear, i + 1, Balance(p, i + 1), DoNothing(p, i + 1))
  {
    var row := ExpectedRow(p, targets, startYear, i);
    assert !row.isRetirementYear && row.annualContribution == AnnualContribution(p, i);
  }

  /** The expected rows of years i..n: one per year, each the expected row of its year. */
  lemma {:induction false} ExpectedRowsIndex(p: RetirementPlan, targets: seq<int>, startYear: int, i: nat)
    requires p.inflationRate > -1.0 && |targets| == YearsToRetirement(p) + 1
    requires i <= YearsToRetirement(p) + 1
    ensures |ExpectedRows(p, targets, startYear, i)| == YearsToRetirement(p) + 1 - i
    ensures forall k | 0 <= k < YearsToRetirement(p) + 1 - i ::
              ExpectedRows(p, targets, startYear, i)[k] == ExpectedRow(p, targets, startYear, i + k)
    decreases YearsToRetirement(p) + 1 - i
  {
    if i <= YearsToRetirement(p) {
      ExpectedRowsIndex(p, targets, startYear, i + 1);
    }
  }

  /**
   * buildProjections with the nest egg given: one row per year from the
   * current age to the retirement age, each the expected row of its year.
   */
  function BuildProjections(p: RetirementPlan, nestEgg: real, startYear: int): (rows: seq<YearlyProjection>)
    requires ValidPlan(p)
    ensures |rows| == YearsToRetirement(p) + 1
    ensures forall k | 0 <= k < |rows| :: rows[k] == ExpectedRow(p, OnTrackTargets(p, nestEgg), startYear, k)
  {
    var targets := OnTrackTargets(p, nestEgg);
    ProjectionLoopIsExpected(p, targets, startYear, 0);
    ExpectedRowsIndex(p, targets, startYear, 0);
    ProjectionLoop(p, targets, startYear, 0, p.currentSavings, p.currentSavings)
  }

  /**
   * Shape of the projection: consecutive ages and calendar years from today,
   * the retirement flag on the last row only, no contribution in that row,
   * and the glide path running from today's savings to the nest egg.
   */
  lemma ProjectionShape(p: RetirementPlan, nestEgg: real, startYear: int)
    requires ValidPlan(p)
    ensures var rows := BuildProjections(p, nestEgg, startYear);
      && (forall k | 0 <= k < |rows| ::
            rows[k].age == p.currentAge + k && rows[k].year == startYear + k
            && (rows[k].isRetirementYear <==> k == |rows| - 1))
      && rows[|rows| - 1].age == p.retirementAge
      && rows[|rows| - 1].annualContribution == 0.0
      && rows[0].balance == rows[0].onTrackTarget == rows[0].doNothingBalance == Round(p.currentSavings)
      && rows[|rows| - 1].onTrackTarget == Round(nestEgg)
  {
    var rows := BuildProjections(p, nestEgg, startYear);
    OnTrackEnds(p, nestEgg);
    assert rows[0] == ExpectedRow(p, OnTrackTargets(p, nestEgg), startYear, 0);
    assert DoNothing(p, 0) == p.currentSavings;
    assert Deflate(Balance(p, 0), p.inflationRate, 0) == p.currentSavings;
  }

  /**
   * Between consecutive rows before retirement the unrounded balance grows by
   * the row's contribution and then the year's return.
   */
  lemma ProjectionBalanceStep(p: RetirementPlan, nestEgg: real, startYear: int, k: nat)
    requires ValidPlan(p) && k < YearsToRetirement(p)
    ensures var rows := BuildProjections(p, nestEgg, startYear);
      && rows[k].balance == Round(Balance(p, k))
      && rows[k].annualContribution == AnnualContribution(p, k)
      && rows[k + 1].balance == Round(Grown(p, Balance(p, k) + rows[k].annualContribution))
  {
    var rows := BuildProjections(p, nestEgg, startYear);
    var targets := OnTrackTargets(p, nestEgg);
    assert rows[k] == ExpectedRow(p, targets, startYear, k);
    assert rows[k + 1] == ExpectedRow(p, targets, startYear, k + 1);
  }

  /**
   * The real-terms column deflates the nominal balance by inflation since
   * today, and the do-nothing column is today's savings compounded.
   */
  lemma ProjectionColumns(p: RetirementPlan, nestEgg: real, startYear: int, k: nat)
    requires ValidPlan(p) && k <= YearsToRetirement(p)
    ensures var rows := BuildProjections(p, nestEgg, startYear);
      && rows[k].balanceInflationAdjusted == Round(Deflate(Balance(p, k), p.inflationRate, k))
      && rows[k].doNothingBalance == Round(p.currentSavings * Pow(Growth(p), k))
      && rows[k].onTrackTarget == OnTrackTargets(p, nestEgg)[k]
      && rows[k].estimatedSalary == EstimatedSalary(p, k)
  {
    var rows := BuildProjections(p, nestEgg, startYear);
    assert rows[k] == ExpectedRow(p, OnTrackTargets(p, nestEgg), startYear, k);
    DoNothingClosedForm(p, k);
  }

  /** The usual inputs: nothing negative saved, contributed or earned. */
  predicate NonNegativeSaving(p: RetirementPlan)
  {
    && p.currentSavings >= 0.0
    && p.expectedReturnRate >= 0.0
    && (p.contributionMode == Fixed ==> p.annualContribution >= 0.0)
    && (p.contributionMode == Salary ==>
          p.currentSalary >= 0.0 && p.salaryContributionPct >= 0.0 && p.expectedSalaryGrowthPct >= 0.0)
  }

  lemma ContributionNonNegative(p: RetirementPlan, i: nat)
    requires NonNegativeSaving(p)
    ensures AnnualContribution(p, i) >= 0.0
  {
    if p.contributionMode == Salary {
      SalaryContributionGrows(p, i, i);
    }
  }

  lemma {:induction false} BalanceNonNegative(p: RetirementPlan, k: nat)
    requires NonNegativeSaving(p)
    ensures Balance(p, k) >= 0.0
  {
    if k > 0 {
      BalanceNonNegative(p, k - 1);
      ContributionNonNegative(p, k - 1);
      MulMonotone(0.0, Balance(p, k - 1) + AnnualContribution(p, k - 1), Growth(p));
    }
  }

  /** With nothing negative, the balance only grows from one year to a later one. */
  lemma {:induction false} BalanceGrowsWithYears(p: RetirementPlan, i: nat, j: nat)
    requires NonNegativeSaving(p) && i <= j
    ensures 0.0 <= Balance(p, i) <= Balance(p, j)
    decreases j
  {
    if i < j {
      BalanceGrowsWithYears(p, i, j - 1);
      ContributionNonNegative(p, j - 1);
      var b := Balance(p, j - 1) + AnnualContribution(p, j - 1);
      MulMonotone(1.0, Growth(p), b);
      assert Balance(p, j) == Grown(p, b);
    } else {
      BalanceNonNegative(p, i);
    }
  }

  /** A larger fixed contribution never gives a smaller balance, the return being above -100%. */
  lemma {:induction false} FixedBalanceMonotone(p: RetirementPlan, a: real, b: real, k: nat)
    requires p.expectedReturnRate > -1.0 && a <= b
    ensures Balance(p.(annualContribution := a, contributionMode := Fixed), k)
         <= Balance(p.(annualContribution := b, contributionMode := Fixed), k)
  {
    if k > 0 {
      var pa, pb := p.(annualContribution := a, contributionMode := Fixed), p.(annualContribution := b, contributionMode := Fixed);
      FixedBalanceMonotone(p, a, b, k - 1);
      var x, y := Balance(pa, k - 1) + a, Balance(pb, k - 1) + b;
      assert Balance(pa, k) == Grown(pa, x) by {
        assert AnnualContribution(pa, k - 1) == a;
      }
      assert Balance(pb, k) == Grown(pb, y) by {
        assert AnnualContribution(pb, k - 1) == b;
      }
      GrownMonotone(pa, pb, x, y);
    }
  }

  lemma GrownMonotone(p: RetirementPlan, q: RetirementPlan, x: real, y: real)
    requires p.expectedReturnRate == q.expectedReturnRate > -1.0 && x <= y
    ensures Grown(p, x) <= Grown(q, y)
  {
    MulMonotone(x, y, Growth(p));
  }
}
