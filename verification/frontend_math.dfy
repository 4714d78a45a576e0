/**
 * The frontend's own copy of the engine, which the dashboard and the
 * scenario comparison run in the browser. It shares the projection,
 * drawdown and milestone arithmetic with the backend (modules Engine,
 * Drawdown, Milestones) but has its own tax model: the 2024 federal
 * brackets (IRS Revenue Procedure 2023-34, section 3.01) listed by ceiling
 * only, the deduction taken inside the tax function, and a 60-step inverse
 * on [net, 3 * net]. It adds scenario overrides and the monthly-withdrawal
 * helpers.
 */
module FrontendMath {
  import opened Numeric
  import opened PlanTypes
  import opened Brackets
  import opened Bisection
  import Engine
  import Drawdown
  import Milestones
  import BackendMath

  const SingleTiers: seq<Tier> := [
    Tier(Finite(11600.0),  0.10),
    Tier(Finite(47150.0),  0.12),
    Tier(Finite(100525.0), 0.22),
    Tier(Finite(191950.0), 0.24),
    Tier(Finite(243725.0), 0.32),
    Tier(Finite(609350.0), 0.35),
    Tier(Unbounded,        0.37)
  ]

  const MarriedTiers: seq<Tier> := [
    Tier(Finite(23200.0),  0.10),
    Tier(Finite(94300.0),  0.12),
    Tier(Finite(201050.0), 0.22),
    Tier(Finite(383900.0), 0.24),
    Tier(Finite(487450.0), 0.32),
    Tier(Finite(731200.0), 0.35),
    Tier(Unbounded,        0.37)
  ]

  function TiersFor(fs: FilingStatus): seq<Tier>
  {
    match fs
    case Single => SingleTiers
    case Married => MarriedTiers
  }

  function StandardDeduction(fs: FilingStatus): real
  {
    match fs
    case Single => 14600.0
    case Married => 29200.0
  }

  /** The floor/ceiling tables the ceiling lists imply, starting from 0. */
  function FloorTable(fs: FilingStatus): seq<Bracket>
  {
    match fs
    case Single => [
      Bracket(0.0,      Finite(11600.0),  0.10),
      Bracket(11600.0,  Finite(47150.0),  0.12),
      Bracket(47150.0,  Finite(100525.0), 0.22),
      Bracket(100525.0, Finite(191950.0), 0.24),
      Bracket(191950.0, Finite(243725.0), 0.32),
      Bracket(243725.0, Finite(609350.0), 0.35),
      Bracket(609350.0, Unbounded,        0.37)]
    case Married => [
      Bracket(0.0,      Finite(23200.0),  0.10),
      Bracket(23200.0,  Finite(94300.0),  0.12),
      Bracket(94300.0,  Finite(201050.0), 0.22),
      Bracket(201050.0, Finite(383900.0), 0.24),
      Bracket(383900.0, Finite(487450.0), 0.32),
      Bracket(487450.0, Finite(731200.0), 0.35),
      Bracket(731200.0, Unbounded,        0.37)]
  }

  /**
   * Walking the ceilings from a running `prev` of 0 is the floor/ceiling
   * schedule whose floors chain to the previous ceilings, and that schedule
   * is well formed.
   */
  lemma TiersAreWellFormed(fs: FilingStatus)
    ensures ToBrackets(TiersFor(fs), 0.0) == FloorTable(fs)
    ensures WellFormed(FloorTable(fs)) && |FloorTable(fs)| == 7 && FloorTable(fs)[0].min == 0.0
  {
    TiersChain(fs);
    FloorTableWellFormed(fs);
  }

  lemma TiersChain(fs: FilingStatus)
    ensures ToBrackets(TiersFor(fs), 0.0) == FloorTable(fs)
  {
    match fs
    case Single => SingleChain();
    case Married => MarriedChain();
  }

  lemma SingleChain()
    ensures ToBrackets(SingleTiers, 0.0) == FloorTable(Single)
  {
    var t, f := SingleTiers, FloorTable(Single);
    assert ToBrackets(t[6..], t[5].limit.value) == f[6..];
    assert ToBrackets(t[5..], t[4].limit.value) == f[5..];
    assert ToBrackets(t[4..], t[3].limit.value) == f[4..];
    assert ToBrackets(t[3..], t[2].limit.value) == f[3..];
    assert ToBrackets(t[2..], t[1].limit.value) == f[2..];
    assert ToBrackets(t[1..], t[0].limit.value) == f[1..];
  }

  lemma MarriedChain()
    ensures ToBrackets(MarriedTiers, 0.0) == FloorTable(Married)
  {
    var t, f := MarriedTiers, FloorTable(Married);
    assert ToBrackets(t[6..], t[5].limit.value) == f[6..];
    assert ToBrackets(t[5..], t[4].limit.value) == f[5..];
    assert ToBrackets(t[4..], t[3].limit.value) == f[4..];
    assert ToBrackets(t[3..], t[2].limit.value) == f[3..];
    assert ToBrackets(t[2..], t[1].limit.value) == f[2..];
    assert ToBrackets(t[1..], t[0].limit.value) == f[1..];
  }

  lemma FloorTableWellFormed(fs: FilingStatus)
    ensures WellFormed(FloorTable(fs)) && |FloorTable(fs)| == 7 && FloorTable(fs)[0].min == 0.0
  {
  }

  /** Income above the standard deduction, never negative. */
  function Taxable(grossIncome: real, fs: FilingStatus): real
  {
    Max(grossIncome - StandardDeduction(fs), 0.0)
  }

  /**
   * calcFederalTax: the ceiling walk over the income above the standard
   * deduction. Never negative, nothing owed up to the deduction, and at most
   * the top rate on the taxable income.
   */
  function CalcFederalTax(grossIncome: real, fs: FilingStatus): (tax: real)
    ensures 0.0 <= tax <= TopRate * Taxable(grossIncome, fs)
    ensures grossIncome <= StandardDeduction(fs) ==> tax == 0.0
  {
    var taxable := Taxable(grossIncome, fs);
    TiersAreWellFormed(fs);
    LimitWalkIsBracketSum(TiersFor(fs), taxable, 0.0);
    TaxNonNegative(FloorTable(fs), taxable);
    TaxAtMostTopRate(FloorTable(fs), taxable);
    LimitWalkTax(TiersFor(fs), taxable, 0.0)
  }

  /**
   * The tax is non-decreasing in the income and rises by at most 0.37 per
   * extra dollar.
   */
  lemma CalcFederalTaxSlope(x: real, y: real, fs: FilingStatus)
    requires x <= y
    ensures 0.0 <= CalcFederalTax(y, fs) - CalcFederalTax(x, fs) <= TopRate * (y - x)
  {
    var tx, ty := Taxable(x, fs), Taxable(y, fs);
    assert 0.0 <= ty - tx <= y - x;
    TiersAreWellFormed(fs);
    LimitWalkIsBracketSum(TiersFor(fs), tx, 0.0);
    LimitWalkIsBracketSum(TiersFor(fs), ty, 0.0);
    TaxSlope(FloorTable(fs), tx, ty);
    MulMonotone(ty - tx, y - x, TopRate);
  }

  /** `1 - rothPct / 100`: the share of a withdrawal that is taxed. */
  function TradFraction(rothPct: real): real
  {
    1.0 - rothPct / 100.0
  }

  /** The traditional part of a gross withdrawal. */
  function TradAmount(gross: real, rothPct: real): real
  {
    gross * TradFraction(rothPct)
  }

  /** The traditional part grows with the gross, never faster than it. */
  lemma TradSlope(g1: real, g2: real, rothPct: real)
    requires 0.0 <= rothPct <= 100.0 && g1 <= g2
    ensures 0.0 <= TradAmount(g2, rothPct) - TradAmount(g1, rothPct) <= g2 - g1
  {
    var f := TradFraction(rothPct);
    var d := g2 - g1;
    assert 0.0 <= f <= 1.0;
    Distribute(f, g2, g1);
    assert TradAmount(g2, rothPct) - TradAmount(g1, rothPct) == f * d;
    MulMonotone(0.0, f, d);
    MulMonotone(f, 1.0, d);
    assert 0.0 * d == 0.0 && 1.0 * d == d;
  }

  /** The take-home part of a gross withdrawal, for one Roth share and filing status. */
  function NetOf(rothPct: real, fs: FilingStatus): real -> real
  {
    g => g - CalcFederalTax(TradAmount(g, rothPct), fs)
  }

  /** Iterations of the frontend inverse. */
  const GrossSearchSteps: nat := 60

  /**
   * grossForNet: the target itself when nothing is traditional; otherwise
   * bisection on [netAnnual, 3 * netAnnual] for a gross whose net is within 1
   * of the target, the last midpoint when the 60 iterations run out.
   */
  function GrossForNet(netAnnual: real, rothPct: real, fs: FilingStatus): (r: real)
    ensures rothPct == 100.0 ==> r == netAnnual
    ensures Between(r, netAnnual, 3.0 * netAnnual)
  {
    if TradFraction(rothPct) == 0.0 then netAnnual
    else Answer(GrossSearch(netAnnual, rothPct, fs, GrossSearchSteps))
  }

  /** The bisection GrossForNet runs when part of the withdrawal is traditional. */
  function GrossSearch(netAnnual: real, rothPct: real, fs: FilingStatus, steps: nat): (o: Outcome)
    ensures Between(Answer(o), netAnnual, 3.0 * netAnnual)
  {
    NetSearchHull(NetOf(rothPct, fs), netAnnual, netAnnual, 3.0 * netAnnual, steps);
    NetSearch(NetOf(rothPct, fs), netAnnual, netAnnual, 3.0 * netAnnual, steps)
  }

  lemma NetOfSlope(rothPct: real, fs: FilingStatus)
    requires 0.0 <= rothPct <= 100.0
    ensures var net := NetOf(rothPct, fs);
            forall a, b :: a <= b ==> net(a) <= net(b) <= net(a) + (b - a)
  {
    var net := NetOf(rothPct, fs);
    forall a, b | a <= b
      ensures net(a) <= net(b) <= net(a) + (b - a)
    {
      TradSlope(a, b, rothPct);
      CalcFederalTaxSlope(TradAmount(a, rothPct), TradAmount(b, rothPct), fs);
      MulMonotone(TradAmount(b, rothPct) - TradAmount(a, rothPct), b - a, TopRate);
    }
  }

  /** The net of the target is at most the target, the net of three times the target at least it. */
  lemma NetOfBrackets(netAnnual: real, rothPct: real, fs: FilingStatus)
    requires netAnnual >= 0.0 && 0.0 <= rothPct <= 100.0
    ensures NetOf(rothPct, fs)(netAnnual) <= netAnnual <= NetOf(rothPct, fs)(3.0 * netAnnual)
  {
    var hi := 3.0 * netAnnual;
    var tr := TradAmount(hi, rothPct);
    TradSlope(0.0, hi, rothPct);
    assert Taxable(tr, Single) <= hi && Taxable(tr, Married) <= hi;
    MulMonotone(Taxable(tr, fs), hi, TopRate);
  }

  /**
   * Round trip: for a non-negative target and 0 <= rothPct <= 100 the gross
   * returned nets within $1 of the target, or within 2 * netAnnual / 2^60.
   */
  lemma GrossForNetRoundTrip(netAnnual: real, rothPct: real, fs: FilingStatus)
    requires netAnnual >= 0.0 && 0.0 <= rothPct <= 100.0
    ensures Settled(NetOf(rothPct, fs)(GrossForNet(netAnnual, rothPct, fs)), netAnnual, Halved(2.0 * netAnnual, GrossSearchSteps))
  {
    if TradFraction(rothPct) != 0.0 {
      GrossSearchSettled(netAnnual, rothPct, fs, GrossSearchSteps);
    } else {
      assert CalcFederalTax(TradAmount(netAnnual, rothPct), fs) == 0.0;
    }
  }

  lemma GrossSearchSettled(netAnnual: real, rothPct: real, fs: FilingStatus, steps: nat)
    requires netAnnual >= 0.0 && 0.0 <= rothPct <= 100.0
    ensures Settled(NetOf(rothPct, fs)(Answer(GrossSearch(netAnnual, rothPct, fs, steps))), netAnnual, Halved(2.0 * netAnnual, steps))
  {
    var net := NetOf(rothPct, fs);
    var hi := 3.0 * netAnnual;
    assert Settled(net(Answer(NetSearch(net, netAnnual, netAnnual, hi, steps))), netAnnual, Halved(hi - netAnnual, steps)) by {
      NetOfSlope(rothPct, fs);
      NetOfBrackets(netAnnual, rothPct, fs);
      NetSearchRoundTrip(net, netAnnual, netAnnual, hi, steps);
    }
    assert hi - netAnnual == 2.0 * netAnnual;
  }

  /** For any target up to $10^12 the frontend inverse nets within $1 of it. */
  lemma GrossForNetWithinOneDollar(netAnnual: real, rothPct: real, fs: FilingStatus)
    requires 0.0 <= netAnnual <= 1_000_000_000_000.0 && 0.0 <= rothPct <= 100.0
    ensures Abs(NetOf(rothPct, fs)(GrossForNet(netAnnual, rothPct, fs)) - netAnnual) < 1.0
  {
    GrossForNetRoundTrip(netAnnual, rothPct, fs);
    SettledAfterSearch(NetOf(rothPct, fs)(GrossForNet(netAnnual, rothPct, fs)), netAnnual);
  }

  /** Sixty halvings of [net, 3·net] leave less than $1 for any target up to $10^12. */
  lemma SettledAfterSearch(n: real, netAnnual: real)
    requires 0.0 <= netAnnual <= 1_000_000_000_000.0
    requires Settled(n, netAnnual, Halved(2.0 * netAnnual, GrossSearchSteps))
    ensures Abs(n - netAnnual) < 1.0
  {
    var w := 2.0 * netAnnual;
    HalvedAdd(w, 10, 50);
    HalvedTen(w);
    HalvedMonotone(Halved(w, 10), w / 1000.0, 50);
    HalvedFiftyBelowOne(w / 1000.0);
  }

  /**
   * effectiveTaxRate: tax on the traditional part over the gross, 0 for a
   * gross at or below 0 and 0 for an all-Roth split; for a Roth share in
   * [0, 100] the rate lies in [0, 0.37].
   */
  function EffectiveTaxRate(gross: real, rothPct: real, fs: FilingStatus): (rate: real)
    ensures gross <= 0.0 || rothPct == 100.0 ==> rate == 0.0
    ensures gross > 0.0 ==> rate * gross == CalcFederalTax(TradAmount(gross, rothPct), fs)
    ensures gross > 0.0 && 0.0 <= rothPct <= 100.0 ==> 0.0 <= rate <= TopRate
  {
    var tax := CalcFederalTax(TradAmount(gross, rothPct), fs);
    if gross > 0.0 then
      RateAtMostTop(gross, rothPct, fs);
      tax / gross
    else 0.0
  }

  lemma RateAtMostTop(gross: real, rothPct: real, fs: FilingStatus)
    requires gross > 0.0
    ensures 0.0 <= rothPct <= 100.0 ==> CalcFederalTax(TradAmount(gross, rothPct), fs) <= TopRate * gross
  {
    if 0.0 <= rothPct <= 100.0 {
      var tr := TradAmount(gross, rothPct);
      TradSlope(0.0, gross, rothPct);
      assert Taxable(tr, fs) <= gross;
      MulMonotone(Taxable(tr, fs), gross, TopRate);
    }
  }

  /** getEffectiveAnnualContribution: the contribution of the first year. */
  function EffectiveAnnualContribution(p: RetirementPlan): (c: real)
    ensures p.contributionMode == Fixed ==> c == p.annualContribution
    ensures p.contributionMode == Salary ==> c == Engine.Share(p.currentSalary, p.salaryContributionPct)
  {
    Engine.AnnualContribution(p, 0)
  }

  /** calculateNestEggNeeded with the frontend inverse. */
  function NestEggNeeded(p: RetirementPlan): int
    requires p.currentAge <= p.retirementAge && Swr(p) > 0.0
  {
    Round(GrossForNet(Engine.FutureAnnualSpend(p), p.rothPct, Filing(p)) / Swr(p))
  }

  /**
   * For a non-negative spend the frontend nest egg lies between the spend
   * and three times the spend over the withdrawal rate, rounded; with an
   * all-Roth split it is the spend over the rate, the same as the backend's.
   */
  lemma NestEggBounds(p: RetirementPlan)
    requires p.currentAge <= p.retirementAge && Swr(p) > 0.0
    ensures Engine.FutureAnnualSpend(p) >= 0.0 ==>
      Round(Engine.FutureAnnualSpend(p) / Swr(p)) <= NestEggNeeded(p) <= Round(3.0 * Engine.FutureAnnualSpend(p) / Swr(p))
    ensures p.rothPct == 100.0 ==>
      NestEggNeeded(p) == Round(Engine.FutureAnnualSpend(p) / Swr(p)) == BackendMath.NestEggNeeded(p)
  {
    var f := Engine.FutureAnnualSpend(p);
    var g := GrossForNet(f, p.rothPct, Filing(p));
    if f >= 0.0 {
      assert f <= g <= 3.0 * f;
      RoundedQuotientBetween(f, g, 3.0 * f, Swr(p));
    }
  }

  /**
   * calculateMonthlyWithdrawal: 0 for a nest egg at or below 0, otherwise
   * the yearly withdrawal-rate share over twelve, rounded; within 50 cents
   * of the exact monthly amount.
   */
  function MonthlyWithdrawal(nestEgg: real, p: RetirementPlan): (m: int)
    ensures nestEgg <= 0.0 ==> m == 0
    ensures nestEgg > 0.0 ==> Abs(m as real - nestEgg * Swr(p) / 12.0) <= 0.5
    ensures nestEgg > 0.0 && Swr(p) >= 0.0 ==> m >= 0
  {
    if nestEgg <= 0.0 then 0
    else
      MonthlyShareNonNegative(nestEgg, Swr(p));
      Round(nestEgg * Swr(p) / 12.0)
  }

  lemma MonthlyShareNonNegative(nestEgg: real, rate: real)
    requires nestEgg > 0.0
    ensures rate >= 0.0 ==> Round(nestEgg * rate / 12.0) >= 0
  {
    if rate >= 0.0 {
      MulMonotone(0.0, nestEgg, rate);
      RoundNonNegative(nestEgg * rate / 12.0);
    }
  }

  /** The yearly tax on twelve monthly withdrawals of `gross`. */
  function MonthlyTax(gross: real, p: RetirementPlan): real
  {
    CalcFederalTax(gross * 12.0 * TradFraction(p.rothPct), Filing(p))
  }

  /**
   * calculateNetMonthlyWithdrawal: the gross monthly withdrawal less a
   * twelfth of the yearly tax on it, rounded. Never more than the gross,
   * equal to it when all of it is Roth, and, for a Roth share in [0, 100]
   * and a non-negative gross, at least 63% of the gross.
   */
  function NetMonthlyWithdrawal(nestEgg: real, p: RetirementPlan): (n: int)
    ensures n <= MonthlyWithdrawal(nestEgg, p)
    ensures p.rothPct == 100.0 ==> n == MonthlyWithdrawal(nestEgg, p)
    ensures 0.0 <= p.rothPct <= 100.0 && MonthlyWithdrawal(nestEgg, p) >= 0 ==>
      Round(0.63 * MonthlyWithdrawal(nestEgg, p) as real) <= n
  {
    var gross := MonthlyWithdrawal(nestEgg, p) as real;
    var tax := MonthlyTax(gross, p);
    RoundMonotone(gross - tax / 12.0, gross);
    RoundOfInt(MonthlyWithdrawal(nestEgg, p));
    NetMonthlyFloor(gross, p);
    Round(gross - tax / 12.0)
  }

  lemma NetMonthlyFloor(gross: real, p: RetirementPlan)
    ensures 0.0 <= p.rothPct <= 100.0 && gross >= 0.0 ==>
      Round(0.63 * gross) <= Round(gross - MonthlyTax(gross, p) / 12.0)
  {
    if 0.0 <= p.rothPct <= 100.0 && gross >= 0.0 {
      MonthlyTaxBound(gross, p);
      RoundMonotone(0.63 * gross, gross - MonthlyTax(gross, p) / 12.0);
    }
  }

  lemma MonthlyTaxBound(gross: real, p: RetirementPlan)
    requires 0.0 <= p.rothPct <= 100.0 && gross >= 0.0
    ensures MonthlyTax(gross, p) / 12.0 <= 0.37 * gross
  {
    var yearly := gross * 12.0;
    var tr := yearly * TradFraction(p.rothPct);
    TradSlope(0.0, yearly, p.rothPct);
    assert tr == TradAmount(yearly, p.rothPct);
    assert Taxable(tr, Filing(p)) <= yearly;
    MulMonotone(Taxable(tr, Filing(p)), yearly, TopRate);
  }

  /** buildProjections: the shared projection sized by the frontend nest egg. */
  function BuildProjections(p: RetirementPlan, currentYear: int): (rows: seq<YearlyProjection>)
    requires ValidPlan(p)
    ensures |rows| == YearsToRetirement(p) + 1
    ensures forall k | 0 <= k < |rows| ::
      rows[k] == Engine.ExpectedRow(p, Engine.OnTrackTargets(p, NestEggNeeded(p) as real), currentYear, k)
  {
    Engine.BuildProjections(p, NestEggNeeded(p) as real, currentYear)
  }

  /**
   * The frontend and backend projections differ only in the on-track
   * column: the balances, contributions and salary columns are the same.
   */
  lemma ProjectionsAgreeOffTarget(p: RetirementPlan, currentYear: int, k: nat)
    requires ValidPlan(p) && k <= YearsToRetirement(p)
    ensures var f, b := BuildProjections(p, currentYear)[k], BackendMath.BuildProjections(p, currentYear)[k];
      f.(onTrackTarget := 0) == b.(onTrackTarget := 0)
  {
    Engine.ProjectionShape(p, BackendMath.NestEggNeeded(p) as real, currentYear);
  }

  /** A scenario: optional overrides of four plan fields, with a label and colour for display. */
  datatype ScenarioOverride = ScenarioOverride(
    caption: string,
    color: string,
    annualContribution: Option<real>,
    expectedReturnRate: Option<real>,
    retirementAge: Option<int>,
    monthlySpendingGoal: Option<real>
  )

  /**
   * The plan a scenario runs: each defined override replaces its field, an
   * annual-contribution override also switches to fixed contributions, and
   * every other field is the plan's.
   */
  function Merge(p: RetirementPlan, o: ScenarioOverride): (m: RetirementPlan)
    ensures m.annualContribution == o.annualContribution.GetOr(p.annualContribution)
    ensures m.contributionMode == (if o.annualContribution.Some? then Fixed else p.contributionMode)
    ensures m.expectedReturnRate == o.expectedReturnRate.GetOr(p.expectedReturnRate)
    ensures m.retirementAge == o.retirementAge.GetOr(p.retirementAge)
    ensures m.monthlySpendingGoal == o.monthlySpendingGoal.GetOr(p.monthlySpendingGoal)
    ensures m == p.(annualContribution := m.annualContribution, contributionMode := m.contributionMode,
                    expectedReturnRate := m.expectedReturnRate, retirementAge := m.retirementAge,
                    monthlySpendingGoal := m.monthlySpendingGoal)
  {
    var p1 := if o.annualContribution.Some? then p.(annualContribution := o.annualContribution.value, contributionMode := Fixed) else p;
    var p2 := if o.expectedReturnRate.Some? then p1.(expectedReturnRate := o.expectedReturnRate.value) else p1;
    var p3 := if o.retirementAge.Some? then p2.(retirementAge := o.retirementAge.value) else p2;
    if o.monthlySpendingGoal.Some? then p3.(monthlySpendingGoal := o.monthlySpendingGoal.value) else p3
  }

  /** An override with nothing defined leaves the plan as it is, whatever its label and colour. */
  lemma MergeNothing(p: RetirementPlan, caption: string, color: string)
    ensures Merge(p, ScenarioOverride(caption, color, None, None, None, None)) == p
  {
  }

  /** Applying the same overrides twice is applying them once. */
  lemma MergeIdempotent(p: RetirementPlan, o: ScenarioOverride)
    ensures Merge(Merge(p, o), o) == Merge(p, o)
  {
  }

  /** buildScenarioProjections: the projection of the merged plan. */
  function BuildScenarioProjections(p: RetirementPlan, o: ScenarioOverride, currentYear: int): (rows: seq<YearlyProjection>)
    requires ValidPlan(Merge(p, o))
    ensures |rows| == YearsToRetirement(Merge(p, o)) + 1
    ensures forall k | 0 <= k < |rows| ::
      rows[k] == Engine.ExpectedRow(Merge(p, o), Engine.OnTrackTargets(Merge(p, o), NestEggNeeded(Merge(p, o)) as real), currentYear, k)
  {
    BuildProjections(Merge(p, o), currentYear)
  }

  /** Label and colour never reach the numbers: two scenarios with the same overrides project alike. */
  lemma ScenarioIgnoresLabel(p: RetirementPlan, o: ScenarioOverride, caption: string, color: string, currentYear: int)
    requires ValidPlan(Merge(p, o))
    ensures ValidPlan(Merge(p, o.(caption := caption, color := color)))
    ensures BuildScenarioProjections(p, o.(caption := caption, color := color), currentYear) == BuildScenarioProjections(p, o, currentYear)
  {
    assert Merge(p, o.(caption := caption, color := color)) == Merge(p, o);
  }

  /** The effective rate the frontend reports for a withdrawal, for one Roth share and filing status. */
  function TaxRate(rothPct: real, fs: FilingStatus): real -> real
  {
    g => EffectiveTaxRate(g, rothPct, fs)
  }

  /** buildDrawdown with the frontend tax model. */
  function BuildDrawdown(p: RetirementPlan, nestEgg: real, currentYear: int): seq<DrawdownYear>
  {
    Drawdown.BuildDrawdown(Drawdown.SetupFor(p, nestEgg, currentYear), TaxRate(p.rothPct, Filing(p)), nestEgg)
  }

  /**
   * The frontend drawdown has as many rows as the backend's and agrees with
   * it in every column but the effective tax rate, which for a Roth share
   * in [0, 100] lies in [0, 0.37].
   */
  lemma DrawdownMatchesBackend(p: RetirementPlan, nestEgg: real, currentYear: int, k: nat)
    requires k < |BuildDrawdown(p, nestEgg, currentYear)|
    ensures |BuildDrawdown(p, nestEgg, currentYear)| == |BackendMath.BuildDrawdown(p, nestEgg, currentYear)|
    ensures Drawdown.WithoutRate(BuildDrawdown(p, nestEgg, currentYear)[k]) == Drawdown.WithoutRate(BackendMath.BuildDrawdown(p, nestEgg, currentYear)[k])
    ensures 0.0 <= p.rothPct <= 100.0 ==> 0.0 <= BuildDrawdown(p, nestEgg, currentYear)[k].effectiveTaxRate <= TopRate
  {
    var d := Drawdown.SetupFor(p, nestEgg, currentYear);
    Drawdown.DrawdownIgnoresRate(d, TaxRate(p.rothPct, Filing(p)), BackendMath.TaxRate(p.rothPct, Filing(p)), nestEgg);
    if 0.0 <= p.rothPct <= 100.0 {
      var tr := TaxRate(p.rothPct, Filing(p));
      assert forall g :: 0.0 <= tr(g) <= 0.37 by {
        forall g ensures 0.0 <= tr(g) <= 0.37 {
          var r := EffectiveTaxRate(g, p.rothPct, Filing(p));
        }
      }
      Drawdown.DrawdownRateRange(d, tr, nestEgg, k);
    }
  }

  /** buildMilestones (without the labels): the same checkpoints and lookup as the backend. */
  function BuildMilestones(p: RetirementPlan, rows: seq<YearlyProjection>): (ms: seq<Milestone>)
    ensures ms == BackendMath.BuildMilestones(p, rows)
  {
    Milestones.BuildMilestones(p, rows)
  }
}
