/**
 * The goal solver: pick a target (die with a given end balance, afford a
 * monthly spend, retire at a given age) and a lever (withdrawal rate, annual
 * contribution, retirement age, monthly spending), bisect the lever over a
 * fixed interval until the objective lands within $100 of the target, and
 * report the changed plan with its projection recomputed.
 */
module Solver {
  import opened Numeric
  import opened PlanTypes
  import opened Bisection
  import opened BackendMath
  import Engine
  import Drawdown

  datatype Target = EndBalance | RetireEarlier | MonthlySpend

  datatype Lever = WithdrawalRateLever | AnnualContributionLever | RetirementAgeLever | MonthlySpendingLever

  datatype SolveRequest = SolveRequest(plan: RetirementPlan, target: Target, targetValue: real, lever: Lever)

  /** The solver's answer, without the human-readable description. */
  datatype SolveResult = SolveResult(
    success: bool,
    lever: Lever,
    originalValue: real,
    solvedValue: real,
    solvedPlan: RetirementPlan,
    projections: seq<YearlyProjection>,
    nestEggNeeded: int,
    projectedNestEgg: int
  )

  const MaxIters: nat := 100
  const WithdrawalMin: real := 0.02
  const WithdrawalMax: real := 0.10

  /**
   * getEndBalance: the closing balance of the last drawdown year when the
   * plan retires with its own projected nest egg at the given withdrawal
   * rate (0 when the drawdown is empty).
   */
  function GetEndBalance(plan: RetirementPlan, withdrawalRate: real, currentYear: int): int
    requires ValidPlan(plan) && withdrawalRate > 0.0
  {
    var p := plan.(withdrawalRate := Some(withdrawalRate));
    var nestEgg := RetirementBalance(BuildProjections(p, currentYear));
    var drawdown := BuildDrawdown(p, nestEgg as real, currentYear);
    if |drawdown| == 0 then 0 else drawdown[|drawdown| - 1].endBalance
  }

  /** getProjectedNestEgg: the balance of the projection's retirement year. */
  function GetProjectedNestEgg(plan: RetirementPlan, currentYear: int): int
    requires ValidPlan(plan)
  {
    RetirementBalance(BuildProjections(plan, currentYear))
  }

  /** The projected nest egg is the rounded balance after the accumulation years. */
  lemma EggIsRoundedBalance(plan: RetirementPlan, currentYear: int)
    requires ValidPlan(plan)
    ensures GetProjectedNestEgg(plan, currentYear) == Round(Engine.Balance(plan, YearsToRetirement(plan)))
  {
    ProjectedNestEgg(plan, currentYear);
  }

  /** The plan retiring at the rounded age v. */
  function AtAge(plan: RetirementPlan, v: real): RetirementPlan
  {
    plan.(retirementAge := Round(v))
  }

  /** The plan contributing a fixed v a year. */
  function Contributing(plan: RetirementPlan, v: real): RetirementPlan
  {
    plan.(annualContribution := v, contributionMode := Fixed)
  }

  // The seven objectives the solver bisects, one per handled (target, lever) pair.

  function EndBalanceByRate(plan: RetirementPlan, currentYear: int): real --> real
  {
    v requires ValidPlan(plan) && v > 0.0 => GetEndBalance(plan, v, currentYear) as real
  }

  function EndBalanceByContribution(plan: RetirementPlan, currentYear: int): real --> real
  {
    v requires ValidPlan(plan) => GetEndBalance(Contributing(plan, v), Swr(plan), currentYear) as real
  }

  function EndBalanceByAge(plan: RetirementPlan, currentYear: int): real --> real
  {
    v requires ValidPlan(AtAge(plan, v)) => GetEndBalance(AtAge(plan, v), Swr(plan), currentYear) as real
  }

  function EndBalanceBySpending(plan: RetirementPlan, currentYear: int): real --> real
  {
    v requires ValidPlan(plan) => GetEndBalance(plan.(monthlySpendingGoal := v), Swr(plan), currentYear) as real
  }

  function NestEggByContribution(plan: RetirementPlan, currentYear: int): real --> real
  {
    v requires ValidPlan(plan) => GetProjectedNestEgg(Contributing(plan, v), currentYear) as real
  }

  function NestEggByAge(plan: RetirementPlan, currentYear: int): real --> real
  {
    v requires ValidPlan(AtAge(plan, v)) => GetProjectedNestEgg(AtAge(plan, v), currentYear) as real
  }

  function NestEggRetiringAt(plan: RetirementPlan, targetAge: int, currentYear: int): real --> real
  {
    v requires ValidPlan(Contributing(plan.(retirementAge := targetAge), v))
      => GetProjectedNestEgg(Contributing(plan.(retirementAge := targetAge), v), currentYear) as real
  }

  /** The (target, lever) pairs the solver handles. */
  predicate Handled(target: Target, lever: Lever)
  {
    match target
    case EndBalance => true
    case MonthlySpend => lever == AnnualContributionLever || lever == RetirementAgeLever
    case RetireEarlier => lever == AnnualContributionLever
  }

  /**
   * What the model needs of a request: a valid plan; when the retirement age
   * is searched, room for at least one age between now and the life
   * expectancy; when retiring earlier, a target age after the current one.
   */
  predicate SolvePre(req: SolveRequest)
  {
    && ValidPlan(req.plan)
    && (req.lever == RetirementAgeLever && req.target != RetireEarlier ==> req.plan.currentAge + 2 <= req.plan.lifeExpectancy)
    && (req.target == RetireEarlier && req.lever == AnnualContributionLever ==> Round(req.targetValue) > req.plan.currentAge)
  }

  lemma AgeObjectiveDefined(plan: RetirementPlan, f: real --> real)
    requires ValidPlan(plan) && plan.currentAge + 2 <= plan.lifeExpectancy
    requires forall v :: ValidPlan(AtAge(plan, v)) ==> f.requires(v)
    ensures DefinedOn(f, (plan.currentAge + 1) as real, (plan.lifeExpectancy - 1) as real)
  {
    forall v | Between(v, (plan.currentAge + 1) as real, (plan.lifeExpectancy - 1) as real)
      ensures f.requires(v)
    {
      AtAgeValid(plan, v);
    }
  }

  /** A searched age at or after currentAge + 1 rounds to a valid retirement age. */
  lemma AtAgeValid(plan: RetirementPlan, v: real)
    requires ValidPlan(plan) && v >= (plan.currentAge + 1) as real
    ensures ValidPlan(AtAge(plan, v)) && AtAge(plan, v).retirementAge >= plan.currentAge + 1
  {
    RoundMonotone((plan.currentAge + 1) as real, v);
    RoundOfInt(plan.currentAge + 1);
  }

  /** The interval bisected for each handled pair: its ends and whether the objective is taken as increasing. */
  function Interval(req: SolveRequest): (real, real, bool)
  {
    var plan := req.plan;
    match req.lever
    case WithdrawalRateLever => (WithdrawalMin, WithdrawalMax, false)
    case AnnualContributionLever =>
      (0.0, plan.annualContribution * (if req.target == RetireEarlier then 10.0 else 5.0), true)
    case RetirementAgeLever => ((plan.currentAge + 1) as real, (plan.lifeExpectancy - 1) as real, true)
    case MonthlySpendingLever => (500.0, plan.monthlySpendingGoal * 3.0, true)
  }

  /** The objective bisected for each handled pair, and the value it must reach. */
  function Objective(req: SolveRequest, currentYear: int): (real --> real, real)
    requires SolvePre(req) && Handled(req.target, req.lever)
  {
    var plan := req.plan;
    var t := req.targetValue;
    match req.target
    case EndBalance =>
      (match req.lever
       case WithdrawalRateLever => (EndBalanceByRate(plan, currentYear), t)
       case AnnualContributionLever => (EndBalanceByContribution(plan, currentYear), t)
       case RetirementAgeLever => (EndBalanceByAge(plan, currentYear), t)
       case MonthlySpendingLever => (EndBalanceBySpending(plan, currentYear), t))
    case MonthlySpend =>
      var needed := NestEggNeeded(plan.(monthlySpendingGoal := t)) as real;
      if req.lever == AnnualContributionLever then (NestEggByContribution(plan, currentYear), needed)
      else (NestEggByAge(plan, currentYear), needed)
    case RetireEarlier =>
      (NestEggRetiringAt(plan, Round(t), currentYear), NestEggNeeded(plan.(retirementAge := Round(t))) as real)
  }

  /** Each objective is defined on the whole interval it is bisected over. */
  lemma ObjectiveDefined(req: SolveRequest, currentYear: int)
    requires SolvePre(req) && Handled(req.target, req.lever)
    ensures DefinedOn(Objective(req, currentYear).0, Interval(req).0, Interval(req).1)
  {
    var plan := req.plan;
    var f := Objective(req, currentYear).0;
    var (lo, hi, _) := Interval(req);
    if req.lever == RetirementAgeLever {
      AgeObjectiveDefined(plan, f);
    } else if req.lever == WithdrawalRateLever {
      assert DefinedOn(f, lo, hi) by {
        forall v | Between(v, lo, hi)
          ensures f.requires(v)
        {
        }
      }
    }
  }

  /**
   * The lever value the bisection settles on, before the final rounding:
   * none for an unhandled pair; for the age levers the search result is
   * rounded at once.
   */
  function SolvedValue(req: SolveRequest, currentYear: int): (v: Option<real>)
    requires SolvePre(req)
    ensures v.Some? <==> Handled(req.target, req.lever)
  {
    if !Handled(req.target, req.lever) then None
    else
      var (f, goal) := Objective(req, currentYear);
      var (lo, hi, increasing) := Interval(req);
      ObjectiveDefined(req, currentYear);
      var found := Answer(BinarySearch(f, goal, lo, hi, increasing, MaxIters));
      if req.lever == RetirementAgeLever then Some(Round(found) as real) else Some(found)
  }

  /** The unrounded number the bisection returns for a handled pair. */
  function Found(req: SolveRequest, currentYear: int): real
    requires SolvePre(req) && Handled(req.target, req.lever)
  {
    ObjectiveDefined(req, currentYear);
    Answer(BinarySearch(Objective(req, currentYear).0, Objective(req, currentYear).1,
                        Interval(req).0, Interval(req).1, Interval(req).2, MaxIters))
  }

  /** The bisection's number lies in the lever's interval. */
  lemma FoundInInterval(req: SolveRequest, currentYear: int)
    requires SolvePre(req) && Handled(req.target, req.lever)
    ensures Between(Found(req, currentYear), Interval(req).0, Interval(req).1)
  {
    ObjectiveDefined(req, currentYear);
    BinarySearchHull(Objective(req, currentYear).0, Objective(req, currentYear).1,
                     Interval(req).0, Interval(req).1, Interval(req).2, MaxIters);
  }

  /** The solved plan of a handled pair, given the solved lever value. */
  function SolvedPlan(req: SolveRequest, v: real): RetirementPlan
  {
    var plan := req.plan;
    var t := req.targetValue;
    match req.target
    case EndBalance =>
      (match req.lever
       case WithdrawalRateLever => plan.(withdrawalRate := Some(v))
       case AnnualContributionLever => Contributing(plan, Round(v) as real)
       case RetirementAgeLever => AtAge(plan, v)
       case MonthlySpendingLever => plan.(monthlySpendingGoal := Round(v) as real))
    case MonthlySpend =>
      if req.lever == AnnualContributionLever then Contributing(plan, Round(v) as real).(monthlySpendingGoal := t)
      else AtAge(plan, v).(monthlySpendingGoal := t)
    case RetireEarlier =>
      Contributing(plan.(retirementAge := Round(t)), Round(v) as real)
  }

  /** Every solved plan can be projected again. */
  lemma SolvedPlanValid(req: SolveRequest, currentYear: int)
    requires SolvePre(req) && Handled(req.target, req.lever)
    ensures ValidPlan(SolvedPlan(req, SolvedValue(req, currentYear).value))
  {
    var v := SolvedValue(req, currentYear).value;
    FoundInInterval(req, currentYear);
    assert v == if req.lever == RetirementAgeLever then Round(Found(req, currentYear)) as real else Found(req, currentYear);
    if req.lever == RetirementAgeLever {
      AtAgeValid(req.plan, Found(req, currentYear));
      RoundOfInt(Round(Found(req, currentYear)));
    }
  }

  /** What the request started from: the lever's current value (0 for an unhandled pair). */
  function OriginalValue(req: SolveRequest): real
  {
    if !Handled(req.target, req.lever) then 0.0
    else
      match req.lever
      case WithdrawalRateLever => Swr(req.plan)
      case AnnualContributionLever => req.plan.annualContribution
      case RetirementAgeLever => req.plan.retirementAge as real
      case MonthlySpendingLever => req.plan.monthlySpendingGoal
  }

  /** The result reported for a plan: its projection, nest egg needed and projected nest egg. */
  function Report(success: bool, lever: Lever, original: real, solved: real, plan: RetirementPlan, currentYear: int): (r: SolveResult)
    requires ValidPlan(plan)
  {
    var rows := BuildProjections(plan, currentYear);
    SolveResult(success, lever, original, solved, plan, rows, NestEggNeeded(plan), RetirementBalance(rows))
  }

  /**
   * solve: fails for an unhandled pair, reporting the plan unchanged with a
   * solved value of 0; otherwise reports the solved plan, the lever value
   * (rounded except for the withdrawal rate) and the recomputed projection.
   */
  function Solve(req: SolveRequest, currentYear: int): (r: SolveResult)
    requires SolvePre(req)
    ensures r.success <==> Handled(req.target, req.lever)
    ensures r.lever == req.lever
    ensures !r.success ==> r.solvedValue == 0.0 && r.originalValue == 0.0 && r.solvedPlan == req.plan
    ensures ValidPlan(r.solvedPlan)
    ensures r.projections == BuildProjections(r.solvedPlan, currentYear)
    ensures r.nestEggNeeded == NestEggNeeded(r.solvedPlan)
    ensures r.projectedNestEgg == GetProjectedNestEgg(r.solvedPlan, currentYear)
  {
    match SolvedValue(req, currentYear)
    case None => Report(false, req.lever, 0.0, 0.0, req.plan, currentYear)
    case Some(v) =>
      SolvedPlanValid(req, currentYear);
      Report(true, req.lever, OriginalValue(req), if req.lever == WithdrawalRateLever then v else Round(v) as real,
             SolvedPlan(req, v), currentYear)
  }

  /**
   * Withdrawal rate for an end balance: the plan changes only in its
   * withdrawal rate, which is reported unrounded and lies in [0.02, 0.10].
   */
  lemma WithdrawalRateSolution(req: SolveRequest, currentYear: int)
    requires SolvePre(req) && req.target == EndBalance && req.lever == WithdrawalRateLever
    ensures var r := Solve(req, currentYear);
      && r.success && r.originalValue == Swr(req.plan)
      && WithdrawalMin <= r.solvedValue <= WithdrawalMax
      && r.solvedPlan == req.plan.(withdrawalRate := Some(r.solvedValue))
  {
    FoundInInterval(req, currentYear);
  }

  /**
   * Contribution for an end balance: the plan switches to a fixed
   * contribution of the rounded search result, which lies in
   * [0, 5 * annualContribution], and nothing else changes.
   */
  lemma ContributionSolution(req: SolveRequest, currentYear: int)
    requires SolvePre(req) && req.target == EndBalance && req.lever == AnnualContributionLever
    ensures var r := Solve(req, currentYear);
      && r.success && r.originalValue == req.plan.annualContribution
      && r.solvedValue == Round(Found(req, currentYear)) as real
      && Between(Found(req, currentYear), 0.0, req.plan.annualContribution * 5.0)
      && r.solvedPlan == req.plan.(annualContribution := r.solvedValue, contributionMode := Fixed)
  {
    FoundInInterval(req, currentYear);
  }

  /**
   * Retirement age for an end balance: the plan retires at the rounded
   * search result, an age between currentAge + 1 and lifeExpectancy - 1, and
   * nothing else changes.
   */
  lemma RetirementAgeSolution(req: SolveRequest, currentYear: int)
    requires SolvePre(req) && req.target == EndBalance && req.lever == RetirementAgeLever
    ensures var r := Solve(req, currentYear);
      && r.success && r.originalValue == req.plan.retirementAge as real
      && r.solvedValue == Round(Found(req, currentYear)) as real
      && req.plan.currentAge + 1 <= r.solvedPlan.retirementAge <= req.plan.lifeExpectancy - 1
      && r.solvedPlan == req.plan.(retirementAge := r.solvedPlan.retirementAge)
      && r.solvedValue == r.solvedPlan.retirementAge as real
  {
    AgeFound(req, currentYear);
  }

  /** The age levers report the rounded search result, which stays between currentAge + 1 and lifeExpectancy - 1. */
  lemma AgeFound(req: SolveRequest, currentYear: int)
    requires SolvePre(req) && Handled(req.target, req.lever) && req.lever == RetirementAgeLever
    ensures var v := SolvedValue(req, currentYear).value;
      && v == Round(Found(req, currentYear)) as real
      && Round(v) == Round(Found(req, currentYear))
      && req.plan.currentAge + 1 <= Round(v) <= req.plan.lifeExpectancy - 1
  {
    var x := Found(req, currentYear);
    FoundInInterval(req, currentYear);
    RoundMonotone((req.plan.currentAge + 1) as real, x);
    RoundMonotone(x, (req.plan.lifeExpectancy - 1) as real);
    RoundOfInt(req.plan.currentAge + 1);
    RoundOfInt(req.plan.lifeExpectancy - 1);
    RoundOfInt(Round(x));
  }

  /**
   * Monthly spending for an end balance: the plan's spending goal becomes the
   * rounded search result, from [500, 3 * goal], and nothing else changes.
   */
  lemma SpendingSolution(req: SolveRequest, currentYear: int)
    requires SolvePre(req) && req.target == EndBalance && req.lever == MonthlySpendingLever
    ensures var r := Solve(req, currentYear);
      && r.success && r.originalValue == req.plan.monthlySpendingGoal
      && r.solvedValue == Round(Found(req, currentYear)) as real
      && Between(Found(req, currentYear), 500.0, req.plan.monthlySpendingGoal * 3.0)
      && r.solvedPlan == req.plan.(monthlySpendingGoal := r.solvedValue)
  {
    FoundInInterval(req, currentYear);
  }

  /**
   * Contribution for a monthly spend: a fixed contribution of the rounded
   * search result, from [0, 5 * annualContribution], and the spending goal
   * set to the target.
   */
  lemma SpendContributionSolution(req: SolveRequest, currentYear: int)
    requires SolvePre(req) && req.target == MonthlySpend && req.lever == AnnualContributionLever
    ensures var r := Solve(req, currentYear);
      && r.success && r.originalValue == req.plan.annualContribution
      && r.solvedValue == Round(Found(req, currentYear)) as real
      && Between(Found(req, currentYear), 0.0, req.plan.annualContribution * 5.0)
      && r.solvedPlan == req.plan.(annualContribution := r.solvedValue, contributionMode := Fixed, monthlySpendingGoal := req.targetValue)
  {
    FoundInInterval(req, currentYear);
  }

  /**
   * Retirement age for a monthly spend: the rounded search result, between
   * currentAge + 1 and lifeExpectancy - 1, and the spending goal set to the
   * target.
   */
  lemma SpendAgeSolution(req: SolveRequest, currentYear: int)
    requires SolvePre(req) && req.target == MonthlySpend && req.lever == RetirementAgeLever
    ensures var r := Solve(req, currentYear);
      && r.success && r.originalValue == req.plan.retirementAge as real
      && req.plan.currentAge + 1 <= r.solvedPlan.retirementAge <= req.plan.lifeExpectancy - 1
      && r.solvedValue == r.solvedPlan.retirementAge as real
      && r.solvedPlan == req.plan.(retirementAge := r.solvedPlan.retirementAge, monthlySpendingGoal := req.targetValue)
  {
    AgeFound(req, currentYear);
  }

  /**
   * Contribution for retiring earlier: retire at the rounded target age with
   * a fixed contribution of the rounded search result, from
   * [0, 10 * annualContribution].
   */
  lemma RetireEarlierSolution(req: SolveRequest, currentYear: int)
    requires SolvePre(req) && req.target == RetireEarlier && req.lever == AnnualContributionLever
    ensures var r := Solve(req, currentYear);
      && r.success && r.originalValue == req.plan.annualContribution
      && r.solvedValue == Round(Found(req, currentYear)) as real
      && Between(Found(req, currentYear), 0.0, req.plan.annualContribution * 10.0)
      && r.solvedPlan == req.plan.(retirementAge := Round(req.targetValue), annualContribution := r.solvedValue, contributionMode := Fixed)
  {
    FoundInInterval(req, currentYear);
  }

  /**
   * The spending goal never reaches the end balance: neither the balances
   * nor the drawdown read it, so bisecting the monthly spending against an
   * end balance probes the same value at every point.
   */
  lemma SpendingDoesNotMoveEndBalance(plan: RetirementPlan, currentYear: int, v: real)
    requires ValidPlan(plan)
    ensures EndBalanceBySpending(plan, currentYear).requires(v)
    ensures EndBalanceBySpending(plan, currentYear)(v) == GetEndBalance(plan, Swr(plan), currentYear) as real
  {
    var q := plan.(monthlySpendingGoal := v);
    assert ValidPlan(q);
    assert EndBalanceBySpending(plan, currentYear)(v) == GetEndBalance(q, Swr(plan), currentYear) as real;
    EndBalanceIgnoresSpending(plan, v, Swr(plan), currentYear);
  }

  lemma EndBalanceIgnoresSpending(plan: RetirementPlan, v: real, w: real, currentYear: int)
    requires ValidPlan(plan) && w > 0.0
    ensures ValidPlan(plan.(monthlySpendingGoal := v))
    ensures GetEndBalance(plan.(monthlySpendingGoal := v), w, currentYear) == GetEndBalance(plan, w, currentYear)
  {
    var p0 := plan.(withdrawalRate := Some(w));
    var p1 := plan.(monthlySpendingGoal := v).(withdrawalRate := Some(w));
    assert ValidPlan(p0) && ValidPlan(p1);
    var egg := RetirementBalance(BuildProjections(p0, currentYear));
    SameAccumulationSameEgg(p0, p1, currentYear);
    SpendingLeavesDrawdown(p0, p1, egg as real, currentYear);
  }

  /** Plans that accumulate alike over the same years reach the same projected nest egg. */
  lemma SameAccumulationSameEgg(p: RetirementPlan, q: RetirementPlan, currentYear: int)
    requires ValidPlan(p) && ValidPlan(q) && Engine.SameAccumulation(p, q)
    requires YearsToRetirement(p) == YearsToRetirement(q)
    ensures RetirementBalance(BuildProjections(p, currentYear)) == RetirementBalance(BuildProjections(q, currentYear))
  {
    EggIsRoundedBalance(p, currentYear);
    EggIsRoundedBalance(q, currentYear);
    Engine.BalanceReadsOnlyAccumulation(p, q, YearsToRetirement(p));
  }

  /** Two plans that differ only in the spending goal draw down alike. */
  lemma SpendingLeavesDrawdown(p: RetirementPlan, q: RetirementPlan, nestEgg: real, currentYear: int)
    requires q == p.(monthlySpendingGoal := q.monthlySpendingGoal)
    ensures BuildDrawdown(p, nestEgg, currentYear) == BuildDrawdown(q, nestEgg, currentYear)
  {
    assert Drawdown.SetupFor(p, nestEgg, currentYear) == Drawdown.SetupFor(q, nestEgg, currentYear);
    assert TaxRate(p.rothPct, Filing(p)) == TaxRate(q.rothPct, Filing(q));
  }

  /**
   * The projected nest egg never falls as the fixed contribution rises, which
   * is why the contribution levers search as increasing.
   */
  lemma ContributionRaisesNestEgg(plan: RetirementPlan, currentYear: int, a: real, b: real)
    requires ValidPlan(plan) && a <= b
    ensures NestEggByContribution(plan, currentYear).requires(a) && NestEggByContribution(plan, currentYear).requires(b)
    ensures NestEggByContribution(plan, currentYear)(a) <= NestEggByContribution(plan, currentYear)(b)
  {
    EggRisesWithContribution(plan, currentYear, a, b);
  }

  lemma EggRisesWithContribution(plan: RetirementPlan, currentYear: int, a: real, b: real)
    requires ValidPlan(plan) && a <= b
    ensures ValidPlan(Contributing(plan, a)) && ValidPlan(Contributing(plan, b))
    ensures GetProjectedNestEgg(Contributing(plan, a), currentYear) <= GetProjectedNestEgg(Contributing(plan, b), currentYear)
  {
    var pa, pb := Contributing(plan, a), Contributing(plan, b);
    var n := YearsToRetirement(plan);
    EggIsRoundedBalance(pa, currentYear);
    EggIsRoundedBalance(pb, currentYear);
    Engine.FixedBalanceMonotone(plan, a, b, n);
    RoundMonotone(Engine.Balance(pa, n), Engine.Balance(pb, n));
  }

  /**
   * With nothing negative saved, a later retirement age never gives a smaller
   * projected nest egg, which is why the age levers search as increasing.
   */
  lemma LaterRetirementRaisesNestEgg(plan: RetirementPlan, currentYear: int, a: real, b: real)
    requires ValidPlan(plan) && Engine.NonNegativeSaving(plan)
    requires (plan.currentAge + 1) as real <= a <= b
    ensures NestEggByAge(plan, currentYear).requires(a) && NestEggByAge(plan, currentYear).requires(b)
    ensures NestEggByAge(plan, currentYear)(a) <= NestEggByAge(plan, currentYear)(b)
  {
    AtAgeValid(plan, a);
    AtAgeValid(plan, b);
    var pa, pb := AtAge(plan, a), AtAge(plan, b);
    RoundMonotone(a, b);
    assert NestEggByAge(plan, currentYear)(a) == GetProjectedNestEgg(pa, currentYear) as real;
    assert NestEggByAge(plan, currentYear)(b) == GetProjectedNestEgg(pb, currentYear) as real;
    EggIsRoundedBalance(pa, currentYear);
    EggIsRoundedBalance(pb, currentYear);
    Engine.BalanceReadsOnlyAccumulation(plan, pa, YearsToRetirement(pa));
    Engine.BalanceReadsOnlyAccumulation(plan, pb, YearsToRetirement(pb));
    Engine.BalanceGrowsWithYears(plan, YearsToRetirement(pa), YearsToRetirement(pb));
    RoundMonotone(Engine.Balance(pa, YearsToRetirement(pa)), Engine.Balance(pb, YearsToRetirement(pb)));
  }
}
