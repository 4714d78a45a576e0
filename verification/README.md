# Retirement tracker engine, modelled in Dafny

This project models the calculation core of a retirement tracker. The tracker has a TypeScript backend and a React frontend. The model covers these parts:

- **Backend tax model.** A progressive federal tax on the traditional share of a withdrawal, after the standard deduction. Its inverse, `grossForNet`, is found by a 100-step bisection on [net, 2·net].
- **Backend projection engine:**
  - contributions, fixed or a share of a growing salary;
  - the nest egg needed at retirement;
  - the year-by-year accumulation, with a closed-form on-track glide path and a "do nothing" balance;
  - the retirement drawdown, which stops at depletion;
  - milestone checkpoints.
- **Solver.** A generic 100-step bisection and the seven (target, lever) pairs it answers. It also builds the solved plan and recomputes the projection.
- **Frontend copy of the engine.** It has its own 2024 bracket tables and a ceiling-walk tax. Its inverse takes 60 steps on [net, 3·net]. It adds scenario overrides and monthly-withdrawal helpers.
- **Small helpers:**
  - the Trinity-study success-rate lookup, with linear interpolation;
  - the legacy compounding module;
  - the backend server's stand-alone deduction-free tax rate;
  - the migration of saved plans;
  - the list logic and summaries of the holdings tracker and the contribution log.

## How it is modelled

- **Numbers.** Money and rates are exact `real`s. Ages and years are `int`. `Math.round` is `Round(x) = Floor(x + 0.5)`. `Math.pow` with a year-count exponent is the recursive `Pow`.
- **Optional plan fields.** These are the fields the engine reads with `??`: `withdrawalRate`, `postRetirementReturnRate` and `filingStatus`. The fields the migration fills in, `dieWithTarget` and `currentSavingsRoth`, are also optional. All of them are `Option`s, so both the defaults and the migration are exact.
- **Shared engine.** The projection, drawdown and milestone logic is written once. `Engine`, `Drawdown` and `Milestones` are parameterised by the nest egg and by the tax-rate function. `BackendMath` and `FrontendMath` plug in their own tax modules (`Tax`, or the frontend tables), and lemmas relate the two copies.
- **Bisections.** Every bisection is a recursive function with explicit fuel (100 or 60). It returns an `Outcome` that is either a hit within tolerance or the exhausted interval. The number the source returns is `Answer(outcome)`.
- **Current year.** `new Date().getFullYear()` is a `currentYear` parameter.
- **Record ids.** The hooks build them from `Math.random` and `Date.now`. Here they are a parameter.
- **Valid plans.** `ValidPlan` asks for these conditions:
  - at least one year to retirement;
  - a positive withdrawal rate;
  - growth and inflation above -100%.

  Retiring in the current year, a zero withdrawal rate and a -100% inflation rate make the source divide by 0 or by a zero power. Some return rates below -100% do too (-200% over an even number of years gives a zero annuity factor). Two excluded cases are defined in the source and are listed under "## Left out": retiring before the current age, and a return rate of exactly -100%.

One place where the source's comments and its code disagree: the frontend tables are headed "2025 Federal Tax Brackets", but their figures are the 2024 ones (11,600 / 47,150 / … for single filers). The model follows the figures.

## Model

| member | source | states |
|---|---|---|
| Numeric.Round | backend/src/utils/math.ts:8 | `Math.round` lands within half a unit of its argument |
| Tax.TablesWellFormed | backend/src/utils/tax.ts:4-23 | both 2025 tables have seven brackets starting at 0; each floor equals the previous ceiling; rates lie in [0, 0.37]; the last bracket is unbounded |
| Tax.CalcTax | backend/src/utils/tax.ts:37-59 | tax owed is between 0 and 0.37 × taxable income; it is 0 when the traditional share is within the standard deduction; net = gross − tax; an all-Roth split owes nothing and nets the gross |
| Tax.EffectiveRate | backend/src/utils/tax.ts:55 | for a positive gross, rate × gross is the tax owed; 0 otherwise; never negative for non-negative tax |
| Tax.AllRothUntaxed | backend/src/utils/tax.ts:43 | an all-Roth split (or a zero gross) has no traditional portion |
| Tax.CalcTaxMonotone | backend/src/utils/tax.ts:42-56 | for a Roth share in [0, 100], tax rises with the gross by at most 0.37 per traditional dollar (and per gross dollar), so the net withdrawal never falls |
| Tax.TraditionalSlope | backend/src/utils/tax.ts:43 | the traditional portion grows with the gross, never faster than it |
| Tax.GrossForNet | backend/src/utils/tax.ts:65-81 | an all-Roth split returns the target net unchanged; otherwise the result lies between the target net and twice it |
| Tax.GrossSearch | backend/src/utils/tax.ts:72-80 | the bisection's answer never leaves [net, 2·net] |
| Tax.GrossForNetRoundTrip | backend/src/utils/tax.ts:65-81 | the gross found nets the target, either within 1 or within the width of the final interval (net halved 100 times) |
| Tax.GrossSearchSettled | backend/src/utils/tax.ts:72-80 | after any number of steps the net of the answer is within 1 of the target or within the remaining interval width |
| Tax.NetOfSlope | backend/src/utils/tax.ts:49-56 | the net withdrawal is non-decreasing in the gross and rises by at most the gross increase |
| Tax.NetOfBrackets | backend/src/utils/tax.ts:72 | the initial interval brackets the target: net(target) ≤ target ≤ net(2·target) |
| Tax.GrossForNetWithinOneDollar | backend/src/utils/tax.ts:65-81 | for targets up to 10^12, the gross found nets the target to within 1 |
| Brackets.TaxSlope | backend/src/utils/tax.ts:48-53 | a well-formed floor/ceiling walk is monotone with slope at most 0.37 |
| Brackets.TaxNonNegative | backend/src/utils/tax.ts:48-53 | the bracket walk never yields a negative tax |
| Brackets.TaxAtMostTopRate | backend/src/utils/tax.ts:48-53 | the bracket walk never exceeds 0.37 × the amount above the first floor |
| Brackets.HeadSplit | backend/src/utils/tax.ts:49-52 | above the first floor, the walk taxes the first bracket's slice plus the walk of the rest |
| Brackets.TaxFromFloor | backend/src/utils/tax.ts:50 | an amount below the first floor is taxed like the floor itself |
| Brackets.LimitWalkIsBracketSum | frontend/src/utils/retirementMath.ts:37-44 | the frontend's ceiling walk with a running `prev` equals the floor/ceiling walk over the floors it implies |
| Brackets.ToBrackets | frontend/src/utils/retirementMath.ts:37-44 | the implied table has at most one bracket per tier; the first starts at `prev` with the first tier's ceiling and rate |
| Engine.FixedContributionConstant | backend/src/utils/math.ts:5-6 | in fixed mode every year's contribution is the plan's annual contribution |
| Engine.SalaryContributionExample | backend/src/utils/math.ts:5-9 | salary 100,000 growing 3% with 10% saved gives 10,000, 10,300 and 10,609 in years 0–2 |
| Engine.SalaryContributionGrows | backend/src/utils/math.ts:7-8 | with non-negative salary, growth and share, salary-mode contributions never fall from year to year |
| Engine.SalaryGrows | backend/src/utils/math.ts:7 | with non-negative salary and growth, the salary never falls |
| Engine.EstimatedSalary | backend/src/utils/math.ts:46-48 | 0 in fixed mode; never negative for a non-negative salary growing above −100% |
| Engine.SalaryNonNegative | frontend/src/utils/retirementMath.ts:85-90 | a non-negative salary growing above −100% stays non-negative |
| Engine.FullSalarySaved | backend/src/utils/math.ts:7-8 | saving 100% of the salary contributes exactly the rounded estimated salary |
| Engine.OnTrackTargets | backend/src/utils/math.ts:32-36 | there are years-to-retirement + 1 glide-path targets |
| Engine.GlideFactorPositive | backend/src/utils/math.ts:29 | the annuity factor (year count when r = 0) is at least 1, so the implied contribution is defined |
| Engine.OnTrackEnds | backend/src/utils/math.ts:27-36 | the glide path starts at the rounded current savings and ends exactly at the rounded nest egg needed |
| Engine.OnTrackIsLegacySaver | backend/src/utils/math.ts:30-35 | target i is what the legacy saver reaches after i years at the implied contribution |
| Engine.DoNothingClosedForm | backend/src/utils/math.ts:40-64 | the no-contribution balance after k years is savings × (1 + r)^k |
| Engine.DoNothingIsZeroContribution | backend/src/utils/math.ts:63-64 | the no-contribution balance is the balance of the same plan saving a fixed 0 |
| Engine.BalanceReadsOnlyAccumulation | backend/src/utils/math.ts:39-65 | the balance depends only on the savings, return and contribution fields, not on spending, tax or drawdown fields |
| Engine.ContributionReadsOnlyAccumulation | backend/src/utils/math.ts:5-9 | contributions depend only on the contribution fields |
| Engine.DeflateUndoesInflation | backend/src/utils/math.ts:54 | the inflation-adjusted column undoes growth at the inflation rate |
| Engine.BuildProjections | backend/src/utils/math.ts:38-67 | the loop yields years + 1 rows, row k being the reference row for year k |
| Engine.ProjectionShape | backend/src/utils/math.ts:42-60 | ages and years are consecutive from the current ones; only the last row is the retirement year, at the retirement age, with contribution 0; the first row shows the rounded current savings in the balance, target and do-nothing columns |
| Engine.ProjectionBalanceStep | backend/src/utils/math.ts:62-65 | each balance is the previous unrounded balance plus its contribution, grown by 1 + r, then rounded |
| Engine.ProjectionColumns | backend/src/utils/math.ts:50-60 | row k's inflation-adjusted balance, do-nothing balance, target and estimated salary are the reference values for year k |
| Engine.LoopStep | backend/src/utils/math.ts:42-66 | one pass of the loop emits the expected row and moves on with the next balances |
| Engine.ExpectedRowsIndex | backend/src/utils/math.ts:42-66 | the reference rows from year i are the expected rows i, i+1, … |
| Engine.ProjectionLoopIsExpected | backend/src/utils/math.ts:42-66 | the loop from year i equals the reference rows from year i |
| Engine.ContributionNonNegative | backend/src/utils/math.ts:5-9 | with non-negative inputs no contribution is negative |
| Engine.BalanceNonNegative | backend/src/utils/math.ts:62-65 | with non-negative savings and contributions the balance stays non-negative |
| Engine.BalanceGrowsWithYears | backend/src/utils/math.ts:62-65 | with non-negative savings, contributions and return, the balance never falls |
| Engine.FixedBalanceMonotone | backend/src/utils/math.ts:62-63 | a larger fixed contribution never gives a smaller balance |
| Drawdown.SetupFor | backend/src/utils/math.ts:75-82 | the drawdown starts at the retirement age and year; its first withdrawal is nest egg × rate (default 0.04); it runs for lifeExpectancy − retirementAge years |
| Drawdown.Actual | backend/src/utils/math.ts:90 | the withdrawal is the planned amount, capped at the balance |
| Drawdown.EndOf | backend/src/utils/math.ts:92 | the end balance is never negative, and 0 once the start balance is ≤ 0 |
| Drawdown.RoundRate | backend/src/utils/math.ts:102 | the rate is rounded to three decimals |
| Drawdown.RowFacts | backend/src/utils/math.ts:88-103 | a row is depleted exactly when its start balance is ≤ 0; the withdrawal is at most the start balance; the end balance is ≥ 0 (0 when depleted); age and year count from retirement |
| Drawdown.LoopLength | backend/src/utils/math.ts:87 | the loop emits nothing once the years run out, and at most the remaining years otherwise |
| Drawdown.LoopRowAt | backend/src/utils/math.ts:87-107 | row k is the row for year k at the balance carried k years forward |
| Drawdown.LoopStops | backend/src/utils/math.ts:105 | every row but the last starts positive; a last row before the final year starts at ≤ 0 |
| Drawdown.DrawdownRow | backend/src/utils/math.ts:87-107 | every row satisfies the withdrawal, end-balance and depletion facts, and a depleted row is the last one |
| Drawdown.DrawdownContinuity | backend/src/utils/math.ts:106 | each row starts where the previous one ended |
| Drawdown.DrawdownLength | backend/src/utils/math.ts:87-107 | there are at most lifeExpectancy − retirementAge rows, none when that is ≤ 0, and a run cut short ends on a depleted row |
| Drawdown.DrawdownIgnoresRate | backend/src/utils/math.ts:91-102 | the tax model changes only the reported rate column, never the balances or the length |
| Drawdown.DrawdownRateRange | backend/src/utils/math.ts:102 | a tax rate in [0, 0.37] stays in [0, 0.37] after rounding |
| Milestones.AtLeast | backend/src/utils/math.ts:119 | the filter keeps every checkpoint at or after the current age, with its multiplicity, and nothing else |
| Milestones.AtLeastAppend | backend/src/utils/math.ts:119 | filtering distributes over concatenation, so the checkpoint order is kept |
| Milestones.FirstWithAge | backend/src/utils/math.ts:121 | `find` returns the first row with the age, or none when no row has it |
| Milestones.MilestoneAt | backend/src/utils/math.ts:120-127 | a milestone is reached exactly when its projected balance is at least its target |
| Milestones.BuildMilestones | backend/src/utils/math.ts:111-128 | one milestone per kept checkpoint, in order, each read from the projection |
| Milestones.MilestoneAges | backend/src/utils/math.ts:112-119 | every milestone age is a checkpoint at or after the current age |
| Milestones.RetiringAtFiftyKeepsBoth | backend/src/utils/math.ts:112-119 | retiring at 50 keeps both 50s (no de-duplication) |
| Milestones.FromFortyTwo | backend/src/utils/math.ts:112-119 | from age 42, retiring at 65, the checkpoints are 45, 50 and 65 |
| Milestones.FirstWithConsecutiveAges | backend/src/utils/math.ts:121 | on rows with consecutive ages, `find` lands at the age's offset, or finds nothing outside the span |
| BackendMath.NestEggAllRoth | backend/src/utils/math.ts:11-19 | with an all-Roth split, the nest egg is the inflated annual spend over the withdrawal rate, rounded |
| BackendMath.NestEggBounds | backend/src/utils/math.ts:11-19 | for a non-negative spend, the nest egg lies between spend/rate and 2·spend/rate, rounded |
| BackendMath.BuildProjections | backend/src/utils/math.ts:21-68 | the backend projection has years-to-retirement + 1 rows |
| BackendMath.AllRothDrawdownUntaxed | backend/src/utils/math.ts:91-102 | with an all-Roth split every drawdown year reports a 0 tax rate |
| BackendMath.MilestoneOfProjection | backend/src/utils/math.ts:111-128 | a checkpoint up to retirement reports that year's balance and target; a later one reports 0 and 0 and counts as reached |
| BackendMath.RetirementBalance | backend/src/utils/solver.ts:18 | `find(isRetirementYear)?.balance ?? 0` is 0 without a retirement row and otherwise the balance of the first retirement row, wherever it sits |
| BackendMath.RetirementBalanceIsLast | backend/src/utils/solver.ts:18 | when only the last row is flagged, the search returns its balance |
| BackendMath.ProjectedNestEgg | backend/src/utils/solver.ts:17-19 | the projected nest egg is the last row's balance, i.e. the rounded balance after the accumulation years |
| Bisection.NetSearch | backend/src/utils/tax.ts:72-80 | the search probes at most its fuel; a hit nets within 1 of the target |
| Bisection.NetSearchHull | backend/src/utils/tax.ts:72-80 | the answer, and the final interval when fuel runs out, stay inside the initial interval |
| Bisection.NetSearchWidth | backend/src/utils/tax.ts:73-78 | each step halves the interval: after n steps its width is the initial width halved n times |
| Bisection.NetSearchBrackets | backend/src/utils/tax.ts:77-78 | lo only moves to a point netting below the target, hi only to one netting at least the target |
| Bisection.NetSearchRoundTrip | backend/src/utils/tax.ts:72-80 | for a monotone net with slope ≤ 1 that brackets the target, the answer nets within 1 or within the final width |
| Bisection.BinarySearch | backend/src/utils/solver.ts:21-37 | at most 100 evaluations; a hit lies in the interval and within 100 of the target |
| Bisection.BinarySearchHull | backend/src/utils/solver.ts:21-37 | the number returned always lies in the initial [lo, hi], never null |
| Bisection.BinarySearchWidth | backend/src/utils/solver.ts:28-35 | after n steps the interval is the initial width halved n times |
| Bisection.BinarySearchBrackets | backend/src/utils/solver.ts:32-34 | increasing: an overshoot moves hi and anything else moves lo; decreasing: the reverse |
| Solver.SolvedValue | backend/src/utils/solver.ts:53-143 | a value is found exactly for the seven handled (target, lever) pairs |
| Solver.FoundInInterval | backend/src/utils/solver.ts:56-136 | the bisection's number lies in the lever's search interval |
| Solver.SolvedPlanValid | backend/src/utils/solver.ts:61-139 | every solved plan can be projected again |
| Solver.ObjectiveDefined | backend/src/utils/solver.ts:56-136 | each objective is defined on its whole search interval |
| Solver.AtAgeValid | backend/src/utils/solver.ts:79-84 | a rounded age at or after currentAge + 1 gives a valid plan retiring then |
| Solver.AgeObjectiveDefined | backend/src/utils/solver.ts:78-81 | the retirement-age objective is defined on [currentAge + 1, lifeExpectancy − 1] |
| Solver.Solve | backend/src/utils/solver.ts:45-174 | success exactly for a handled pair; on failure: value 0, original 0, plan unchanged; the projection, nest egg needed and projected nest egg are recomputed from the solved plan |
| Solver.WithdrawalRateSolution | backend/src/utils/solver.ts:54-63 | succeeds; only the withdrawal rate changes; it is reported unrounded in [0.02, 0.10] |
| Solver.ContributionSolution | backend/src/utils/solver.ts:65-75 | succeeds over [0, 5·contribution]; the plan switches to a fixed, rounded contribution; nothing else changes |
| Solver.RetirementAgeSolution | backend/src/utils/solver.ts:76-87 | succeeds; the rounded age lies in [currentAge + 1, lifeExpectancy − 1]; only the retirement age changes |
| Solver.AgeFound | backend/src/utils/solver.ts:82-83 | the age is rounded once and stays in its interval |
| Solver.SpendingSolution | backend/src/utils/solver.ts:88-98 | succeeds over [500, 3·goal]; only the spending goal changes, rounded |
| Solver.SpendContributionSolution | backend/src/utils/solver.ts:102-113 | the contribution becomes fixed and rounded, and the spending goal becomes the target value |
| Solver.SpendAgeSolution | backend/src/utils/solver.ts:114-126 | the age becomes the rounded solution in its interval, and the spending goal becomes the target value |
| Solver.RetireEarlierSolution | backend/src/utils/solver.ts:129-143 | retirement moves to the rounded target age; the contribution becomes fixed and rounded, searched over [0, 10·contribution] |
| Solver.SpendingDoesNotMoveEndBalance | backend/src/utils/solver.ts:88-93 | the end-balance objective for the spending lever is the same for every v: neither balances nor drawdown read the spending goal |
| Solver.SpendingLeavesDrawdown | backend/src/utils/math.ts:70-109 | plans differing only in the spending goal have the same drawdown |
| Solver.ContributionRaisesNestEgg | backend/src/utils/solver.ts:106 | a larger fixed contribution never lowers the projected nest egg the search aims at |
| Solver.LaterRetirementRaisesNestEgg | backend/src/utils/solver.ts:118 | with non-negative saving, retiring later never lowers the projected nest egg |
| FrontendMath.TiersAreWellFormed | frontend/src/utils/retirementMath.ts:11-28 | the 2024 ceiling lists imply well-formed seven-bracket tables from 0 |
| FrontendMath.TiersChain | frontend/src/utils/retirementMath.ts:11-28 | each ceiling list implies exactly its floor/ceiling table |
| FrontendMath.SingleChain | frontend/src/utils/retirementMath.ts:11-19 | the single ceilings imply the single floor/ceiling table |
| FrontendMath.MarriedChain | frontend/src/utils/retirementMath.ts:20-28 | the married ceilings imply the married floor/ceiling table |
| FrontendMath.FloorTableWellFormed | frontend/src/utils/retirementMath.ts:11-28 | the implied tables chain floors to ceilings with rates in [0, 0.37] |
| FrontendMath.CalcFederalTax | frontend/src/utils/retirementMath.ts:32-45 | tax is between 0 and 0.37 × (income − deduction), and 0 when income is within the deduction |
| FrontendMath.CalcFederalTaxSlope | frontend/src/utils/retirementMath.ts:32-45 | tax rises with income by at most 0.37 per dollar |
| FrontendMath.TradSlope | frontend/src/utils/retirementMath.ts:61 | the traditional amount grows with the gross, never faster |
| FrontendMath.GrossForNet | frontend/src/utils/retirementMath.ts:51-69 | an all-Roth split returns the net unchanged; otherwise the result lies in [net, 3·net] |
| FrontendMath.GrossSearch | frontend/src/utils/retirementMath.ts:58-68 | the 60-step bisection's answer stays in [net, 3·net] |
| FrontendMath.NetOfSlope | frontend/src/utils/retirementMath.ts:60-63 | the net is non-decreasing in the gross, with slope at most 1 |
| FrontendMath.NetOfBrackets | frontend/src/utils/retirementMath.ts:58 | [net, 3·net] brackets the target |
| FrontendMath.GrossForNetRoundTrip | frontend/src/utils/retirementMath.ts:51-69 | the gross found nets the target within 1 or within 2·net halved 60 times |
| FrontendMath.GrossSearchSettled | frontend/src/utils/retirementMath.ts:58-68 | after any number of steps the answer nets within 1 or within the remaining width |
| FrontendMath.GrossForNetWithinOneDollar | frontend/src/utils/retirementMath.ts:51-69 | for nets up to 10^12, the gross found nets the target to within 1 |
| FrontendMath.EffectiveTaxRate | frontend/src/utils/retirementMath.ts:72-76 | 0 for gross ≤ 0 or an all-Roth split; rate × gross is the tax otherwise; in [0, 0.37] for a Roth share in [0, 100] |
| FrontendMath.RateAtMostTop | frontend/src/utils/retirementMath.ts:73-75 | for a Roth share in [0, 100] the tax is at most 0.37 × gross |
| FrontendMath.EffectiveAnnualContribution | frontend/src/utils/retirementMath.ts:92-94 | year 0's contribution: the fixed amount, or the rounded share of the current salary |
| FrontendMath.NestEggBounds | frontend/src/utils/retirementMath.ts:97-105 | for a non-negative spend, between spend/rate and 3·spend/rate, rounded; all-Roth: spend/rate, the same as the backend |
| FrontendMath.MonthlyWithdrawal | frontend/src/utils/retirementMath.ts:110-114 | 0 for a nest egg ≤ 0; otherwise within ½ of nest egg × rate / 12; never negative for a non-negative rate |
| FrontendMath.MonthlyShareNonNegative | frontend/src/utils/retirementMath.ts:113 | a non-negative rate gives a non-negative monthly amount |
| FrontendMath.NetMonthlyWithdrawal | frontend/src/utils/retirementMath.ts:117-124 | never above the gross monthly withdrawal; equal to it for all Roth; at least 63% of it (rounded) for a Roth share in [0, 100] |
| FrontendMath.NetMonthlyFloor | frontend/src/utils/retirementMath.ts:119-123 | with a Roth share in [0, 100], the rounded net is at least the rounded 63% of the gross |
| FrontendMath.MonthlyTaxBound | frontend/src/utils/retirementMath.ts:119-122 | the annual tax on twelve months, over 12, is at most 0.37 × the monthly gross |
| FrontendMath.BuildProjections | frontend/src/utils/retirementMath.ts:143-177 | years + 1 rows, each the shared engine's row for the frontend nest egg |
| FrontendMath.ProjectionsAgreeOffTarget | frontend/src/utils/retirementMath.ts:143-177 | the frontend and backend projections agree on every column except the on-track target |
| FrontendMath.Merge | frontend/src/utils/retirementMath.ts:183-189 | only defined override fields change the plan; a contribution override also forces fixed mode; nothing else changes |
| FrontendMath.MergeNothing | frontend/src/utils/retirementMath.ts:183-189 | an override with no fields leaves the plan as it is |
| FrontendMath.MergeIdempotent | frontend/src/utils/retirementMath.ts:183-189 | applying an override twice is applying it once |
| FrontendMath.BuildScenarioProjections | frontend/src/utils/retirementMath.ts:179-191 | the scenario projection has one row per year to retirement plus one, and row k is the reference row of the merged plan with the frontend nest egg |
| FrontendMath.ScenarioIgnoresLabel | frontend/src/utils/retirementMath.ts:179-191 | the label and colour never change the scenario projection |
| FrontendMath.DrawdownMatchesBackend | frontend/src/utils/retirementMath.ts:194-230 | same length and same rows as the backend drawdown apart from the tax-rate column, which lies in [0, 0.37] |
| FrontendMath.BuildMilestones | frontend/src/utils/retirementMath.ts:233-251 | the frontend milestones equal the backend's for the same projection |
| LegacyMath.FutureValue | backend/src/utils/retirementMath.ts:1-3 | 0 years or a 0 rate leave the principal unchanged |
| LegacyMath.FutureValueCompose | backend/src/utils/retirementMath.ts:1-3 | growing a years then b years is growing a + b years |
| LegacyMath.SavingsClosedForm | backend/src/utils/retirementMath.ts:5-18 | the loop equals savings × (1 + r)^n + contribution × annuity factor |
| LegacyMath.SavingsNoYears | backend/src/utils/retirementMath.ts:11-17 | with 0 (or fewer) years the savings are returned unchanged |
| LegacyMath.SavingsZeroRate | backend/src/utils/retirementMath.ts:11-17 | with a 0 rate the result is savings + years × contribution |
| LegacyMath.CalculateMonthlyWithdrawal | backend/src/utils/retirementMath.ts:20-25 | twelve monthly withdrawals are savings × rate, unrounded |
| LegacyMath.AdjustForInflation | backend/src/utils/retirementMath.ts:27-29 | inflation adjustment is the same compounding as futureValue |
| LegacyMath.DeflateInflated | backend/src/utils/retirementMath.ts:27-29 | dividing by the same power undoes the adjustment |
| Trinity.AggressiveTable | frontend/src/utils/trinity.ts:11-20 | the 75/25 table has rates rising from 0.03 to 0.10 and percentages that never rise down a column or along a row |
| Trinity.ModerateTable | frontend/src/utils/trinity.ts:23-32 | the 50/50 table has the same shape |
| Trinity.ColumnIndex | frontend/src/utils/trinity.ts:39-44 | column 1 for ≤ 15 years, 2 for ≤ 20, 3 for ≤ 25, 4 for ≤ 30, 5 for ≤ 35, otherwise 6 |
| Trinity.Clamp | frontend/src/utils/trinity.ts:47 | the rate is clamped into [0.03, 0.10], unchanged inside it |
| Trinity.FindPair | frontend/src/utils/trinity.ts:50-57 | the loop returns the first pair of neighbouring rows bracketing the rate, or none |
| Trinity.PairAlwaysFound | frontend/src/utils/trinity.ts:50-59 | a clamped rate is always bracketed, so the fallback return is unreachable |
| Trinity.InterpolateBetween | frontend/src/utils/trinity.ts:34-60 | the result lies between the two neighbouring rows' entries, within [0, 100] |
| Trinity.AtTabulatedRate | frontend/src/utils/trinity.ts:34-60 | at a tabulated rate the result is that row's entry |
| Trinity.AggressiveFourPercentThirtyYears | frontend/src/utils/trinity.ts:12 | aggressive table, 4%, 30 years gives 95 |
| Trinity.InterpolateFallsWithRate | frontend/src/utils/trinity.ts:47-56 | a higher withdrawal rate never gives a higher success rate |
| Trinity.InterpolateFallsWithYears | frontend/src/utils/trinity.ts:39-56 | a longer retirement never gives a higher success rate |
| Trinity.ColumnFalls | frontend/src/utils/trinity.ts:11-32 | entries never rise down a column |
| Trinity.RowFalls | frontend/src/utils/trinity.ts:11-32 | entries never rise along a row |
| Trinity.TrinitySuccessRate | frontend/src/utils/trinity.ts:67-78 | all Roth is the aggressive value, all traditional the moderate one; a Roth share in [0, 100] gives a percentage |
| Trinity.BlendEnds | frontend/src/utils/trinity.ts:76-77 | the blend's ends are the two inputs, and it stays in [0, 100] |
| Trinity.SuccessFalls | frontend/src/utils/trinity.ts:67-78 | the blended success rate never rises with the withdrawal rate or with the number of years |
| ServerTax.Brackets2025Single | backend/src/index.ts:29-37 | the server's single-filer table is the backend tax module's 2025 single table, well formed |
| ServerTax.EffectiveTaxRate | backend/src/index.ts:39-48 | 0 when nothing is taxable (all Roth, say); rate × withdrawal is the deduction-free bracket tax otherwise; in [0, 0.37·(1 − roth/100)] for a positive withdrawal and a Roth share in [0, 100] |
| ServerTax.NoDeductionTaxesMore | backend/src/index.ts:39-48 | without the deduction the tax is never below the backend tax module's single-filer tax, and at most 0.37 × 14,600 above it |
| PlanMigration.MigratePlan | frontend/src/context/PlanContext.tsx:6-17 | a 7% return becomes 10% and any other rate is kept; missing fields get 0.05, 0.04, 0, 0 and present ones are kept; every other field is copied |
| PlanMigration.MigrateIdempotent | frontend/src/context/PlanContext.tsx:6-17 | migrating twice is migrating once |
| PlanMigration.MigrationKeepsEngineDefaults | frontend/src/context/PlanContext.tsx:12-15 | the defaults filled in are those the engine assumes, so the engine reads the same withdrawal rate, post-retirement return and filing status, and a valid plan stays valid |
| PlanMigration.CompletePlanUnchanged | frontend/src/context/PlanContext.tsx:6-17 | a complete plan with a return other than 7% is unchanged |
| IdLists.Add | frontend/src/hooks/useHoldings.ts:27 | the new record is appended after the unchanged old ones |
| IdLists.Update | frontend/src/hooks/useHoldings.ts:31 | same length; records with another id unchanged, those with the id changed |
| IdLists.Remove | frontend/src/hooks/useHoldings.ts:35 | every kept record was there and lacks the id; every record without the id is kept |
| IdLists.RemoveAppend | frontend/src/hooks/useHoldings.ts:35 | removal distributes over concatenation, so the survivors keep their order |
| IdLists.RemoveAbsent | frontend/src/hooks/useHoldings.ts:35 | removing an id nobody carries changes nothing |
| IdLists.RemoveIdempotent | frontend/src/hooks/useHoldings.ts:35 | removing twice is removing once |
| IdLists.AddThenRemove | frontend/src/hooks/useHoldings.ts:26-36 | adding a record then removing its id equals removing the id from the old list |
| IdLists.UpdateThenRemove | frontend/src/hooks/useHoldings.ts:30-36 | updating then removing the same id equals just removing it |
| IdLists.UpdateKeepsIds | frontend/src/hooks/useHoldings.ts:30-32 | an id-preserving change keeps every position's id |
| Holdings.Apply | frontend/src/hooks/useHoldings.ts:31 | a partial update never changes the id |
| Holdings.AddHolding | frontend/src/hooks/useHoldings.ts:26-28 | exactly one holding is appended, with the given fields and the new id; existing ones are untouched |
| Holdings.UpdateHolding | frontend/src/hooks/useHoldings.ts:30-32 | same length and ids; only holdings with the id change, taking the update's present fields |
| Holdings.RemoveHolding | frontend/src/hooks/useHoldings.ts:34-36 | drops exactly the holdings with the id |
| Holdings.UpdateThenRemoveHolding | frontend/src/hooks/useHoldings.ts:30-36 | updating a holding and then removing it is just removing it |
| Holdings.AddThenRemoveHolding | frontend/src/hooks/useHoldings.ts:26-36 | removing a just-added holding with a fresh id gives the list back |
| Holdings.TypeTotalsSplit | frontend/src/hooks/useHoldings.ts:39-41 | Roth total + traditional total is the value of all holdings |
| Holdings.TypeTotalBounds | frontend/src/hooks/useHoldings.ts:39-40 | with no negative shares or prices each type's total is between 0 and the whole total |
| Holdings.RothPct | frontend/src/hooks/useHoldings.ts:42 | 100 for a zero total; otherwise within ½ of 100 × Roth / total, and in [0, 100] when the Roth total is within the total |
| Holdings.FindGroup | frontend/src/hooks/useHoldings.ts:48 | finds the group with the name, or reports that none has it |
| Holdings.ByAccountGroups | frontend/src/hooks/useHoldings.ts:46-53 | group names are distinct; each group holds exactly its account's holdings in order, totals their value, and has its first holding's type; every holding has a group |
| Holdings.ByAccountSum | frontend/src/hooks/useHoldings.ts:46-53 | the group totals add up to the value of all holdings |
| Holdings.InsertNames | frontend/src/hooks/useHoldings.ts:48-52 | one loop pass keeps the existing groups' names in place, adds at most one group named after the holding, and leaves a group with that name |
| Holdings.HoldingsSummary | frontend/src/hooks/useHoldings.ts:38-56 | total = Roth + traditional = all value; the percentages add up to 100 (100/0 for a zero total); the groups add up to the total and partition the holdings |
| Holdings.SummaryPercentages | frontend/src/hooks/useHoldings.ts:42-43 | with no negative shares or prices both percentages lie in [0, 100] |
| Holdings.ByAccountAsWritten | frontend/src/hooks/useHoldings.ts:46-53 | over a plain object the grouping fails exactly when some account name is inherited from Object.prototype, and agrees with the corrected grouping otherwise |
| Holdings.ConstructorAccountBreaksSummary | frontend/src/hooks/useHoldings.ts:48-52 | a single holding in an account named "constructor" breaks the grouping as written; the corrected grouping gives one group |
| ContributionLog.Apply | frontend/src/hooks/useContributionLog.ts:28 | a partial update never changes the id |
| ContributionLog.AddLog | frontend/src/hooks/useContributionLog.ts:24-25 | one entry with the given fields and the new id is appended after the unchanged old ones |
| ContributionLog.UpdateLog | frontend/src/hooks/useContributionLog.ts:27-28 | same length and ids; only entries with the id change |
| ContributionLog.RemoveLog | frontend/src/hooks/useContributionLog.ts:30 | drops exactly the entries with the id |
| ContributionLog.RemoveLogAppend | frontend/src/hooks/useContributionLog.ts:30 | removal keeps the survivors in order |
| ContributionLog.UpdateThenRemoveLog | frontend/src/hooks/useContributionLog.ts:27-30 | updating then removing an entry is just removing it |
| ContributionLog.OnTrackBounds | frontend/src/hooks/useContributionLog.ts:36-37 | on-track years are at most all years; all of them when every actual meets its plan; none when none does |
| ContributionLog.LogSummary | frontend/src/hooks/useContributionLog.ts:32-38 | the totals are the sums; average × years = actual total (0 for an empty log); on-track years ≤ total years = entries |
| ContributionLog.AddLogSummary | frontend/src/hooks/useContributionLog.ts:24-38 | logging a year adds its planned and actual amounts, one year, and one on-track year if it met its plan |
| ContributionLog.SummaryAppend | frontend/src/hooks/useContributionLog.ts:33-36 | the sums and the on-track count of a concatenation add up |

## Left out

- React components, HTTP routes, file and browser storage, timers, zod schemas: not part of the calculation core. The zod ranges appear only as `requires` where the arithmetic needs them (`ValidPlan`).
- String formatting (`fmt`, `formatCurrency`, the solver's description texts, milestone labels): locale-dependent float-to-text conversion, so milestones carry no label.
- IEEE-754 arithmetic: every number is an exact real. NaN, Infinity (apart from the unbounded last bracket) and overflow are not modelled. So a plan with no years to retirement, which gives NaN targets in the source, is excluded by `ValidPlan`.
- Plans that retire before the current age: the source builds no projection rows, reports a nest egg of 0 and starts the drawdown from 0. `ValidPlan` excludes them, so no member describes that empty projection.
- Plans with a return rate of exactly -100% or below: the source's annuity factor is then 1 (or, for some rates, 0). `ValidPlan` asks for a rate above -100% so that every power of 1 + rate is positive.
- LegacyMath.FutureValue, LegacyMath.CalculateRetirementSavings and LegacyMath.AdjustForInflation: take whole year counts. The source accepts any number: `Math.pow` takes fractional and negative exponents, and the savings loop runs the count rounded up.
- Solver.Solve: requires, beyond a valid plan, room for one retirement age when the age is searched and a target age after the current one for retireEarlier. Without these the source searches an empty or inverted interval and projects an invalid plan.
- Solver.WithdrawalRateSolution: does not claim the end balance is monotone in the withdrawal rate. The bisection only promises its interval and iteration bounds.
- Tax.GrossForNetWithinOneDollar and FrontendMath.GrossForNetWithinOneDollar: proved only for targets up to 10^12, where 100 (or 60) halvings of the interval fall below 1 dollar.
- Holdings.UpdateHolding and ContributionLog.UpdateLog: an update field present but set to `undefined` is not modelled (it would erase the field). The contribution log's optional `note` can be cleared, as a present-but-empty update.
- Holdings.ByAccount: models the object's keys in insertion order. JavaScript lists integer-like keys first, in numeric order, which only affects iteration order.
- The `calculateFutureSavings` import of the projections controller names a function the legacy module does not define, and is not part of this model.

## Findings

| source | as written | input that shows it | evidently intended | confidence | as-written member | corrected member |
|---|---|---|---|---|---|---|
| frontend/src/hooks/useHoldings.ts:46-53 | `byAccount` is a plain `{}`, so `!byAccount[name]` is false for a name inherited from Object.prototype. The loop then reads `.holdings` of the inherited member, which is undefined, and `push` throws | one holding whose account name is `constructor` (or `toString`, `__proto__`, …). The holdings form offers only the preset account names (HoldingsTracker.tsx), so the name comes from the holdings stored in localStorage (useHoldings.ts:8-9) or from a direct call of the hook | one group per account name, whatever the name (a `Map` or a prototype-free object) | high, not executed | Holdings.ConstructorAccountBreaksSummary | Holdings.ByAccountGroups |
