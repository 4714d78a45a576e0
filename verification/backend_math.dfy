/**
 * The backend engine: the shared projection, drawdown and milestone logic
 * wired to the backend tax model (2025 brackets, 100-step inverse on
 * [net, 2 * net]).
 */
module BackendMath {
  import opened Numeric
  import opened PlanTypes
  import opened Bisection
  import Tax
  import Engine
  import Drawdown
  import Milestones

  /**
   * calculateNestEggNeeded: the gross yearly withdrawal that nets the
   * inflated spending goal, divided by the withdrawal rate and rounded.
   */
  function NestEggNeeded(p: RetirementPlan): (n: int)
    requires p.currentAge <= p.retirementAge && Swr(p) > 0.0
  {
    Round(Tax.GrossForNet(Engine.FutureAnnualSpend(p), p.rothPct, Filing(p)) / Swr(p))
  }

  /** With an all-Roth split nothing is grossed up: the nest egg is the spend over the withdrawal rate. */
  lemma NestEggAllRoth(p: RetirementPlan)
    requires p.currentAge <= p.retirementAge && Swr(p) > 0.0 && p.rothPct == 100.0
    ensures NestEggNeeded(p) == Round(Engine.FutureAnnualSpend(p) / Swr(p))
  {
  }

  /**
   * For a non-negative spending goal the nest egg lies between the spend
   * and twice the spend, each divided by the withdrawal rate and rounded.
   */
  lemma NestEggBounds(p: RetirementPlan)
    requires p.currentAge <= p.retirementAge && Swr(p) > 0.0
    requires Engine.FutureAnnualSpend(p) >= 0.0
    ensures Round(Engine.FutureAnnualSpend(p) / Swr(p)) <= NestEggNeeded(p) <= Round(2.0 * Engine.FutureAnnualSpend(p) / Swr(p))
  {
    var f := Engine.FutureAnnualSpend(p);
    var g := Tax.GrossForNet(f, p.rothPct, Filing(p));
    assert f <= g <= 2.0 * f;
    RoundedQuotientBetween(f, g, 2.0 * f, Swr(p));
  }

  /** buildProjections: the shared projection sized by the backend nest egg. */
  function BuildProjections(p: RetirementPlan, currentYear: int): (rows: seq<YearlyProjection>)
    requires ValidPlan(p)
    ensures |rows| == YearsToRetirement(p) + 1
  {
    Engine.BuildProjections(p, NestEggNeeded(p) as real, currentYear)
  }

  /** The effective rate calcTax reports for a withdrawal, for one Roth share and filing status. */
  function TaxRate(rothPct: real, fs: FilingStatus): real -> real
  {
    g => Tax.CalcTax(g, rothPct, fs).effectiveRate
  }

  /** buildDrawdown with the backend tax model. */
  function BuildDrawdown(p: RetirementPlan, nestEgg: real, currentYear: int): seq<DrawdownYear>
  {
    Drawdown.BuildDrawdown(Drawdown.SetupFor(p, nestEgg, currentYear), TaxRate(p.rothPct, Filing(p)), nestEgg)
  }

  /** With an all-Roth split every drawdown year reports a 0 tax rate. */
  lemma AllRothDrawdownUntaxed(p: RetirementPlan, nestEgg: real, currentYear: int, k: nat)
    requires p.rothPct == 100.0 && k < |BuildDrawdown(p, nestEgg, currentYear)|
    ensures BuildDrawdown(p, nestEgg, currentYear)[k].effectiveTaxRate == 0.0
  {
    var d := Drawdown.SetupFor(p, nestEgg, currentYear);
    Drawdown.LoopRowAt(d, TaxRate(p.rothPct, Filing(p)), 0, nestEgg, k);
    var actual := Drawdown.Actual(d, k, Drawdown.Opening(d, 0, nestEgg, k));
    assert TaxRate(p.rothPct, Filing(p))(actual) == 0.0;
    RoundOfInt(0);
  }

  /** buildMilestones (without the labels). */
  function BuildMilestones(p: RetirementPlan, rows: seq<YearlyProjection>): seq<Milestone>
  {
    Milestones.BuildMilestones(p, rows)
  }

  /**
   * Read against its own projection, a checkpoint age up to retirement
   * reports that year's balance and glide-path target, and a checkpoint
   * past retirement (50 for a saver retiring at 45, say) reports 0 and 0
   * and counts as reached.
   */
  lemma MilestoneOfProjection(p: RetirementPlan, currentYear: int, age: int)
    requires ValidPlan(p) && age >= p.currentAge
    ensures var rows := BuildProjections(p, currentYear);
            var m := Milestones.MilestoneAt(rows, age);
      && (age <= p.retirementAge ==>
            m.projectedBalance == Round(Engine.Balance(p, age - p.currentAge))
            && m.targetBalance == Engine.OnTrackTargets(p, NestEggNeeded(p) as real)[age - p.currentAge])
      && (age > p.retirementAge ==> m.projectedBalance == 0 && m.targetBalance == 0 && m.reached)
  {
    var rows := BuildProjections(p, currentYear);
    Engine.ProjectionShape(p, NestEggNeeded(p) as real, currentYear);
    Milestones.FirstWithConsecutiveAges(rows, p.currentAge, age);
    if age <= p.retirementAge {
      var k := age - p.currentAge;
      assert rows[k] == Engine.ExpectedRow(p, Engine.OnTrackTargets(p, NestEggNeeded(p) as real), currentYear, k);
    }
  }

  /**
   * `projections.find(p => p.isRetirementYear)?.balance ?? 0`: the balance of
   * the first retirement-year row, or 0 when there is none.
   */
  function RetirementBalance(rows: seq<YearlyProjection>): (b: int)
    ensures (forall k | 0 <= k < |rows| :: !rows[k].isRetirementYear) ==> b == 0
    ensures forall j | 0 <= j < |rows| && rows[j].isRetirementYear && (forall i | 0 <= i < j :: !rows[i].isRetirementYear) ::
              b == rows[j].balance
  {
    if |rows| == 0 then 0
    else if rows[0].isRetirementYear then rows[0].balance
    else
      assert forall k | 0 <= k < |rows| - 1 :: rows[1..][k] == rows[k + 1];
      RetirementBalance(rows[1..])
  }

  /** When only the last row is flagged, the search lands on it. */
  lemma {:induction false} RetirementBalanceIsLast(rows: seq<YearlyProjection>)
    requires |rows| > 0
    requires forall k | 0 <= k < |rows| :: rows[k].isRetirementYear <==> k == |rows| - 1
    ensures RetirementBalance(rows) == rows[|rows| - 1].balance
  {
    if |rows| > 1 {
      assert !rows[0].isRetirementYear;
      var rest := rows[1..];
      assert forall k | 0 <= k < |rest| :: rest[k] == rows[k + 1];
      RetirementBalanceIsLast(rest);
    }
  }

  /**
   * The projected nest egg: the retirement row's balance, which is also the
   * last row's, is the reference balance after the accumulation years, rounded.
   */
  lemma ProjectedNestEgg(p: RetirementPlan, currentYear: int)
    requires ValidPlan(p)
    ensures var rows := BuildProjections(p, currentYear);
      && RetirementBalance(rows) == rows[|rows| - 1].balance
      && RetirementBalance(rows) == Round(Engine.Balance(p, YearsToRetirement(p)))
  {
    var rows := BuildProjections(p, currentYear);
    Engine.ProjectionShape(p, NestEggNeeded(p) as real, currentYear);
    RetirementBalanceIsLast(rows);
    assert rows[|rows| - 1] == Engine.ExpectedRow(p, Engine.OnTrackTargets(p, NestEggNeeded(p) as real), currentYear, YearsToRetirement(p));
  }
}
