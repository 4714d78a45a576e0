/**
 * The retirement drawdown shared by both copies of the engine: from the
 * retirement age until the life expectancy, withdraw the safe-withdrawal-rate
 * share of the nest egg grown with inflation (never more than is left), grow
 * the remainder at the post-retirement return, and stop right after the first
 * year that starts with nothing left.
 *
 * The two copies differ only in how the effective tax rate of a withdrawal is
 * computed; it is a parameter here.
 */
module Drawdown {
  import opened Numeric
  import opened PlanTypes

  /**
   * What the drawdown reads from the plan: the first age and calendar year,
   * the first year's withdrawal (nest egg times withdrawal rate), inflation,
   * the post-retirement return and the number of years to simulate.
   */
  datatype Setup = Setup(
    retirementAge: int,
    retirementYear: int,
    baseWithdrawal: real,
    inflationRate: real,
    postReturn: real,
    years: int
  )

  /**
   * buildDrawdown's constants: withdrawalRate and postRetirementReturnRate
   * with their defaults, the retirement calendar year and the year count
   * lifeExpectancy - retirementAge.
   */
  function SetupFor(p: RetirementPlan, nestEgg: real, currentYear: int): (d: Setup)
    ensures d.retirementAge == p.retirementAge && d.years == p.lifeExpectancy - p.retirementAge
    ensures d.retirementYear - currentYear == p.retirementAge - p.currentAge
    ensures d.baseWithdrawal == nestEgg * Swr(p) && d.postReturn == PostReturn(p)
  {
    Setup(p.retirementAge, currentYear + (p.retirementAge - p.currentAge), nestEgg * Swr(p),
          p.inflationRate, PostReturn(p), p.lifeExpectancy - p.retirementAge)
  }

  /** The planned gross withdrawal of year i: the first year's amount grown with inflation. */
  function Scheduled(d: Setup, i: nat): real
  {
    d.baseWithdrawal * Pow(1.0 + d.inflationRate, i)
  }

  /** What is actually withdrawn: the planned amount, or the whole balance if that is less. */
  function Actual(d: Setup, i: nat, balance: real): (a: real)
    ensures a <= balance && a <= Scheduled(d, i)
    ensures a == balance || a == Scheduled(d, i)
  {
    Min(Scheduled(d, i), balance)
  }

  /** What the remainder of the year earns at the post-retirement return. */
  function Gain(d: Setup, left: real): real
  {
    left * d.postReturn
  }

  /** The remainder after a year at the post-retirement return. */
  function Grown(d: Setup, left: real): real
  {
    left * (1.0 + d.postReturn)
  }

  /** The year's closing balance: 0 once depleted, else the grown remainder floored at 0. */
  function EndOf(d: Setup, i: nat, balance: real): (e: real)
    ensures e >= 0.0
    ensures balance <= 0.0 ==> e == 0.0
  {
    if balance <= 0.0 then 0.0 else Max(Grown(d, balance - Actual(d, i, balance)), 0.0)
  }

  /** `Math.round(rate * 1000) / 1000`: a rate to three decimals. */
  function RoundRate(rate: real): (r: real)
    ensures rate - 0.0005 < r <= rate + 0.0005
  {
    Round(rate * 1000.0) as real / 1000.0
  }

  /** The row of year i of the drawdown, given the unrounded opening balance. */
  function Row(d: Setup, taxRate: real -> real, i: nat, balance: real): DrawdownYear
  {
    var depleted := balance <= 0.0;
    var actual := Actual(d, i, balance);
    DrawdownYear(
      d.retirementAge + i,
      d.retirementYear + i,
      Round(balance),
      Round(actual),
      Round(if depleted then 0.0 else Gain(d, balance - actual)),
      Round(EndOf(d, i, balance)),
      depleted,
      RoundRate(taxRate(actual)))
  }

  /** Each row: depleted exactly when it opens with nothing, never withdraws more than it opens with, never closes negative. */
  lemma RowFacts(d: Setup, taxRate: real -> real, i: nat, balance: real)
    ensures var row := Row(d, taxRate, i, balance);
      && (row.depleted <==> balance <= 0.0)
      && row.withdrawal <= row.startBalance
      && row.endBalance >= 0
      && (row.depleted ==> row.endBalance == 0 && row.growth == 0 && row.startBalance <= 0)
      && row.age == d.retirementAge + i && row.year == d.retirementYear + i
  {
    RoundMonotone(Actual(d, i, balance), balance);
    RoundNonNegative(EndOf(d, i, balance));
    RoundOfInt(0);
    if balance <= 0.0 {
      RoundMonotone(balance, 0.0);
    }
  }

  /**
   * The loop of buildDrawdown from year index i with opening balance
   * `balance`: emit the row; stop after it if it is depleted, otherwise carry
   * its closing balance into the next year; stop when i reaches the year count.
   */
  function Loop(d: Setup, taxRate: real -> real, i: nat, balance: real): seq<DrawdownYear>
    decreases d.years - i
  {
    if i >= d.years then []
    else
      var row := Row(d, taxRate, i, balance);
      if row.depleted then [row]
      else [row] + Loop(d, taxRate, i + 1, EndOf(d, i, balance))
  }

  /** buildDrawdown: the loop from year 0 with the nest egg as opening balance. */
  function BuildDrawdown(d: Setup, taxRate: real -> real, nestEgg: real): seq<DrawdownYear>
  {
    Loop(d, taxRate, 0, nestEgg)
  }

  /** The unrounded opening balance k years after year index i, had nothing depleted. */
  function Opening(d: Setup, i: nat, balance: real, k: nat): real
    decreases k
  {
    if k == 0 then balance else Opening(d, i + 1, EndOf(d, i, balance), k - 1)
  }

  /** Each opening balance is the previous year's closing balance. */
  lemma {:induction false} OpeningStep(d: Setup, i: nat, balance: real, k: nat)
    ensures Opening(d, i, balance, k + 1) == EndOf(d, i + k, Opening(d, i, balance, k))
    decreases k
  {
    if k > 0 {
      OpeningStep(d, i + 1, EndOf(d, i, balance), k - 1);
    }
  }

  /** One turn of the loop: a year opening above 0 carries its closing balance on, one opening at or below 0 ends it. */
  lemma LoopUnfold(d: Setup, taxRate: real -> real, i: nat, balance: real)
    requires i < d.years
    ensures balance > 0.0 ==> Loop(d, taxRate, i, balance) == [Row(d, taxRate, i, balance)] + Loop(d, taxRate, i + 1, EndOf(d, i, balance))
    ensures balance <= 0.0 ==> Loop(d, taxRate, i, balance) == [Row(d, taxRate, i, balance)]
  {
  }

  /** The loop emits nothing once the years run out, and otherwise at most one row per remaining year. */
  lemma {:induction false} LoopLength(d: Setup, taxRate: real -> real, i: nat, balance: real)
    ensures |Loop(d, taxRate, i, balance)| == 0 <==> i >= d.years
    ensures i <= d.years ==> |Loop(d, taxRate, i, balance)| <= d.years - i
    decreases d.years - i
  {
    if i < d.years {
      LoopUnfold(d, taxRate, i, balance);
      if balance > 0.0 {
        LoopLength(d, taxRate, i + 1, EndOf(d, i, balance));
      }
    }
  }

  /** Row k of the loop from year index i is the row of year i + k at its opening balance. */
  lemma {:induction false} LoopRowAt(d: Setup, taxRate: real -> real, i: nat, balance: real, k: nat)
    requires k < |Loop(d, taxRate, i, balance)|
    ensures Loop(d, taxRate, i, balance)[k] == Row(d, taxRate, i + k, Opening(d, i, balance, k))
    decreases k
  {
    LoopLength(d, taxRate, i, balance);
    LoopUnfold(d, taxRate, i, balance);
    if k > 0 {
      var e := EndOf(d, i, balance);
      assert Loop(d, taxRate, i, balance)[k] == Loop(d, taxRate, i + 1, e)[k - 1];
      LoopRowAt(d, taxRate, i + 1, e, k - 1);
    }
  }

  /**
   * Stopping: every row but the last opens above 0, and when the loop ends
   * before the years run out, its last row opened at or below 0.
   */
  lemma {:induction false} LoopStops(d: Setup, taxRate: real -> real, i: nat, balance: real, k: nat)
    requires k < |Loop(d, taxRate, i, balance)|
    ensures k < |Loop(d, taxRate, i, balance)| - 1 ==> Opening(d, i, balance, k) > 0.0
    ensures k == |Loop(d, taxRate, i, balance)| - 1 < d.years - i - 1 ==> Opening(d, i, balance, k) <= 0.0
    decreases k
  {
    LoopLength(d, taxRate, i, balance);
    LoopUnfold(d, taxRate, i, balance);
    if k > 0 {
      LoopStops(d, taxRate, i + 1, EndOf(d, i, balance), k - 1);
    } else if balance > 0.0 {
      LoopLength(d, taxRate, i + 1, EndOf(d, i, balance));
    }
  }

  /**
   * Year k of the drawdown: consecutive ages and calendar years from
   * retirement, a withdrawal no larger than the opening balance, a closing
   * balance that is never negative and is 0 once depleted, and the depleted
   * flag only on a final row, which opened at or below 0.
   */
  lemma DrawdownRow(d: Setup, taxRate: real -> real, nestEgg: real, k: nat)
    requires k < |BuildDrawdown(d, taxRate, nestEgg)|
    ensures var rows := BuildDrawdown(d, taxRate, nestEgg);
      && rows[k].age == d.retirementAge + k && rows[k].year == d.retirementYear + k
      && rows[k].withdrawal <= rows[k].startBalance
      && rows[k].endBalance >= 0
      && (rows[k].depleted ==> rows[k].endBalance == 0 && rows[k].startBalance <= 0 && k == |rows| - 1)
      && (rows[k].depleted <==> Opening(d, 0, nestEgg, k) <= 0.0)
  {
    LoopRowAt(d, taxRate, 0, nestEgg, k);
    RowFacts(d, taxRate, k, Opening(d, 0, nestEgg, k));
    LoopStops(d, taxRate, 0, nestEgg, k);
  }

  /** Each year opens with the balance the previous year closed with. */
  lemma DrawdownContinuity(d: Setup, taxRate: real -> real, nestEgg: real, k: nat)
    requires k + 1 < |BuildDrawdown(d, taxRate, nestEgg)|
    ensures BuildDrawdown(d, taxRate, nestEgg)[k + 1].startBalance == BuildDrawdown(d, taxRate, nestEgg)[k].endBalance
  {
    LoopRowAt(d, taxRate, 0, nestEgg, k);
    LoopRowAt(d, taxRate, 0, nestEgg, k + 1);
    OpeningStep(d, 0, nestEgg, k);
  }

  /**
   * At most lifeExpectancy - retirementAge rows, none when that is not
   * positive, and a drawdown that ends early ends on a depleted row.
   */
  lemma DrawdownLength(d: Setup, taxRate: real -> real, nestEgg: real)
    ensures var rows := BuildDrawdown(d, taxRate, nestEgg);
      && (d.years <= 0 ==> rows == [])
      && (d.years >= 0 ==> |rows| <= d.years)
      && (0 < |rows| < d.years ==> rows[|rows| - 1].depleted)
  {
    var rows := BuildDrawdown(d, taxRate, nestEgg);
    LoopLength(d, taxRate, 0, nestEgg);
    if 0 < |rows| < d.years {
      LoopStops(d, taxRate, 0, nestEgg, |rows| - 1);
      DrawdownRow(d, taxRate, nestEgg, |rows| - 1);
    }
  }

  /** A row with its effective-rate column cleared. */
  function WithoutRate(row: DrawdownYear): DrawdownYear
  {
    row.(effectiveTaxRate := 0.0)
  }

  /** The tax-rate function never decides when the loop stops. */
  lemma {:induction false} LoopLengthIgnoresRate(d: Setup, t1: real -> real, t2: real -> real, i: nat, balance: real)
    ensures |Loop(d, t1, i, balance)| == |Loop(d, t2, i, balance)|
    decreases d.years - i
  {
    if i < d.years {
      LoopUnfold(d, t1, i, balance);
      LoopUnfold(d, t2, i, balance);
      if balance > 0.0 {
        LoopLengthIgnoresRate(d, t1, t2, i + 1, EndOf(d, i, balance));
      }
    }
  }

  /**
   * The tax-rate function only fills the effective-rate column: two
   * drawdowns of the same setup and nest egg have the same number of rows,
   * and their rows agree in every other column.
   */
  lemma DrawdownIgnoresRate(d: Setup, t1: real -> real, t2: real -> real, nestEgg: real)
    ensures |BuildDrawdown(d, t1, nestEgg)| == |BuildDrawdown(d, t2, nestEgg)|
    ensures forall k | 0 <= k < |BuildDrawdown(d, t1, nestEgg)| ::
      WithoutRate(BuildDrawdown(d, t1, nestEgg)[k]) == WithoutRate(BuildDrawdown(d, t2, nestEgg)[k])
  {
    LoopLengthIgnoresRate(d, t1, t2, 0, nestEgg);
    forall k | 0 <= k < |BuildDrawdown(d, t1, nestEgg)|
      ensures WithoutRate(BuildDrawdown(d, t1, nestEgg)[k]) == WithoutRate(BuildDrawdown(d, t2, nestEgg)[k])
    {
      LoopRowAt(d, t1, 0, nestEgg, k);
      LoopRowAt(d, t2, 0, nestEgg, k);
    }
  }

  /**
   * A rate function with values in [0, 0.37] gives rate columns in
   * [0, 0.37]: rounding to three decimals cannot leave that range.
   */
  lemma DrawdownRateRange(d: Setup, taxRate: real -> real, nestEgg: real, k: nat)
    requires k < |BuildDrawdown(d, taxRate, nestEgg)|
    requires forall g :: 0.0 <= taxRate(g) <= 0.37
    ensures 0.0 <= BuildDrawdown(d, taxRate, nestEgg)[k].effectiveTaxRate <= 0.37
  {
    LoopRowAt(d, taxRate, 0, nestEgg, k);
    var rate := taxRate(Actual(d, k, Opening(d, 0, nestEgg, k)));
    RoundRateRange(rate);
  }

  lemma RoundRateRange(rate: real)
    requires 0.0 <= rate <= 0.37
    ensures 0.0 <= RoundRate(rate) <= 0.37
  {
    RoundMonotone(0.0, rate * 1000.0);
    RoundMonotone(rate * 1000.0, 370.0);
    RoundOfInt(0);
    RoundOfInt(370);
  }
}
