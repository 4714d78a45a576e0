/**
 * The backend tax model: 2025 federal ordinary-income brackets (IRS Revenue
 * Procedure 2024-40, section 3.01) with the 2024 standard deductions, applied
 * to the traditional (non-Roth) share of a withdrawal, and the gross-for-net
 * inverse found by bisection.
 */
module Tax {
  import opened Numeric
  import opened Brackets
  import opened Bisection
  import opened PlanTypes

  const SingleBrackets: seq<Bracket> := [
    Bracket(0.0,        Finite(11925.0),  0.10),
    Bracket(11925.0,    Finite(48475.0),  0.12),
    Bracket(48475.0,    Finite(103350.0), 0.22),
    Bracket(103350.0,   Finite(197300.0), 0.24),
    Bracket(197300.0,   Finite(250525.0), 0.32),
    Bracket(250525.0,   Finite(626350.0), 0.35),
    Bracket(626350.0,   Unbounded,        0.37)
  ]

  const MarriedBrackets: seq<Bracket> := [
    Bracket(0.0,        Finite(23850.0),  0.10),
    Bracket(23850.0,    Finite(96950.0),  0.12),
    Bracket(96950.0,    Finite(206700.0), 0.22),
    Bracket(206700.0,   Finite(394600.0), 0.24),
    Bracket(394600.0,   Finite(501050.0), 0.32),
    Bracket(501050.0,   Finite(751600.0), 0.35),
    Bracket(751600.0,   Unbounded,        0.37)
  ]

  function BracketsFor(fs: FilingStatus): seq<Bracket>
  {
    match fs
    case Single => SingleBrackets
    case Married => MarriedBrackets
  }

  function StandardDeduction(fs: FilingStatus): real
  {
    match fs
    case Single => 14600.0
    case Married => 29200.0
  }

  /** Both tables start at 0, chain each floor to the previous ceiling and end unbounded. */
  lemma TablesWellFormed(fs: FilingStatus)
    ensures WellFormed(BracketsFor(fs))
    ensures |BracketsFor(fs)| == 7 && BracketsFor(fs)[0].min == 0.0
    ensures BracketsFor(fs)[6].max == Unbounded
  {
  }

  datatype TaxResult = TaxResult(effectiveRate: real, taxOwed: real, netWithdrawal: real)

  /** grossAnnual * ((100 - rothPct) / 100): the share taxed as ordinary income. */
  function TraditionalPortion(grossAnnual: real, rothPct: real): real
  {
    grossAnnual * ((100.0 - rothPct) / 100.0)
  }

  /** Traditional income above the standard deduction, never negative. */
  function TaxableIncome(grossAnnual: real, rothPct: real, fs: FilingStatus): real
  {
    Max(TraditionalPortion(grossAnnual, rothPct) - StandardDeduction(fs), 0.0)
  }

  /**
   * calcTax: progressive tax on the traditional share above the deduction;
   * the Roth share is tax free.
   */
  function CalcTax(grossAnnual: real, rothPct: real, fs: FilingStatus): (r: TaxResult)
    ensures 0.0 <= r.taxOwed <= TopRate * TaxableIncome(grossAnnual, rothPct, fs)
    ensures TraditionalPortion(grossAnnual, rothPct) <= StandardDeduction(fs) ==> r.taxOwed == 0.0
    ensures r.netWithdrawal == grossAnnual - r.taxOwed
    ensures rothPct == 100.0 ==> r.taxOwed == 0.0 && r.netWithdrawal == grossAnnual
  {
    var taxable := TaxableIncome(grossAnnual, rothPct, fs);
    AllRothUntaxed(grossAnnual, rothPct);
    TablesWellFormed(fs);
    TaxNonNegative(BracketsFor(fs), taxable);
    TaxAtMostTopRate(BracketsFor(fs), taxable);
    var owed := BracketTax(BracketsFor(fs), taxable);
    TaxResult(EffectiveRate(owed, grossAnnual), owed, grossAnnual - owed)
  }

  /** `gross > 0 ? owed / gross : 0` */
  function EffectiveRate(owed: real, grossAnnual: real): (rate: real)
    ensures grossAnnual > 0.0 ==> rate * grossAnnual == owed
    ensures grossAnnual <= 0.0 || owed == 0.0 ==> rate == 0.0
    ensures grossAnnual > 0.0 && owed >= 0.0 ==> rate >= 0.0
  {
    if grossAnnual > 0.0 then owed / grossAnnual else 0.0
  }

  lemma AllRothUntaxed(grossAnnual: real, rothPct: real)
    ensures rothPct == 100.0 ==> TraditionalPortion(grossAnnual, rothPct) == 0.0
    ensures TraditionalPortion(0.0, rothPct) == 0.0
  {
  }

  /**
   * For 0 <= rothPct <= 100 the tax is non-decreasing in the gross withdrawal
   * and grows by at most 0.37 per traditional dollar, so the net withdrawal is
   * non-decreasing too (what the bisection in GrossForNet relies on).
   */
  lemma CalcTaxMonotone(g1: real, g2: real, rothPct: real, fs: FilingStatus)
    requires 0.0 <= rothPct <= 100.0
    requires g1 <= g2
    ensures var t1, t2 := CalcTax(g1, rothPct, fs), CalcTax(g2, rothPct, fs);
            && 0.0 <= t2.taxOwed - t1.taxOwed
            && t2.taxOwed - t1.taxOwed <= TopRate * (TraditionalPortion(g2, rothPct) - TraditionalPortion(g1, rothPct))
            && t2.taxOwed - t1.taxOwed <= TopRate * (g2 - g1)
            && t1.netWithdrawal <= t2.netWithdrawal
  {
    TraditionalSlope(g1, g2, rothPct);
    var tr1, tr2 := TraditionalPortion(g1, rothPct), TraditionalPortion(g2, rothPct);
    var x1, x2 := TaxableIncome(g1, rothPct, fs), TaxableIncome(g2, rothPct, fs);
    assert 0.0 <= x2 - x1 <= tr2 - tr1;
    TablesWellFormed(fs);
    TaxSlope(BracketsFor(fs), x1, x2);
    MulMonotone(x2 - x1, tr2 - tr1, TopRate);
    MulMonotone(tr2 - tr1, g2 - g1, TopRate);
  }

  /** The traditional share grows with the gross, and never faster than it. */
  lemma TraditionalSlope(g1: real, g2: real, rothPct: real)
    requires 0.0 <= rothPct <= 100.0
    requires g1 <= g2
    ensures 0.0 <= TraditionalPortion(g2, rothPct) - TraditionalPortion(g1, rothPct) <= g2 - g1
  {
    var k := (100.0 - rothPct) / 100.0;
    var d := g2 - g1;
    assert TraditionalPortion(g2, rothPct) - TraditionalPortion(g1, rothPct) == d * k;
    MulMonotone(0.0, d, k);
    MulMonotone(k, 1.0, d);
    assert d * k <= 1.0 * d;
  }

  /** The net withdrawal as a function of the gross, for one Roth share and filing status. */
  function NetOf(rothPct: real, fs: FilingStatus): real -> real
  {
    g => CalcTax(g, rothPct, fs).netWithdrawal
  }

  /** Iterations of the inverse. */
  const GrossSearchSteps: nat := 100

  /**
   * grossForNet: with an all-Roth split the target is returned unchanged;
   * otherwise bisection on [targetNet, 2 * targetNet] for a gross whose net is
   * within 1 of the target, returning the last midpoint when the 100
   * iterations run out.
   */
  function GrossForNet(targetNet: real, rothPct: real, fs: FilingStatus): (r: real)
    ensures rothPct == 100.0 ==> r == targetNet
    ensures Between(r, targetNet, 2.0 * targetNet)
  {
    if rothPct == 100.0 then targetNet
    else Answer(GrossSearch(targetNet, rothPct, fs, GrossSearchSteps))
  }

  /** The bisection GrossForNet runs when part of the withdrawal is traditional. */
  function GrossSearch(targetNet: real, rothPct: real, fs: FilingStatus, steps: nat): (o: Outcome)
    ensures Between(Answer(o), targetNet, 2.0 * targetNet)
  {
    NetSearchHull(NetOf(rothPct, fs), targetNet, targetNet, 2.0 * targetNet, steps);
    NetSearch(NetOf(rothPct, fs), targetNet, targetNet, 2.0 * targetNet, steps)
  }

  /**
   * Round trip: for a non-negative target and 0 <= rothPct <= 100, the gross
   * returned nets within $1 of the target, or within targetNet / 2^100 of it.
   */
  lemma GrossForNetRoundTrip(targetNet: real, rothPct: real, fs: FilingStatus)
    requires targetNet >= 0.0 && 0.0 <= rothPct <= 100.0
    ensures Settled(CalcTax(GrossForNet(targetNet, rothPct, fs), rothPct, fs).netWithdrawal, targetNet, Halved(targetNet, GrossSearchSteps))
  {
    if rothPct != 100.0 {
      GrossSearchSettled(targetNet, rothPct, fs, GrossSearchSteps);
    }
  }

  lemma GrossSearchSettled(targetNet: real, rothPct: real, fs: FilingStatus, steps: nat)
    requires targetNet >= 0.0 && 0.0 <= rothPct <= 100.0
    ensures Settled(NetOf(rothPct, fs)(Answer(GrossSearch(targetNet, rothPct, fs, steps))), targetNet, Halved(targetNet, steps))
  {
    var net := NetOf(rothPct, fs);
    var hi := 2.0 * targetNet;
    assert Settled(net(Answer(NetSearch(net, targetNet, targetNet, hi, steps))), targetNet, Halved(hi - targetNet, steps)) by {
      NetOfSlope(rothPct, fs, targetNet, hi);
      NetOfBrackets(targetNet, rothPct, fs);
      NetSearchRoundTrip(net, targetNet, targetNet, hi, steps);
    }
    assert hi - targetNet == targetNet;
  }

  lemma NetOfSlope(rothPct: real, fs: FilingStatus, lo: real, hi: real)
    requires 0.0 <= rothPct <= 100.0
    ensures var net := NetOf(rothPct, fs);
            forall a, b :: lo <= a <= b <= hi ==> net(a) <= net(b) <= net(a) + (b - a)
  {
    var net := NetOf(rothPct, fs);
    forall a, b | lo <= a <= b <= hi
      ensures net(a) <= net(b) <= net(a) + (b - a)
    {
      CalcTaxMonotone(a, b, rothPct, fs);
    }
  }

  /** The net of the target is at most the target, the net of twice the target at least it. */
  lemma NetOfBrackets(targetNet: real, rothPct: real, fs: FilingStatus)
    requires targetNet >= 0.0 && 0.0 <= rothPct <= 100.0
    ensures NetOf(rothPct, fs)(targetNet) <= targetNet <= NetOf(rothPct, fs)(2.0 * targetNet)
  {
    var top := CalcTax(2.0 * targetNet, rothPct, fs);
    AllRothUntaxed(0.0, rothPct);
    TraditionalSlope(0.0, 2.0 * targetNet, rothPct);
    var tx := TaxableIncome(2.0 * targetNet, rothPct, fs);
    assert tx <= 2.0 * targetNet;
    MulMonotone(tx, 2.0 * targetNet, TopRate);
  }

  /** For any target up to $10^12 the inverse nets within $1 of the target. */
  lemma GrossForNetWithinOneDollar(targetNet: real, rothPct: real, fs: FilingStatus)
    requires 0.0 <= targetNet <= 1_000_000_000_000.0 && 0.0 <= rothPct <= 100.0
    ensures Abs(CalcTax(GrossForNet(targetNet, rothPct, fs), rothPct, fs).netWithdrawal - targetNet) < 1.0
  {
    GrossForNetRoundTrip(targetNet, rothPct, fs);
    HalvedFiftyBelowOne(targetNet);
    HalvedMore(targetNet, 50, GrossSearchSteps);
  }
}
