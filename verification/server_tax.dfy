/**
 * The backend's third, stand-alone tax helper: single-filer 2025 brackets,
 * no standard deduction and no filing status, reported as an effective rate
 * of the whole withdrawal.
 */
module ServerTax {
  import opened Numeric
  import opened PlanTypes
  import opened Brackets
  import Tax

  /** BRACKETS_2025_SINGLE: the same seven floors, ceilings and rates as the backend tax module's single table. */
  function Brackets2025Single(): (t: seq<Bracket>)
    ensures t == Tax.SingleBrackets
    ensures WellFormed(t) && |t| == 7 && t[0].min == 0.0
  {
    Tax.TablesWellFormed(Single);
    [
      Bracket(0.0,        Finite(11925.0),  0.10),
      Bracket(11925.0,    Finite(48475.0),  0.12),
      Bracket(48475.0,    Finite(103350.0), 0.22),
      Bracket(103350.0,   Finite(197300.0), 0.24),
      Bracket(197300.0,   Finite(250525.0), 0.32),
      Bracket(250525.0,   Finite(626350.0), 0.35),
      Bracket(626350.0,   Unbounded,        0.37)
    ]
  }

  /** The traditional share of a withdrawal, all of it taxed. */
  function TaxableAmount(annualWithdrawal: real, rothPct: real): real
  {
    annualWithdrawal * (1.0 - rothPct / 100.0)
  }

  /**
   * effectiveTaxRate: the bracket tax on the traditional share divided by
   * the whole withdrawal, or 0 when nothing is taxable. For a positive
   * withdrawal and a Roth share in [0, 100] the rate is at most 0.37 times
   * the traditional fraction.
   */
  function EffectiveTaxRate(annualWithdrawal: real, rothPct: real): (r: real)
    ensures TaxableAmount(annualWithdrawal, rothPct) <= 0.0 ==> r == 0.0
    ensures rothPct == 100.0 ==> r == 0.0
    ensures TaxableAmount(annualWithdrawal, rothPct) > 0.0 ==>
              r * annualWithdrawal == BracketTax(Brackets2025Single(), TaxableAmount(annualWithdrawal, rothPct))
    ensures annualWithdrawal > 0.0 && 0.0 <= rothPct <= 100.0 ==>
              0.0 <= r <= TopRate * (1.0 - rothPct / 100.0)
  {
    var taxable := TaxableAmount(annualWithdrawal, rothPct);
    var tax := BracketTax(Brackets2025Single(), taxable);
    RateBounds(annualWithdrawal, rothPct);
    if taxable > 0.0 then
      assert annualWithdrawal != 0.0;
      tax / annualWithdrawal
    else 0.0
  }

  lemma RateBounds(w: real, rothPct: real)
    ensures var taxable := TaxableAmount(w, rothPct);
            w > 0.0 && 0.0 <= rothPct <= 100.0 && taxable > 0.0 ==>
              var tax := BracketTax(Brackets2025Single(), taxable);
              0.0 <= tax / w <= TopRate * (1.0 - rothPct / 100.0)
  {
    var taxable := TaxableAmount(w, rothPct);
    if w > 0.0 && 0.0 <= rothPct <= 100.0 && taxable > 0.0 {
      var t := Brackets2025Single();
      var tax := BracketTax(t, taxable);
      var k := 1.0 - rothPct / 100.0;
      TaxNonNegative(t, taxable);
      TaxAtMostTopRate(t, taxable);
      assert tax <= TopRate * (w * k);
      DivideMonotone(0.0, tax, w);
      DivideMonotone(tax, TopRate * (w * k), w);
      assert TopRate * (w * k) == (TopRate * k) * w;
      assert (TopRate * k) * w / w == TopRate * k;
    }
  }

  /**
   * Without the standard deduction this helper never reports less tax than
   * the backend tax module does for a single filer, and at most 0.37 times
   * the 14,600 deduction more.
   */
  lemma NoDeductionTaxesMore(w: real, rothPct: real)
    requires w > 0.0 && 0.0 <= rothPct <= 100.0
    ensures var backend := Tax.CalcTax(w, rothPct, Single).taxOwed;
            && backend <= EffectiveTaxRate(w, rothPct) * w
            && EffectiveTaxRate(w, rothPct) * w - backend <= TopRate * Tax.StandardDeduction(Single)
  {
    var x := TaxableAmount(w, rothPct);
    assert (100.0 - rothPct) / 100.0 == 1.0 - rothPct / 100.0;
    assert Tax.TraditionalPortion(w, rothPct) == x;
    MulMonotone(0.0, w, 1.0 - rothPct / 100.0);
    assert 0.0 * (1.0 - rothPct / 100.0) == 0.0;
    assert x >= 0.0;
    var y := Tax.TaxableIncome(w, rothPct, Single);
    assert y == Max(x - 14600.0, 0.0);
    var t := Brackets2025Single();
    TaxSlope(t, y, x);
  }
}
