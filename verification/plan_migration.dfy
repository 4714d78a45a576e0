/**
 * migratePlan: bring a saved plan up to date before the frontend uses it.
 * The retired 7% default return becomes 10%, and the four fields added after
 * the first release are filled in when missing.
 */
module PlanMigration {
  import opened PlanTypes

  /** The return-rate default of the first release, and its replacement. */
  const OldDefaultReturn: real := 0.07
  const NewDefaultReturn: real := 0.10

  /**
   * A 7% return becomes 10% and any other rate is kept; a missing
   * post-retirement return, withdrawal rate, end target or Roth balance gets
   * 0.05, 0.04, 0 or 0, a present one (0 included) is kept; every other
   * field is copied.
   */
  function MigratePlan(p: RetirementPlan): (q: RetirementPlan)
    ensures p.expectedReturnRate == OldDefaultReturn ==> q.expectedReturnRate == NewDefaultReturn
    ensures p.expectedReturnRate != OldDefaultReturn ==> q.expectedReturnRate == p.expectedReturnRate
    ensures q.postRetirementReturnRate == Some(p.postRetirementReturnRate.GetOr(0.05))
    ensures q.withdrawalRate == Some(p.withdrawalRate.GetOr(0.04))
    ensures q.dieWithTarget == Some(p.dieWithTarget.GetOr(0.0))
    ensures q.currentSavingsRoth == Some(p.currentSavingsRoth.GetOr(0.0))
    ensures q.(expectedReturnRate := p.expectedReturnRate,
               postRetirementReturnRate := p.postRetirementReturnRate,
               withdrawalRate := p.withdrawalRate,
               dieWithTarget := p.dieWithTarget,
               currentSavingsRoth := p.currentSavingsRoth) == p
  {
    p.(
      expectedReturnRate := if p.expectedReturnRate == OldDefaultReturn then NewDefaultReturn else p.expectedReturnRate,
      postRetirementReturnRate := Some(p.postRetirementReturnRate.GetOr(0.05)),
      withdrawalRate := Some(p.withdrawalRate.GetOr(0.04)),
      dieWithTarget := Some(p.dieWithTarget.GetOr(0.0)),
      currentSavingsRoth := Some(p.currentSavingsRoth.GetOr(0.0))
    )
  }

  /** Migrating a migrated plan changes nothing. */
  lemma MigrateIdempotent(p: RetirementPlan)
    ensures MigratePlan(MigratePlan(p)) == MigratePlan(p)
  {
    var q := MigratePlan(p);
    assert q.expectedReturnRate != OldDefaultReturn;
  }

  /**
   * The filled-in defaults are the ones the engine assumes for a missing
   * field, so migration changes nothing the engine reads except the return
   * rate, and a plan the engine accepts stays acceptable.
   */
  lemma MigrationKeepsEngineDefaults(p: RetirementPlan)
    ensures var q := MigratePlan(p);
            && Swr(q) == Swr(p)
            && PostReturn(q) == PostReturn(p)
            && Filing(q) == Filing(p)
            && q.(expectedReturnRate := p.expectedReturnRate) == p.(postRetirementReturnRate := q.postRetirementReturnRate,
                                                                   withdrawalRate := q.withdrawalRate,
                                                                   dieWithTarget := q.dieWithTarget,
                                                                   currentSavingsRoth := q.currentSavingsRoth)
            && (ValidPlan(p) ==> ValidPlan(q))
  {
  }

  /** A plan that already has every field and a return rate other than 7% is left as it is. */
  lemma CompletePlanUnchanged(p: RetirementPlan)
    requires p.expectedReturnRate != OldDefaultReturn
    requires p.postRetirementReturnRate.Some? && p.withdrawalRate.Some?
    requires p.dieWithTarget.Some? && p.currentSavingsRoth.Some?
    ensures MigratePlan(p) == p
  {
  }
}
