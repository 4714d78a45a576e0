/**
 * Milestones: the checkpoint ages 35, 40, 45, 50 and the retirement age, kept
 * in that order when they are not already behind the saver, each paired with
 * the first projection row of that age.
 */
module Milestones {
  import opened PlanTypes

  /** The checkpoint ages in the order they are listed. */
  function Checkpoints(retirementAge: int): seq<int>
  {
    [35, 40, 45, 50, retirementAge]
  }

  /** `ages.filter(a => a >= currentAge)` */
  function AtLeast(ages: seq<int>, currentAge: int): (kept: seq<int>)
    ensures |kept| <= |ages|
    ensures forall a :: multiset(kept)[a] == if a >= currentAge then multiset(ages)[a] else 0
  {
    if |ages| == 0 then []
    else
      assert ages == [ages[0]] + ages[1..];
      (if ages[0] >= currentAge then [ages[0]] else []) + AtLeast(ages[1..], currentAge)
  }

  /** Filtering a concatenation filters each part and keeps the parts in order. */
  lemma {:induction false} AtLeastAppend(s: seq<int>, t: seq<int>, currentAge: int)
    ensures AtLeast(s + t, currentAge) == AtLeast(s, currentAge) + AtLeast(t, currentAge)
  {
    if |s| > 0 {
      assert (s + t)[1..] == s[1..] + t;
      AtLeastAppend(s[1..], t, currentAge);
    } else {
      assert s + t == t;
    }
  }

  /** `projections.findIndex(p => p.age === age)`, as an index when found. */
  function FirstWithAge(rows: seq<YearlyProjection>, age: int): (r: Option<nat>)
    ensures r.Some? ==> r.value < |rows| && rows[r.value].age == age
    ensures r.Some? ==> forall j | 0 <= j < r.value :: rows[j].age != age
    ensures r.None? ==> forall j | 0 <= j < |rows| :: rows[j].age != age
  {
    if |rows| == 0 then None
    else if rows[0].age == age then Some(0)
    else
      match FirstWithAge(rows[1..], age)
      case None => None
      case Some(k) => Some(k + 1)
  }

  /**
   * The milestone of one age: the target and balance of the first row of
   * that age (0 and 0 when there is none), reached when the balance is at
   * least the target.
   */
  function MilestoneAt(rows: seq<YearlyProjection>, age: int): (m: Milestone)
    ensures m.age == age
    ensures m.reached <==> m.projectedBalance >= m.targetBalance
  {
    match FirstWithAge(rows, age)
    case None => Milestone(age, 0, 0, 0 >= 0)
    case Some(k) => Milestone(age, rows[k].onTrackTarget, rows[k].balance, rows[k].balance >= rows[k].onTrackTarget)
  }

  /** buildMilestones without the labels. */
  function BuildMilestones(p: RetirementPlan, rows: seq<YearlyProjection>): (ms: seq<Milestone>)
    ensures |ms| == |AtLeast(Checkpoints(p.retirementAge), p.currentAge)|
    ensures forall k | 0 <= k < |ms| :: ms[k] == MilestoneAt(rows, AtLeast(Checkpoints(p.retirementAge), p.currentAge)[k])
  {
    var ages := AtLeast(Checkpoints(p.retirementAge), p.currentAge);
    seq(|ages|, k requires 0 <= k < |ages| => MilestoneAt(rows, ages[k]))
  }

  /** Every milestone's age is a checkpoint at or after the current age. */
  lemma MilestoneAges(p: RetirementPlan, rows: seq<YearlyProjection>)
    ensures var ms := BuildMilestones(p, rows);
      forall k | 0 <= k < |ms| :: ms[k].age >= p.currentAge && ms[k].age in Checkpoints(p.retirementAge)
  {
    var ages := AtLeast(Checkpoints(p.retirementAge), p.currentAge);
    forall k | 0 <= k < |ages|
      ensures ages[k] >= p.currentAge && ages[k] in Checkpoints(p.retirementAge)
    {
      assert multiset(ages)[ages[k]] > 0;
    }
  }

  /** Retiring at 50 with the whole list ahead keeps 50 twice: there is no de-duplication. */
  lemma RetiringAtFiftyKeepsBoth(p: RetirementPlan)
    requires p.currentAge <= 35 && p.retirementAge == 50
    ensures AtLeast(Checkpoints(p.retirementAge), p.currentAge) == [35, 40, 45, 50, 50]
  {
    var a := p.currentAge;
    assert AtLeast([50], a) == [50] + AtLeast([], a);
    assert AtLeast([50, 50], a) == [50] + AtLeast([50], a);
    assert AtLeast([45, 50, 50], a) == [45] + AtLeast([50, 50], a);
    assert AtLeast([40, 45, 50, 50], a) == [40] + AtLeast([45, 50, 50], a);
    assert AtLeast([35, 40, 45, 50, 50], a) == [35] + AtLeast([40, 45, 50, 50], a);
  }

  /** A saver of 42 retiring at 65 keeps 45, 50 and 65. */
  lemma FromFortyTwo(p: RetirementPlan)
    requires p.currentAge == 42 && p.retirementAge == 65
    ensures AtLeast(Checkpoints(p.retirementAge), p.currentAge) == [45, 50, 65]
  {
  }

  /**
   * With one row per age from `first` on, the first row of an age inside the
   * covered range is the one at offset age - first, and ages outside it have
   * no row.
   */
  lemma {:induction false} FirstWithConsecutiveAges(rows: seq<YearlyProjection>, first: int, age: int)
    requires forall k | 0 <= k < |rows| :: rows[k].age == first + k
    ensures first <= age < first + |rows| ==> FirstWithAge(rows, age) == Some(age - first)
    ensures !(first <= age < first + |rows|) ==> FirstWithAge(rows, age) == None
  {
    if first <= age < first + |rows| {
      assert rows[age - first].age == age;
    }
  }
}
