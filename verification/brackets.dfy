/**
 * Progressive marginal-rate schedules, in the two shapes the repository uses.
 *
 * The backend tables list each bracket by its floor and ceiling and walk them
 * until the first floor at or above the taxable amount (`BracketTax`). The
 * frontend tables list only the ceilings and carry the previous ceiling along
 * as the floor (`LimitWalkTax`). `LimitWalkIsBracketSum` shows the second walk
 * is the first one applied to the floors it implies, so the monotonicity and
 * slope facts proved here serve both tax modules.
 */
module Brackets {
  import opened Numeric

  /** A bracket ceiling; `Infinity` in the source is `Unbounded`. */
  datatype Limit = Finite(value: real) | Unbounded

  /** `Math.min(x, limit)` */
  function Cap(limit: Limit, x: real): real
  {
    match limit
    case Finite(m) => Min(x, m)
    case Unbounded => x
  }

  datatype Bracket = Bracket(min: real, max: Limit, rate: real)

  /** The highest marginal rate of every schedule in the repository. */
  const TopRate: real := 0.37

  /** Tax on the slice of `taxable` between the bracket's floor and ceiling. */
  function Slice(b: Bracket, taxable: real): real
  {
    (Cap(b.max, taxable) - b.min) * b.rate
  }

  /**
   * Floor/ceiling walk: stop at the first bracket whose floor is at or above
   * the taxable amount, otherwise tax the slice between the floor and
   * min(taxable, ceiling) at the bracket's rate.
   */
  function BracketTax(table: seq<Bracket>, taxable: real): real
  {
    if |table| == 0 || taxable <= table[0].min then 0.0
    else Slice(table[0], taxable) + BracketTax(table[1..], taxable)
  }

  /**
   * A usable schedule: rates between 0 and the top rate, each ceiling at or
   * above its floor, and each floor equal to the previous ceiling.
   */
  predicate WellFormed(table: seq<Bracket>)
  {
    && (forall i | 0 <= i < |table| :: 0.0 <= table[i].rate <= TopRate)
    && (forall i | 0 <= i < |table| :: table[i].max.Finite? ==> table[i].min <= table[i].max.value)
    && (forall i | 0 <= i < |table| - 1 :: table[i].max == Finite(table[i + 1].min))
  }

  lemma WellFormedTail(table: seq<Bracket>)
    requires |table| > 0 && WellFormed(table)
    ensures WellFormed(table[1..])
  {
    var rest := table[1..];
    forall i | 0 <= i < |rest| - 1
      ensures rest[i].max == Finite(rest[i + 1].min)
    {
      assert rest[i] == table[i + 1] && rest[i + 1] == table[i + 2];
    }
  }

  /** Below the first floor nothing is owed; the tax only depends on the part above it. */
  lemma TaxFromFloor(table: seq<Bracket>, x: real)
    requires |table| > 0 && WellFormed(table)
    ensures BracketTax(table, x) == BracketTax(table, Max(x, table[0].min))
  {
  }

  /** From the first floor upwards the walk is the head slice plus the walk of the rest. */
  lemma HeadSplit(table: seq<Bracket>, x: real)
    requires |table| > 0 && WellFormed(table)
    requires x >= table[0].min
    ensures BracketTax(table, x) == Slice(table[0], x) + BracketTax(table[1..], x)
  {
    if x == table[0].min {
      var b := table[0];
      assert Cap(b.max, x) == x;
      assert Slice(b, x) == 0.0;
      if |table| > 1 {
        assert table[0].max == Finite(table[1].min);
        assert table[1..][0].min >= x;
      }
      assert BracketTax(table[1..], x) == 0.0;
    }
  }

  /** One slice grows by at most the top rate times the growth of its capped amount. */
  lemma SliceDiff(b: Bracket, x: real, y: real)
    requires 0.0 <= b.rate <= TopRate
    requires x <= y
    ensures 0.0 <= Slice(b, y) - Slice(b, x) <= TopRate * (Cap(b.max, y) - Cap(b.max, x))
  {
    var a := Cap(b.max, y) - Cap(b.max, x);
    SliceDiffExact(b, x, y);
    RateBound(b.rate, a);
  }

  lemma SliceDiffExact(b: Bracket, x: real, y: real)
    requires x <= y
    ensures Cap(b.max, x) <= Cap(b.max, y)
    ensures Slice(b, y) - Slice(b, x) == b.rate * (Cap(b.max, y) - Cap(b.max, x))
  {
  }

  lemma RateBound(rate: real, a: real)
    requires 0.0 <= rate <= TopRate && a >= 0.0
    ensures 0.0 <= rate * a <= TopRate * a
  {
    MulMonotone(rate, TopRate, a);
    MulMonotone(0.0, rate, a);
  }

  /**
   * The schedule is monotone with slope at most the top rate: raising the
   * taxable amount by d raises the tax by between 0 and 0.37 * d.
   */
  lemma {:induction false} TaxSlope(table: seq<Bracket>, x: real, y: real)
    requires WellFormed(table)
    requires x <= y
    ensures 0.0 <= BracketTax(table, y) - BracketTax(table, x) <= TopRate * (y - x)
  {
    if |table| == 0 || y <= table[0].min {
      assert BracketTax(table, y) == 0.0 && BracketTax(table, x) == 0.0;
    } else {
      var b := table[0];
      var rest := table[1..];
      WellFormedTail(table);
      var x' := Max(x, b.min);
      TaxFromFloor(table, x);
      HeadSplit(table, x');
      HeadSplit(table, y);
      SliceDiff(b, x', y);
      if |rest| > 0 {
        var m' := rest[0].min;
        assert b.max == Finite(m');
        TaxFromFloor(rest, x');
        TaxFromFloor(rest, y);
        TaxSlope(rest, Max(x', m'), Max(y, m'));
      }
    }
  }

  lemma TaxNonNegative(table: seq<Bracket>, x: real)
    requires WellFormed(table)
    ensures BracketTax(table, x) >= 0.0
  {
    if |table| > 0 && x > table[0].min {
      TaxSlope(table, table[0].min, x);
    }
  }

  /** Tax never exceeds the top rate applied to everything above the first floor. */
  lemma TaxAtMostTopRate(table: seq<Bracket>, x: real)
    requires WellFormed(table)
    requires |table| > 0 && x >= table[0].min
    ensures BracketTax(table, x) <= TopRate * (x - table[0].min)
  {
    TaxSlope(table, table[0].min, x);
  }

  /** A frontend tier: only the ceiling and the rate. */
  datatype Tier = Tier(limit: Limit, rate: real)

  /**
   * Ceiling walk with a running previous ceiling: stop once the taxable amount
   * is at or below `prev`, otherwise tax min(taxable, limit) - prev at the
   * tier's rate and make this tier's limit the new `prev`. After an unbounded
   * tier `prev` is infinite, so the walk ends there.
   */
  function LimitWalkTax(tiers: seq<Tier>, taxable: real, prev: real): real
  {
    if |tiers| == 0 || taxable <= prev then 0.0
    else
      (Cap(tiers[0].limit, taxable) - prev) * tiers[0].rate +
      (match tiers[0].limit
       case Unbounded => 0.0
       case Finite(l) => LimitWalkTax(tiers[1..], taxable, l))
  }

  /** The floor/ceiling table implied by a list of ceilings starting at `prev`. */
  function ToBrackets(tiers: seq<Tier>, prev: real): (table: seq<Bracket>)
    ensures |table| <= |tiers|
    ensures |tiers| > 0 ==> |table| > 0 && table[0] == Bracket(prev, tiers[0].limit, tiers[0].rate)
  {
    if |tiers| == 0 then []
    else
      [Bracket(prev, tiers[0].limit, tiers[0].rate)] +
      (match tiers[0].limit
       case Unbounded => []
       case Finite(l) => ToBrackets(tiers[1..], l))
  }

  /** The frontend's ceiling walk computes the same tax as the backend's floor/ceiling walk. */
  lemma {:induction false} LimitWalkIsBracketSum(tiers: seq<Tier>, x: real, prev: real)
    ensures LimitWalkTax(tiers, x, prev) == BracketTax(ToBrackets(tiers, prev), x)
  {
    if |tiers| > 0 && x > prev {
      var t := ToBrackets(tiers, prev);
      match tiers[0].limit
      case Unbounded =>
        assert t == [Bracket(prev, tiers[0].limit, tiers[0].rate)];
        assert t[1..] == [];
      case Finite(l) =>
        assert t[1..] == ToBrackets(tiers[1..], l);
        LimitWalkIsBracketSum(tiers[1..], x, l);
    }
  }
}
