/**
 * The two bounded bisection loops of the repository.
 *
 * `NetSearch` is the loop both tax modules use to invert "net = gross - tax":
 * tolerance 1, move the lower end up while the net falls short, the upper
 * end down otherwise. `BinarySearch` is the solver's loop: tolerance 100 and a
 * flag saying whether the objective grows or shrinks with the lever.
 *
 * Each loop is a recursion on the number of iterations left. Its result is an
 * `Outcome`: the first midpoint that landed within tolerance, or the final
 * interval once the iterations ran out (the loop then returns its midpoint).
 * `probes` counts how many times the objective was evaluated.
 */
module Bisection {
  import opened Numeric

  datatype Outcome =
    | Hit(value: real, probes: nat)
    | Exhausted(lo: real, hi: real, probes: nat)

  /** The number the loop returns: the hit, or the midpoint of the last interval. */
  function Answer(o: Outcome): real
  {
    match o
    case Hit(v, _) => v
    case Exhausted(l, h, _) => (l + h) / 2.0
  }

  /** Tolerance of the tax inversion, in dollars of net income. */
  const NetTolerance: real := 1.0

  /** Tolerance of the solver, in dollars of the objective. */
  const SolverTolerance: real := 100.0

  /**
   * Gross-for-net bisection on [lo, hi]: probe the midpoint, stop if its net is
   * within 1 of the target, otherwise keep the upper half when the net falls
   * short and the lower half when it does not.
   */
  function NetSearch(net: real -> real, target: real, lo: real, hi: real, fuel: nat): (o: Outcome)
    ensures o.probes <= fuel
    ensures o.Hit? ==> 1 <= o.probes && Abs(net(o.value) - target) < NetTolerance
    decreases fuel
  {
    if fuel == 0 then Exhausted(lo, hi, 0)
    else
      var mid := (lo + hi) / 2.0;
      var n := net(mid);
      if Abs(n - target) < NetTolerance then Hit(mid, 1)
      else
        var o := if n < target then NetSearch(net, target, mid, hi, fuel - 1)
                 else NetSearch(net, target, lo, mid, fuel - 1);
        o.(probes := o.probes + 1)
  }

  /** The half of [lo, hi] a missed probe keeps. */
  function NetHalf(net: real -> real, target: real, lo: real, hi: real): (real, real)
  {
    var mid := (lo + hi) / 2.0;
    if net(mid) < target then (mid, hi) else (lo, mid)
  }

  /** A missed probe continues on the kept half and counts one more probe. */
  lemma NetSearchStep(net: real -> real, target: real, lo: real, hi: real, fuel: nat)
    requires fuel > 0 && Abs(net((lo + hi) / 2.0) - target) >= NetTolerance
    ensures var h := NetHalf(net, target, lo, hi);
            var o' := NetSearch(net, target, h.0, h.1, fuel - 1);
            NetSearch(net, target, lo, hi, fuel) == o'.(probes := o'.probes + 1)
  {
  }

  /** The midpoint lies between the ends. */
  lemma MidBetween(lo: real, hi: real)
    ensures Between((lo + hi) / 2.0, lo, hi)
  {
  }

  /** Either half of [lo, hi] has the width one more halving gives. */
  lemma HalveStep(lo: real, hi: real, fuel: nat)
    requires fuel > 0
    ensures Halved(hi - (lo + hi) / 2.0, fuel - 1) == Halved(hi - lo, fuel)
    ensures Halved((lo + hi) / 2.0 - lo, fuel - 1) == Halved(hi - lo, fuel)
  {
    assert hi - (lo + hi) / 2.0 == (hi - lo) / 2.0;
    assert (lo + hi) / 2.0 - lo == (hi - lo) / 2.0;
  }

  /** A point between the ends of a sub-interval of [lo, hi] lies in [lo, hi]. */
  lemma BetweenTrans(x: real, a: real, b: real, lo: real, hi: real)
    requires Between(x, a, b) && Between(a, lo, hi) && Between(b, lo, hi)
    ensures Between(x, lo, hi)
  {
  }

  /**
   * The search never leaves the initial interval: the number returned, and on
   * exhaustion both ends of the final interval, lie between lo and hi;
   * exhaustion means every iteration was spent.
   */
  lemma {:induction false} NetSearchHull(net: real -> real, target: real, lo: real, hi: real, fuel: nat)
    ensures var o := NetSearch(net, target, lo, hi, fuel);
            && Between(Answer(o), lo, hi)
            && (o.Exhausted? ==> o.probes == fuel && Between(o.lo, lo, hi) && Between(o.hi, lo, hi))
    decreases fuel
  {
    var mid := (lo + hi) / 2.0;
    MidBetween(lo, hi);
    if fuel == 0 {
      assert NetSearch(net, target, lo, hi, fuel) == Exhausted(lo, hi, 0);
    } else if Abs(net(mid) - target) < NetTolerance {
      assert NetSearch(net, target, lo, hi, fuel) == Hit(mid, 1);
    } else {
      var h := NetHalf(net, target, lo, hi);
      assert Between(h.0, lo, hi) && Between(h.1, lo, hi);
      NetSearchStep(net, target, lo, hi, fuel);
      NetSearchHull(net, target, h.0, h.1, fuel - 1);
      OutcomeHull(NetSearch(net, target, lo, hi, fuel), NetSearch(net, target, h.0, h.1, fuel - 1), h.0, h.1, lo, hi, fuel);
    }
  }

  /** An outcome one probe on from an outcome inside [a, b] ⊆ [lo, hi] lies inside [lo, hi]. */
  lemma OutcomeHull(o: Outcome, o': Outcome, a: real, b: real, lo: real, hi: real, fuel: nat)
    requires fuel > 0 && o == o'.(probes := o'.probes + 1)
    requires Between(a, lo, hi) && Between(b, lo, hi)
    requires Between(Answer(o'), a, b)
    requires o'.Exhausted? ==> o'.probes == fuel - 1 && Between(o'.lo, a, b) && Between(o'.hi, a, b)
    ensures Between(Answer(o), lo, hi)
    ensures o.Exhausted? ==> o.probes == fuel && Between(o.lo, lo, hi) && Between(o.hi, lo, hi)
  {
    BetweenTrans(Answer(o'), a, b, lo, hi);
    if o'.Exhausted? {
      BetweenTrans(o'.lo, a, b, lo, hi);
      BetweenTrans(o'.hi, a, b, lo, hi);
    }
  }

  /** On exhaustion the final interval is the initial one halved `fuel` times. */
  lemma {:induction false} NetSearchWidth(net: real -> real, target: real, lo: real, hi: real, fuel: nat)
    ensures var o := NetSearch(net, target, lo, hi, fuel);
            o.Exhausted? ==> o.hi - o.lo == Halved(hi - lo, fuel)
    decreases fuel
  {
    var mid := (lo + hi) / 2.0;
    if fuel > 0 && Abs(net(mid) - target) >= NetTolerance {
      var h := NetHalf(net, target, lo, hi);
      NetSearchStep(net, target, lo, hi, fuel);
      NetSearchWidth(net, target, h.0, h.1, fuel - 1);
      HalveStep(lo, hi, fuel);
    }
  }

  /**
   * On exhaustion the lower end still has a net below the target and the upper
   * end a net at or above it (each unless it never moved).
   */
  lemma {:induction false} NetSearchBrackets(net: real -> real, target: real, lo: real, hi: real, fuel: nat)
    ensures var o := NetSearch(net, target, lo, hi, fuel);
            o.Exhausted? ==> (o.lo == lo || net(o.lo) < target) && (o.hi == hi || net(o.hi) >= target)
    decreases fuel
  {
    var mid := (lo + hi) / 2.0;
    if fuel > 0 && Abs(net(mid) - target) >= NetTolerance {
      if net(mid) < target {
        NetSearchBrackets(net, target, mid, hi, fuel - 1);
      } else {
        NetSearchBrackets(net, target, lo, mid, fuel - 1);
      }
    }
  }

  /** The net lands within the tolerance of the target, or within `width` of it. */
  predicate Settled(net: real, target: real, width: real)
  {
    Abs(net - target) < NetTolerance || Abs(net - target) <= width
  }

  /**
   * Round trip of the inversion. If net is non-decreasing on [lo, hi] and grows
   * no faster than its argument, and the target net lies between net(lo) and
   * net(hi), then the returned gross has a net within 1 of the target, or
   * within the width of the final interval, (hi - lo) / 2^fuel, of it.
   */
  lemma NetSearchRoundTrip(net: real -> real, target: real, lo: real, hi: real, fuel: nat)
    requires lo <= hi
    requires net(lo) <= target <= net(hi)
    requires forall a, b :: lo <= a <= b <= hi ==> net(a) <= net(b) <= net(a) + (b - a)
    ensures Settled(net(Answer(NetSearch(net, target, lo, hi, fuel))), target, Halved(hi - lo, fuel))
  {
    var o := NetSearch(net, target, lo, hi, fuel);
    NetSearchHull(net, target, lo, hi, fuel);
    NetSearchWidth(net, target, lo, hi, fuel);
    NetSearchBrackets(net, target, lo, hi, fuel);
    if o.Exhausted? {
      var l, h := o.lo, o.hi;
      var m := (l + h) / 2.0;
      assert lo <= l <= m <= h <= hi;
      assert net(l) <= target <= net(h);
      assert net(l) <= net(m) <= net(h);
      assert net(h) <= net(l) + (h - l);
    }
  }

  /** Every point of the interval spanned by lo and hi is in f's domain. */
  ghost predicate DefinedOn(f: real --> real, lo: real, hi: real)
  {
    forall v | Between(v, lo, hi) :: f.requires(v)
  }

  lemma DefinedOnSub(f: real --> real, a: real, b: real, lo: real, hi: real)
    requires DefinedOn(f, lo, hi) && Between(a, lo, hi) && Between(b, lo, hi)
    ensures DefinedOn(f, a, b)
  {
    forall v | Between(v, a, b)
      ensures f.requires(v)
    {
      BetweenTrans(v, a, b, lo, hi);
    }
  }

  /**
   * The solver's bisection on [lo, hi]: stops at the first midpoint whose
   * objective is within 100 of the target; otherwise an overshoot moves the
   * upper end down when the objective is declared increasing (the lower end
   * up when it is declared decreasing), and anything else moves the other end.
   */
  function BinarySearch(f: real --> real, target: real, lo: real, hi: real, increasing: bool, fuel: nat): (o: Outcome)
    requires DefinedOn(f, lo, hi)
    ensures o.probes <= fuel
    ensures o.Hit? ==> 1 <= o.probes && Between(o.value, lo, hi) && Abs(f(o.value) - target) < SolverTolerance
    decreases fuel
  {
    if fuel == 0 then Exhausted(lo, hi, 0)
    else
      var mid := (lo + hi) / 2.0;
      MidBetween(lo, hi);
      var result := f(mid);
      if Abs(result - target) < SolverTolerance then Hit(mid, 1)
      else
        var overshoot := result > target;
        var o := if (if increasing then overshoot else !overshoot)
                 then BinarySearch(f, target, lo, mid, increasing, fuel - 1)
                 else BinarySearch(f, target, mid, hi, increasing, fuel - 1);
        assert o.Hit? ==> Between(o.value, lo, hi) by {
          if o.Hit? {
            if (if increasing then overshoot else !overshoot) {
              BetweenTrans(o.value, lo, mid, lo, hi);
            } else {
              BetweenTrans(o.value, mid, hi, lo, hi);
            }
          }
        }
        o.(probes := o.probes + 1)
  }

  /**
   * The solver's search never leaves the initial interval: the number
   * returned, and on exhaustion both ends of the final interval, lie between
   * lo and hi, and exhaustion means every iteration was spent.
   */
  lemma {:induction false} BinarySearchHull(f: real --> real, target: real, lo: real, hi: real, increasing: bool, fuel: nat)
    requires DefinedOn(f, lo, hi)
    ensures var o := BinarySearch(f, target, lo, hi, increasing, fuel);
            && Between(Answer(o), lo, hi)
            && (o.Exhausted? ==> o.probes == fuel && Between(o.lo, lo, hi) && Between(o.hi, lo, hi))
    decreases fuel, 1
  {
    var mid := (lo + hi) / 2.0;
    MidBetween(lo, hi);
    if fuel > 0 {
      if Abs(f(mid) - target) >= SolverTolerance {
        if (if increasing then f(mid) > target else !(f(mid) > target)) {
          DefinedOnSub(f, lo, mid, lo, hi);
          BinarySearchHullStep(f, target, lo, hi, lo, mid, increasing, fuel);
        } else {
          DefinedOnSub(f, mid, hi, lo, hi);
          BinarySearchHullStep(f, target, lo, hi, mid, hi, increasing, fuel);
        }
      }
    }
  }

  /** One step of BinarySearchHull: the hull of the half [a, b] lies in the hull of [lo, hi]. */
  lemma {:induction false} BinarySearchHullStep(f: real --> real, target: real, lo: real, hi: real, a: real, b: real, increasing: bool, fuel: nat)
    requires fuel > 0 && DefinedOn(f, lo, hi) && Between(a, lo, hi) && Between(b, lo, hi)
    requires DefinedOn(f, a, b)
    requires var o := BinarySearch(f, target, lo, hi, increasing, fuel);
             var o' := BinarySearch(f, target, a, b, increasing, fuel - 1);
             o == o'.(probes := o'.probes + 1)
    ensures var o := BinarySearch(f, target, lo, hi, increasing, fuel);
            && Between(Answer(o), lo, hi)
            && (o.Exhausted? ==> o.probes == fuel && Between(o.lo, lo, hi) && Between(o.hi, lo, hi))
    decreases fuel, 0
  {
    var o' := BinarySearch(f, target, a, b, increasing, fuel - 1);
    BinarySearchHull(f, target, a, b, increasing, fuel - 1);
    BetweenTrans(Answer(o'), a, b, lo, hi);
    if o'.Exhausted? {
      BetweenTrans(o'.lo, a, b, lo, hi);
      BetweenTrans(o'.hi, a, b, lo, hi);
    }
  }

  /** On exhaustion the solver's final interval is the initial one halved `fuel` times. */
  lemma {:induction false} BinarySearchWidth(f: real --> real, target: real, lo: real, hi: real, increasing: bool, fuel: nat)
    requires DefinedOn(f, lo, hi)
    ensures var o := BinarySearch(f, target, lo, hi, increasing, fuel);
            o.Exhausted? ==> o.hi - o.lo == Halved(hi - lo, fuel)
    decreases fuel
  {
    var mid := (lo + hi) / 2.0;
    MidBetween(lo, hi);
    if fuel > 0 {
      HalveStep(lo, hi, fuel);
      if Abs(f(mid) - target) >= SolverTolerance {
        if (if increasing then f(mid) > target else !(f(mid) > target)) {
          BinarySearchWidth(f, target, lo, mid, increasing, fuel - 1);
        } else {
          BinarySearchWidth(f, target, mid, hi, increasing, fuel - 1);
        }
      }
    }
  }

  /**
   * Narrowing direction. On exhaustion, for an objective declared increasing
   * the final lower end undershoots and the upper end overshoots the target
   * (each unless it never moved); for one declared decreasing it is the
   * reverse.
   */
  lemma {:induction false} BinarySearchBrackets(f: real --> real, target: real, lo: real, hi: real, increasing: bool, fuel: nat)
    requires DefinedOn(f, lo, hi)
    ensures var o := BinarySearch(f, target, lo, hi, increasing, fuel);
            o.Exhausted? ==>
              && f.requires(o.lo) && f.requires(o.hi)
              && (increasing ==> (o.lo == lo || f(o.lo) < target) && (o.hi == hi || f(o.hi) > target))
              && (!increasing ==> (o.lo == lo || f(o.lo) > target) && (o.hi == hi || f(o.hi) < target))
    decreases fuel
  {
    BinarySearchHull(f, target, lo, hi, increasing, fuel);
    var mid := (lo + hi) / 2.0;
    MidBetween(lo, hi);
    if fuel > 0 {
      if Abs(f(mid) - target) >= SolverTolerance {
        if (if increasing then f(mid) > target else !(f(mid) > target)) {
          BinarySearchBrackets(f, target, lo, mid, increasing, fuel - 1);
        } else {
          BinarySearchBrackets(f, target, mid, hi, increasing, fuel - 1);
        }
      }
    }
  }
}
