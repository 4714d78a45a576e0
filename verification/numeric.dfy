/**
 * Exact arithmetic helpers shared by every module of the model.
 *
 * Money and rates are `real` (exact rationals), so the only operations that
 * need an explicit definition are JavaScript's `Math.pow` with a whole-year
 * exponent, `Math.round`, `Math.min`/`Math.max` and `Math.abs`.
 */
module Numeric {

  /** `Math.pow(x, n)` for a whole number of years `n`. */
  function Pow(x: real, n: nat): real
  {
    if n == 0 then 1.0 else x * Pow(x, n - 1)
  }

  /** d halved n times. */
  function Halved(d: real, n: nat): real
    decreases n
  {
    if n == 0 then d else Halved(d / 2.0, n - 1)
  }

  /** `Math.round`: halves round towards +infinity, i.e. floor(x + 1/2). */
  function Round(x: real): (r: int)
    ensures x - 0.5 < r as real <= x + 0.5
  {
    (x + 0.5).Floor
  }

  /** x percent as a fraction. */
  function Percent(x: real): real { x / 100.0 }

  function Min(a: real, b: real): real { if a <= b then a else b }

  function Max(a: real, b: real): real { if a >= b then a else b }

  function Abs(a: real): real { if a < 0.0 then -a else a }

  /** x lies in the closed interval spanned by a and b, in either order. */
  predicate Between(x: real, a: real, b: real)
  {
    a <= x <= b || b <= x <= a
  }

  lemma RoundMonotone(x: real, y: real)
    requires x <= y
    ensures Round(x) <= Round(y)
  {
  }

  /** Rounding a whole number gives it back. */
  lemma RoundOfInt(n: int)
    ensures Round(n as real) == n
  {
  }

  lemma RoundNonNegative(x: real)
    requires x >= 0.0
    ensures Round(x) >= 0
  {
  }

  lemma {:induction false} PowPositive(x: real, n: nat)
    requires x > 0.0
    ensures Pow(x, n) > 0.0
  {
    if n > 0 {
      PowPositive(x, n - 1);
      MulPositive(x, Pow(x, n - 1));
    }
  }

  lemma {:induction false} PowAtLeastOne(x: real, n: nat)
    requires x >= 1.0
    ensures Pow(x, n) >= 1.0
  {
    if n > 0 {
      PowAtLeastOne(x, n - 1);
      MulMonotone(1.0, x, Pow(x, n - 1));
    }
  }

  lemma {:induction false} PowAdd(x: real, a: nat, b: nat)
    ensures Pow(x, a + b) == Pow(x, a) * Pow(x, b)
  {
    if a > 0 {
      PowAdd(x, a - 1, b);
      assert Pow(x, a + b) == x * Pow(x, a - 1 + b);
    }
  }

  lemma {:induction false} PowMul(x: real, a: nat, b: nat)
    ensures Pow(x, a * b) == Pow(Pow(x, a), b)
  {
    if b > 0 {
      PowMul(x, a, b - 1);
      PowAdd(x, a, a * (b - 1));
      assert a * b == a + a * (b - 1);
    }
  }

  /** Raising to a power preserves order between non-negative bases. */
  lemma {:induction false} PowBaseMonotone(x: real, y: real, n: nat)
    requires 0.0 <= x <= y
    ensures 0.0 <= Pow(x, n) <= Pow(y, n)
  {
    if n > 0 {
      PowBaseMonotone(x, y, n - 1);
      MulMonotone(x, y, Pow(x, n - 1));
      MulMonotone(Pow(x, n - 1), Pow(y, n - 1), y);
    }
  }

  /** A base of at least 1 raised to more years gives at least as much. */
  lemma {:induction false} PowExponentMonotone(x: real, i: nat, j: nat)
    requires x >= 1.0 && i <= j
    ensures 1.0 <= Pow(x, i) <= Pow(x, j)
  {
    if j > i {
      PowExponentMonotone(x, i, j - 1);
      MulMonotone(1.0, x, Pow(x, j - 1));
    } else {
      PowAtLeastOne(x, i);
    }
  }

  lemma ScaleMonotone(c: real, a: real, b: real)
    requires c >= 0.0 && a <= b
    ensures c * a <= c * b
  {
  }

  /** Dividing by a positive number keeps the order. */
  lemma DivideMonotone(a: real, b: real, d: real)
    requires a <= b && d > 0.0
    ensures a / d <= b / d
  {
  }

  /** Dividing by a positive number and rounding keeps the order of three values. */
  lemma RoundedQuotientBetween(lo: real, x: real, hi: real, d: real)
    requires lo <= x <= hi && d > 0.0
    ensures Round(lo / d) <= Round(x / d) <= Round(hi / d)
  {
    DivideMonotone(lo, x, d);
    DivideMonotone(x, hi, d);
    RoundMonotone(lo / d, x / d);
    RoundMonotone(x / d, hi / d);
  }

  lemma MulPositive(a: real, b: real)
    requires a > 0.0 && b > 0.0
    ensures a * b > 0.0
  {
  }

  /** Multiplication distributes over a difference. */
  lemma Distribute(t: real, x: real, y: real)
    ensures t * x - t * y == t * (x - y)
  {
  }

  lemma MulMonotone(a: real, b: real, c: real)
    requires a <= b && c >= 0.0
    ensures a * c <= b * c
  {
  }

  lemma MulStrictMonotone(a: real, b: real, c: real)
    requires a < b && c > 0.0
    ensures a * c < b * c
  {
  }

  lemma {:induction false} HalvedMonotone(d: real, e: real, n: nat)
    requires d <= e
    ensures Halved(d, n) <= Halved(e, n)
    decreases n
  {
    if n > 0 {
      HalvedMonotone(d / 2.0, e / 2.0, n - 1);
    }
  }

  lemma {:induction false} HalvedShrinks(d: real, n: nat)
    requires d >= 0.0
    ensures 0.0 <= Halved(d, n) <= d
    decreases n
  {
    if n > 0 {
      HalvedShrinks(d / 2.0, n - 1);
    }
  }

  lemma {:induction false} HalvedAdd(d: real, a: nat, b: nat)
    ensures Halved(d, a + b) == Halved(Halved(d, a), b)
    decreases a
  {
    if a > 0 {
      HalvedAdd(d / 2.0, a - 1, b);
    }
  }

  /** Ten halvings divide by 1024, so by more than 1000. */
  lemma HalvedTen(d: real)
    requires d >= 0.0
    ensures Halved(d, 10) <= d / 1000.0
  {
    calc {
      Halved(d, 10);
      Halved(d / 2.0, 9);
      Halved(d / 4.0, 8);
      Halved(d / 8.0, 7);
      Halved(d / 16.0, 6);
      Halved(d / 32.0, 5);
      Halved(d / 64.0, 4);
      Halved(d / 128.0, 3);
      Halved(d / 256.0, 2);
      Halved(d / 512.0, 1);
      d / 1024.0;
    }
  }

  /** Fifty halvings bring any amount up to 10^12 below one. */
  lemma HalvedFiftyBelowOne(d: real)
    requires 0.0 <= d <= 1_000_000_000_000.0
    ensures Halved(d, 50) < 1.0
  {
    var h10 := Halved(d, 10);
    HalvedTen(d);
    HalvedShrinks(d, 10);
    var h20 := Halved(h10, 10);
    HalvedTen(h10);
    HalvedShrinks(h10, 10);
    var h30 := Halved(h20, 10);
    HalvedTen(h20);
    HalvedShrinks(h20, 10);
    var h40 := Halved(h30, 10);
    HalvedTen(h30);
    HalvedShrinks(h30, 10);
    HalvedTen(h40);
    HalvedAdd(d, 10, 10);
    HalvedAdd(d, 20, 10);
    HalvedAdd(d, 30, 10);
    HalvedAdd(d, 40, 10);
  }

  /** More halvings never make a non-negative amount larger. */
  lemma HalvedMore(d: real, n: nat, m: nat)
    requires d >= 0.0 && n <= m
    ensures Halved(d, m) <= Halved(d, n)
  {
    HalvedAdd(d, n, m - n);
    HalvedShrinks(d, n);
    HalvedShrinks(Halved(d, n), m - n);
  }

  /**
   * Value after n years of a payment of 1 at the end of each year, growing at
   * rate r: no payments are worth 0, and each year grows the total by 1 + r
   * before adding the new payment.
   */
  function AnnuitySum(r: real, n: nat): real
  {
    if n == 0 then 0.0 else AnnuitySum(r, n - 1) * (1.0 + r) + 1.0
  }

  /**
   * The closed form used for the glide path: the year count at a zero rate,
   * otherwise ((1 + r)^n - 1) / r.
   */
  function AnnuityFactor(r: real, n: nat): real
  {
    if r == 0.0 then n as real else (Pow(1.0 + r, n) - 1.0) / r
  }

  /** The closed form sums the payments exactly, including at a zero rate. */
  lemma {:induction false} AnnuityFactorIsSum(r: real, n: nat)
    ensures AnnuityFactor(r, n) == AnnuitySum(r, n)
  {
    if n > 0 {
      AnnuityFactorIsSum(r, n - 1);
      AnnuityFactorStep(r, n - 1);
    }
  }

  lemma AnnuityFactorStep(r: real, n: nat)
    ensures AnnuityFactor(r, n + 1) == AnnuityFactor(r, n) * (1.0 + r) + 1.0
  {
    if r != 0.0 {
      var g := 1.0 + r;
      var q := Pow(g, n);
      assert Pow(g, n + 1) == g * q;
      var a := (q - 1.0) / r;
      assert a * r == q - 1.0;
      assert (a * g + 1.0) * r == a * r * g + r;
      assert (a * g + 1.0) * r == g * q - 1.0;
      DivideBack(a * g + 1.0, g * q - 1.0, r);
    }
  }

  lemma DivideBack(x: real, y: real, d: real)
    requires d != 0.0 && x * d == y
    ensures x == y / d
  {
  }

  /** Adding a year also adds that year's compounded first payment. */
  lemma {:induction false} AnnuitySumTail(r: real, n: nat)
    ensures AnnuitySum(r, n + 1) == AnnuitySum(r, n) + Pow(1.0 + r, n)
  {
    if n > 0 {
      AnnuitySumTail(r, n - 1);
      var g := 1.0 + r;
      var a, q := AnnuitySum(r, n - 1), Pow(g, n - 1);
      assert (a + q) * g == a * g + q * g;
    }
  }

  /** With growth above -100% the sum of at least one payment is at least 1. */
  lemma {:induction false} AnnuitySumAtLeastOne(r: real, n: nat)
    requires r > -1.0 && n >= 1
    ensures AnnuitySum(r, n) >= 1.0
  {
    if n > 1 {
      AnnuitySumAtLeastOne(r, n - 1);
      MulPositive(AnnuitySum(r, n - 1), 1.0 + r);
    }
  }
}
