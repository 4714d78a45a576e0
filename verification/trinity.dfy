/**
 * Trinity-study success rates: the chance, in percent, that a portfolio
 * survives a number of retirement years at a given withdrawal rate, read off
 * two historical tables (75/25 and 50/50 stock/bond splits) by linear
 * interpolation between the tabulated withdrawal rates, and blended by the
 * Roth share (all Roth reads the aggressive table, all traditional the
 * moderate one).
 */
module Trinity {
  import opened Numeric
  import opened PlanTypes

  /** One table row: a withdrawal rate and the success percentages for 15, 20, 25, 30, 35 and 40 years. */
  datatype Row = Row(rate: real, success: seq<int>)

  /** `row[c]`: the entry of column c, numbered 1 to 6 as in the tables. */
  function Cell(row: Row, c: int): int
    requires 1 <= c <= |row.success|
  {
    row.success[c - 1]
  }

  /** 75% stocks / 25% bonds. */
  const Aggressive: seq<Row> := [
    Row(0.03, [100, 100, 100, 100,  98,  95]),
    Row(0.04, [100, 100,  98,  95,  90,  85]),
    Row(0.05, [100,  98,  90,  83,  73,  63]),
    Row(0.06, [100,  90,  78,  68,  57,  46]),
    Row(0.07, [ 98,  80,  63,  52,  42,  32]),
    Row(0.08, [ 90,  65,  50,  38,  29,  22]),
    Row(0.09, [ 80,  52,  38,  27,  20,  15]),
    Row(0.10, [ 68,  40,  27,  18,  13,  10])
  ]

  /** 50% stocks / 50% bonds. */
  const Moderate: seq<Row> := [
    Row(0.03, [100, 100, 100,  99,  95,  90]),
    Row(0.04, [100,  99,  93,  87,  80,  72]),
    Row(0.05, [100,  90,  78,  66,  55,  45]),
    Row(0.06, [ 98,  78,  60,  47,  37,  28]),
    Row(0.07, [ 88,  62,  43,  32,  23,  17]),
    Row(0.08, [ 72,  46,  30,  21,  14,  10]),
    Row(0.09, [ 58,  33,  20,  13,   8,   5]),
    Row(0.10, [ 44,  23,  13,   8,   5,   3])
  ]

  /** The aggressive table, with the shape the interpolation relies on. */
  function AggressiveTable(): (t: seq<Row>)
    ensures Usable(t)
  {
    AggressiveUsable();
    Aggressive
  }

  /** The moderate table, with the shape the interpolation relies on. */
  function ModerateTable(): (t: seq<Row>)
    ensures Usable(t)
  {
    ModerateUsable();
    Moderate
  }

  const MinRate: real := 0.03
  const MaxRate: real := 0.10

  /** Six percentages in [0, 100] that never rise with the number of years. */
  predicate RowOk(row: Row)
  {
    var s := row.success;
    && |s| == 6
    && 0 <= s[5] && s[5] <= s[4] && s[4] <= s[3] && s[3] <= s[2] && s[2] <= s[1] && s[1] <= s[0] && s[0] <= 100
  }

  /** The next row has a higher rate and no higher percentage in any column. */
  predicate Step(upper: Row, lower: Row)
    requires RowOk(upper) && RowOk(lower)
  {
    var u, l := upper.success, lower.success;
    && upper.rate < lower.rate
    && l[0] <= u[0] && l[1] <= u[1] && l[2] <= u[2] && l[3] <= u[3] && l[4] <= u[4] && l[5] <= u[5]
  }

  /**
   * What both tables satisfy: at least two well-formed rows, rates strictly
   * increasing from 0.03 to 0.10, and percentages that never rise down a
   * column (a higher rate) or along a row (more years).
   */
  predicate Usable(table: seq<Row>)
  {
    && |table| >= 2
    && (forall i | 0 <= i < |table| :: RowOk(table[i]))
    && table[0].rate == MinRate && table[|table| - 1].rate == MaxRate
    && (forall i | 0 <= i < |table| - 1 :: Step(table[i], table[i + 1]))
  }

  lemma AggressiveUsable()
    ensures Usable(Aggressive)
  {
    var t := Aggressive;
    AggressiveRowsOk();
    assert Step(t[0], t[1]) && Step(t[1], t[2]) && Step(t[2], t[3]) && Step(t[3], t[4]);
    assert Step(t[4], t[5]) && Step(t[5], t[6]) && Step(t[6], t[7]);
  }

  lemma AggressiveRowsOk()
    ensures |Aggressive| == 8 && forall i | 0 <= i < 8 :: RowOk(Aggressive[i])
  {
    var t := Aggressive;
    assert RowOk(t[0]) && RowOk(t[1]) && RowOk(t[2]) && RowOk(t[3]);
    assert RowOk(t[4]) && RowOk(t[5]) && RowOk(t[6]) && RowOk(t[7]);
  }

  lemma ModerateUsable()
    ensures Usable(Moderate)
  {
    var t := Moderate;
    ModerateRowsOk();
    assert Step(t[0], t[1]) && Step(t[1], t[2]) && Step(t[2], t[3]) && Step(t[3], t[4]);
    assert Step(t[4], t[5]) && Step(t[5], t[6]) && Step(t[6], t[7]);
  }

  lemma ModerateRowsOk()
    ensures |Moderate| == 8 && forall i | 0 <= i < 8 :: RowOk(Moderate[i])
  {
    var t := Moderate;
    assert RowOk(t[0]) && RowOk(t[1]) && RowOk(t[2]) && RowOk(t[3]);
    assert RowOk(t[4]) && RowOk(t[5]) && RowOk(t[6]) && RowOk(t[7]);
  }

  /** The column for a number of retirement years: 15 or fewer is column 1, over 35 is column 6. */
  function ColumnIndex(years: int): (c: int)
    ensures 1 <= c <= 6
    ensures c < 6 ==> years <= 10 + 5 * c
    ensures c > 1 ==> years > 10 + 5 * (c - 1)
  {
    if years <= 15 then 1
    else if years <= 20 then 2
    else if years <= 25 then 3
    else if years <= 30 then 4
    else if years <= 35 then 5
    else 6
  }

  /** `Math.max(0.03, Math.min(0.10, rate))` */
  function Clamp(rate: real): (r: real)
    ensures MinRate <= r <= MaxRate
    ensures MinRate <= rate <= MaxRate ==> r == rate
    ensures rate < MinRate ==> r == MinRate
    ensures rate > MaxRate ==> r == MaxRate
  {
    Max(MinRate, Min(MaxRate, rate))
  }

  /** Rows i and i + 1 bracket the rate. */
  predicate Brackets(table: seq<Row>, r: real, i: int)
    requires 0 <= i < |table| - 1
  {
    table[i].rate <= r <= table[i + 1].rate
  }

  /** The first row index from `from` on whose row and the next bracket the rate. */
  function FindPair(table: seq<Row>, r: real, from: nat): (k: Option<nat>)
    ensures k.Some? ==> from <= k.value < |table| - 1 && Brackets(table, r, k.value)
    ensures k.Some? ==> forall j | from <= j < k.value :: !Brackets(table, r, j)
    ensures k.None? ==> forall j | from <= j < |table| - 1 :: !Brackets(table, r, j)
    decreases |table| - from
  {
    if from >= |table| - 1 then None
    else if Brackets(table, r, from) then Some(from)
    else FindPair(table, r, from + 1)
  }

  /** a + t * (b - a) */
  function Lerp(a: real, b: real, t: real): real
  {
    a + t * (b - a)
  }

  /** How far r lies from row i's rate towards row i + 1's, as a fraction. */
  function Fraction(table: seq<Row>, r: real, i: nat): real
    requires i < |table| - 1 && table[i].rate < table[i + 1].rate
  {
    (r - table[i].rate) / (table[i + 1].rate - table[i].rate)
  }

  /** The interpolated entry of column c between rows i and i + 1, unrounded. */
  function Between2(table: seq<Row>, r: real, i: nat, c: int): real
    requires Usable(table) && i < |table| - 1 && 1 <= c <= 6
  {
    Lerp(Cell(table[i], c) as real, Cell(table[i + 1], c) as real, Fraction(table, r, i))
  }

  /**
   * interpolateRate: clamp the rate to [0.03, 0.10], find the first pair of
   * neighbouring rows that brackets it and interpolate the year column
   * linearly between them, rounded; without such a pair, 100 at or below
   * 0.03 and the last row's entry otherwise.
   */
  function InterpolateRate(table: seq<Row>, rate: real, years: int): int
    requires Usable(table)
  {
    var c := ColumnIndex(years);
    var r := Clamp(rate);
    match FindPair(table, r, 0)
    case Some(i) => Round(Between2(table, r, i, c))
    case None => if r <= MinRate then 100 else Cell(table[|table| - 1], c)
  }

  /** Rates only grow down the table. */
  lemma {:induction false} RatesSorted(table: seq<Row>, i: nat, j: nat)
    requires Usable(table) && i <= j < |table|
    ensures table[i].rate <= table[j].rate
    ensures i < j ==> table[i].rate < table[j].rate
    decreases j - i
  {
    if i < j {
      RatesSorted(table, i + 1, j);
    }
  }

  /** Entries never rise down a column. */
  lemma {:induction false} ColumnFalls(table: seq<Row>, i: nat, j: nat, c: int)
    requires Usable(table) && i <= j < |table| && 1 <= c <= 6
    ensures Cell(table[j], c) <= Cell(table[i], c)
    decreases j - i
  {
    if i < j {
      ColumnFalls(table, i + 1, j, c);
      assert Step(table[i], table[i + 1]);
    }
  }

  /** Entries never rise along a row. */
  lemma {:induction false} RowFalls(table: seq<Row>, i: nat, c: int, d: int)
    requires Usable(table) && i < |table| && 1 <= c <= d <= 6
    ensures Cell(table[i], d) <= Cell(table[i], c)
    decreases d - c
  {
    if c < d {
      RowFalls(table, i, c + 1, d);
      assert RowOk(table[i]);
    }
  }

  /** From a row at or below the rate, a bracketing pair is found when the last rate is at or above it. */
  lemma {:induction false} PairFoundFrom(table: seq<Row>, r: real, from: nat)
    requires Usable(table) && from < |table| - 1
    requires table[from].rate <= r <= table[|table| - 1].rate
    ensures FindPair(table, r, from).Some?
    decreases |table| - from
  {
    if !Brackets(table, r, from) {
      PairFoundFrom(table, r, from + 1);
    }
  }

  /** Every clamped rate lies between two neighbouring rows, so the fallback return is never taken. */
  lemma PairAlwaysFound(table: seq<Row>, rate: real)
    requires Usable(table)
    ensures FindPair(table, Clamp(rate), 0).Some?
  {
    PairFoundFrom(table, Clamp(rate), 0);
  }

  /** The fraction lies in [0, 1] and grows with the rate. */
  lemma FractionRange(table: seq<Row>, r: real, s: real, i: nat)
    requires i < |table| - 1 && table[i].rate < table[i + 1].rate
    requires table[i].rate <= r <= s <= table[i + 1].rate
    ensures 0.0 <= Fraction(table, r, i) <= Fraction(table, s, i) <= 1.0
  {
    var lo, w := table[i].rate, table[i + 1].rate - table[i].rate;
    DivideMonotone(0.0, r - lo, w);
    DivideMonotone(r - lo, s - lo, w);
    DivideMonotone(s - lo, w, w);
    assert w / w == 1.0;
  }

  /** For t in [0, 1] the interpolation lies between its ends. */
  lemma LerpBetween(a: real, b: real, t: real)
    requires 0.0 <= t <= 1.0
    ensures Between(Lerp(a, b, t), a, b)
  {
    var d := b - a;
    var m := t * d;
    assert Lerp(a, b, t) == a + m;
    if a <= b {
      MulMonotone(0.0, t, d);
      MulMonotone(t, 1.0, d);
      assert 0.0 <= m <= d;
    } else {
      MulMonotone(t, 1.0, -d);
      assert t * -d == -m;
      assert d <= m <= 0.0;
    }
  }

  /** A rounded value between two whole numbers stays between them. */
  lemma RoundBetween(x: real, a: int, b: int)
    requires Between(x, a as real, b as real)
    ensures a <= Round(x) <= b || b <= Round(x) <= a
  {
    RoundOfInt(a);
    RoundOfInt(b);
    if a <= b {
      RoundMonotone(a as real, x);
      RoundMonotone(x, b as real);
    } else {
      RoundMonotone(b as real, x);
      RoundMonotone(x, a as real);
    }
  }

  /**
   * The rate read off a table lies between the two neighbouring entries of
   * the bracketing pair, and so within [0, 100].
   */
  lemma InterpolateBetween(table: seq<Row>, rate: real, years: int)
    requires Usable(table)
    ensures FindPair(table, Clamp(rate), 0).Some?
    ensures var i, c := FindPair(table, Clamp(rate), 0).value, ColumnIndex(years);
      var v := InterpolateRate(table, rate, years);
      && Cell(table[i + 1], c) <= v <= Cell(table[i], c)
      && 0 <= v <= 100
  {
    PairAlwaysFound(table, rate);
    var r, c := Clamp(rate), ColumnIndex(years);
    var i := FindPair(table, r, 0).value;
    FractionRange(table, r, r, i);
    LerpBetween(Cell(table[i], c) as real, Cell(table[i + 1], c) as real, Fraction(table, r, i));
    RoundBetween(Between2(table, r, i, c), Cell(table[i], c), Cell(table[i + 1], c));
    ColumnFalls(table, i, i + 1, c);
  }

  /** At a tabulated rate the result is that row's entry: aggressive, 4%, 30 years gives 95. */
  lemma AtTabulatedRate(table: seq<Row>, k: nat, years: int)
    requires Usable(table) && k < |table|
    ensures InterpolateRate(table, table[k].rate, years) == Cell(table[k], ColumnIndex(years))
  {
    var r, c := table[k].rate, ColumnIndex(years);
    RatesSorted(table, 0, k);
    RatesSorted(table, k, |table| - 1);
    assert Clamp(r) == r;
    var i := if k == 0 then 0 else k - 1;
    assert Brackets(table, r, i) by {
      RatesSorted(table, i, i + 1);
    }
    forall j | 0 <= j < i
      ensures !Brackets(table, r, j)
    {
      RatesSorted(table, j + 1, k);
    }
    assert FindPair(table, r, 0) == Some(i) by {
      FindPairIs(table, r, 0, i);
    }
    var a, b := Cell(table[i], c) as real, Cell(table[i + 1], c) as real;
    if k == 0 {
      assert Fraction(table, r, 0) == 0.0;
      assert Lerp(a, b, 0.0) == a;
    } else {
      assert i + 1 == k;
      var w := table[k].rate - table[i].rate;
      assert w > 0.0 && Fraction(table, r, i) == w / w == 1.0;
      assert Lerp(a, b, 1.0) == b;
    }
    assert Between2(table, r, i, c) == Cell(table[k], c) as real;
    RoundOfInt(Cell(table[k], c));
    assert InterpolateRate(table, table[k].rate, years) == Round(Between2(table, r, i, c));
  }

  /** The search returns the first bracketing index, whichever it is. */
  lemma {:induction false} FindPairIs(table: seq<Row>, r: real, from: nat, i: nat)
    requires from <= i < |table| - 1 && Brackets(table, r, i)
    requires forall j | from <= j < i :: !Brackets(table, r, j)
    ensures FindPair(table, r, from) == Some(i)
    decreases i - from
  {
    if from < i {
      FindPairIs(table, r, from + 1, i);
    }
  }

  /** A worked example from the aggressive table. */
  lemma AggressiveFourPercentThirtyYears()
    ensures InterpolateRate(AggressiveTable(), 0.04, 30) == 95
  {
    AtTabulatedRate(AggressiveTable(), 1, 30);
  }

  /** Interpolating toward a lower end can only go down as the fraction grows. */
  lemma LerpFalls(a: real, b: real, t: real, u: real)
    requires b <= a && t <= u
    ensures Lerp(a, b, u) <= Lerp(a, b, t)
  {
    MulMonotone(t, u, a - b);
  }

  /** A higher withdrawal rate never reads a higher success rate. */
  lemma InterpolateFallsWithRate(table: seq<Row>, rate1: real, rate2: real, years: int)
    requires Usable(table) && rate1 <= rate2
    ensures InterpolateRate(table, rate2, years) <= InterpolateRate(table, rate1, years)
  {
    var r1, r2, c := Clamp(rate1), Clamp(rate2), ColumnIndex(years);
    PairAlwaysFound(table, rate1);
    PairAlwaysFound(table, rate2);
    var i1, i2 := FindPair(table, r1, 0).value, FindPair(table, r2, 0).value;
    var v1, v2 := Between2(table, r1, i1, c), Between2(table, r2, i2, c);
    if i1 == i2 {
      FractionRange(table, r1, r2, i1);
      assert Cell(table[i1 + 1], c) <= Cell(table[i1], c) by { ColumnFalls(table, i1, i1 + 1, c); }
      LerpFalls(Cell(table[i1], c) as real, Cell(table[i1 + 1], c) as real, Fraction(table, r1, i1), Fraction(table, r2, i1));
      RoundMonotone(v2, v1);
    } else if i1 < i2 {
      InterpolateBetween(table, rate1, years);
      InterpolateBetween(table, rate2, years);
      ColumnFalls(table, i1 + 1, i2, c);
    } else {
      RatesSorted(table, i2 + 1, i1);
      assert false;
    }
  }

  /** (1 - t) * a + t * b never falls when both ends rise. */
  lemma LerpRises(a1: real, b1: real, a2: real, b2: real, t: real)
    requires a1 <= a2 && b1 <= b2 && 0.0 <= t <= 1.0
    ensures Lerp(a1, b1, t) <= Lerp(a2, b2, t)
  {
    var da := a2 - a1;
    var db := b2 - b1;
    var x2 := t * (b2 - a2);
    var x1 := t * (b1 - a1);
    assert Lerp(a2, b2, t) - Lerp(a1, b1, t) == da + (x2 - x1);
    Distribute(t, b2 - a2, b1 - a1);
    assert x2 - x1 == t * ((b2 - a2) - (b1 - a1));
    assert (b2 - a2) - (b1 - a1) == db - da;
    Distribute(t, db, da);
    assert x2 - x1 == t * db - t * da;
    MulMonotone(t, 1.0, da);
    assert t * da <= da;
    MulMonotone(0.0, t, db);
    assert 0.0 <= t * db;
  }

  /** A longer retirement never reads a higher success rate. */
  lemma InterpolateFallsWithYears(table: seq<Row>, rate: real, years1: int, years2: int)
    requires Usable(table) && years1 <= years2
    ensures InterpolateRate(table, rate, years2) <= InterpolateRate(table, rate, years1)
  {
    var r, c1, c2 := Clamp(rate), ColumnIndex(years1), ColumnIndex(years2);
    PairAlwaysFound(table, rate);
    var i := FindPair(table, r, 0).value;
    assert c1 <= c2;
    RowFalls(table, i, c1, c2);
    RowFalls(table, i + 1, c1, c2);
    FractionRange(table, r, r, i);
    LerpRises(Cell(table[i], c2) as real, Cell(table[i + 1], c2) as real,
              Cell(table[i], c1) as real, Cell(table[i + 1], c1) as real, Fraction(table, r, i));
    RoundMonotone(Between2(table, r, i, c2), Between2(table, r, i, c1));
    assert InterpolateRate(table, rate, years1) == Round(Between2(table, r, i, c1));
    assert InterpolateRate(table, rate, years2) == Round(Between2(table, r, i, c2));
  }

  /** The aggressive weight * blend plus the moderate weight * (1 - blend). */
  function Blend(aggressive: int, moderate: int, rothPct: real): real
  {
    aggressive as real * (rothPct / 100.0) + moderate as real * (1.0 - rothPct / 100.0)
  }

  /**
   * trinitySuccessRate: both tables read at the withdrawal rate and the
   * number of retirement years, blended by the Roth share and rounded. All
   * Roth gives the aggressive value, all traditional the moderate one, and a
   * Roth share in [0, 100] gives a percentage.
   */
  function TrinitySuccessRate(withdrawalRate: real, retirementYears: int, rothPct: real): (s: int)
    ensures rothPct == 100.0 ==> s == InterpolateRate(AggressiveTable(), withdrawalRate, retirementYears)
    ensures rothPct == 0.0 ==> s == InterpolateRate(ModerateTable(), withdrawalRate, retirementYears)
    ensures 0.0 <= rothPct <= 100.0 ==> 0 <= s <= 100
  {
    var a := InterpolateRate(AggressiveTable(), withdrawalRate, retirementYears);
    var m := InterpolateRate(ModerateTable(), withdrawalRate, retirementYears);
    InterpolateBetween(AggressiveTable(), withdrawalRate, retirementYears);
    InterpolateBetween(ModerateTable(), withdrawalRate, retirementYears);
    BlendEnds(a, m, rothPct);
    Round(Blend(a, m, rothPct))
  }

  lemma BlendEnds(a: int, m: int, rothPct: real)
    requires 0 <= a <= 100 && 0 <= m <= 100
    ensures rothPct == 100.0 ==> Round(Blend(a, m, rothPct)) == a
    ensures rothPct == 0.0 ==> Round(Blend(a, m, rothPct)) == m
    ensures 0.0 <= rothPct <= 100.0 ==> 0 <= Round(Blend(a, m, rothPct)) <= 100
  {
    RoundOfInt(a);
    RoundOfInt(m);
    if 0.0 <= rothPct <= 100.0 {
      BlendRises(0, 0, a, m, rothPct);
      BlendRises(a, m, 100, 100, rothPct);
      RoundOfInt(0);
      RoundOfInt(100);
      RoundMonotone(0.0, Blend(a, m, rothPct));
      RoundMonotone(Blend(a, m, rothPct), 100.0);
    }
  }

  /** With the blend in [0, 1], raising either table's value never lowers the blend. */
  lemma BlendRises(a1: int, m1: int, a2: int, m2: int, rothPct: real)
    requires a1 <= a2 && m1 <= m2 && 0.0 <= rothPct <= 100.0
    ensures Blend(a1, m1, rothPct) <= Blend(a2, m2, rothPct)
  {
    var w := rothPct / 100.0;
    var v := 1.0 - w;
    assert 0.0 <= w <= 1.0;
    var p1 := a1 as real * w;
    var p2 := a2 as real * w;
    var q1 := m1 as real * v;
    var q2 := m2 as real * v;
    assert Blend(a1, m1, rothPct) == p1 + q1;
    assert Blend(a2, m2, rothPct) == p2 + q2;
    MulMonotone(a1 as real, a2 as real, w);
    MulMonotone(m1 as real, m2 as real, v);
    assert p1 <= p2 && q1 <= q2;
  }

  /**
   * For a Roth share in [0, 100] the success rate never rises with the
   * withdrawal rate or with the number of retirement years.
   */
  lemma SuccessFalls(w1: real, w2: real, y1: int, y2: int, rothPct: real)
    requires 0.0 <= rothPct <= 100.0 && w1 <= w2 && y1 <= y2
    ensures TrinitySuccessRate(w2, y2, rothPct) <= TrinitySuccessRate(w1, y1, rothPct)
  {
    InterpolateFallsWithRate(AggressiveTable(), w1, w2, y1);
    InterpolateFallsWithYears(AggressiveTable(), w2, y1, y2);
    InterpolateFallsWithRate(ModerateTable(), w1, w2, y1);
    InterpolateFallsWithYears(ModerateTable(), w2, y1, y2);
    var a1, m1 := InterpolateRate(AggressiveTable(), w1, y1), InterpolateRate(ModerateTable(), w1, y1);
    var a2, m2 := InterpolateRate(AggressiveTable(), w2, y2), InterpolateRate(ModerateTable(), w2, y2);
    BlendRises(a2, m2, a1, m1, rothPct);
    RoundMonotone(Blend(a2, m2, rothPct), Blend(a1, m1, rothPct));
  }
}
