/**
 * The holdings tracker's list logic: add, update and remove holdings by id,
 * and the summary the tracker shows (Roth and traditional totals, the Roth
 * share of the total, and the holdings grouped by account name).
 * New ids are a parameter rather than a random string.
 */
module Holdings {
  import opened Numeric
  import opened PlanTypes
  import IdLists

  datatype AccountType = Roth | Traditional

  datatype Holding = Holding(
    id: string,
    ticker: string,
    shares: real,
    pricePerShare: real,
    accountType: AccountType,
    accountName: string
  )

  /** A holding without its id, as the add form submits it. */
  datatype HoldingFields = HoldingFields(
    ticker: string,
    shares: real,
    pricePerShare: real,
    accountType: AccountType,
    accountName: string
  )

  /** A partial update: only the present fields overwrite the holding's. */
  datatype HoldingUpdate = HoldingUpdate(
    ticker: Option<string>,
    shares: Option<real>,
    pricePerShare: Option<real>,
    accountType: Option<AccountType>,
    accountName: Option<string>
  )

  function HoldingId(h: Holding): string
  {
    h.id
  }

  function WithId(f: HoldingFields, id: string): Holding
  {
    Holding(id, f.ticker, f.shares, f.pricePerShare, f.accountType, f.accountName)
  }

  /** `{ ...h, ...updates }` */
  function Apply(h: Holding, u: HoldingUpdate): (h': Holding)
    ensures h'.id == h.id
  {
    Holding(h.id, u.ticker.GetOr(h.ticker), u.shares.GetOr(h.shares), u.pricePerShare.GetOr(h.pricePerShare),
            u.accountType.GetOr(h.accountType), u.accountName.GetOr(h.accountName))
  }

  /** addHolding: one new holding, with the given fields and the new id, after the unchanged old ones. */
  function AddHolding(hs: seq<Holding>, f: HoldingFields, newId: string): (r: seq<Holding>)
    ensures |r| == |hs| + 1 && r[..|hs|] == hs
    ensures r[|hs|].id == newId && r[|hs|].ticker == f.ticker && r[|hs|].shares == f.shares
    ensures r[|hs|].pricePerShare == f.pricePerShare && r[|hs|].accountType == f.accountType
    ensures r[|hs|].accountName == f.accountName
  {
    IdLists.Add(hs, WithId(f, newId))
  }

  /**
   * updateHolding: same length and same ids; a holding with another id is
   * unchanged, one with the id takes every field the update carries.
   */
  function UpdateHolding(hs: seq<Holding>, id: string, u: HoldingUpdate): (r: seq<Holding>)
    ensures |r| == |hs|
    ensures forall i | 0 <= i < |hs| :: r[i].id == hs[i].id
    ensures forall i | 0 <= i < |hs| && hs[i].id != id :: r[i] == hs[i]
    ensures forall i | 0 <= i < |hs| && hs[i].id == id :: r[i] == Apply(hs[i], u)
  {
    IdLists.Update(hs, HoldingId, id, h => Apply(h, u))
  }

  /** removeHolding: every holding with the id is dropped and every other one kept. */
  function RemoveHolding(hs: seq<Holding>, id: string): (r: seq<Holding>)
    ensures |r| <= |hs|
    ensures forall i | 0 <= i < |r| :: r[i].id != id && r[i] in hs
    ensures forall i | 0 <= i < |hs| && hs[i].id != id :: hs[i] in r
  {
    IdLists.Remove(hs, HoldingId, id)
  }

  /** Updating a holding and then removing it leaves what removing it alone leaves. */
  lemma UpdateThenRemoveHolding(hs: seq<Holding>, id: string, u: HoldingUpdate)
    ensures RemoveHolding(UpdateHolding(hs, id, u), id) == RemoveHolding(hs, id)
  {
    IdLists.UpdateThenRemove(hs, HoldingId, id, h => Apply(h, u));
  }

  /** Removing a freshly added holding gives back the list, when its id was new. */
  lemma AddThenRemoveHolding(hs: seq<Holding>, f: HoldingFields, newId: string)
    requires forall i | 0 <= i < |hs| :: hs[i].id != newId
    ensures RemoveHolding(AddHolding(hs, f, newId), newId) == hs
  {
    IdLists.AddThenRemove(hs, WithId(f, newId), HoldingId);
    IdLists.RemoveAbsent(hs, HoldingId, newId);
  }

  /** shares * pricePerShare */
  function Value(h: Holding): real
  {
    h.shares * h.pricePerShare
  }

  /** The summed value of every holding, left to right. */
  function SumValues(hs: seq<Holding>): real
  {
    if |hs| == 0 then 0.0 else SumValues(hs[..|hs| - 1]) + Value(hs[|hs| - 1])
  }

  /** The summed value of the holdings of one account type (filter, then reduce). */
  function TypeTotal(hs: seq<Holding>, t: AccountType): real
  {
    if |hs| == 0 then 0.0
    else TypeTotal(hs[..|hs| - 1], t) + (if hs[|hs| - 1].accountType == t then Value(hs[|hs| - 1]) else 0.0)
  }

  /** Every holding is Roth or traditional, so the two totals add up to the value of all holdings. */
  lemma {:induction false} TypeTotalsSplit(hs: seq<Holding>)
    ensures TypeTotal(hs, Roth) + TypeTotal(hs, Traditional) == SumValues(hs)
  {
    if |hs| > 0 {
      TypeTotalsSplit(hs[..|hs| - 1]);
    }
  }

  /** With no negative share counts or prices a type's total is between 0 and the total. */
  lemma {:induction false} TypeTotalBounds(hs: seq<Holding>, t: AccountType)
    requires forall i | 0 <= i < |hs| :: hs[i].shares >= 0.0 && hs[i].pricePerShare >= 0.0
    ensures 0.0 <= TypeTotal(hs, t) <= SumValues(hs)
  {
    if |hs| > 0 {
      var h := hs[|hs| - 1];
      TypeTotalBounds(hs[..|hs| - 1], t);
      MulMonotone(0.0, h.shares, h.pricePerShare);
    }
  }

  /**
   * `total === 0 ? 100 : Math.round(rothTotal / total * 100)`: an empty or
   * worthless portfolio counts as all Roth.
   */
  function RothPct(rothTotal: real, total: real): (pct: int)
    ensures total == 0.0 ==> pct == 100
    ensures total != 0.0 ==> rothTotal / total * 100.0 - 0.5 < pct as real <= rothTotal / total * 100.0 + 0.5
    ensures total > 0.0 && 0.0 <= rothTotal <= total ==> 0 <= pct <= 100
  {
    if total == 0.0 then 100
    else
      PctRange(rothTotal, total);
      Round(rothTotal / total * 100.0)
  }

  lemma PctRange(part: real, total: real)
    ensures total > 0.0 && 0.0 <= part <= total ==> 0 <= Round(part / total * 100.0) <= 100
  {
    if total > 0.0 && 0.0 <= part <= total {
      DivideMonotone(0.0, part, total);
      DivideMonotone(part, total, total);
      RoundNonNegative(part / total * 100.0);
      RoundMonotone(part / total * 100.0, 100.0);
      RoundOfInt(100);
    }
  }

  /** One account's group: the first holding's type, the summed value and the holdings in order. */
  datatype Group = Group(name: string, accountType: AccountType, total: real, holdings: seq<Holding>)

  /** The position of the group with this name, if there is one. */
  function FindGroup(gs: seq<Group>, name: string): (j: Option<nat>)
    ensures j.Some? ==> j.value < |gs| && gs[j.value].name == name
    ensures j.None? ==> forall k | 0 <= k < |gs| :: gs[k].name != name
  {
    if |gs| == 0 then None
    else if gs[|gs| - 1].name == name then Some(|gs| - 1)
    else FindGroup(gs[..|gs| - 1], name)
  }

  /**
   * One pass of the grouping loop: a holding joins the group of its account
   * name, which is opened (with this holding's type and a 0 total) when
   * there is none yet.
   */
  function Insert(gs: seq<Group>, h: Holding): seq<Group>
  {
    match FindGroup(gs, h.accountName)
    case Some(j) => gs[j := gs[j].(total := gs[j].total + Value(h), holdings := gs[j].holdings + [h])]
    case None => gs + [Group(h.accountName, h.accountType, 0.0 + Value(h), [h])]
  }

  /** byAccount, with the groups in the order their first holding appears. */
  function ByAccount(hs: seq<Holding>): seq<Group>
  {
    if |hs| == 0 then [] else Insert(ByAccount(hs[..|hs| - 1]), hs[|hs| - 1])
  }

  /** The holdings with one account name, in order. */
  function WithName(hs: seq<Holding>, name: string): seq<Holding>
  {
    if |hs| == 0 then []
    else WithName(hs[..|hs| - 1], name) + (if hs[|hs| - 1].accountName == name then [hs[|hs| - 1]] else [])
  }

  function SumTotals(gs: seq<Group>): real
  {
    if |gs| == 0 then 0.0 else SumTotals(gs[..|gs| - 1]) + gs[|gs| - 1].total
  }

  /** Replacing one group's total changes the sum by the difference. */
  lemma {:induction false} SumTotalsUpdate(gs: seq<Group>, j: nat, g: Group)
    requires j < |gs|
    ensures SumTotals(gs[j := g]) == SumTotals(gs) - gs[j].total + g.total
  {
    var n := |gs| - 1;
    if j < n {
      assert gs[j := g][..n] == gs[..n][j := g];
      SumTotalsUpdate(gs[..n], j, g);
    } else {
      assert gs[j := g][..n] == gs[..n];
    }
  }

  /** Group names are pairwise distinct. */
  predicate DistinctNames(gs: seq<Group>)
  {
    forall j, k | 0 <= j < k < |gs| :: gs[j].name != gs[k].name
  }

  /** Every holding seen so far has a group. */
  predicate Covers(gs: seq<Group>, hs: seq<Holding>)
  {
    forall i | 0 <= i < |hs| :: FindGroup(gs, hs[i].accountName).Some?
  }

  /**
   * Each group holds exactly the holdings of its name, in order, has the
   * type of the first of them and their summed value as its total.
   */
  predicate GroupsMatch(gs: seq<Group>, hs: seq<Holding>)
  {
    forall j | 0 <= j < |gs| ::
      && gs[j].holdings == WithName(hs, gs[j].name)
      && |gs[j].holdings| > 0
      && gs[j].accountType == gs[j].holdings[0].accountType
      && gs[j].total == SumValues(gs[j].holdings)
  }

  /** What the groups record about the holdings seen so far. */
  predicate Grouped(gs: seq<Group>, hs: seq<Holding>)
  {
    DistinctNames(gs) && Covers(gs, hs) && GroupsMatch(gs, hs)
  }

  /** Inserting keeps the existing groups' names in place and adds at most one group, named after the holding. */
  lemma InsertNames(gs: seq<Group>, h: Holding)
    ensures var gs' := Insert(gs, h);
            && (|gs'| == |gs| || (|gs'| == |gs| + 1 && gs'[|gs|].name == h.accountName))
            && (forall k | 0 <= k < |gs| :: gs'[k].name == gs[k].name)
            && FindGroup(gs', h.accountName).Some?
  {
    var gs' := Insert(gs, h);
    match FindGroup(gs, h.accountName)
    case Some(j) =>
      FindGroupComplete(gs', j);
    case None =>
      FindGroupComplete(gs', |gs|);
  }

  lemma InsertSum(gs: seq<Group>, h: Holding)
    ensures SumTotals(Insert(gs, h)) == SumTotals(gs) + Value(h)
  {
    match FindGroup(gs, h.accountName)
    case Some(j) =>
      var g := gs[j].(total := gs[j].total + Value(h), holdings := gs[j].holdings + [h]);
      SumTotalsUpdate(gs, j, g);
    case None =>
      assert Insert(gs, h)[..|gs|] == gs;
  }

  lemma InsertDistinct(gs: seq<Group>, h: Holding)
    requires DistinctNames(gs)
    ensures DistinctNames(Insert(gs, h))
  {
    InsertNames(gs, h);
  }

  lemma InsertCovers(gs: seq<Group>, hs: seq<Holding>, h: Holding)
    requires Covers(gs, hs)
    ensures Covers(Insert(gs, h), hs + [h])
  {
    var gs' := Insert(gs, h);
    var hs' := hs + [h];
    InsertNames(gs, h);
    forall i | 0 <= i < |hs'|
      ensures FindGroup(gs', hs'[i].accountName).Some?
    {
      if i < |hs| {
        var k := FindGroup(gs, hs[i].accountName).value;
        assert gs'[k].name == hs'[i].accountName;
        FindGroupComplete(gs', k);
      }
    }
  }

  /** Appending a holding appends it to the holdings of its own name only. */
  lemma WithNameSnoc(hs: seq<Holding>, h: Holding, name: string)
    ensures WithName(hs + [h], name) == WithName(hs, name) + (if h.accountName == name then [h] else [])
  {
    assert (hs + [h])[..|hs|] == hs;
  }

  lemma SumValuesSnoc(hs: seq<Holding>, h: Holding)
    ensures SumValues(hs + [h]) == SumValues(hs) + Value(h)
  {
    assert (hs + [h])[..|hs|] == hs;
  }

  lemma InsertMatches(gs: seq<Group>, hs: seq<Holding>, h: Holding)
    requires DistinctNames(gs) && Covers(gs, hs) && GroupsMatch(gs, hs)
    ensures GroupsMatch(Insert(gs, h), hs + [h])
  {
    var gs' := Insert(gs, h);
    var hs' := hs + [h];
    InsertNames(gs, h);
    forall j | 0 <= j < |gs'|
      ensures gs'[j].holdings == WithName(hs', gs'[j].name)
      ensures |gs'[j].holdings| > 0
      ensures gs'[j].accountType == gs'[j].holdings[0].accountType
      ensures gs'[j].total == SumValues(gs'[j].holdings)
    {
      WithNameSnoc(hs, h, gs'[j].name);
      match FindGroup(gs, h.accountName)
      case Some(m) =>
        if j == m {
          SumValuesSnoc(gs[m].holdings, h);
        }
      case None =>
        if j == |gs| {
          WithNameEmpty(hs, h.accountName, gs);
          SumValuesSnoc([], h);
        }
    }
  }

  /** A name no group carries belongs to none of the holdings seen so far. */
  lemma {:induction false} WithNameEmpty(hs: seq<Holding>, name: string, gs: seq<Group>)
    requires Covers(gs, hs)
    requires forall k | 0 <= k < |gs| :: gs[k].name != name
    ensures WithName(hs, name) == []
  {
    if |hs| > 0 {
      var n := |hs| - 1;
      var k := FindGroup(gs, hs[n].accountName).value;
      assert hs[n].accountName != name;
      assert forall i | 0 <= i < n :: hs[..n][i] == hs[i];
      WithNameEmpty(hs[..n], name, gs);
    }
  }

  /** A group at position k is found by its name. */
  lemma FindGroupComplete(gs: seq<Group>, k: nat)
    requires k < |gs|
    ensures FindGroup(gs, gs[k].name).Some?
  {
  }

  /**
   * The grouping covers every holding exactly once: group names are
   * distinct, each group holds its account's holdings in order, a group's
   * account type is that of its first holding, and every holding has a group.
   */
  lemma {:induction false} ByAccountGroups(hs: seq<Holding>)
    ensures Grouped(ByAccount(hs), hs)
  {
    if |hs| > 0 {
      var n := |hs| - 1;
      var hs0, h := hs[..n], hs[n];
      assert hs == hs0 + [h];
      var gs := ByAccount(hs0);
      assert ByAccount(hs) == Insert(gs, h);
      ByAccountGroups(hs0);
      InsertDistinct(gs, h);
      InsertCovers(gs, hs0, h);
      InsertMatches(gs, hs0, h);
    }
  }

  /** The group totals add up to the value of all holdings. */
  lemma {:induction false} ByAccountSum(hs: seq<Holding>)
    ensures SumTotals(ByAccount(hs)) == SumValues(hs)
  {
    if |hs| > 0 {
      var n := |hs| - 1;
      ByAccountSum(hs[..n]);
      InsertSum(ByAccount(hs[..n]), hs[n]);
    }
  }

  datatype Summary = Summary(
    rothTotal: real,
    traditionalTotal: real,
    total: real,
    rothPct: int,
    traditionalPct: int,
    byAccount: seq<Group>
  )

  /**
   * The tracker's summary: the total is the value of all holdings, the two
   * percentages always add up to 100 (an empty total reads as 100% Roth),
   * and the account groups add up to the total.
   */
  function HoldingsSummary(hs: seq<Holding>): (s: Summary)
    ensures s.total == s.rothTotal + s.traditionalTotal == SumValues(hs)
    ensures s.rothTotal == TypeTotal(hs, Roth) && s.traditionalTotal == TypeTotal(hs, Traditional)
    ensures s.rothPct + s.traditionalPct == 100
    ensures s.total == 0.0 ==> s.rothPct == 100 && s.traditionalPct == 0
    ensures SumTotals(s.byAccount) == s.total
    ensures Grouped(s.byAccount, hs)
  {
    var rothTotal := TypeTotal(hs, Roth);
    var traditionalTotal := TypeTotal(hs, Traditional);
    var total := rothTotal + traditionalTotal;
    var rothPct := RothPct(rothTotal, total);
    TypeTotalsSplit(hs);
    ByAccountSum(hs);
    ByAccountGroups(hs);
    Summary(rothTotal, traditionalTotal, total, rothPct, if total == 0.0 then 0 else 100 - rothPct, ByAccount(hs))
  }

  /** With no negative share counts or prices both percentages lie in [0, 100]. */
  lemma SummaryPercentages(hs: seq<Holding>)
    requires forall i | 0 <= i < |hs| :: hs[i].shares >= 0.0 && hs[i].pricePerShare >= 0.0
    ensures var s := HoldingsSummary(hs);
            0 <= s.rothPct <= 100 && 0 <= s.traditionalPct <= 100
  {
    TypeTotalBounds(hs, Roth);
    TypeTotalsSplit(hs);
  }

  /**
   * The names every plain JavaScript object inherits from Object.prototype.
   * `byAccount[name]` is truthy for them before any group is opened.
   */
  const InheritedNames: set<string> := {
    "constructor", "__proto__", "__defineGetter__", "__defineSetter__", "__lookupGetter__",
    "__lookupSetter__", "hasOwnProperty", "isPrototypeOf", "propertyIsEnumerable",
    "toString", "toLocaleString", "valueOf"
  }

  /**
   * The grouping loop as written over a `{}` record: for an inherited name
   * the "group" found is the inherited member, which has no `holdings`
   * array, so `push` throws (None).
   */
  function ByAccountAsWritten(hs: seq<Holding>): (r: Option<seq<Group>>)
    ensures r.Some? <==> forall i | 0 <= i < |hs| :: hs[i].accountName !in InheritedNames
    ensures r.Some? ==> r.value == ByAccount(hs)
  {
    if |hs| == 0 then Some([])
    else
      var n := |hs| - 1;
      var pre := hs[..n];
      var r0 := ByAccountAsWritten(pre);
      var bad := hs[n].accountName in InheritedNames;
      AsWrittenStep(hs, pre, r0.Some?, bad);
      if r0.None? || bad then None else Some(Insert(r0.value, hs[n]))
  }

  lemma AsWrittenStep(hs: seq<Holding>, pre: seq<Holding>, prefixOk: bool, lastBad: bool)
    requires |hs| > 0 && pre == hs[..|hs| - 1]
    requires prefixOk <==> forall i | 0 <= i < |pre| :: pre[i].accountName !in InheritedNames
    requires lastBad <==> hs[|hs| - 1].accountName in InheritedNames
    ensures (prefixOk && !lastBad) <==> forall i | 0 <= i < |hs| :: hs[i].accountName !in InheritedNames
  {
    assert forall i | 0 <= i < |pre| :: pre[i] == hs[i];
  }

  /** An account named "constructor" breaks the summary; the grouping by account name handles it. */
  lemma ConstructorAccountBreaksSummary()
    ensures var h := Holding("h1", "VTI", 10.0, 250.0, Roth, "constructor");
            && ByAccountAsWritten([h]).None?
            && ByAccount([h]) == [Group("constructor", Roth, 2500.0, [h])]
  {
    var h := Holding("h1", "VTI", 10.0, 250.0, Roth, "constructor");
    assert [h][..0] == [];
    assert "constructor" in InheritedNames;
  }
}
