/**
 * The summaries both dashboards compute over the whole dataset, whatever the
 * selection: the elderly ratio by state and the urban/rural resource comparison.
 */
module Aggregations {
  import opened Wrappers
  import opened Ordering
  import opened Dataset

  /** One row of the merged `aging_ratio` frame. */
  datatype StateAging = StateAging(
    state: string,
    elderlyPopulation: nat,
    totalPopulation: nat,
    elderlyRatio: Option<real>)

  function States(rows: seq<StateAging>): (ss: seq<string>)
    ensures |ss| == |rows|
    ensures forall i :: 0 <= i < |rows| ==> ss[i] == rows[i].state
  {
    if rows == [] then [] else [rows[0].state] + States(rows[1..])
  }

  /**
   * `part / whole * 100` on integer columns: a percentage of `whole`, and NaN
   * (`None`) when `whole` is 0, since this column has no division guard.
   */
  function Percentage(part: nat, whole: nat): (r: Option<real>)
    ensures r.None? <==> whole == 0
    ensures r.Some? ==> r.value * (whole as real) == 100.0 * (part as real)
    ensures r.Some? && part <= whole ==> 0.0 <= r.value <= 100.0
  {
    if whole == 0 then None
    else
      var q := (part as real) / (whole as real);
      assert q * (whole as real) == part as real;
      assert part <= whole ==> q <= 1.0;
      Some(q * 100.0)
  }

  /** The population of the first group labelled `key`, if any. */
  function Lookup(groups: seq<Group>, key: string): (r: Option<nat>)
    ensures r.None? <==> key !in Keys(groups)
    ensures r.Some? ==> Group(key, r.value) in groups
  {
    if groups == [] then None
    else if groups[0].key == key then Some(groups[0].population)
    else
      assert Keys(groups) == [groups[0].key] + Keys(groups[1..]);
      Lookup(groups[1..], key)
  }

  /**
   * `pd.merge(left, right, on="state")` followed by the ratio column: an INNER join,
   * so a state of `left` missing from `right` is dropped, in the order of `left`.
   * Each left row is paired with the first right row of its key only, which is the
   * merge exactly when `right` has distinct keys, as the group-by results joined here do.
   */
  function InnerJoin(left: seq<Group>, right: seq<Group>): (rows: seq<StateAging>)
    ensures IsSubsequence(States(rows), Keys(left))
    ensures forall a :: a in rows ==>
      && Group(a.state, a.elderlyPopulation) in left
      && Group(a.state, a.totalPopulation) in right
      && a.elderlyRatio == Percentage(a.elderlyPopulation, a.totalPopulation)
    ensures forall k :: k in Keys(left) && k in Keys(right) ==> k in States(rows)
  {
    if left == [] then []
    else
      var g := left[0];
      var rest := InnerJoin(left[1..], right);
      assert Keys(left) == [g.key] + Keys(left[1..]);
      match Lookup(right, g.key)
      case None =>
        SubsequenceOfTail(States(rest), Keys(left));
        rest
      case Some(total) =>
        var rows := [StateAging(g.key, g.population, total, Percentage(g.population, total))] + rest;
        assert States(rows) == [g.key] + States(rest);
        assert States(rows)[1..] == States(rest);
        rows
  }

  /**
   * `aging_ratio`: elderly population over total population per state, one row per
   * state in sorted order, with the elderly population never above the total and the
   * ratio a percentage in [0, 100] (NaN when the state's total is 0).
   */
  function ElderlyRatioByState(ds: seq<Record>): (rows: seq<StateAging>)
    ensures StrictlyIncreasing(States(rows), StrLess)
    ensures forall a :: a in rows ==>
      && a.elderlyPopulation == Population(Where(Where(ds, Elderly), LabelIs(State, a.state)))
      && a.totalPopulation == Population(Where(ds, LabelIs(State, a.state)))
      && a.elderlyPopulation <= a.totalPopulation
      && (a.elderlyRatio.None? <==> a.totalPopulation == 0)
      && a.elderlyRatio == Percentage(a.elderlyPopulation, a.totalPopulation)
      && (a.elderlyRatio.Some? ==> 0.0 <= a.elderlyRatio.value <= 100.0)
  {
    var elderly := GroupBy(Where(ds, Elderly), State);
    var rows := InnerJoin(elderly, GroupBy(ds, State));
    SubsequenceKeepsOrder(States(rows), Keys(elderly), StrLess);
    forall a | a in rows
      ensures a.elderlyPopulation == Population(Where(Where(ds, Elderly), LabelIs(State, a.state)))
      && a.totalPopulation == Population(Where(ds, LabelIs(State, a.state)))
      && a.elderlyPopulation <= a.totalPopulation
      && (a.elderlyRatio.None? <==> a.totalPopulation == 0)
      && a.elderlyRatio == Percentage(a.elderlyPopulation, a.totalPopulation)
      && (a.elderlyRatio.Some? ==> 0.0 <= a.elderlyRatio.value <= 100.0)
    {
      JoinedStateSums(ds, a);
    }
    rows
  }

  lemma JoinedStateSums(ds: seq<Record>, a: StateAging)
    requires a in InnerJoin(GroupBy(Where(ds, Elderly), State), GroupBy(ds, State))
    ensures a.elderlyPopulation == Population(Where(Where(ds, Elderly), LabelIs(State, a.state)))
    && a.totalPopulation == Population(Where(ds, LabelIs(State, a.state)))
    && a.elderlyPopulation <= a.totalPopulation
    && (a.elderlyRatio.None? <==> a.totalPopulation == 0)
    && a.elderlyRatio == Percentage(a.elderlyPopulation, a.totalPopulation)
    && (a.elderlyRatio.Some? ==> 0.0 <= a.elderlyRatio.value <= 100.0)
  {
    PopulationOfNestedWhereAtMost(ds, Elderly, LabelIs(State, a.state));
    var p := Percentage(a.elderlyPopulation, a.totalPopulation);
    assert a.elderlyRatio == p;
  }

  /**
   * The inner join keeps exactly the states that have at least one elderly row: a
   * state whose rows are all non-elderly is absent, not listed with ratio 0.
   */
  lemma ElderlyRatioKeepsOnlyElderlyStates(ds: seq<Record>)
    ensures forall s :: s in States(ElderlyRatioByState(ds)) <==>
      exists x :: x in ds && x.isElderly && x.state == Some(s)
  {
    forall s | s in States(ElderlyRatioByState(ds))
      ensures exists x :: x in ds && x.isElderly && x.state == Some(s)
    {
      JoinedStateIsElderly(ds, s);
    }
    forall s, x | x in ds && x.isElderly && x.state == Some(s)
      ensures s in States(ElderlyRatioByState(ds))
    {
      ElderlyStateIsJoined(ds, s, x);
    }
  }

  lemma JoinedStateIsElderly(ds: seq<Record>, s: string)
    requires s in States(ElderlyRatioByState(ds))
    ensures exists x :: x in ds && x.isElderly && x.state == Some(s)
  {
    var elderly := GroupBy(Where(ds, Elderly), State);
    var rows := ElderlyRatioByState(ds);
    assert rows == InnerJoin(elderly, GroupBy(ds, State));
    assert IsSubsequence(States(rows), Keys(elderly));
    SubsequenceMembers(States(rows), Keys(elderly));
    assert s in Keys(elderly);
    var x :| x in Where(ds, Elderly) && Label(x, State) == Some(s);
    WhereHolds(ds, Elderly, x);
  }

  lemma ElderlyStateIsJoined(ds: seq<Record>, s: string, x: Record)
    requires x in ds && x.isElderly && x.state == Some(s)
    ensures s in States(ElderlyRatioByState(ds))
  {
    var elderly := GroupBy(Where(ds, Elderly), State);
    var total := GroupBy(ds, State);
    WhereKeeps(ds, Elderly, x);
    assert s in Keys(elderly) && s in Keys(total);
  }

  /** The order the bar chart lists states in: larger ratio first, NaN ratios last. */
  predicate DisplayedBefore(a: StateAging, b: StateAging) {
    b.elderlyRatio.None? || (a.elderlyRatio.Some? && a.elderlyRatio.value >= b.elderlyRatio.value)
  }

  predicate ByRatioDescending(rows: seq<StateAging>) {
    forall i, j :: 0 <= i < j < |rows| ==> DisplayedBefore(rows[i], rows[j])
  }

  function InsertByRatio(a: StateAging, rows: seq<StateAging>): (r: seq<StateAging>)
    requires ByRatioDescending(rows)
    ensures ByRatioDescending(r)
    ensures multiset(r) == multiset(rows) + multiset{a}
  {
    if rows == [] then [a]
    else if DisplayedBefore(a, rows[0]) then
      BeforeHeadBeforeAll(a, rows);
      PrependDescending(a, rows);
      [a] + rows
    else
      var tail := InsertByRatio(a, rows[1..]);
      assert rows == [rows[0]] + rows[1..];
      HeadBeforeInserted(a, rows, tail);
      PrependDescending(rows[0], tail);
      [rows[0]] + tail
  }

  lemma BeforeHeadBeforeAll(a: StateAging, rows: seq<StateAging>)
    requires ByRatioDescending(rows) && rows != [] && DisplayedBefore(a, rows[0])
    ensures forall y :: y in rows ==> DisplayedBefore(a, y)
  {
  }

  lemma HeadBeforeInserted(a: StateAging, rows: seq<StateAging>, tail: seq<StateAging>)
    requires ByRatioDescending(rows) && rows != [] && !DisplayedBefore(a, rows[0])
    requires multiset(tail) == multiset(rows[1..]) + multiset{a}
    ensures forall y :: y in tail ==> DisplayedBefore(rows[0], y)
  {
    forall y | y in tail ensures DisplayedBefore(rows[0], y) {
      assert y in multiset(tail);
      if y != a {
        assert y in rows[1..];
      }
    }
  }

  lemma PrependDescending(head: StateAging, rows: seq<StateAging>)
    requires ByRatioDescending(rows)
    requires forall y :: y in rows ==> DisplayedBefore(head, y)
    ensures ByRatioDescending([head] + rows)
  {
    var r := [head] + rows;
    forall i, j | 0 <= i < j < |r| ensures DisplayedBefore(r[i], r[j]) {
      assert r[j] == rows[j - 1];
      if i > 0 {
        assert r[i] == rows[i - 1];
      }
    }
  }

  /**
   * The chart's descending sort by ratio: the same rows, reordered so the
   * ratio never increases down the chart.
   */
  function SortByRatioDescending(rows: seq<StateAging>): (r: seq<StateAging>)
    ensures ByRatioDescending(r)
    ensures multiset(r) == multiset(rows)
  {
    if rows == [] then []
    else
      assert rows == [rows[0]] + rows[1..];
      InsertByRatio(rows[0], SortByRatioDescending(rows[1..]))
  }

  /** One row of the per-strata comparison: the mean beds and staff per 1000 people. */
  datatype StrataResources = StrataResources(strata: string, meanBeds: Option<real>, meanStaff: Option<real>)

  function StrataNames(rows: seq<StrataResources>): (ss: seq<string>)
    ensures |ss| == |rows|
    ensures forall i :: 0 <= i < |rows| ==> ss[i] == rows[i].strata
  {
    seq(|rows|, i requires 0 <= i < |rows| => rows[i].strata)
  }

  /**
   * The comparison row of one strata: the means over the rows carrying it, each NaN
   * exactly when none of those rows has that cell.
   */
  function StrataSummary(ds: seq<Record>, strata: string): (e: StrataResources)
    ensures e.strata == strata
    ensures e.meanBeds.None? <==> NoCellInStrata(ds, strata, BedsPer1000)
    ensures e.meanStaff.None? <==> NoCellInStrata(ds, strata, StaffPer1000)
    ensures e.meanBeds.Some? ==> IsMeanOf(e.meanBeds.value, Values(Where(ds, LabelIs(Strata, strata)), BedsPer1000))
    ensures e.meanStaff.Some? ==> IsMeanOf(e.meanStaff.value, Values(Where(ds, LabelIs(Strata, strata)), StaffPer1000))
  {
    var group := Where(ds, LabelIs(Strata, strata));
    StrataMeanMissing(ds, strata, BedsPer1000);
    StrataMeanMissing(ds, strata, StaffPer1000);
    StrataResources(strata, ColumnMean(group, BedsPer1000), ColumnMean(group, StaffPer1000))
  }

  /** No row of the strata has a cell in column `m`. */
  ghost predicate NoCellInStrata(ds: seq<Record>, strata: string, m: Measure) {
    forall x :: x in ds && x.strata == Some(strata) ==> Measurement(x, m).None?
  }

  lemma StrataMeanMissing(ds: seq<Record>, strata: string, m: Measure)
    ensures ColumnMean(Where(ds, LabelIs(Strata, strata)), m).None? <==> NoCellInStrata(ds, strata, m)
  {
    var group := Where(ds, LabelIs(Strata, strata));
    forall x | x in ds && x.strata == Some(strata) ensures x in group {
      WhereKeeps(ds, LabelIs(Strata, strata), x);
    }
    forall x | x in group ensures x in ds && x.strata == Some(strata) {
      WhereHolds(ds, LabelIs(Strata, strata), x);
    }
  }

  /**
   * The resource comparison: exactly one row per distinct non-missing strata, in sorted
   * order, each summarising a non-empty group: the means of beds and staff per 1000
   * over that strata's rows (NaN when every such cell is missing).
   */
  function ResourceComparison(ds: seq<Record>): (r: seq<StrataResources>)
    ensures StrictlyIncreasing(StrataNames(r), StrLess)
    ensures forall s :: s in StrataNames(r) <==> exists x :: x in ds && x.strata == Some(s)
    ensures forall e :: e in r ==> Where(ds, LabelIs(Strata, e.strata)) != [] && e == StrataSummary(ds, e.strata)
  {
    StrLessIsStrictTotalOrder();
    var keys := SortedUnique(Labels(ds, Strata), StrLess);
    var r := seq(|keys|, i requires 0 <= i < |keys| => StrataSummary(ds, keys[i]));
    assert StrataNames(r) == keys;
    forall e | e in r ensures Where(ds, LabelIs(Strata, e.strata)) != [] && e == StrataSummary(ds, e.strata) {
      var i :| 0 <= i < |r| && r[i] == e;
      assert keys[i] in keys;
      StrataGroupNonEmpty(ds, keys[i]);
    }
    r
  }

  lemma StrataGroupNonEmpty(ds: seq<Record>, strata: string)
    requires strata in Labels(ds, Strata)
    ensures Where(ds, LabelIs(Strata, strata)) != []
  {
    var x :| x in ds && Label(x, Strata) == Some(strata);
    WhereKeeps(ds, LabelIs(Strata, strata), x);
  }

  /**
   * When every non-missing beds and staff cell lies in [lo, hi] (for instance both are
   * non-negative), so does every mean of the comparison.
   */
  lemma ResourceMeansWithin(ds: seq<Record>, lo: real, hi: real)
    requires forall x :: x in ds && x.bedsPer1000.Some? ==> lo <= x.bedsPer1000.value <= hi
    requires forall x :: x in ds && x.staffPer1000.Some? ==> lo <= x.staffPer1000.value <= hi
    ensures forall e :: e in ResourceComparison(ds) ==>
      && (e.meanBeds.Some? ==> lo <= e.meanBeds.value <= hi)
      && (e.meanStaff.Some? ==> lo <= e.meanStaff.value <= hi)
  {
    forall e | e in ResourceComparison(ds)
      ensures e.meanBeds.Some? ==> lo <= e.meanBeds.value <= hi
      ensures e.meanStaff.Some? ==> lo <= e.meanStaff.value <= hi
    {
      StrataSummaryWithin(ds, e.strata, lo, hi);
    }
  }

  lemma StrataSummaryWithin(ds: seq<Record>, strata: string, lo: real, hi: real)
    requires forall x :: x in ds && x.bedsPer1000.Some? ==> lo <= x.bedsPer1000.value <= hi
    requires forall x :: x in ds && x.staffPer1000.Some? ==> lo <= x.staffPer1000.value <= hi
    ensures var e := StrataSummary(ds, strata);
      && (e.meanBeds.Some? ==> lo <= e.meanBeds.value <= hi)
      && (e.meanStaff.Some? ==> lo <= e.meanStaff.value <= hi)
  {
    var group := Where(ds, LabelIs(Strata, strata));
    forall x | x in group ensures x in ds {
      WhereHolds(ds, LabelIs(Strata, strata), x);
    }
    ColumnMeanWithin(group, BedsPer1000, lo, hi);
    ColumnMeanWithin(group, StaffPer1000, lo, hi);
  }
}
