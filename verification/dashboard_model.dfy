/**
 * The simpler dashboard: menus read from the data only, age groups in the group-by's
 * own order, and a model input built from sliders with a fixed "Urban" strata and the
 * elderly ratio as a fraction. The per-state elderly ratio and the resource comparison
 * are the same expressions as in the AgeWise dashboard (module Aggregations).
 */
module DashboardModel {
  import opened Wrappers
  import opened Ordering
  import opened Dataset
  import AgeWise

  /** The year menu: the dataset's years, each once, increasing. */
  function YearMenu(ds: seq<Record>): (menu: seq<int>)
    ensures forall i, j :: 0 <= i < j < |menu| ==> menu[i] < menu[j]
    ensures forall y :: y in menu <==> exists x :: x in ds && x.year == Some(y)
  {
    IntLessIsStrictTotalOrder();
    SortedUnique(Years(ds), IntLess)
  }

  /** No year after the data's last one is offered, so this dashboard never forecasts. */
  lemma YearMenuHasNoFutureYear(ds: seq<Record>)
    ensures YearMenu(ds) == [] <==> MaxYear(ds).None?
    ensures forall y :: y in YearMenu(ds) ==> y <= MaxYear(ds).value
  {
    var menu := YearMenu(ds);
    if menu != [] {
      assert menu[0] in menu;
    }
  }

  /** Every year this menu offers, the AgeWise menu offers as well. */
  lemma YearMenuWithinAgeWiseMenu(ds: seq<Record>)
    ensures forall y :: y in YearMenu(ds) ==> y in AgeWise.YearMenu(ds)
  {
  }

  /**
   * The age grouping: one entry per distinct age label of
   * the selected state and year, in the labels' string order, with its summed
   * population; no reordering by age band.
   */
  function AgeGrouping(ds: seq<Record>, state: Option<string>, year: int): (gs: seq<Group>)
    ensures StrictlyIncreasing(Keys(gs), StrLess)
    ensures forall k :: k in Keys(gs) <==> exists x :: x in AgeWise.Selection(ds, state, year) && x.age == Some(k)
    ensures forall g :: g in gs ==>
      g.population == Population(Where(AgeWise.Selection(ds, state, year), LabelIs(Age, g.key)))
  {
    GroupBy(AgeWise.Selection(ds, state, year), Age)
  }

  /** When no selected row lacks an age, the entries add up to the selection's population. */
  lemma AgeGroupingTotal(ds: seq<Record>, state: Option<string>, year: int)
    requires forall x :: x in AgeWise.Selection(ds, state, year) ==> x.age.Some?
    ensures GroupsTotal(AgeGrouping(ds, state, year)) == Population(AgeWise.Selection(ds, state, year))
  {
    GroupByTotal(AgeWise.Selection(ds, state, year), Age);
  }

  lemma KeyHasGroup(gs: seq<Group>, k: string) returns (i: nat)
    requires k in Keys(gs)
    ensures i < |gs| && gs[i].key == k
  {
    var ks := Keys(gs);
    i :| i < |ks| && ks[i] == k;
  }

  /**
   * The two dashboards chart the same age totals and differ only in order: every
   * entry of the AgeWise distribution is an entry here, and every entry here whose
   * label is one of the 18 bands is one there.
   */
  lemma AgeGroupingAgreesWithDistribution(ds: seq<Record>, state: Option<string>, year: int)
    ensures var d := AgeWise.AgeDistribution(ds, state, year);
      d.Some? ==> forall g :: g in d.value ==> g in AgeGrouping(ds, state, year)
    ensures var d := AgeWise.AgeDistribution(ds, state, year);
      d.Some? ==> forall g :: g in AgeGrouping(ds, state, year) && g.key in AgeWise.AgeBands ==> g in d.value
  {
    var d := AgeWise.AgeDistribution(ds, state, year);
    if d.Some? {
      DistributionWithinGrouping(ds, state, year, d.value);
      GroupingWithinDistribution(ds, state, year, d.value);
    }
  }

  lemma DistributionWithinGrouping(ds: seq<Record>, state: Option<string>, year: int, dist: seq<Group>)
    requires AgeWise.AgeDistribution(ds, state, year) == Some(dist)
    ensures forall g :: g in dist ==> g in AgeGrouping(ds, state, year)
  {
    var selection := AgeWise.Selection(ds, state, year);
    var grouping := AgeGrouping(ds, state, year);
    forall g | g in dist ensures g in grouping {
      var band := Where(selection, LabelIs(Age, g.key));
      assert band[0] in band;
      WhereHolds(selection, LabelIs(Age, g.key), band[0]);
      assert g.key in Keys(grouping);
      var i := KeyHasGroup(grouping, g.key);
      assert grouping[i] in grouping;
    }
  }

  lemma GroupingWithinDistribution(ds: seq<Record>, state: Option<string>, year: int, dist: seq<Group>)
    requires AgeWise.AgeDistribution(ds, state, year) == Some(dist)
    ensures forall g :: g in AgeGrouping(ds, state, year) && g.key in AgeWise.AgeBands ==> g in dist
  {
    var grouping := AgeGrouping(ds, state, year);
    forall g | g in grouping && g.key in AgeWise.AgeBands ensures g in dist {
      assert g.key in Keys(grouping) by {
        var i :| 0 <= i < |grouping| && grouping[i] == g;
      }
      var j := KeyHasGroup(dist, g.key);
      assert dist[j] in dist;
    }
  }

  /** The sidebar controls: two integer sliders and the population box. */
  datatype Sliders = Sliders(urbanPct: int, elderlyRatioPct: int, population: int)

  /** What the widgets admit: urban % in [50, 100], elderly % in [0, 50], population at least 10000. */
  predicate WithinSliderRanges(s: Sliders) {
    50 <= s.urbanPct <= 100 && 0 <= s.elderlyRatioPct <= 50 && s.population >= 10000
  }

  /**
   * The model input: the selected year and state, always the "Urban" strata, the
   * slider values, and the elderly percentage divided by 100.
   */
  function ModelInputFor(year: int, state: string, s: Sliders): (input: ModelInput)
    ensures input.year == year && input.state == state && input.strata == AgeWise.DefaultStrata
    ensures input.population == s.population && input.urbanPct == s.urbanPct as real
    ensures input.elderlyRatio * 100.0 == s.elderlyRatioPct as real
  {
    ModelInput(year, state, AgeWise.DefaultStrata, s.population, s.urbanPct as real, (s.elderlyRatioPct as real) / 100.0)
  }

  /**
   * Within the widget ranges the input has population at least 10000, an integral
   * urban % in [50, 100] and an elderly fraction in [0, 0.5].
   */
  lemma ModelInputWithinRanges(year: int, state: string, s: Sliders)
    requires WithinSliderRanges(s)
    ensures var input := ModelInputFor(year, state, s);
      && input.population >= 10000
      && 50.0 <= input.urbanPct <= 100.0 && input.urbanPct == input.urbanPct.Floor as real
      && 0.0 <= input.elderlyRatio <= 0.5
  {
  }

  /**
   * For the same percentage and a forecast year, the AgeWise dashboard hands the model
   * 100 times the elderly ratio this one does: the two send it in different units.
   */
  lemma ElderlyRatioUnitsDiffer(ds: seq<Record>, state: string, year: int, sidebar: AgeWise.Sidebar, s: Sliders)
    requires year >= AgeWise.FirstManualYear
    requires sidebar.elderlyRatio == s.elderlyRatioPct as real
    ensures AgeWise.PredictionPanel(ds, Some(state), year, sidebar).Ready?
    ensures AgeWise.PredictionPanel(ds, Some(state), year, sidebar).input.elderlyRatio
         == 100.0 * ModelInputFor(year, state, s).elderlyRatio
  {
    AgeWise.ForecastPanelUsesSidebar(ds, state, year, sidebar);
  }
}
