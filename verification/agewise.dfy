/**
 * The data logic of the AgeWise dashboard: the sidebar menus, the automatic strata,
 * the resolution of the model's features (typed in for forecast years, read from the
 * dataset otherwise), the missing-feature guard before prediction, and the age-group
 * distribution of the selection.
 */
module AgeWise {
  import opened Wrappers
  import opened Ordering
  import opened Dataset
  import Aggregations

  /** The forecast years offered beyond the data, 2024 to 2030. */
  const ForecastYears: seq<int> := [2024, 2025, 2026, 2027, 2028, 2029, 2030]

  /** From this year on, the features come from the sidebar widgets. */
  const FirstManualYear: int := 2024

  /** The strata used when the data offers none. */
  const DefaultStrata: string := "Urban"

  /** The state menu: each non-missing state once, in sorted order. */
  function StateMenu(ds: seq<Record>): (menu: seq<string>)
    ensures StrictlyIncreasing(menu, StrLess)
    ensures forall s :: s in menu <==> exists x :: x in ds && x.state == Some(s)
  {
    StrLessIsStrictTotalOrder();
    SortedUnique(Labels(ds, State), StrLess)
  }

  /**
   * The year menu: the non-missing dataset years together with 2024..2030, each once,
   * in increasing order.
   */
  function YearMenu(ds: seq<Record>): (menu: seq<int>)
    ensures forall i, j :: 0 <= i < j < |menu| ==> menu[i] < menu[j]
    ensures forall y :: y in menu <==> (exists x :: x in ds && x.year == Some(y)) || 2024 <= y <= 2030
  {
    IntLessIsStrictTotalOrder();
    assert forall y :: y in ForecastYears <==> 2024 <= y <= 2030;
    SortedUnique(Years(ds) + ForecastYears, IntLess)
  }

  /** Some row of the selected state and year carries strata `st`. */
  ghost predicate OffersStrata(ds: seq<Record>, state: Option<string>, year: int, st: string) {
    exists x :: x in ds && Holds(StateYear(state, year), x) && x.strata == Some(st)
  }

  /**
   * The strata shown in the sidebar: for a year up to the dataset's last one, the
   * first of the sorted non-missing strata of the selected state and year; "Urban"
   * when there is none, and for every later year.
   */
  function ChooseStrata(ds: seq<Record>, state: Option<string>, year: int): (strata: string)
    ensures (MaxYear(ds).None? || year > MaxYear(ds).value) ==> strata == DefaultStrata
    ensures (exists st :: OffersStrata(ds, state, year, st)) ==>
      && OffersStrata(ds, state, year, strata)
      && forall st :: OffersStrata(ds, state, year, st) && st != strata ==> StrLess(strata, st)
    ensures (forall st :: !OffersStrata(ds, state, year, st)) ==> strata == DefaultStrata
  {
    var maxYear := MaxYear(ds);
    if maxYear.Some? && year <= maxYear.value then
      StrLessIsStrictTotalOrder();
      var selection := Where(ds, StateYear(state, year));
      var options := SortedUnique(Labels(selection, Strata), StrLess);
      assert forall st :: OffersStrata(ds, state, year, st) <==> st in options by {
        forall st ensures OffersStrata(ds, state, year, st) <==> st in options {
          if OffersStrata(ds, state, year, st) {
            var x :| x in ds && Holds(StateYear(state, year), x) && x.strata == Some(st);
            assert x in selection && Label(x, Strata) == Some(st);
          }
          if st in options {
            var x :| x in selection && Label(x, Strata) == Some(st);
          }
        }
      }
      assert options != [] ==> options[0] in options;
      if options != [] then options[0] else DefaultStrata
    else
      assert forall st :: !OffersStrata(ds, state, year, st);
      DefaultStrata
  }

  /**
   * The three sidebar widgets shown for forecast years. The widgets admit a population
   * of at least 10000, an urban % in [0, 100] and an elderly ratio % in [0, 50]; the
   * model passes their values on whatever they are.
   */
  datatype Sidebar = Sidebar(population: int, urbanPct: real, elderlyRatio: real)

  /** The features fed to the model; a mean over no cells is NaN (`None`). */
  datatype Features = Features(strata: string, population: int, urbanPct: Option<real>, elderlyRatio: real)

  datatype Resolution =
    | NoMatchingData
    | Manual(features: Features)
    | Autofilled(features: Features, elderlyCount: nat)

  /**
   * The elderly percentage of the autofill, guarded against division by zero: 0 when
   * the population is 0.
   */
  function GuardedPercentage(part: nat, whole: nat): (r: real)
    ensures whole == 0 ==> r == 0.0
    ensures whole > 0 ==> r * (whole as real) == 100.0 * (part as real)
    ensures part <= whole ==> 0.0 <= r <= 100.0
  {
    if whole > 0 then
      var q := (part as real) / (whole as real);
      assert q * (whole as real) == part as real;
      assert part <= whole ==> q <= 1.0;
      q * 100.0
    else 0.0
  }

  /**
   * The rows the autofill reads: those of the selected state, year and strata, in row
   * order and with repeats; nothing matches when no state is selected. Each row appears
   * as often as in the data (Dataset.WhereCounts, for the StateYearStrata mask).
   */
  function Matched(ds: seq<Record>, state: Option<string>, year: int, strata: string): (matched: seq<Record>)
    ensures IsSubsequence(matched, ds)
    ensures forall x :: x in matched <==>
      x in ds && state.Some? && x.state == state && x.year == Some(year) && x.strata == Some(strata)
  {
    WhereKeepsOrder(ds, StateYearStrata(state, year, strata));
    Where(ds, StateYearStrata(state, year, strata))
  }

  /**
   * Feature resolution. From 2024 on the features are the sidebar values; before,
   * they are read from the rows of the selected state, year and strata: summed
   * population, mean urban %, and the guarded elderly percentage. No matching row
   * stops the page (`NoMatchingData`) rather than producing a zero.
   */
  function Resolve(ds: seq<Record>, state: Option<string>, year: int, sidebar: Sidebar): (r: Resolution)
    ensures r.Manual? <==> year >= FirstManualYear
    ensures !r.NoMatchingData? ==> r.features.strata == ChooseStrata(ds, state, year)
  {
    var strata := ChooseStrata(ds, state, year);
    if year >= FirstManualYear then
      Manual(Features(strata, sidebar.population, Some(sidebar.urbanPct), sidebar.elderlyRatio))
    else
      var matched := Matched(ds, state, year, strata);
      if matched == [] then NoMatchingData
      else
        var population := Population(matched);
        var elderlyCount := Population(Where(matched, Elderly));
        Autofilled(
          Features(strata, population, ColumnMean(matched, UrbanPct), GuardedPercentage(elderlyCount, population)),
          elderlyCount)
  }

  /**
   * For a forecast year the features are exactly the sidebar values whatever the
   * dataset holds: two datasets give the same values.
   */
  lemma ManualFeaturesIgnoreDataset(ds1: seq<Record>, ds2: seq<Record>, state: Option<string>, year: int, sidebar: Sidebar)
    requires year >= FirstManualYear
    ensures var r1, r2 := Resolve(ds1, state, year, sidebar), Resolve(ds2, state, year, sidebar);
      && r1.Manual? && r2.Manual?
      && r1.features.population == r2.features.population == sidebar.population
      && r1.features.urbanPct == r2.features.urbanPct == Some(sidebar.urbanPct)
      && r1.features.elderlyRatio == r2.features.elderlyRatio == sidebar.elderlyRatio
  {
  }

  /**
   * Autofilled features: the population is the sum over the matched rows, the elderly
   * count the sum over their elderly subset and never above it, and the elderly ratio
   * is their guarded percentage, so within [0, 100].
   */
  lemma AutofilledPopulationAndRatio(ds: seq<Record>, state: Option<string>, year: int, sidebar: Sidebar)
    requires Resolve(ds, state, year, sidebar).Autofilled?
    ensures var r := Resolve(ds, state, year, sidebar);
      var matched := Matched(ds, state, year, r.features.strata);
      && year < FirstManualYear
      && matched != []
      && r.features.population == Population(matched)
      && r.elderlyCount == Population(Where(matched, Elderly))
      && r.elderlyCount <= r.features.population
      && r.features.elderlyRatio == GuardedPercentage(r.elderlyCount, r.features.population)
      && 0.0 <= r.features.elderlyRatio <= 100.0
  {
    var strata := ChooseStrata(ds, state, year);
    var matched := Matched(ds, state, year, strata);
    var population := Population(matched);
    var elderlyCount := Population(Where(matched, Elderly));
    PopulationOfWhereAtMost(matched, Elderly);
    assert Resolve(ds, state, year, sidebar)
        == Autofilled(Features(strata, population, ColumnMean(matched, UrbanPct),
                               GuardedPercentage(elderlyCount, population)), elderlyCount);
  }

  /**
   * The autofilled urban % is the column mean of the matched rows: missing exactly when
   * all their cells are, and otherwise within any bounds of those cells, so between
   * their least and greatest.
   */
  lemma AutofilledUrbanPctIsMean(ds: seq<Record>, state: Option<string>, year: int, sidebar: Sidebar, lo: real, hi: real)
    requires Resolve(ds, state, year, sidebar).Autofilled?
    requires forall x :: x in Matched(ds, state, year, ChooseStrata(ds, state, year)) && x.urbanPct.Some? ==>
      lo <= x.urbanPct.value <= hi
    ensures var r := Resolve(ds, state, year, sidebar);
      var matched := Matched(ds, state, year, r.features.strata);
      && r.features.urbanPct == ColumnMean(matched, UrbanPct)
      && (r.features.urbanPct.None? <==> forall x :: x in matched ==> x.urbanPct.None?)
      && (r.features.urbanPct.Some? ==> lo <= r.features.urbanPct.value <= hi)
  {
    var matched := Matched(ds, state, year, ChooseStrata(ds, state, year));
    ColumnMeanWithin(matched, UrbanPct, lo, hi);
  }

  /**
   * Before 2024, resolution stops for lack of data exactly when no row of the
   * selected state and year carries a strata; otherwise the chosen strata is one of
   * theirs, so its filter is never empty.
   */
  lemma HistoricalAbortIffNoStrata(ds: seq<Record>, state: Option<string>, year: int, sidebar: Sidebar)
    requires year < FirstManualYear
    ensures Resolve(ds, state, year, sidebar).NoMatchingData? <==> forall st :: !OffersStrata(ds, state, year, st)
  {
    var strata := ChooseStrata(ds, state, year);
    var matched := Matched(ds, state, year, strata);
    if exists st :: OffersStrata(ds, state, year, st) {
      var x :| x in ds && Holds(StateYear(state, year), x) && x.strata == Some(strata);
      assert x in matched;
    } else {
      assert forall x :: x in matched ==> OffersStrata(ds, state, year, strata);
      FirstIsMember(matched);
    }
  }

  lemma FirstIsMember<T>(s: seq<T>)
    ensures s != [] ==> s[0] in s
  {
  }

  /** The one-row frame built for the model; a missing cell is `None`. */
  datatype InputFrame = InputFrame(
    year: Option<int>,
    state: Option<string>,
    strata: Option<string>,
    population: Option<int>,
    urbanPct: Option<real>,
    elderlyRatio: Option<real>)

  /** The frame holding exactly the values of a complete model input. */
  function FrameOf(i: ModelInput): InputFrame {
    InputFrame(Some(i.year), Some(i.state), Some(i.strata), Some(i.population), Some(i.urbanPct), Some(i.elderlyRatio))
  }

  predicate IsComplete(f: InputFrame) {
    f.year.Some? && f.state.Some? && f.strata.Some? && f.population.Some? && f.urbanPct.Some? && f.elderlyRatio.Some?
  }

  datatype AbortReason = NoMatchingRows | MissingFeature

  /** What the prediction panel ends in: a stopped page, or the input handed to the model. */
  datatype Panel = Aborted(reason: AbortReason) | Ready(input: ModelInput)

  /**
   * The missing-feature guard: a frame with any missing cell stops
   * the page; a complete frame goes to the model unchanged, with no placeholder.
   */
  function CheckComplete(f: InputFrame): (p: Panel)
    ensures p.Ready? <==> IsComplete(f)
    ensures p.Ready? ==> FrameOf(p.input) == f
    ensures p.Aborted? ==> p.reason == MissingFeature
  {
    if IsComplete(f) then
      Ready(ModelInput(f.year.value, f.state.value, f.strata.value, f.population.value, f.urbanPct.value, f.elderlyRatio.value))
    else Aborted(MissingFeature)
  }

  /** A complete input passes the guard as it is. */
  lemma CheckCompleteAcceptsComplete(i: ModelInput)
    ensures CheckComplete(FrameOf(i)) == Ready(i)
  {
  }

  /**
   * The one-row frame of the selected year and state and the resolved features. Only
   * two cells can be missing: the state (an empty menu) and the urban % (a mean over
   * no cells); a complete frame holds exactly those values.
   */
  function AssembleFrame(year: int, state: Option<string>, f: Features): (frame: InputFrame)
    ensures IsComplete(frame) <==> state.Some? && f.urbanPct.Some?
    ensures IsComplete(frame) ==>
      frame == FrameOf(ModelInput(year, state.value, f.strata, f.population, f.urbanPct.value, f.elderlyRatio))
  {
    InputFrame(Some(year), state, Some(f.strata), Some(f.population), f.urbanPct, Some(f.elderlyRatio))
  }

  /**
   * The whole panel: resolve the features, build the frame, guard it. The model is
   * reached exactly when resolution found data, a state is selected and the urban %
   * is not NaN; it then receives the resolved values unchanged. Otherwise the panel
   * stops, giving the reason.
   */
  function PredictionPanel(ds: seq<Record>, state: Option<string>, year: int, sidebar: Sidebar): (p: Panel)
    ensures var r := Resolve(ds, state, year, sidebar);
      && (r.NoMatchingData? ==> p == Aborted(NoMatchingRows))
      && (!r.NoMatchingData? ==>
            && (p.Ready? <==> state.Some? && r.features.urbanPct.Some?)
            && (p.Aborted? ==> p.reason == MissingFeature)
            && (p.Ready? ==> p.input == ModelInput(year, state.value, r.features.strata, r.features.population,
                                                    r.features.urbanPct.value, r.features.elderlyRatio)))
  {
    match Resolve(ds, state, year, sidebar)
    case NoMatchingData => Aborted(NoMatchingRows)
    case Manual(f) => CheckComplete(AssembleFrame(year, state, f))
    case Autofilled(f, _) => CheckComplete(AssembleFrame(year, state, f))
  }

  /** For a forecast year and a selected state, the model receives the sidebar values. */
  lemma ForecastPanelUsesSidebar(ds: seq<Record>, state: string, year: int, sidebar: Sidebar)
    requires year >= FirstManualYear
    ensures PredictionPanel(ds, Some(state), year, sidebar)
         == Ready(ModelInput(year, state, ChooseStrata(ds, Some(state), year),
                             sidebar.population, sidebar.urbanPct, sidebar.elderlyRatio))
  {
  }

  /** If every matched row lacks an urban %, the panel stops instead of predicting. */
  lemma MissingUrbanPctStopsPanel(ds: seq<Record>, state: Option<string>, year: int, sidebar: Sidebar)
    requires year < FirstManualYear
    requires forall x :: x in Matched(ds, state, year, ChooseStrata(ds, state, year)) ==> x.urbanPct.None?
    ensures PredictionPanel(ds, state, year, sidebar).Aborted?
  {
  }

  /**
   * A worked case: Selangor in 2023 with 1,000,000 urban residents, 150,000 of them
   * elderly, and an urban share of 90%.
   */
  function SelangorRows(): seq<Record> {
    [Record(Some("Selangor"), Some(2023), Some("Urban"), Some("65-69"), 150000, true, Some(90.0), None, None),
     Record(Some("Selangor"), Some(2023), Some("Urban"), Some("30-34"), 850000, false, Some(90.0), None, None)]
  }

  lemma SelangorStrata()
    ensures ChooseStrata(SelangorRows(), Some("Selangor"), 2023) == "Urban"
  {
    var ds := SelangorRows();
    assert ds[0] in ds && Holds(StateYear(Some("Selangor"), 2023), ds[0]);
    assert OffersStrata(ds, Some("Selangor"), 2023, "Urban");
    var strata := ChooseStrata(ds, Some("Selangor"), 2023);
    var x :| x in ds && Holds(StateYear(Some("Selangor"), 2023), x) && x.strata == Some(strata);
    var i :| 0 <= i < |ds| && ds[i] == x;
    assert ds[i].strata == Some("Urban") by {
      assert i == 0 || i == 1;
    }
  }

  lemma SelangorSums()
    ensures Matched(SelangorRows(), Some("Selangor"), 2023, "Urban") == SelangorRows()
    ensures Population(SelangorRows()) == 1000000
    ensures Population(Where(SelangorRows(), Elderly)) == 150000
  {
    var ds := SelangorRows();
    assert Where(ds, Elderly) == [ds[0]];
  }

  lemma SelangorUrbanPct()
    ensures ColumnMean(SelangorRows(), UrbanPct) == Some(90.0)
  {
    assert Values(SelangorRows(), UrbanPct) == [90.0, 90.0];
  }

  /** The worked case reaches the model as population 1,000,000, urban % 90 and elderly ratio 15. */
  lemma SelangorExample(sidebar: Sidebar)
    ensures PredictionPanel(SelangorRows(), Some("Selangor"), 2023, sidebar)
         == Ready(ModelInput(2023, "Selangor", "Urban", 1000000, 90.0, 15.0))
  {
    var ds := SelangorRows();
    SelangorStrata();
    SelangorSums();
    SelangorUrbanPct();
    assert GuardedPercentage(150000, 1000000) == 15.0;
    var features := Features("Urban", 1000000, Some(90.0), 15.0);
    assert Resolve(ds, Some("Selangor"), 2023, sidebar) == Autofilled(features, 150000);
    var input := ModelInput(2023, "Selangor", "Urban", 1000000, 90.0, 15.0);
    assert AssembleFrame(2023, Some("Selangor"), features) == FrameOf(input);
    CheckCompleteAcceptsComplete(input);
  }

  /** The fixed display order of the age groups. */
  const AgeBands: seq<string> := [
    "0-4", "5-9", "10-14", "15-19", "20-24", "25-29", "30-34", "35-39",
    "40-44", "45-49", "50-54", "55-59", "60-64", "65-69",
    "70-74", "75-79", "80-84", "85+"]

  function Digit(c: char): int {
    c as int - '0' as int
  }

  /** The first age a band label covers: its leading one or two digits. */
  function LowerAge(band: string): int {
    if |band| < 2 then 0
    else if '0' <= band[1] <= '9' then 10 * Digit(band[0]) + Digit(band[1])
    else Digit(band[0])
  }

  /** The bands run in ascending age, five years apart, so no label repeats. */
  lemma AgeBandsAscending()
    ensures forall i :: 0 <= i < |AgeBands| ==> LowerAge(AgeBands[i]) == 5 * i
    ensures Distinct(AgeBands)
  {
    forall i | 0 <= i < |AgeBands| ensures LowerAge(AgeBands[i]) == 5 * i {
    }
  }

  /**
   * The rows of the selected state and year, in row order and with repeats; each appears
   * as often as in the data (Dataset.WhereCounts, for the StateYear mask).
   */
  function Selection(ds: seq<Record>, state: Option<string>, year: int): (selection: seq<Record>)
    ensures IsSubsequence(selection, ds)
    ensures forall x :: x in selection <==> x in ds && state.Some? && x.state == state && x.year == Some(year)
  {
    WhereKeepsOrder(ds, StateYear(state, year));
    Where(ds, StateYear(state, year))
  }

  /**
   * Population by age group for the selected state and year, in the fixed band order;
   * `None` ("not available") when no row is selected.
   */
  function AgeDistribution(ds: seq<Record>, state: Option<string>, year: int): (d: Option<seq<Group>>)
    ensures d.None? <==> Selection(ds, state, year) == []
    ensures d.Some? ==> IsSubsequence(Keys(d.value), AgeBands) && Distinct(Keys(d.value))
    ensures d.Some? ==> forall g :: g in d.value ==>
      var band := Where(Selection(ds, state, year), LabelIs(Age, g.key));
      band != [] && g.population == Population(band)
    ensures d.Some? ==> forall b :: b in AgeBands && (exists x :: x in Selection(ds, state, year) && x.age == Some(b)) ==>
      b in Keys(d.value)
  {
    var selection := Selection(ds, state, year);
    if selection == [] then None
    else
      var groups := GroupPopulation(selection, Age, AgeBands);
      AgeBandsAscending();
      SubsequenceKeepsDistinct(Keys(groups), AgeBands);
      PresentBandsAreGrouped(selection);
      Some(groups)
  }

  lemma PresentBandsAreGrouped(selection: seq<Record>)
    ensures forall b :: b in AgeBands && (exists x :: x in selection && x.age == Some(b)) ==>
      b in Keys(GroupPopulation(selection, Age, AgeBands))
  {
    forall b | b in AgeBands && (exists x :: x in selection && x.age == Some(b))
      ensures b in Keys(GroupPopulation(selection, Age, AgeBands))
    {
      var x :| x in selection && x.age == Some(b);
      WhereKeeps(selection, LabelIs(Age, b), x);
    }
  }

  /**
   * When every selected row is labelled with one of the bands, the distribution is
   * non-empty for a non-empty selection and its band totals add up to the selection's
   * population.
   */
  lemma AgeDistributionTotal(ds: seq<Record>, state: Option<string>, year: int)
    requires forall x :: x in Selection(ds, state, year) ==> x.age.Some? && x.age.value in AgeBands
    ensures var d := AgeDistribution(ds, state, year);
      d.Some? ==> d.value != [] && GroupsTotal(d.value) == Population(Selection(ds, state, year))
  {
    var selection := Selection(ds, state, year);
    if selection != [] {
      AgeBandsAscending();
      GroupPopulationTotal(selection, Age, AgeBands);
      var x := selection[0];
      assert x in selection;
      WhereKeeps(selection, LabelIs(Age, x.age.value), x);
    }
  }

  /** The sections rendered below the sidebar, in page order. */
  datatype Sections = Sections(
    ages: Option<seq<Group>>,
    elderlyRatios: seq<Aggregations.StateAging>,
    resources: seq<Aggregations.StrataResources>,
    prediction: Panel)

  /**
   * The page below the sidebar. A historical selection without matching rows stops the
   * script while the sidebar is being filled, so no section renders (`None`);
   * otherwise the age distribution, the elderly ratios in display order, the resource
   * comparison and the prediction panel are all shown. A shown historical page always
   * has an age distribution: its matched rows are among the selected ones.
   */
  function Page(ds: seq<Record>, state: Option<string>, year: int, sidebar: Sidebar): (page: Option<Sections>)
    ensures page.None? <==> Resolve(ds, state, year, sidebar).NoMatchingData?
    ensures page.Some? ==> page.value.ages == AgeDistribution(ds, state, year)
    ensures page.Some? ==> page.value.elderlyRatios == Aggregations.SortByRatioDescending(Aggregations.ElderlyRatioByState(ds))
    ensures page.Some? ==> page.value.resources == Aggregations.ResourceComparison(ds)
    ensures page.Some? ==> page.value.prediction == PredictionPanel(ds, state, year, sidebar)
    ensures page.Some? ==> page.value.prediction != Aborted(NoMatchingRows)
    ensures page.Some? && year < FirstManualYear ==> page.value.ages.Some?
  {
    if Resolve(ds, state, year, sidebar).NoMatchingData? then None
    else
      assert year < FirstManualYear ==> Selection(ds, state, year) != [] by {
        if year < FirstManualYear {
          HistoricalPageHasAges(ds, state, year, sidebar);
        }
      }
      Some(Sections(
        AgeDistribution(ds, state, year),
        Aggregations.SortByRatioDescending(Aggregations.ElderlyRatioByState(ds)),
        Aggregations.ResourceComparison(ds),
        PredictionPanel(ds, state, year, sidebar)))
  }

  lemma HistoricalPageHasAges(ds: seq<Record>, state: Option<string>, year: int, sidebar: Sidebar)
    requires Resolve(ds, state, year, sidebar).Autofilled?
    ensures Selection(ds, state, year) != []
  {
    var matched := Matched(ds, state, year, ChooseStrata(ds, state, year));
    assert matched[0] in matched;
    assert matched[0] in Selection(ds, state, year);
  }
}
