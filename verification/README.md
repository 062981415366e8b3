# AgeWise dashboards: a Dafny model of the data logic

AgeWise is a pair of Streamlit dashboards about Malaysia's ageing population and
healthcare resources. Both read one table of region-year rows: state, year, strata
(urban/rural), age band, population, an elderly flag, urban %, beds and staff per 1000
people. They chart summaries of it and hand a one-row feature record to a trained
model that predicts hospital bed needs.

This project models the deterministic logic inside those scripts as pure Dafny
functions over a dataset given as `seq<Record>`:

- `Columns`: the header normalisation applied on load.
- `Ordering`: Python's string and integer order, and sorted duplicate-free menus.
- `Dataset`: the row type, boolean masks, sums, means and group-by-sum.
- `Aggregations`: the elderly ratio per state and its descending display order, and
  the per-strata comparison of beds and staff. Both dashboards compute these the same
  way.
- `AgeWise`, for `AgeWise_Dashboard.py`:
  - the state and year menus (with the forecast years 2024-2030) and the automatic strata;
  - feature resolution: sidebar values from 2024 on; before 2024, values read from the
    matching rows, or an abort when there are none;
  - the missing-feature guard before prediction;
  - the age distribution in the fixed 18-band order.
- `DashboardModel`, for `dashboard_model.py`: a year menu read from the data only, the
  age grouping in plain label order, and the slider-built model input. That input has
  a fixed "Urban" strata and sends the elderly ratio as a fraction.

Data conventions:

- Missing (NaN) cells are `None` of `Option`.
- Population is a `nat`.
- Ratios and means are `real`, so no rounding is modelled.
- A page that `st.stop()`s is a result variant (`NoMatchingData`, `Aborted`).
- The dataset and the widget values are parameters.

Points where the scripts behave differently from what one might expect of such a
dashboard, modelled as the code does them:

- The per-state elderly ratio is an inner join of the elderly sums with the total
  sums. A state with no elderly row is therefore absent; an outer join would list it
  with ratio 0 (`Aggregations.ElderlyRatioKeepsOnlyElderlyStates`).
- The ratio column has no division guard. A state whose total population is 0 gets
  NaN (`None`).
- The forecast years are the fixed range 2024-2030, not a horizon measured from the
  last year in the data.
- Manual entry starts at the fixed year 2024, while the strata choice tests "at most
  the data's last year", so the two thresholds do not depend on the data in the same
  way. The model keeps them separate. `AgeWise.ChooseStrata` shows that the strata
  test is harmless: a year with no rows gets "Urban" either way.

## Model

| member | source | states |
|---|---|---|
| Columns.StripLeading | AgeWise_Dashboard.py:9 | drops exactly the leading whitespace: the result is a suffix, starting with a non-space, and every removed character is whitespace |
| Columns.Strip | AgeWise_Dashboard.py:9 | the result is a contiguous stretch of the header with only whitespace before and after it, and neither starts nor ends with whitespace |
| Columns.StripTrailing | AgeWise_Dashboard.py:9 | drops exactly the trailing whitespace: the result is a prefix, ending with a non-space, and every removed character is whitespace |
| Columns.Lower | AgeWise_Dashboard.py:9 | same length, each character lower-cased |
| Columns.SpacesToUnderscores | AgeWise_Dashboard.py:9 | same length, each space replaced by '_' and every other character kept |
| Columns.NormalizeColumn | AgeWise_Dashboard.py:9 | a normalised header holds no space and no upper-case letter, and has no whitespace at either end |
| Columns.NormalizeColumns | AgeWise_Dashboard.py:9 | every header is normalised in place, in order, none added or lost |
| Columns.NormalizeColumnIdempotent | AgeWise_Dashboard.py:9 | normalising a normalised header changes nothing |
| Ordering.SortedUnique | AgeWise_Dashboard.py:20 | the sorted unique values: strictly increasing, holding exactly the input's values |
| Ordering.SortedUniqueIsCanonical | AgeWise_Dashboard.py:25 | any strictly increasing sequence of the same values is that result, so the menu does not depend on row order |
| Ordering.StrLessIsStrictTotalOrder | AgeWise_Dashboard.py:30-32 | Python's string order is irreflexive, transitive and total, so sorting labels is well defined |
| Dataset.Where | AgeWise_Dashboard.py:46-50 | a filter keeps exactly the rows satisfying the mask and never grows the frame |
| Dataset.WhereKeepsOrder | AgeWise_Dashboard.py:46-50 | the kept rows stay in their original order: the result is a subsequence of the frame |
| Dataset.WhereCounts | AgeWise_Dashboard.py:46-50 | a kept row occurs in the result exactly as often as in the frame, a dropped row never, so repeated rows are summed again |
| Dataset.Population | AgeWise_Dashboard.py:56 | the population total is at least the count of every row in the frame |
| Dataset.PopulationAppend | AgeWise_Dashboard.py:56 | the total of two frames stacked together is the sum of their totals |
| Dataset.PopulationOfWhereAtMost | AgeWise_Dashboard.py:58 | a filtered population sum never exceeds the unfiltered one |
| Dataset.PopulationOfNestedWhereAtMost | AgeWise_Dashboard.py:85-92 | the elderly population of a state never exceeds that state's population |
| Dataset.Labels | AgeWise_Dashboard.py:31 | exactly the non-missing values of a label column (repeats are removed later, by `Ordering.SortedUnique`) |
| Dataset.Years | AgeWise_Dashboard.py:24 | exactly the non-missing years |
| Dataset.MaxYear | AgeWise_Dashboard.py:29 | missing iff every year is missing; otherwise a year of some row and at least every year present |
| Dataset.SumWithin | AgeWise_Dashboard.py:57 | n values within [lo, hi] sum to within [n*lo, n*hi] |
| Dataset.Mean | AgeWise_Dashboard.py:57 | NaN iff there are no values; otherwise the mean times the count is the sum |
| Dataset.MeanWithin | AgeWise_Dashboard.py:57 | the mean of values within [lo, hi] lies within [lo, hi] |
| Dataset.Values | AgeWise_Dashboard.py:57 | exactly the values of the non-missing cells, one per row that has a cell, in row order with repeats: the i-th value is the cell of the i-th such row |
| Dataset.ColumnMean | AgeWise_Dashboard.py:57 | a column mean is NaN exactly when every cell is missing; otherwise it times the number of non-missing cells equals their sum |
| Dataset.ColumnMeanWithin | AgeWise_Dashboard.py:57 | a column mean lies within any bounds of the non-missing cells |
| Dataset.GroupPopulation | AgeWise_Dashboard.py:70-75 | groups follow the order of the given key list, each with a non-empty set of rows and their summed population, and every listed key that has rows gets a group |
| Dataset.GroupPopulationKeys | AgeWise_Dashboard.py:70-75 | a key heads a group iff it is listed and some row carries it |
| Dataset.GroupPopulationTotal | AgeWise_Dashboard.py:70-75 | with distinct keys covering every row's label, the group totals add up to the whole population |
| Dataset.GroupBy | AgeWise_Dashboard.py:87-92 | one group per distinct non-missing label, in strictly increasing label order, each with its rows' summed population |
| Dataset.GroupByTotal | AgeWise_Dashboard.py:92 | with no missing label, the group totals add up to the whole population |
| Aggregations.Percentage | AgeWise_Dashboard.py:94 | NaN iff the whole is 0; otherwise ratio times whole equals 100 times part, and within [0, 100] when part <= whole |
| Aggregations.InnerJoin | AgeWise_Dashboard.py:93-94 | rows follow the left keys; each row pairs a left group with the right group of the same state and carries their percentage; a key on both sides is never dropped |
| Aggregations.ElderlyRatioByState | AgeWise_Dashboard.py:85-94 | one row per state in sorted order; elderly and total are that state's sums, elderly <= total, and the ratio is their percentage, NaN iff the total is 0, otherwise in [0, 100] |
| Aggregations.JoinedStateSums | dashboard_model.py:33-42 | each joined row holds the state's elderly and total sums with elderly <= total and a ratio in [0, 100] |
| Aggregations.ElderlyRatioKeepsOnlyElderlyStates | dashboard_model.py:33-41 | a state appears iff it has at least one elderly row (inner join) |
| Aggregations.InsertByRatio | dashboard_model.py:44 | inserting into a descending list keeps it descending and adds exactly that row |
| Aggregations.SortByRatioDescending | AgeWise_Dashboard.py:96 | a permutation of the rows in which the ratio never increases, NaN ratios last |
| Aggregations.StrataSummary | AgeWise_Dashboard.py:104 | the row of one strata carries that strata, and each of its means is NaN exactly when no row of the strata has that cell, and otherwise is the mean of those cells: it times their count equals their sum |
| Aggregations.ResourceComparison | AgeWise_Dashboard.py:104 | exactly one row per distinct strata, in sorted order, each over a non-empty group, holding that group's mean beds and mean staff per 1000 |
| Aggregations.ResourceMeansWithin | dashboard_model.py:53 | every mean lies within any bounds of the beds and staff cells |
| AgeWise.StateMenu | AgeWise_Dashboard.py:20 | strictly increasing, and exactly the non-missing states |
| AgeWise.YearMenu | AgeWise_Dashboard.py:24-25 | strictly increasing, and exactly the non-missing dataset years together with 2024..2030 |
| AgeWise.ChooseStrata | AgeWise_Dashboard.py:29-35 | "Urban" past the data's last year; otherwise the least strata carried by a row of the state and year, or "Urban" when there is none |
| AgeWise.GuardedPercentage | AgeWise_Dashboard.py:58-59 | exactly 0 when the population is 0; otherwise ratio times population equals 100 times the elderly count; within [0, 100] when count <= population |
| AgeWise.Resolve | AgeWise_Dashboard.py:40-59 | features are manual iff the year is 2024 or later, and resolved features carry the chosen strata |
| AgeWise.ManualFeaturesIgnoreDataset | AgeWise_Dashboard.py:40-44 | from 2024 on, both datasets give manual features, and the population, urban % and elderly ratio are the sidebar values whatever the dataset holds |
| AgeWise.AutofilledPopulationAndRatio | AgeWise_Dashboard.py:56-59 | autofill happens only before 2024, over a non-empty match: population is the matched sum, the elderly count is the elderly sum and at most the population, and the ratio is their guarded percentage, in [0, 100] |
| AgeWise.Matched | AgeWise_Dashboard.py:46-50 | the matched rows are a subsequence of the data, and exactly the rows of the selected state, year and strata; none when no state is selected |
| AgeWise.AutofilledUrbanPctIsMean | AgeWise_Dashboard.py:57 | the autofilled urban % is the column mean of the matched rows: NaN iff every matched cell is missing, and otherwise within any bounds of the matched cells |
| AgeWise.HistoricalAbortIffNoStrata | AgeWise_Dashboard.py:46-54 | before 2024, resolution aborts for lack of data iff no row of the state and year carries a strata |
| AgeWise.CheckComplete | AgeWise_Dashboard.py:133-136 | the model is reached iff no field is missing, and then receives exactly the frame's values |
| AgeWise.CheckCompleteAcceptsComplete | AgeWise_Dashboard.py:124-136 | a complete input passes the guard unchanged |
| AgeWise.AssembleFrame | AgeWise_Dashboard.py:124-131 | the input frame is complete iff a state is selected and the urban % is not NaN, and a complete frame holds the year, state and resolved features |
| AgeWise.PredictionPanel | AgeWise_Dashboard.py:124-139 | prediction happens iff resolution found data, a state is selected and the urban % is not NaN; it then uses the resolved values with no substitute, and otherwise the page stops with its reason |
| AgeWise.ForecastPanelUsesSidebar | AgeWise_Dashboard.py:124-131 | for a forecast year the model receives the sidebar values |
| AgeWise.MissingUrbanPctStopsPanel | AgeWise_Dashboard.py:133-136 | with no urban % in the matched rows, a historical prediction is never made |
| AgeWise.SelangorExample | AgeWise_Dashboard.py:46-59 | Selangor 2023 with 1,000,000 people, 150,000 elderly and 90% urban reaches the model as (2023, Selangor, Urban, 1000000, 90, 15) |
| AgeWise.AgeBandsAscending | AgeWise_Dashboard.py:71-73 | the 18 bands run in ascending age, five years apart, with no label repeated |
| AgeWise.Selection | AgeWise_Dashboard.py:68 | the selected rows are a subsequence of the data, and exactly the rows of the selected state and year |
| AgeWise.AgeDistribution | AgeWise_Dashboard.py:68-75 | not available iff no row is selected; otherwise bands appear once each, in the fixed band order, with the band's summed population, and every band present in the selection is shown |
| AgeWise.PresentBandsAreGrouped | AgeWise_Dashboard.py:70-75 | a band carried by a selected row is in the distribution |
| AgeWise.Page | AgeWise_Dashboard.py:52-140 | the page stops before sections 1 to 5 iff the historical autofill finds no matching row; otherwise it shows the age distribution of the selection (always present for a historical year), the per-state elderly ratios in descending display order, the per-strata resource comparison, and the prediction panel, which never aborts for lack of rows; each section is exactly the function that computes it |
| AgeWise.HistoricalPageHasAges | AgeWise_Dashboard.py:46-69 | when the autofill succeeds, the state-and-year selection of section 1 is non-empty |
| AgeWise.AgeDistributionTotal | AgeWise_Dashboard.py:68-75 | when every selected age is a band, a non-empty selection gives a non-empty distribution whose totals add up to the selection's population |
| DashboardModel.YearMenu | dashboard_model.py:17 | strictly increasing, and exactly the non-missing dataset years |
| DashboardModel.YearMenuHasNoFutureYear | dashboard_model.py:17 | the menu is empty iff no year is present, and it offers no year after the data's last one |
| DashboardModel.YearMenuWithinAgeWiseMenu | dashboard_model.py:17 | every year offered here is offered by the AgeWise menu |
| DashboardModel.AgeGrouping | dashboard_model.py:24-25 | one entry per distinct age of the selection, in string order rather than band order, with its summed population |
| DashboardModel.AgeGroupingTotal | dashboard_model.py:25 | with no missing age, the entries add up to the selection's population |
| DashboardModel.AgeGroupingAgreesWithDistribution | dashboard_model.py:24-25 | the two dashboards chart the same band totals: every AgeWise entry is an entry here, and every entry here whose label is a band is an AgeWise entry |
| DashboardModel.ModelInputFor | dashboard_model.py:74-81 | the input carries the selected year and state, strata "Urban", the slider population and urban %, and an elderly ratio whose hundredfold is the slider percentage |
| DashboardModel.ModelInputWithinRanges | dashboard_model.py:18-20 | within the widget ranges: population >= 10000, an integral urban % in [50, 100], elderly ratio in [0, 0.5] |
| DashboardModel.ElderlyRatioUnitsDiffer | dashboard_model.py:80 | for the same forecast percentage, AgeWise sends the model 100 times the elderly ratio this dashboard sends |

## Left out

- Streamlit widgets, layout and messages. The widget values are parameters. The
  second dashboard's slider ranges are preconditions of the lemmas that rely on them.
  `st.stop()` is a result variant: `AgeWise.Page` is `None` when the autofill stops
  the page.
- The Plotly charts and the population-versus-staff scatter panel (section 4, absent
  from `AgeWise.Page`). Its `dropna` feeds only the chart.
- Reading the CSV file and loading the trained model: both are file I/O. The dataset
  is a parameter.
- `model.predict` and the integer truncation of its output. The model is an opaque
  trained random forest, so the model stops at the record handed to it.
- Floating-point rounding and NaN propagation. Values are exact reals and NaN is `None`.
- The header of the urban column in the model input frame. It is the original text
  rather than the normalised name, and it does not affect any value.
- Columns.Lower: lower-cases only the ASCII letters A-Z. Python's `str.lower()` also
  lowers other Unicode letters, so `Columns.NormalizeColumn` is stated for ASCII
  upper case only.
- AgeWise.AgeDistribution: omits age labels outside the 18 bands. pandas keeps such
  rows with an undefined category, sorted last. Its totals lemma requires every
  selected age is a band.
- Aggregations.SortByRatioDescending: places rows of equal ratio in their original
  order. pandas' default sort is not stable, so its order among ties is left
  unspecified.
- The state menu of `dashboard_model.py` (line 16) is `AgeWise.StateMenu`, which
  ignores missing states. A missing state cell makes Python's sort fail there, which
  is not modelled.
- DashboardModel.YearMenu: lists only the years that are present. There, a missing
  year would be offered as NaN.
- An empty year menu in `dashboard_model.py` makes the selected year `None`, which the
  model cannot receive. `DashboardModel.ModelInputFor` takes a year.
- A missing population cell is modelled as 0. Every use of the column is a sum, and
  pandas' sum skips NaN, so the totals are unaffected.
- Column types beyond the modelled fields (staff count, the integer or float dtype of
  years) are not modelled.
