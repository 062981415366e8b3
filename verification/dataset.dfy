/**
 * The cleaned healthcare dataset both dashboards load, and the pandas operations
 * they apply to it: boolean-mask filters, column sums and means that skip missing
 * cells, and `groupby(<label>)["population"].sum()`.
 */
module Dataset {
  import opened Wrappers
  import opened Ordering

  /** One row of the dataset; a missing (NaN) cell is `None`. */
  datatype Record = Record(
    state: Option<string>,
    year: Option<int>,
    strata: Option<string>,
    age: Option<string>,
    population: nat,
    isElderly: bool,
    urbanPct: Option<real>,
    bedsPer1000: Option<real>,
    staffPer1000: Option<real>)

  /** The label columns the dashboards group by. */
  datatype Category = State | Strata | Age

  /** The real-valued columns the dashboards average. */
  datatype Measure = UrbanPct | BedsPer1000 | StaffPer1000

  function Label(r: Record, c: Category): Option<string> {
    match c
    case State => r.state
    case Strata => r.strata
    case Age => r.age
  }

  function Measurement(r: Record, m: Measure): Option<real> {
    match m
    case UrbanPct => r.urbanPct
    case BedsPer1000 => r.bedsPer1000
    case StaffPer1000 => r.staffPer1000
  }

  /**
   * The boolean masks the dashboards build. A selected state of `None` (an empty
   * state menu) compares unequal to every cell, as `df["state"] == None` does.
   */
  datatype Mask =
    | StateYear(state: Option<string>, year: int)
    | StateYearStrata(state: Option<string>, year: int, strata: string)
    | Elderly
    | LabelIs(category: Category, value: string)
    | Measured(measure: Measure)

  /** Whether a row passes the mask; `Measured` keeps the cells a pandas reduction does not skip. */
  predicate Holds(m: Mask, r: Record) {
    match m
    case StateYear(s, y) => s.Some? && r.state == s && r.year == Some(y)
    case StateYearStrata(s, y, st) => s.Some? && r.state == s && r.year == Some(y) && r.strata == Some(st)
    case Elderly => r.isElderly
    case LabelIs(c, v) => Label(r, c) == Some(v)
    case Measured(c) => Measurement(r, c).Some?
  }

  /**
   * `df[mask]`: the rows the mask keeps, in their original order (`WhereKeepsOrder`) and
   * each as often as it occurs (`WhereCounts`), since every sum over the result counts
   * repeated rows again.
   */
  function Where(rows: seq<Record>, m: Mask): (r: seq<Record>)
    ensures |r| <= |rows|
    ensures forall x :: x in r <==> x in rows && Holds(m, x)
  {
    if rows == [] then []
    else (if Holds(m, rows[0]) then [rows[0]] else []) + Where(rows[1..], m)
  }

  /** The kept rows stay in their original order: the result is a subsequence of the frame. */
  lemma {:induction false} WhereKeepsOrder(rows: seq<Record>, m: Mask)
    ensures IsSubsequence(Where(rows, m), rows)
  {
    if rows != [] {
      WhereKeepsOrder(rows[1..], m);
      var rest := Where(rows[1..], m);
      if Holds(m, rows[0]) {
        assert Where(rows, m) == [rows[0]] + rest;
        assert ([rows[0]] + rest)[1..] == rest;
      } else {
        assert Where(rows, m) == rest;
        SubsequenceOfTail(rest, rows);
      }
    }
  }

  /** A kept row occurs in the result exactly as often as in the frame; a dropped row never. */
  lemma {:induction false} WhereCounts(rows: seq<Record>, m: Mask)
    ensures forall x :: multiset(Where(rows, m))[x] == if Holds(m, x) then multiset(rows)[x] else 0
  {
    if rows != [] {
      WhereCounts(rows[1..], m);
      assert rows == [rows[0]] + rows[1..];
      if Holds(m, rows[0]) {
        assert Where(rows, m) == [rows[0]] + Where(rows[1..], m);
      } else {
        assert Where(rows, m) == Where(rows[1..], m);
      }
    }
  }

  lemma WhereKeeps(rows: seq<Record>, m: Mask, x: Record)
    requires x in rows && Holds(m, x)
    ensures x in Where(rows, m)
  {
  }

  lemma WhereHolds(rows: seq<Record>, m: Mask, x: Record)
    requires x in Where(rows, m)
    ensures x in rows && Holds(m, x)
  {
  }

  /** `df["population"].sum()`; 0 for an empty frame, and at least any one row's count. */
  function Population(rows: seq<Record>): (total: nat)
    ensures forall x :: x in rows ==> x.population <= total
  {
    if rows == [] then 0
    else
      assert forall x :: x in rows ==> x == rows[0] || x in rows[1..];
      rows[0].population + Population(rows[1..])
  }

  /** The total of two frames stacked together is the sum of their totals. */
  lemma {:induction false} PopulationAppend(a: seq<Record>, b: seq<Record>)
    ensures Population(a + b) == Population(a) + Population(b)
  {
    if a == [] {
      assert a + b == b;
    } else {
      assert (a + b)[1..] == a[1..] + b;
      PopulationAppend(a[1..], b);
    }
  }

  lemma PopulationOfWhereStep(rows: seq<Record>, m: Mask)
    requires rows != []
    ensures Population(Where(rows, m))
         == (if Holds(m, rows[0]) then rows[0].population else 0) + Population(Where(rows[1..], m))
  {
    var rest := Where(rows[1..], m);
    if Holds(m, rows[0]) {
      assert Where(rows, m) == [rows[0]] + rest;
      assert ([rows[0]] + rest)[1..] == rest;
    } else {
      assert Where(rows, m) == rest;
    }
  }

  /** Filtering a frame never raises its population total. */
  lemma {:induction false} PopulationOfWhereAtMost(rows: seq<Record>, m: Mask)
    ensures Population(Where(rows, m)) <= Population(rows)
  {
    if rows != [] {
      PopulationOfWhereStep(rows, m);
      PopulationOfWhereAtMost(rows[1..], m);
    }
  }

  /** Narrowing a filter by a further mask never raises its population total. */
  lemma {:induction false} PopulationOfNestedWhereAtMost(rows: seq<Record>, first: Mask, second: Mask)
    ensures Population(Where(Where(rows, first), second)) <= Population(Where(rows, second))
  {
    if rows != [] {
      var x := rows[0];
      PopulationOfWhereStep(rows, second);
      PopulationOfNestedWhereAtMost(rows[1..], first, second);
      if Holds(first, x) {
        assert Where(rows, first) == [x] + Where(rows[1..], first);
        assert ([x] + Where(rows[1..], first))[1..] == Where(rows[1..], first);
        PopulationOfWhereStep(Where(rows, first), second);
      } else {
        assert Where(rows, first) == Where(rows[1..], first);
      }
    }
  }

  /**
   * The non-missing values of a label column, in row order and with repeats; the
   * menus remove the repeats afterwards (`SortedUnique`).
   */
  function Labels(rows: seq<Record>, c: Category): (r: seq<string>)
    ensures forall v :: v in r <==> exists x :: x in rows && Label(x, c) == Some(v)
  {
    if rows == [] then []
    else
      var rest := Labels(rows[1..], c);
      assert forall x :: x in rows <==> x == rows[0] || x in rows[1..];
      match Label(rows[0], c)
      case None => rest
      case Some(v) => [v] + rest
  }

  /** The non-missing years, in row order and with repeats; `SortedUnique` removes the repeats. */
  function Years(rows: seq<Record>): (r: seq<int>)
    ensures forall y :: y in r <==> exists x :: x in rows && x.year == Some(y)
  {
    if rows == [] then []
    else
      var rest := Years(rows[1..]);
      assert forall x :: x in rows <==> x == rows[0] || x in rows[1..];
      match rows[0].year
      case None => rest
      case Some(y) => [y] + rest
  }

  /** `df["year"].max()`: the largest year present, `None` (NaN) when no row has one. */
  function MaxYear(rows: seq<Record>): (m: Option<int>)
    ensures m.None? <==> forall x :: x in rows ==> x.year.None?
    ensures m.Some? ==> exists x :: x in rows && x.year == m
    ensures m.Some? ==> forall x :: x in rows && x.year.Some? ==> x.year.value <= m.value
  {
    if rows == [] then None
    else
      var rest := MaxYear(rows[1..]);
      assert forall x :: x in rows <==> x == rows[0] || x in rows[1..];
      match rows[0].year
      case None => rest
      case Some(y) => if rest.Some? && rest.value > y then rest else Some(y)
  }

  /** `vs` lists the cells of column `m` of `rows`, one per row, in order. */
  ghost predicate CellsOf(vs: seq<real>, rows: seq<Record>, m: Measure) {
    |vs| == |rows| && forall i :: 0 <= i < |vs| ==> Measurement(rows[i], m) == Some(vs[i])
  }

  /**
   * The non-missing cells of a real-valued column: one value per row that has one, in
   * row order, with repeats, as a pandas reduction with `skipna` sees them.
   */
  function Values(rows: seq<Record>, m: Measure): (r: seq<real>)
    ensures forall v :: v in r <==> exists x :: x in rows && Measurement(x, m) == Some(v)
    ensures CellsOf(r, Where(rows, Measured(m)), m)
  {
    if rows == [] then []
    else
      var rest := Values(rows[1..], m);
      var r := if Measurement(rows[0], m).Some? then [Measurement(rows[0], m).value] + rest else rest;
      assert forall v :: v in r <==> exists x :: x in rows && Measurement(x, m) == Some(v) by {
        assert forall x :: x in rows <==> x == rows[0] || x in rows[1..];
      }
      CellsOfStep(rows, m, rest);
      r
  }

  lemma {:induction false} CellsOfStep(rows: seq<Record>, m: Measure, rest: seq<real>)
    requires rows != [] && CellsOf(rest, Where(rows[1..], Measured(m)), m)
    ensures CellsOf(if Measurement(rows[0], m).Some? then [Measurement(rows[0], m).value] + rest else rest,
                    Where(rows, Measured(m)), m)
  {
    var cells := Where(rows[1..], Measured(m));
    if Measurement(rows[0], m).Some? {
      var vs := [Measurement(rows[0], m).value] + rest;
      var ws := [rows[0]] + cells;
      assert Where(rows, Measured(m)) == ws;
      forall i | 0 < i < |vs| ensures Measurement(ws[i], m) == Some(vs[i]) {
        assert ws[i] == cells[i - 1] && vs[i] == rest[i - 1];
      }
    } else {
      assert Where(rows, Measured(m)) == cells;
    }
  }

  function Sum(xs: seq<real>): real {
    if xs == [] then 0.0 else xs[0] + Sum(xs[1..])
  }

  lemma {:induction false} SumWithin(xs: seq<real>, lo: real, hi: real)
    requires forall x :: x in xs ==> lo <= x <= hi
    ensures (|xs| as real) * lo <= Sum(xs) <= (|xs| as real) * hi
  {
    if xs != [] {
      assert forall x :: x in xs[1..] ==> x in xs;
      assert xs[0] in xs;
      SumWithin(xs[1..], lo, hi);
      assert Sum(xs) == xs[0] + Sum(xs[1..]);
      BoundsStep(|xs[1..]| as real, Sum(xs[1..]), xs[0], lo, hi, |xs| as real);
    }
  }

  lemma BoundsStep(n: real, s: real, x: real, lo: real, hi: real, n1: real)
    requires n * lo <= s <= n * hi && lo <= x <= hi
    requires n1 == n + 1.0
    ensures n1 * lo <= x + s <= n1 * hi
  {
    assert n1 * lo == n * lo + lo;
    assert n1 * hi == n * hi + hi;
  }

  /** The arithmetic mean; `None` (NaN) for no values. */
  function Mean(xs: seq<real>): (r: Option<real>)
    ensures r.None? <==> xs == []
    ensures r.Some? ==> r.value * (|xs| as real) == Sum(xs)
  {
    if xs == [] then None else Some(Sum(xs) / (|xs| as real))
  }

  /** A mean lies within any bounds of the values it averages, in particular between their least and greatest. */
  lemma MeanWithin(xs: seq<real>, lo: real, hi: real)
    requires xs != []
    requires forall x :: x in xs ==> lo <= x <= hi
    ensures lo <= Mean(xs).value <= hi
  {
    SumWithin(xs, lo, hi);
    var n := |xs| as real;
    var v := Mean(xs).value;
    assert v * n == Sum(xs);
    assert (v - lo) * n == v * n - n * lo;
    assert (hi - v) * n == n * hi - v * n;
    assert (v - lo) * n >= 0.0 && (hi - v) * n >= 0.0;
  }

  /** `frame[column].mean()`: the mean of the non-missing cells, NaN when there are none. */
  function ColumnMean(rows: seq<Record>, m: Measure): (r: Option<real>)
    ensures r.None? <==> forall x :: x in rows ==> Measurement(x, m).None?
    ensures r.Some? ==> IsMeanOf(r.value, Values(rows, m))
  {
    var vs := Values(rows, m);
    ValuesEmptyIff(rows, m);
    MeanTimesCount(vs);
    Mean(vs)
  }

  /** `v` times the number of values is their sum: `v` is their mean. */
  predicate IsMeanOf(v: real, xs: seq<real>) {
    v * (|xs| as real) == Sum(xs)
  }

  lemma MeanTimesCount(xs: seq<real>)
    ensures Mean(xs).Some? ==> IsMeanOf(Mean(xs).value, xs)
  {
    if xs != [] {
      var n := |xs| as real;
      assert Mean(xs).value * n == Sum(xs);
    }
  }

  lemma ValuesEmptyIff(rows: seq<Record>, m: Measure)
    ensures Values(rows, m) == [] <==> forall x :: x in rows ==> Measurement(x, m).None?
  {
    var vs := Values(rows, m);
    assert vs != [] ==> vs[0] in vs;
    assert forall x :: x in rows && Measurement(x, m).Some? ==> Measurement(x, m).value in vs;
  }

  /**
   * When every non-missing cell of a column lies in [lo, hi], so does its mean;
   * taking lo and hi as the least and greatest cell, the mean lies between them.
   */
  lemma ColumnMeanWithin(rows: seq<Record>, m: Measure, lo: real, hi: real)
    requires forall x :: x in rows && Measurement(x, m).Some? ==> lo <= Measurement(x, m).value <= hi
    ensures ColumnMean(rows, m).Some? ==> lo <= ColumnMean(rows, m).value <= hi
  {
    var vs := Values(rows, m);
    if vs != [] {
      MeanWithin(vs, lo, hi);
    }
  }

  /** One row of `groupby(<label>)["population"].sum().reset_index()`. */
  datatype Group = Group(key: string, population: nat)

  function Keys(groups: seq<Group>): (ks: seq<string>)
    ensures |ks| == |groups|
    ensures forall i :: 0 <= i < |groups| ==> ks[i] == groups[i].key
  {
    seq(|groups|, i requires 0 <= i < |groups| => groups[i].key)
  }

  function GroupsTotal(groups: seq<Group>): nat {
    if groups == [] then 0 else groups[0].population + GroupsTotal(groups[1..])
  }

  /**
   * The population groups for the labels in `keys`, in the order of `keys`: one group
   * per key that some row carries (absent keys are omitted, not zero-filled), holding the
   * summed population of the rows with that label.
   */
  function GroupPopulation(rows: seq<Record>, c: Category, keys: seq<string>): (gs: seq<Group>)
    ensures IsSubsequence(Keys(gs), keys)
    ensures forall g :: g in gs ==>
      Where(rows, LabelIs(c, g.key)) != [] && g.population == Population(Where(rows, LabelIs(c, g.key)))
    ensures forall k :: k in keys && Where(rows, LabelIs(c, k)) != [] ==> k in Keys(gs)
  {
    if keys == [] then []
    else
      var matching := Where(rows, LabelIs(c, keys[0]));
      var rest := GroupPopulation(rows, c, keys[1..]);
      if matching == [] then
        SubsequenceOfTail(Keys(rest), keys);
        rest
      else
        var gs := [Group(keys[0], Population(matching))] + rest;
        assert Keys(gs) == [keys[0]] + Keys(rest);
        assert Keys(gs)[1..] == Keys(rest);
        gs
  }

  /** A key heads a group exactly when it is one of `keys` and some row carries it. */
  lemma GroupPopulationKeys(rows: seq<Record>, c: Category, keys: seq<string>)
    ensures forall k :: k in Keys(GroupPopulation(rows, c, keys)) <==>
      k in keys && exists x :: x in rows && Label(x, c) == Some(k)
  {
    var gs := GroupPopulation(rows, c, keys);
    SubsequenceMembers(Keys(gs), keys);
    forall k | k in Keys(gs)
      ensures exists x :: x in rows && Label(x, c) == Some(k)
    {
      var i :| 0 <= i < |gs| && Keys(gs)[i] == k;
      assert gs[i] in gs;
      var w := Where(rows, LabelIs(c, k));
      assert w[0] in w;
    }
    forall k, x | k in keys && x in rows && Label(x, c) == Some(k)
      ensures k in Keys(gs)
    {
      WhereKeeps(rows, LabelIs(c, k), x);
    }
  }

  /** Sum, over `keys`, of the population of the rows carrying each key. */
  function KeyedPopulation(rows: seq<Record>, c: Category, keys: seq<string>): nat {
    if keys == [] then 0
    else Population(Where(rows, LabelIs(c, keys[0]))) + KeyedPopulation(rows, c, keys[1..])
  }

  /** The part of `KeyedPopulation` that a single row contributes. */
  function RowShare(x: Record, c: Category, keys: seq<string>): nat {
    if keys == [] then 0
    else (if Label(x, c) == Some(keys[0]) then x.population else 0) + RowShare(x, c, keys[1..])
  }

  lemma {:induction false} GroupsTotalIsKeyedPopulation(rows: seq<Record>, c: Category, keys: seq<string>)
    ensures GroupsTotal(GroupPopulation(rows, c, keys)) == KeyedPopulation(rows, c, keys)
  {
    if keys != [] {
      GroupsTotalIsKeyedPopulation(rows, c, keys[1..]);
    }
  }

  lemma {:induction false} KeyedPopulationStep(rows: seq<Record>, c: Category, keys: seq<string>)
    requires rows != []
    ensures KeyedPopulation(rows, c, keys) == RowShare(rows[0], c, keys) + KeyedPopulation(rows[1..], c, keys)
  {
    if keys != [] {
      PopulationOfWhereStep(rows, LabelIs(c, keys[0]));
      KeyedPopulationStep(rows, c, keys[1..]);
    }
  }

  lemma {:induction false} RowShareOfDistinctKeys(x: Record, c: Category, keys: seq<string>)
    requires Distinct(keys)
    ensures RowShare(x, c, keys) == if Label(x, c).Some? && Label(x, c).value in keys then x.population else 0
  {
    if keys != [] {
      assert Distinct(keys[1..]);
      RowShareOfDistinctKeys(x, c, keys[1..]);
      assert forall k :: k in keys <==> k == keys[0] || k in keys[1..];
      assert keys[0] !in keys[1..];
    }
  }

  lemma {:induction false} KeyedPopulationCoversAll(rows: seq<Record>, c: Category, keys: seq<string>)
    requires Distinct(keys)
    requires forall x :: x in rows ==> Label(x, c).Some? && Label(x, c).value in keys
    ensures KeyedPopulation(rows, c, keys) == Population(rows)
  {
    if rows == [] {
      KeyedPopulationOfNoRows(c, keys);
    } else {
      KeyedPopulationStep(rows, c, keys);
      RowShareOfDistinctKeys(rows[0], c, keys);
      KeyedPopulationCoversAll(rows[1..], c, keys);
    }
  }

  lemma {:induction false} KeyedPopulationOfNoRows(c: Category, keys: seq<string>)
    ensures KeyedPopulation([], c, keys) == 0
  {
    if keys != [] {
      KeyedPopulationOfNoRows(c, keys[1..]);
    }
  }

  /**
   * When every row carries one of the (distinct) keys, the groups add up to the
   * frame's whole population: grouping loses and double-counts nothing.
   */
  lemma GroupPopulationTotal(rows: seq<Record>, c: Category, keys: seq<string>)
    requires Distinct(keys)
    requires forall x :: x in rows ==> Label(x, c).Some? && Label(x, c).value in keys
    ensures GroupsTotal(GroupPopulation(rows, c, keys)) == Population(rows)
  {
    GroupsTotalIsKeyedPopulation(rows, c, keys);
    KeyedPopulationCoversAll(rows, c, keys);
  }

  /**
   * `df.groupby(<label>)["population"].sum().reset_index()`: one group per distinct
   * non-missing label, in sorted label order, holding that label's summed population.
   */
  function GroupBy(rows: seq<Record>, c: Category): (gs: seq<Group>)
    ensures StrictlyIncreasing(Keys(gs), StrLess)
    ensures forall k :: k in Keys(gs) <==> exists x :: x in rows && Label(x, c) == Some(k)
    ensures forall g :: g in gs ==> g.population == Population(Where(rows, LabelIs(c, g.key)))
  {
    StrLessIsStrictTotalOrder();
    var keys := SortedUnique(Labels(rows, c), StrLess);
    var gs := GroupPopulation(rows, c, keys);
    SubsequenceKeepsOrder(Keys(gs), keys, StrLess);
    GroupPopulationKeys(rows, c, keys);
    gs
  }

  /** With no missing label, the groups of `GroupBy` add up to the whole population. */
  lemma GroupByTotal(rows: seq<Record>, c: Category)
    requires forall x :: x in rows ==> Label(x, c).Some?
    ensures GroupsTotal(GroupBy(rows, c)) == Population(rows)
  {
    StrLessIsStrictTotalOrder();
    var keys := SortedUnique(Labels(rows, c), StrLess);
    StrictlyIncreasingIsDistinct(keys, StrLess);
    GroupPopulationTotal(rows, c, keys);
  }

  /** The one-row frame handed to the trained model. */
  datatype ModelInput = ModelInput(
    year: int,
    state: string,
    strata: string,
    population: int,
    urbanPct: real,
    elderlyRatio: real)
}
