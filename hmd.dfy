/** Excess mortality from the Human Mortality Database short-term mortality
    fluctuation series: a per-stratum 2015-2019 baseline, the 2020 excess over it,
    and an optional daily series with a capped back-fill. */
module Hmd {
  import opened Tables

  /** The death-count columns that remain after loading, in table order. */
  const DEATH_COLUMNS: seq<string> := ["D0_14", "D15_64", "D65_74", "D75_84", "D85p", "DTotal"]
  const NUM_COLUMNS: nat := 6
  /** Position of `DTotal` among the death-count columns. */
  const TOTAL: nat := 5

  /** The fixed renaming of the death-count columns of the excess table. */
  const COLUMN_NAMES: map<string, string> := map[
    "D0_14" := "deaths_excess_weekly_age_0_to_14",
    "D15_64" := "deaths_excess_weekly_age_15_to_64",
    "D65_74" := "deaths_excess_weekly_age_65_to_74",
    "D75_84" := "deaths_excess_weekly_age_75_to_84",
    "D85p" := "deaths_excess_weekly_age_85_plus",
    "DTotal" := "deaths_excess_weekly"]

  /** The reference window is 2015 <= Year < 2020, and 2020 is the year compared with it. */
  const FIRST_BASELINE_YEAR: int := 2015
  const CURRENT_YEAR: int := 2020
  /** A week-end date stands for the six days before it as well. */
  const WEEK_LEAD: nat := 6
  /** Maximum number of days the daily average is carried backwards. */
  const BFILL_LIMIT: nat := 7

  /** One row of the raw table: ISO code, sex label, week, year and the death counts. */
  datatype RawRow = RawRow(iso: string, sex: string, week: int, year: int, deaths: seq<Option<real>>)

  /** One weekly excess record; `values` follows DEATH_COLUMNS (renamed by COLUMN_NAMES). */
  datatype ExcessRecord = ExcessRecord(
    iso: string, sex: string, week: int, date: Date,
    values: seq<Option<real>>, dailyAvg: Option<real>)

  /** One day of a resampled (ISO, Sex) series. */
  datatype DailyRow = DailyRow(iso: string, sex: string, date: Date, values: seq<Option<real>>, dailyAvg: Option<real>)

  /** Reindexing a series with two records on one date fails. */
  datatype ResampleError = DuplicateDates(iso: string, sex: string)

  /** What `get_data` returns: the weekly records, or the daily series. */
  datatype Output = Weekly(records: seq<ExcessRecord>) | Daily(rows: seq<DailyRow>)

  /** The stratum-week a raw row belongs to: the group key of the baseline. */
  function KeyOf(r: RawRow): (string, string, int)
  {
    (r.iso, r.sex, r.week)
  }

  predicate InBaselineWindow(year: int)
  {
    FIRST_BASELINE_YEAR <= year < CURRENT_YEAR
  }

  // ---------------------------------------------------------------------------
  // Baseline: the per-stratum-week mean over the reference years

  /** The present values of column `c` over the reference-year rows of stratum-week `k`, in row order. */
  function WindowValues(raw: seq<RawRow>, k: (string, string, int), c: nat): seq<real>
  {
    if raw == [] then []
    else
      var r := raw[0];
      (if InBaselineWindow(r.year) && KeyOf(r) == k && Cell(r.deaths, c).Some? then [Cell(r.deaths, c).value] else [])
      + WindowValues(raw[1..], k, c)
  }

  function Sum(xs: seq<real>): real
  {
    if xs == [] then 0.0 else xs[0] + Sum(xs[1..])
  }

  /** The arithmetic mean, missing for no values (pandas' NaN-skipping mean). */
  function Mean(xs: seq<real>): (m: Option<real>)
    ensures m.Some? <==> |xs| > 0
    ensures m.Some? ==> m.value * (|xs| as real) == Sum(xs)
  {
    if |xs| == 0 then None else Some(Sum(xs) / (|xs| as real))
  }

  /** The baseline of column `c` for stratum-week `k`. */
  function Baseline(raw: seq<RawRow>, k: (string, string, int), c: nat): (b: Option<real>)
    ensures b.Some? <==> exists q :: q in raw && InBaselineWindow(q.year) && KeyOf(q) == k && Cell(q.deaths, c).Some?
  {
    WindowValuesPresent(raw, k, c);
    Mean(WindowValues(raw, k, c))
  }

  /** A stratum-week has window values in column `c` exactly when some reference-year row of it has a value there. */
  lemma {:induction false} WindowValuesPresent(raw: seq<RawRow>, k: (string, string, int), c: nat)
    ensures |WindowValues(raw, k, c)| > 0 <==>
      exists q :: q in raw && InBaselineWindow(q.year) && KeyOf(q) == k && Cell(q.deaths, c).Some?
  {
    if raw != [] {
      WindowValuesPresent(raw[1..], k, c);
      assert forall q :: q in raw <==> q == raw[0] || q in raw[1..];
    }
  }

  lemma {:induction false} WindowValuesAppend(a: seq<RawRow>, b: seq<RawRow>, k: (string, string, int), c: nat)
    ensures WindowValues(a + b, k, c) == WindowValues(a, k, c) + WindowValues(b, k, c)
  {
    if a == [] {
      assert a + b == b;
    } else {
      assert (a + b)[0] == a[0] && (a + b)[1..] == a[1..] + b;
      WindowValuesAppend(a[1..], b, k, c);
    }
  }

  /** The baseline depends on exactly the reference-year rows of its own stratum-week:
      appending any other row leaves it as it was. */
  lemma BaselineIgnoresOtherRows(raw: seq<RawRow>, r: RawRow, k: (string, string, int), c: nat)
    requires !InBaselineWindow(r.year) || KeyOf(r) != k
    ensures Baseline(raw + [r], k, c) == Baseline(raw, k, c)
  {
    WindowValuesAppend(raw, [r], k, c);
    assert WindowValues([r], k, c) == [];
    assert WindowValues(raw, k, c) + [] == WindowValues(raw, k, c);
  }

  /** A stratum-week with no reference-year row has no baseline in any column. */
  lemma {:induction false} NoReferenceRowsNoBaseline(raw: seq<RawRow>, k: (string, string, int), c: nat)
    requires forall q :: q in raw && InBaselineWindow(q.year) ==> KeyOf(q) != k
    ensures Baseline(raw, k, c).None?
    ensures WindowValues(raw, k, c) == []
  {
    if raw != [] {
      assert forall q :: q in raw[1..] ==> q in raw;
      NoReferenceRowsNoBaseline(raw[1..], k, c);
    }
  }

  lemma {:induction false} SumConstant(xs: seq<real>, v: real)
    requires forall i :: 0 <= i < |xs| ==> xs[i] == v
    ensures Sum(xs) == (|xs| as real) * v
  {
    if xs != [] {
      SumConstant(xs[1..], v);
    }
  }

  lemma {:induction false} WindowValuesConstant(raw: seq<RawRow>, k: (string, string, int), c: nat, v: real)
    requires forall q :: q in raw && InBaselineWindow(q.year) && KeyOf(q) == k && Cell(q.deaths, c).Some? ==>
      Cell(q.deaths, c).value == v
    ensures forall i :: 0 <= i < |WindowValues(raw, k, c)| ==> WindowValues(raw, k, c)[i] == v
  {
    if raw != [] {
      assert forall q :: q in raw[1..] ==> q in raw;
      WindowValuesConstant(raw[1..], k, c, v);
    }
  }

  lemma {:induction false} WindowValuesNonEmpty(raw: seq<RawRow>, k: (string, string, int), c: nat, j: nat)
    requires j < |raw| && InBaselineWindow(raw[j].year) && KeyOf(raw[j]) == k && Cell(raw[j].deaths, c).Some?
    ensures |WindowValues(raw, k, c)| > 0
  {
    if j > 0 {
      WindowValuesNonEmpty(raw[1..], k, c, j - 1);
    }
  }

  /** When every reference-year value of a stratum-week is `v`, the baseline is `v`. */
  lemma BaselineOfConstant(raw: seq<RawRow>, k: (string, string, int), c: nat, v: real, j: nat)
    requires j < |raw| && InBaselineWindow(raw[j].year) && KeyOf(raw[j]) == k && Cell(raw[j].deaths, c).Some?
    requires forall q :: q in raw && InBaselineWindow(q.year) && KeyOf(q) == k && Cell(q.deaths, c).Some? ==>
      Cell(q.deaths, c).value == v
    ensures Baseline(raw, k, c) == Some(v)
  {
    var xs := WindowValues(raw, k, c);
    WindowValuesNonEmpty(raw, k, c, j);
    WindowValuesConstant(raw, k, c, v);
    MeanOfConstant(xs, v);
  }

  /** The mean of values that are all `v` is `v`. */
  lemma MeanOfConstant(xs: seq<real>, v: real)
    requires |xs| > 0 && forall i :: 0 <= i < |xs| ==> xs[i] == v
    ensures Mean(xs) == Some(v)
  {
    SumConstant(xs, v);
    var n := |xs| as real;
    var m := Mean(xs).value;
    assert m * n == v * n;
    ProductCancel(m, v, n);
  }

  lemma ProductCancel(a: real, b: real, n: real)
    requires n > 0.0 && a * n == b * n
    ensures a == b
  {
    assert (a - b) * n == 0.0;
  }

  // ---------------------------------------------------------------------------
  // Excess: the 2020 value minus the baseline

  /** Column-wise subtraction of aligned frames: missing when either side is missing. */
  function Sub(x: Option<real>, y: Option<real>): Option<real>
  {
    if x.Some? && y.Some? then Some(x.value - y.value) else None
  }

  /** `Sex` relabelling: b, m, f become Total, Male, Female; every other label stays. */
  function NormalizeSex(s: string): (r: string)
    ensures r != "b" && r != "m" && r != "f"
    ensures s != "b" && s != "m" && s != "f" ==> r == s
  {
    if s == "b" then "Total" else if s == "m" then "Male" else if s == "f" then "Female" else s
  }

  /** The pooled German population code becomes the standard code; every other code stays. */
  function NormalizeIso(iso: string): (r: string)
    ensures r != "DEUTNP"
    ensures iso != "DEUTNP" ==> r == iso
  {
    if iso == "DEUTNP" then "DEU" else iso
  }

  /** The weekly total divided by seven; missing when the total is. */
  function DailyAverage(weekly: Option<real>): (d: Option<real>)
    ensures d.Some? <==> weekly.Some?
    ensures d.Some? ==> d.value * 7.0 == weekly.value
  {
    if weekly.Some? then Some(weekly.value / 7.0) else None
  }

  /** The daily average of a record times seven is its weekly total, and it is present exactly when the total is. */
  predicate DailyAverageConsistent(e: ExcessRecord)
  {
    |e.values| == NUM_COLUMNS &&
    (e.dailyAvg.Some? <==> e.values[TOTAL].Some?) &&
    (e.dailyAvg.Some? ==> e.dailyAvg.value * 7.0 == e.values[TOTAL].value)
  }

  /** The excess record a raw row yields, if any: only 2020 rows yield one, and only when at
      least one column has both a 2020 value and a baseline (all-missing rows are dropped). */
  function ExcessOf(raw: seq<RawRow>, r: RawRow, lastDay: (int, int) -> Date): (e: Option<ExcessRecord>)
    ensures e.Some? <==>
      r.year == CURRENT_YEAR &&
      exists c :: 0 <= c < NUM_COLUMNS && Cell(r.deaths, c).Some? && Baseline(raw, KeyOf(r), c).Some?
    ensures e.Some? ==>
      e.value.iso == NormalizeIso(r.iso) && e.value.sex == NormalizeSex(r.sex) &&
      e.value.week == r.week && e.value.date == lastDay(CURRENT_YEAR, r.week) &&
      |e.value.values| == NUM_COLUMNS &&
      (forall c :: 0 <= c < NUM_COLUMNS ==>
        (e.value.values[c].Some? <==> Cell(r.deaths, c).Some? && Baseline(raw, KeyOf(r), c).Some?) &&
        (e.value.values[c].Some? ==>
          e.value.values[c].value == Cell(r.deaths, c).value - Baseline(raw, KeyOf(r), c).value))
    ensures e.Some? ==> DailyAverageConsistent(e.value)
  {
    if r.year != CURRENT_YEAR then None
    else
      var d := seq(NUM_COLUMNS, c requires 0 <= c < NUM_COLUMNS => Sub(Cell(r.deaths, c), Baseline(raw, KeyOf(r), c)));
      // dropna(how='all'): a difference is missing exactly when one of its two sides is
      if !exists c :: 0 <= c < NUM_COLUMNS && Cell(r.deaths, c).Some? && Baseline(raw, KeyOf(r), c).Some? then None
      else
        Some(ExcessRecord(NormalizeIso(r.iso), NormalizeSex(r.sex), r.week, lastDay(CURRENT_YEAR, r.week),
                          d, DailyAverage(d[TOTAL])))
  }

  /** The weekly excess table: one record per surviving 2020 row, in row order. */
  function Excess(raw: seq<RawRow>, lastDay: (int, int) -> Date): (ex: seq<ExcessRecord>)
    ensures |ex| <= |raw|
    ensures forall e :: e in ex <==> exists q :: q in raw && ExcessOf(raw, q, lastDay) == Some(e)
  {
    FilterMap(raw, r => ExcessOf(raw, r, lastDay))
  }

  /** Every record comes from a 2020 row of the raw table, subtracts that row's stratum-week
      baseline column by column, and carries a daily average equal to a seventh of its total;
      and every 2020 row with a non-missing difference in some column yields a record. */
  lemma ExcessRecords(raw: seq<RawRow>, lastDay: (int, int) -> Date)
    ensures forall e :: e in Excess(raw, lastDay) ==>
      DailyAverageConsistent(e) &&
      exists r :: r in raw && r.year == CURRENT_YEAR && ExcessOf(raw, r, lastDay) == Some(e)
    ensures forall r :: r in raw && ExcessOf(raw, r, lastDay).Some? ==> ExcessOf(raw, r, lastDay).value in Excess(raw, lastDay)
  {
  }

  /** A 2020 row whose stratum-week has no reference-year row yields no record. */
  lemma NoBaselineDropped(raw: seq<RawRow>, r: RawRow, lastDay: (int, int) -> Date)
    requires forall q :: q in raw && InBaselineWindow(q.year) ==> KeyOf(q) != KeyOf(r)
    ensures ExcessOf(raw, r, lastDay).None?
  {
    forall c | 0 <= c < NUM_COLUMNS ensures Baseline(raw, KeyOf(r), c).None? {
      NoReferenceRowsNoBaseline(raw, KeyOf(r), c);
    }
  }

  /** A raw row of stratum-week ("XYZ", "b", 1) with only a total death count. */
  function ExampleRow(year: int, total: real): RawRow
  {
    RawRow("XYZ", "b", 1, year, [None, None, None, None, None, Some(total)])
  }

  /** Reference years 2015-2019 with totals 10, 20, 30, 40, 50, a 2014 row outside the window and a 2020 row of 45. */
  function ExampleTable(): seq<RawRow>
  {
    [ExampleRow(2014, 1000.0), ExampleRow(2015, 10.0), ExampleRow(2016, 20.0), ExampleRow(2017, 30.0),
     ExampleRow(2018, 40.0), ExampleRow(2019, 50.0), ExampleRow(2020, 45.0)]
  }

  /** The reference-window totals of the example's stratum-week, in row order; the 2014 row plays no part. */
  lemma ExampleWindow()
    ensures WindowValues(ExampleTable(), ("XYZ", "b", 1), TOTAL) == [10.0, 20.0, 30.0, 40.0, 50.0]
  {
    var raw := ExampleTable();
    var k := ("XYZ", "b", 1);
    assert WindowValues(raw[7..], k, TOTAL) == [];
    assert WindowValues(raw[6..], k, TOTAL) == [];
    assert WindowValues(raw[5..], k, TOTAL) == [50.0];
    assert WindowValues(raw[4..], k, TOTAL) == [40.0, 50.0];
    assert WindowValues(raw[3..], k, TOTAL) == [30.0, 40.0, 50.0];
    assert WindowValues(raw[2..], k, TOTAL) == [20.0, 30.0, 40.0, 50.0];
    assert WindowValues(raw[1..], k, TOTAL) == [10.0, 20.0, 30.0, 40.0, 50.0];
  }

  /** The worked example: reference totals 10, 20, 30, 40, 50 give a baseline of 30. */
  lemma BaselineExample()
    ensures Baseline(ExampleTable(), ("XYZ", "b", 1), TOTAL) == Some(30.0)
  {
    ExampleWindow();
    assert Sum([10.0, 20.0, 30.0, 40.0, 50.0]) == 150.0;
  }

  /** The worked example continued: a 2020 total of 45 gives an excess of 15 and a daily average of 15/7. */
  lemma ExcessExample(lastDay: (int, int) -> Date)
    ensures ExcessOf(ExampleTable(), ExampleRow(2020, 45.0), lastDay).Some?
    ensures ExcessOf(ExampleTable(), ExampleRow(2020, 45.0), lastDay).value.values[TOTAL] == Some(15.0)
    ensures ExcessOf(ExampleTable(), ExampleRow(2020, 45.0), lastDay).value.dailyAvg == Some(15.0 / 7.0)
    ensures ExcessOf(ExampleTable(), ExampleRow(2020, 45.0), lastDay).value.sex == "Total"
    ensures ExcessOf(ExampleTable(), ExampleRow(2020, 45.0), lastDay).value.iso == "XYZ"
  {
    BaselineExample();
    var r := ExampleRow(2020, 45.0);
    assert KeyOf(r) == ("XYZ", "b", 1);
    assert Cell(r.deaths, TOTAL) == Some(45.0);
  }

  // ---------------------------------------------------------------------------
  // Labels and column names

  /** The relabelled vocabulary is closed: relabelling twice is relabelling once. */
  lemma NormalizeLabelsIdempotent(s: string, iso: string)
    ensures NormalizeSex(NormalizeSex(s)) == NormalizeSex(s)
    ensures NormalizeIso(NormalizeIso(iso)) == NormalizeIso(iso)
    ensures NormalizeSex(s) in {"Total", "Male", "Female"} <==> s in {"b", "m", "f", "Total", "Male", "Female"}
  {
  }

  /** The name a column has in the excess table: renamed when COLUMN_NAMES lists it, otherwise kept. */
  function RenameColumn(name: string): string
  {
    if name in COLUMN_NAMES then COLUMN_NAMES[name] else name
  }

  /** The columns of the weekly excess table, in order, before renaming. */
  const EXCESS_COLUMNS: seq<string> := ["ISO", "Sex", "Week"] + DEATH_COLUMNS + ["DATE"]

  /** The header of the weekly excess table. */
  function ExcessHeader(): (h: seq<string>)
  {
    seq(|EXCESS_COLUMNS|, i requires 0 <= i < |EXCESS_COLUMNS| => RenameColumn(EXCESS_COLUMNS[i])) + ["deaths_excess_daily_avg"]
  }

  /** Renaming changes exactly the six death-count columns, keeps the key and date columns,
      and leaves every column name of the excess table distinct. */
  lemma ExcessHeaderRenaming()
    ensures |ExcessHeader()| == 11
    ensures ExcessHeader()[..3] == ["ISO", "Sex", "Week"] && ExcessHeader()[10] == "deaths_excess_daily_avg"
    ensures forall c :: 0 <= c < NUM_COLUMNS ==> ExcessHeader()[3 + c] == COLUMN_NAMES[DEATH_COLUMNS[c]]
    ensures ExcessHeader()[3 + TOTAL] == "deaths_excess_weekly" && ExcessHeader()[9] == "DATE"
    ensures forall i, j :: 0 <= i < j < |ExcessHeader()| ==> ExcessHeader()[i] != ExcessHeader()[j]
  {
    ExcessHeaderSpelledOut();
  }

  /** The excess header written out name by name. */
  lemma ExcessHeaderSpelledOut()
    ensures ExcessHeader() == ["ISO", "Sex", "Week", "deaths_excess_weekly_age_0_to_14", "deaths_excess_weekly_age_15_to_64",
                               "deaths_excess_weekly_age_65_to_74", "deaths_excess_weekly_age_75_to_84",
                               "deaths_excess_weekly_age_85_plus", "deaths_excess_weekly", "DATE", "deaths_excess_daily_avg"]
  {
    assert "ISO" !in COLUMN_NAMES && "Sex" !in COLUMN_NAMES && "Week" !in COLUMN_NAMES && "DATE" !in COLUMN_NAMES;
  }

  // ---------------------------------------------------------------------------
  // Capped back-fill

  /** The first index at or after `i` holding a value, with that value. */
  function NextValue(s: seq<Option<real>>, i: nat): (r: Option<(nat, real)>)
    requires i <= |s|
    ensures r.Some? ==>
      i <= r.value.0 < |s| && s[r.value.0] == Some(r.value.1) &&
      forall m :: i <= m < r.value.0 ==> s[m].None?
    ensures r.None? ==> forall m :: i <= m < |s| ==> s[m].None?
    decreases |s| - i
  {
    if i == |s| then None
    else if s[i].Some? then Some((i, s[i].value))
    else NextValue(s, i + 1)
  }

  /** pandas `bfill(limit)`: a missing entry takes the next present value when that value is at
      most `limit` positions later; present entries are kept. */
  function BackFilled(s: seq<Option<real>>, limit: nat): (r: seq<Option<real>>)
    ensures |r| == |s|
    ensures forall d :: 0 <= d < |s| && s[d].Some? ==> r[d] == s[d]
  {
    seq(|s|, d requires 0 <= d < |s| =>
      match NextValue(s, d)
      case None => None
      case Some(p) => if p.0 - d <= limit then Some(p.1) else None)
  }

  /** Entry `d` of the back-filled series is `v` exactly when the nearest present entry at or after
      `d` holds `v` and lies at most `limit` positions after `d`. */
  lemma BackFilledAt(s: seq<Option<real>>, limit: nat, d: nat, v: real)
    requires d < |s|
    ensures BackFilled(s, limit)[d] == Some(v) <==>
      exists e :: d <= e < |s| && e - d <= limit && s[e] == Some(v) && forall m :: d <= m < e ==> s[m].None?
  {
    var nv := NextValue(s, d);
    if exists e :: d <= e < |s| && e - d <= limit && s[e] == Some(v) && forall m :: d <= m < e ==> s[m].None? {
      var e :| d <= e < |s| && e - d <= limit && s[e] == Some(v) && forall m :: d <= m < e ==> s[m].None?;
      assert nv.Some?;
      assert nv.value.0 == e;
    }
  }

  /** The entry a back-filled value comes from: the nearest present one at or after it. */
  lemma BackFilledSource(s: seq<Option<real>>, limit: nat, d: nat) returns (e: nat)
    requires d < |s| && BackFilled(s, limit)[d].Some?
    ensures d <= e < |s| && e - d <= limit && s[e] == BackFilled(s, limit)[d]
    ensures forall m :: d <= m < e ==> s[m].None?
  {
    e := NextValue(s, d).value.0;
  }

  /** Entry `d` of the back-filled series from the entry itself and the nearest present one after it. */
  lemma BackFilledStep(s: seq<Option<real>>, limit: nat, d: nat)
    requires d < |s|
    ensures NextValue(s, d) == if s[d].Some? then Some((d, s[d].value)) else NextValue(s, d + 1)
    ensures BackFilled(s, limit)[d] ==
      if s[d].Some? then s[d]
      else if NextValue(s, d + 1).Some? && NextValue(s, d + 1).value.0 - d <= limit then Some(NextValue(s, d + 1).value.1)
      else None
  {
  }

  /** The back-fill loop `bfill(limit=...)` runs on a column, in place, from the last day backwards,
      carrying the nearest value seen so far. */
  method BackFill(a: array<Option<real>>, limit: nat)
    modifies a
    ensures a[..] == BackFilled(old(a[..]), limit)
  {
    ghost var s := a[..];
    var i := a.Length;
    var next: Option<(nat, real)> := None;
    while i > 0
      invariant 0 <= i <= a.Length
      invariant a[..i] == s[..i]
      invariant forall d :: i <= d < a.Length ==> a[d] == BackFilled(s, limit)[d]
      invariant next == NextValue(s, i)
    {
      i := i - 1;
      assert a[i] == s[i];
      BackFilledStep(s, limit, i);
      if a[i].Some? {
        next := Some((i, a[i].value));
      } else if next.Some? && next.value.0 - i <= limit {
        a[i] := Some(next.value.1);
      }
    }
    assert a[..] == BackFilled(s, limit);
  }

  // ---------------------------------------------------------------------------
  // Daily resampling of one (ISO, Sex) series

  function DateOf(e: ExcessRecord): Date
  {
    e.date
  }

  function MinDate(g: seq<ExcessRecord>): (d: Date)
    requires |g| > 0
    ensures forall e :: e in g ==> d <= e.date
    ensures exists e :: e in g && e.date == d
  {
    if |g| == 1 then g[0].date
    else
      var m := MinDate(g[1..]);
      assert forall e :: e in g ==> e == g[0] || e in g[1..];
      if g[0].date <= m then g[0].date else m
  }

  function MaxDate(g: seq<ExcessRecord>): (d: Date)
    requires |g| > 0
    ensures forall e :: e in g ==> e.date <= d
    ensures exists e :: e in g && e.date == d
  {
    if |g| == 1 then g[0].date
    else
      var m := MaxDate(g[1..]);
      assert forall e :: e in g ==> e == g[0] || e in g[1..];
      if g[0].date >= m then g[0].date else m
  }

  predicate DistinctDates(g: seq<ExcessRecord>)
  {
    UniqueBy(g, DateOf)
  }

  /** The first day of the daily series: six days before the earliest week-end date. */
  function FirstDay(g: seq<ExcessRecord>): Date
    requires |g| > 0
  {
    MinDate(g) - WEEK_LEAD
  }

  /** The number of days from FirstDay to the latest week-end date, both included. */
  function DayCount(g: seq<ExcessRecord>): (n: nat)
    requires |g| > 0
    ensures n == MaxDate(g) - MinDate(g) + WEEK_LEAD + 1
  {
    assert g[0] in g;
    MaxDate(g) - FirstDay(g) + 1
  }

  /** The weekly record reindexed onto a day, if one ends on that day. */
  function WeekOn(g: seq<ExcessRecord>, d: Date): Option<ExcessRecord>
  {
    Lookup(g, DateOf, d)
  }

  /** The daily average reindexed onto a day: that of the record ending that day, or missing. */
  function DayAverage(g: seq<ExcessRecord>, d: Date): Option<real>
  {
    var w := WeekOn(g, d);
    if w.Some? then w.value.dailyAvg else None
  }

  /** The daily-average column after reindexing, before the back-fill. */
  function AvgSeries(g: seq<ExcessRecord>): (s: seq<Option<real>>)
    requires |g| > 0
    ensures |s| == DayCount(g)
  {
    seq(DayCount(g), i requires 0 <= i < DayCount(g) => DayAverage(g, FirstDay(g) + i))
  }

  /** `_resample` on the records of one (ISO, Sex) group: one row per calendar day from FirstDay to
      the latest week-end date; a week-end day carries its record's columns, other days are missing;
      the daily average is back-filled at most seven days. Duplicate dates fail the reindex. */
  function Resample(iso: string, sex: string, g: seq<ExcessRecord>): (r: Result<seq<DailyRow>, ResampleError>)
    requires |g| > 0
    ensures r.Err? <==> !DistinctDates(g)
    ensures r.Err? ==> r.error == DuplicateDates(iso, sex)
    ensures r.Ok? ==>
      |r.value| == MaxDate(g) - MinDate(g) + WEEK_LEAD + 1 &&
      forall i :: 0 <= i < |r.value| ==>
        r.value[i].iso == iso && r.value[i].sex == sex && r.value[i].date == MinDate(g) - WEEK_LEAD + i
  {
    if !DistinctDates(g) then Err(DuplicateDates(iso, sex)) else Ok(Reindexed(iso, sex, g))
  }

  /** The death-count columns reindexed onto day `d`: the record ending that day, or all missing. */
  function DayValues(g: seq<ExcessRecord>, d: Date): seq<Option<real>>
  {
    var w := WeekOn(g, d);
    if w.Some? then w.value.values else Missing(NUM_COLUMNS)
  }

  /** The daily-average column after the back-fill of at most seven days. */
  function DailyAvgColumn(g: seq<ExcessRecord>): (s: seq<Option<real>>)
    requires |g| > 0
    ensures |s| == DayCount(g)
  {
    BackFilled(AvgSeries(g), BFILL_LIMIT)
  }

  /** The reindexed series with its back-filled daily average. */
  function Reindexed(iso: string, sex: string, g: seq<ExcessRecord>): (rows: seq<DailyRow>)
    requires |g| > 0
    ensures |rows| == DayCount(g)
    ensures forall i :: 0 <= i < |rows| ==> rows[i] == DayRow(iso, sex, g, i)
  {
    seq(DayCount(g), i requires 0 <= i < DayCount(g) => DayRow(iso, sex, g, i))
  }

  /** Day `i` of the reindexed series. */
  function DayRow(iso: string, sex: string, g: seq<ExcessRecord>, i: nat): DailyRow
    requires |g| > 0 && i < DayCount(g)
  {
    DailyRow(iso, sex, FirstDay(g) + i, DayValues(g, FirstDay(g) + i), DailyAvgColumn(g)[i])
  }

  /** With distinct dates, the record reindexed onto a record's own date is that record. */
  lemma WeekOnDistinct(g: seq<ExcessRecord>, e: ExcessRecord)
    requires DistinctDates(g) && e in g
    ensures WeekOn(g, e.date) == Some(e)
  {
    var w := WeekOn(g, e.date);
    assert w.Some?;
    var a :| 0 <= a < |g| && g[a] == w.value;
    var b :| 0 <= b < |g| && g[b] == e;
    assert DateOf(g[a]) == DateOf(g[b]);
  }

  /** The day of a weekly record carries that record's columns, and its daily average when it has one. */
  lemma DayRowWeek(iso: string, sex: string, g: seq<ExcessRecord>, e: ExcessRecord)
    requires |g| > 0 && DistinctDates(g) && e in g
    ensures 0 <= e.date - FirstDay(g) < DayCount(g)
    ensures DayRow(iso, sex, g, e.date - FirstDay(g)).values == e.values
    ensures e.dailyAvg.Some? ==> DayRow(iso, sex, g, e.date - FirstDay(g)).dailyAvg == e.dailyAvg
  {
    WeekOnDistinct(g, e);
    assert MinDate(g) <= e.date <= MaxDate(g);
    var i := e.date - FirstDay(g);
    assert DayValues(g, e.date) == e.values;
    var s := AvgSeries(g);
    assert s[i] == DayAverage(g, e.date) == e.dailyAvg;
    assert DailyAvgColumn(g)[i] == BackFilled(s, BFILL_LIMIT)[i];
  }

  /** The same, stated on the reindexed series. */
  lemma ReindexedWeek(iso: string, sex: string, g: seq<ExcessRecord>, e: ExcessRecord)
    requires |g| > 0 && DistinctDates(g) && e in g
    ensures 0 <= e.date - FirstDay(g) < DayCount(g)
    ensures Reindexed(iso, sex, g)[e.date - FirstDay(g)].values == e.values
    ensures e.dailyAvg.Some? ==> Reindexed(iso, sex, g)[e.date - FirstDay(g)].dailyAvg == e.dailyAvg
  {
    DayRowWeek(iso, sex, g, e);
    var i := e.date - FirstDay(g);
    assert Reindexed(iso, sex, g)[i] == DayRow(iso, sex, g, i);
  }

  /** A day on which no week ends has every death-count column missing. */
  lemma ReindexedGap(iso: string, sex: string, g: seq<ExcessRecord>, i: nat)
    requires |g| > 0 && i < DayCount(g)
    requires forall e :: e in g ==> e.date != FirstDay(g) + i
    ensures Reindexed(iso, sex, g)[i].values == Missing(NUM_COLUMNS)
  {
    assert WeekOn(g, FirstDay(g) + i).None?;
  }

  /** Resampling keeps the weekly records: the day of each record carries its columns, and its daily
      average when it has one; a day on which no week ends has every death-count column missing. */
  lemma ResampleKeepsWeeks(iso: string, sex: string, g: seq<ExcessRecord>)
    requires |g| > 0 && Resample(iso, sex, g).Ok?
    ensures var rows := Resample(iso, sex, g).value;
      (forall e :: e in g ==>
        0 <= e.date - FirstDay(g) < |rows| &&
        rows[e.date - FirstDay(g)].values == e.values &&
        (e.dailyAvg.Some? ==> rows[e.date - FirstDay(g)].dailyAvg == e.dailyAvg)) &&
      (forall i :: 0 <= i < |rows| && (forall e :: e in g ==> e.date != rows[i].date) ==>
        rows[i].values == Missing(NUM_COLUMNS))
  {
    assert Resample(iso, sex, g).value == Reindexed(iso, sex, g);
    forall e | e in g
      ensures 0 <= e.date - FirstDay(g) < DayCount(g)
      ensures Reindexed(iso, sex, g)[e.date - FirstDay(g)].values == e.values
      ensures e.dailyAvg.Some? ==> Reindexed(iso, sex, g)[e.date - FirstDay(g)].dailyAvg == e.dailyAvg
    {
      ReindexedWeek(iso, sex, g, e);
    }
    forall i | 0 <= i < DayCount(g) && (forall e :: e in g ==> e.date != Reindexed(iso, sex, g)[i].date)
      ensures Reindexed(iso, sex, g)[i].values == Missing(NUM_COLUMNS)
    {
      ReindexedGap(iso, sex, g, i);
    }
  }

  /** Entry `j` of the reindexed daily-average column is the daily average of the record ending on that day. */
  lemma AvgSeriesAt(g: seq<ExcessRecord>, j: nat)
    requires |g| > 0 && j < DayCount(g)
    ensures AvgSeries(g)[j].Some? ==>
      exists e :: e in g && e.date == FirstDay(g) + j && e.dailyAvg == AvgSeries(g)[j]
    ensures DistinctDates(g) ==> forall e :: e in g && e.date == FirstDay(g) + j ==> AvgSeries(g)[j] == e.dailyAvg
  {
    var d := FirstDay(g) + j;
    assert AvgSeries(g)[j] == DayAverage(g, d);
    var w := WeekOn(g, d);
    if w.Some? {
      assert w.value in g && w.value.date == d;
    }
    if DistinctDates(g) {
      forall e | e in g && e.date == d ensures DayAverage(g, d) == e.dailyAvg {
        WeekOnDistinct(g, e);
      }
    }
  }

  /** Record `e` ends the nearest week at or after day `d` that has a daily average, that average
      is `v`, and it ends at most seven days after `d`: the back-fill gives `d` the value `v`. */
  predicate FillsFrom(g: seq<ExcessRecord>, d: Date, e: ExcessRecord, v: real)
  {
    e in g && d <= e.date <= d + BFILL_LIMIT && e.dailyAvg == Some(v) &&
    forall f :: f in g && d <= f.date < e.date ==> f.dailyAvg.None?
  }

  /** With distinct dates, no week ending in days `i` to `j - 1` has a daily average when the
      reindexed column has none there. */
  lemma NoAverageBetween(g: seq<ExcessRecord>, i: nat, j: nat)
    requires |g| > 0 && DistinctDates(g) && i <= j <= DayCount(g)
    requires forall m :: i <= m < j ==> AvgSeries(g)[m].None?
    ensures forall f :: f in g && FirstDay(g) + i <= f.date < FirstDay(g) + j ==> f.dailyAvg.None?
  {
    forall f | f in g && FirstDay(g) + i <= f.date < FirstDay(g) + j ensures f.dailyAvg.None? {
      AvgSeriesOfRecord(g, f);
    }
  }

  /** A back-filled daily average comes from the nearest later week-end with one, at most seven days on. */
  lemma ReindexedDailyAverageSound(iso: string, sex: string, g: seq<ExcessRecord>, i: nat, v: real)
    requires |g| > 0 && DistinctDates(g) && i < DayCount(g)
    requires DailyAvgColumn(g)[i] == Some(v)
    ensures var d := FirstDay(g) + i; exists e :: FillsFrom(g, d, e, v)
  {
    var j := BackFilledSource(AvgSeries(g), BFILL_LIMIT, i);
    var e := AvgSeriesRecord(g, j);
    NoAverageBetween(g, i, j);
    assert FillsFrom(g, FirstDay(g) + i, e, v);
  }

  /** The record a present reindexed daily average comes from. */
  lemma AvgSeriesRecord(g: seq<ExcessRecord>, j: nat) returns (e: ExcessRecord)
    requires |g| > 0 && j < DayCount(g) && AvgSeries(g)[j].Some?
    ensures e in g && e.date == FirstDay(g) + j && e.dailyAvg == AvgSeries(g)[j]
  {
    var d := FirstDay(g) + j;
    assert AvgSeries(g)[j] == DayAverage(g, d);
    e := WeekOn(g, d).value;
  }

  /** With distinct dates, a record's day lies in the series and carries its daily average. */
  lemma AvgSeriesOfRecord(g: seq<ExcessRecord>, f: ExcessRecord)
    requires |g| > 0 && DistinctDates(g) && f in g
    ensures 0 <= f.date - FirstDay(g) < DayCount(g)
    ensures AvgSeries(g)[f.date - FirstDay(g)] == f.dailyAvg
  {
    assert MinDate(g) <= f.date <= MaxDate(g);
    WeekOnDistinct(g, f);
    assert AvgSeries(g)[f.date - FirstDay(g)] == DayAverage(g, f.date);
  }

  /** The nearest later week-end with a daily average, if at most seven days on, fills the day. */
  lemma ReindexedDailyAverageComplete(iso: string, sex: string, g: seq<ExcessRecord>, i: nat, e: ExcessRecord, v: real)
    requires |g| > 0 && DistinctDates(g) && i < DayCount(g)
    requires FillsFrom(g, FirstDay(g) + i, e, v)
    ensures DailyAvgColumn(g)[i] == Some(v)
  {
    var s := AvgSeries(g);
    var first := FirstDay(g);
    assert e.date <= MaxDate(g);
    var j := e.date - first;
    AvgSeriesAt(g, j);
    forall m | i <= m < j ensures s[m].None? {
      AvgSeriesAt(g, m);
    }
    BackFilledAt(s, BFILL_LIMIT, i, v);
  }

  /** Day `i` of a resampled series is day FirstDay + i of the reindexed one. */
  lemma ResampleDay(iso: string, sex: string, g: seq<ExcessRecord>, i: nat)
    requires |g| > 0 && Resample(iso, sex, g).Ok? && i < |Resample(iso, sex, g).value|
    ensures DistinctDates(g) && i < DayCount(g)
    ensures Resample(iso, sex, g).value[i].date == FirstDay(g) + i
    ensures Resample(iso, sex, g).value[i].dailyAvg == DailyAvgColumn(g)[i]
  {
    assert Resample(iso, sex, g).value[i] == DayRow(iso, sex, g, i);
  }

  /** Capped back-fill on a resampled series: a day has daily average `v` exactly when the
      nearest week-end at or after it with a daily average has `v` and is at most seven days later. */
  lemma ResampleDailyAverage(iso: string, sex: string, g: seq<ExcessRecord>, i: nat, v: real)
    requires |g| > 0 && Resample(iso, sex, g).Ok? && i < |Resample(iso, sex, g).value|
    ensures var day := Resample(iso, sex, g).value[i];
      day.dailyAvg == Some(v) <==> exists e :: FillsFrom(g, day.date, e, v)
  {
    ResampleDay(iso, sex, g, i);
    var day := Resample(iso, sex, g).value[i];
    if day.dailyAvg == Some(v) {
      ReindexedDailyAverageSound(iso, sex, g, i, v);
      var e :| FillsFrom(g, FirstDay(g) + i, e, v);
      assert FillsFrom(g, day.date, e, v);
    }
    if exists e :: FillsFrom(g, day.date, e, v) {
      var e :| FillsFrom(g, day.date, e, v);
      ReindexedDailyAverageComplete(iso, sex, g, i, e, v);
    }
  }

  // ---------------------------------------------------------------------------
  // Daily resampling of the whole table

  /** The (ISO, Sex) series a record belongs to. */
  function SeriesOf(e: ExcessRecord): (string, string)
  {
    (e.iso, e.sex)
  }

  /** The distinct elements of a sequence, in order of first appearance. */
  function Distinct<K(==,!new)>(s: seq<K>): (r: seq<K>)
    ensures forall x :: x in r <==> x in s
    ensures forall i, j :: 0 <= i < j < |r| ==> r[i] != r[j]
    decreases |s|
  {
    if s == [] then []
    else
      var tail := Filter(s[1..], x => x != s[0]);
      var rest := Distinct(tail);
      assert forall x :: x in s ==> x == s[0] || x in s[1..];
      assert forall i :: 0 <= i < |rest| ==> rest[i] in tail && rest[i] != s[0];
      [s[0]] + rest
  }

  /** The (ISO, Sex) groups of the excess table, in order of first appearance. */
  function GroupKeys(ex: seq<ExcessRecord>): (ks: seq<(string, string)>)
    ensures forall k :: k in ks <==> exists e :: e in ex && SeriesOf(e) == k
    ensures forall i, j :: 0 <= i < j < |ks| ==> ks[i] != ks[j]
  {
    var all := seq(|ex|, i requires 0 <= i < |ex| => SeriesOf(ex[i]));
    forall e | e in ex ensures SeriesOf(e) in all {
      var i :| 0 <= i < |ex| && ex[i] == e;
      assert all[i] == SeriesOf(e);
    }
    forall k | k in all ensures exists e :: e in ex && SeriesOf(e) == k {
      var i :| 0 <= i < |all| && all[i] == k;
      assert ex[i] in ex;
    }
    Distinct(all)
  }

  /** The records of one (ISO, Sex) group, in row order. */
  function GroupOf(ex: seq<ExcessRecord>, k: (string, string)): (g: seq<ExcessRecord>)
    ensures forall e :: e in g <==> e in ex && SeriesOf(e) == k
    ensures (exists e :: e in ex && SeriesOf(e) == k) ==> |g| > 0
  {
    var g := Filter(ex, e => SeriesOf(e) == k);
    assert (exists e :: e in ex && SeriesOf(e) == k) ==> |g| > 0 by {
      if exists e :: e in ex && SeriesOf(e) == k {
        var e :| e in ex && SeriesOf(e) == k;
        assert e in g;
      }
    }
    g
  }

  /** The daily series of groups `ks`, one after another; the first failing group fails the whole. */
  function DailyOf(ex: seq<ExcessRecord>, ks: seq<(string, string)>): Result<seq<DailyRow>, ResampleError>
    requires forall k :: k in ks ==> exists e :: e in ex && SeriesOf(e) == k
  {
    if ks == [] then Ok([])
    else
      assert ks[0] in ks && forall k :: k in ks[1..] ==> k in ks;
      match Resample(ks[0].0, ks[0].1, GroupOf(ex, ks[0]))
      case Err(err) => Err(err)
      case Ok(rows) =>
        match DailyOf(ex, ks[1..])
        case Err(err) => Err(err)
        case Ok(rest) => Ok(rows + rest)
  }

  /** `daily=True`: every (ISO, Sex) group resampled. */
  function DailyTable(ex: seq<ExcessRecord>): Result<seq<DailyRow>, ResampleError>
  {
    DailyOf(ex, GroupKeys(ex))
  }

  /** Day `d` lies in the daily span of group `k`. */
  predicate InSpan(ex: seq<ExcessRecord>, k: (string, string), d: Date)
  {
    |GroupOf(ex, k)| > 0 && FirstDay(GroupOf(ex, k)) <= d <= MaxDate(GroupOf(ex, k))
  }

  /** The daily table fails exactly when some group has two records on one date. */
  lemma {:induction false} DailyOfFails(ex: seq<ExcessRecord>, ks: seq<(string, string)>)
    requires forall k :: k in ks ==> exists e :: e in ex && SeriesOf(e) == k
    ensures DailyOf(ex, ks).Err? <==> exists k :: k in ks && !DistinctDates(GroupOf(ex, k))
  {
    if ks != [] {
      assert forall k :: k in ks[1..] ==> k in ks;
      DailyOfFails(ex, ks[1..]);
      assert forall k :: k in ks ==> k == ks[0] || k in ks[1..];
    }
  }

  /** A successful daily table of groups `ks` is the first group's reindexed series followed by the rest. */
  lemma DailyOfCons(ex: seq<ExcessRecord>, ks: seq<(string, string)>)
    requires forall k :: k in ks ==> exists e :: e in ex && SeriesOf(e) == k
    requires ks != [] && DailyOf(ex, ks).Ok?
    ensures |GroupOf(ex, ks[0])| > 0 && DistinctDates(GroupOf(ex, ks[0]))
    ensures forall k :: k in ks[1..] ==> exists e :: e in ex && SeriesOf(e) == k
    ensures DailyOf(ex, ks[1..]).Ok?
    ensures DailyOf(ex, ks).value == Reindexed(ks[0].0, ks[0].1, GroupOf(ex, ks[0])) + DailyOf(ex, ks[1..]).value
  {
    assert ks[0] in ks;
    assert forall k :: k in ks[1..] ==> k in ks;
  }

  /** Every row of the reindexed series of group `k` belongs to `k` and lies in its span, one day per position. */
  lemma ReindexedInSpan(ex: seq<ExcessRecord>, k: (string, string))
    requires |GroupOf(ex, k)| > 0
    ensures var rows := Reindexed(k.0, k.1, GroupOf(ex, k));
      forall i :: 0 <= i < |rows| ==>
        rows[i].iso == k.0 && rows[i].sex == k.1 && rows[i].date == FirstDay(GroupOf(ex, k)) + i &&
        InSpan(ex, k, rows[i].date)
  {
  }

  lemma {:induction false} DailyOfRowsInSpan(ex: seq<ExcessRecord>, ks: seq<(string, string)>)
    requires forall k :: k in ks ==> exists e :: e in ex && SeriesOf(e) == k
    requires DailyOf(ex, ks).Ok?
    ensures var rows := DailyOf(ex, ks).value;
      forall i :: 0 <= i < |rows| ==> (rows[i].iso, rows[i].sex) in ks && InSpan(ex, (rows[i].iso, rows[i].sex), rows[i].date)
  {
    if ks != [] {
      DailyOfCons(ex, ks);
      DailyOfRowsInSpan(ex, ks[1..]);
      ReindexedInSpan(ex, ks[0]);
      var head := Reindexed(ks[0].0, ks[0].1, GroupOf(ex, ks[0]));
      var rest := DailyOf(ex, ks[1..]).value;
      var rows := DailyOf(ex, ks).value;
      forall i | 0 <= i < |rows|
        ensures (rows[i].iso, rows[i].sex) in ks && InSpan(ex, (rows[i].iso, rows[i].sex), rows[i].date)
      {
        if i < |head| {
          assert rows[i] == head[i];
        } else {
          assert rows[i] == rest[i - |head|];
          assert forall k :: k in ks[1..] ==> k in ks;
        }
      }
    }
  }

  /** Day `d` of the first group sits at its offset from the group's first day. */
  lemma DailyOfHeadDay(ex: seq<ExcessRecord>, ks: seq<(string, string)>, d: Date) returns (i: nat)
    requires forall k :: k in ks ==> exists e :: e in ex && SeriesOf(e) == k
    requires ks != [] && DailyOf(ex, ks).Ok? && InSpan(ex, ks[0], d)
    ensures i < |DailyOf(ex, ks).value|
    ensures DailyOf(ex, ks).value[i].iso == ks[0].0
    ensures DailyOf(ex, ks).value[i].sex == ks[0].1
    ensures DailyOf(ex, ks).value[i].date == d
  {
    DailyOfCons(ex, ks);
    var g := GroupOf(ex, ks[0]);
    var head := Reindexed(ks[0].0, ks[0].1, g);
    i := d - FirstDay(g);
    assert head[i] == DayRow(ks[0].0, ks[0].1, g, i);
    AppendAt(head, DailyOf(ex, ks[1..]).value, i);
  }

  /** A successful daily table of groups `ks` has a successful table of the later groups. */
  lemma DailyOfRest(ex: seq<ExcessRecord>, ks: seq<(string, string)>)
    requires forall k :: k in ks ==> exists e :: e in ex && SeriesOf(e) == k
    requires ks != [] && DailyOf(ex, ks).Ok?
    ensures forall k :: k in ks[1..] ==> exists e :: e in ex && SeriesOf(e) == k
    ensures DailyOf(ex, ks[1..]).Ok?
  {
    assert forall k :: k in ks[1..] ==> k in ks;
  }

  /** Row `r` of the later groups' table sits after the first group's rows. */
  lemma DailyOfTailRow(ex: seq<ExcessRecord>, ks: seq<(string, string)>, r: nat) returns (i: nat)
    requires forall k :: k in ks ==> exists e :: e in ex && SeriesOf(e) == k
    requires ks != [] && DailyOf(ex, ks).Ok?
    requires forall k :: k in ks[1..] ==> exists e :: e in ex && SeriesOf(e) == k
    requires DailyOf(ex, ks[1..]).Ok? && r < |DailyOf(ex, ks[1..]).value|
    ensures i < |DailyOf(ex, ks).value| && DailyOf(ex, ks).value[i] == DailyOf(ex, ks[1..]).value[r]
  {
    DailyOfCons(ex, ks);
    var head := Reindexed(ks[0].0, ks[0].1, GroupOf(ex, ks[0]));
    var rest := DailyOf(ex, ks[1..]).value;
    i := |head| + r;
    AppendAt(head, rest, i);
  }

  /** Day `d` of a later group sits where it sits in the later groups' table, shifted by the first group. */
  lemma {:induction false} DailyOfLaterDay(ex: seq<ExcessRecord>, ks: seq<(string, string)>, k: (string, string), d: Date)
    returns (i: nat)
    requires forall k :: k in ks ==> exists e :: e in ex && SeriesOf(e) == k
    requires DailyOf(ex, ks).Ok? && k in ks && k != ks[0] && InSpan(ex, k, d)
    ensures i < |DailyOf(ex, ks).value|
    ensures DailyOf(ex, ks).value[i].iso == k.0
    ensures DailyOf(ex, ks).value[i].sex == k.1
    ensures DailyOf(ex, ks).value[i].date == d
    decreases |ks|, 0
  {
    DailyOfRest(ex, ks);
    assert k in ks[1..];
    var r := DailyOfIndex(ex, ks[1..], k, d);
    i := DailyOfTailRow(ex, ks, r);
  }

  /** The position in a successful daily table of groups `ks` of day `d` of group `k`. */
  lemma {:induction false} DailyOfIndex(ex: seq<ExcessRecord>, ks: seq<(string, string)>, k: (string, string), d: Date)
    returns (i: nat)
    requires forall k :: k in ks ==> exists e :: e in ex && SeriesOf(e) == k
    requires DailyOf(ex, ks).Ok? && k in ks && InSpan(ex, k, d)
    ensures i < |DailyOf(ex, ks).value|
    ensures DailyOf(ex, ks).value[i].iso == k.0
    ensures DailyOf(ex, ks).value[i].sex == k.1
    ensures DailyOf(ex, ks).value[i].date == d
    decreases |ks|, 1
  {
    if k == ks[0] {
      i := DailyOfHeadDay(ex, ks, d);
    } else {
      i := DailyOfLaterDay(ex, ks, k, d);
    }
  }

  lemma DailyOfCoversSpan(ex: seq<ExcessRecord>, ks: seq<(string, string)>)
    requires forall k :: k in ks ==> exists e :: e in ex && SeriesOf(e) == k
    requires DailyOf(ex, ks).Ok?
    ensures var rows := DailyOf(ex, ks).value;
      forall k, d :: k in ks && InSpan(ex, k, d) ==>
        exists i :: 0 <= i < |rows| && rows[i].iso == k.0 && rows[i].sex == k.1 && rows[i].date == d
  {
    var rows := DailyOf(ex, ks).value;
    forall k, d | k in ks && InSpan(ex, k, d)
      ensures exists i :: 0 <= i < |rows| && rows[i].iso == k.0 && rows[i].sex == k.1 && rows[i].date == d
    {
      var i := DailyOfIndex(ex, ks, k, d);
    }
  }

  /** The (ISO, Sex, day) a daily row stands for. */
  function DayKey(r: DailyRow): (string, string, Date)
  {
    (r.iso, r.sex, r.date)
  }

  /** Two series with no (ISO, Sex) in common, each without a repeated day, concatenate without one. */
  lemma UniqueDaysAppend(a: seq<DailyRow>, b: seq<DailyRow>)
    requires UniqueBy(a, DayKey) && UniqueBy(b, DayKey)
    requires forall i, j :: 0 <= i < |a| && 0 <= j < |b| ==> (a[i].iso, a[i].sex) != (b[j].iso, b[j].sex)
    ensures UniqueBy(a + b, DayKey)
  {
    var c := a + b;
    forall i, j | 0 <= i < j < |c| ensures DayKey(c[i]) != DayKey(c[j]) {
      if j < |a| {
        assert c[i] == a[i] && c[j] == a[j];
      } else if i < |a| {
        assert c[i] == a[i] && c[j] == b[j - |a|];
      } else {
        assert c[i] == b[i - |a|] && c[j] == b[j - |a|];
      }
    }
  }

  /** A reindexed series has one row per day. */
  lemma ReindexedUniqueDays(iso: string, sex: string, g: seq<ExcessRecord>)
    requires |g| > 0
    ensures UniqueBy(Reindexed(iso, sex, g), DayKey)
    ensures forall i :: 0 <= i < |Reindexed(iso, sex, g)| ==> (Reindexed(iso, sex, g)[i].iso, Reindexed(iso, sex, g)[i].sex) == (iso, sex)
  {
  }

  /** Every row of the daily series of groups `ks` belongs to one of them. */
  lemma {:induction false} DailyOfKeys(ex: seq<ExcessRecord>, ks: seq<(string, string)>)
    requires forall k :: k in ks ==> exists e :: e in ex && SeriesOf(e) == k
    requires DailyOf(ex, ks).Ok?
    ensures forall i :: 0 <= i < |DailyOf(ex, ks).value| ==> (DailyOf(ex, ks).value[i].iso, DailyOf(ex, ks).value[i].sex) in ks
  {
    if ks != [] {
      DailyOfCons(ex, ks);
      DailyOfKeys(ex, ks[1..]);
      ReindexedUniqueDays(ks[0].0, ks[0].1, GroupOf(ex, ks[0]));
      var head := Reindexed(ks[0].0, ks[0].1, GroupOf(ex, ks[0]));
      var rest := DailyOf(ex, ks[1..]).value;
      var rows := DailyOf(ex, ks).value;
      forall i | 0 <= i < |rows| ensures (rows[i].iso, rows[i].sex) in ks {
        AppendAt(head, rest, i);
        if i >= |head| {
          assert forall k :: k in ks[1..] ==> k in ks;
        }
      }
    }
  }

  /** The tail of a list of distinct keys is distinct and leaves out the head. */
  lemma DistinctTail(ks: seq<(string, string)>)
    requires ks != [] && forall i, j :: 0 <= i < j < |ks| ==> ks[i] != ks[j]
    ensures forall i, j :: 0 <= i < j < |ks[1..]| ==> ks[1..][i] != ks[1..][j]
    ensures ks[0] !in ks[1..]
  {
    assert forall j :: 0 <= j < |ks[1..]| ==> ks[1..][j] == ks[j + 1];
  }

  lemma {:induction false} DailyOfDistinctDays(ex: seq<ExcessRecord>, ks: seq<(string, string)>)
    requires forall k :: k in ks ==> exists e :: e in ex && SeriesOf(e) == k
    requires forall i, j :: 0 <= i < j < |ks| ==> ks[i] != ks[j]
    requires DailyOf(ex, ks).Ok?
    ensures UniqueBy(DailyOf(ex, ks).value, DayKey)
  {
    if ks != [] {
      var k := ks[0];
      DailyOfCons(ex, ks);
      DistinctTail(ks);
      DailyOfDistinctDays(ex, ks[1..]);
      DailyOfKeys(ex, ks[1..]);
      var head := Reindexed(k.0, k.1, GroupOf(ex, k));
      var rest := DailyOf(ex, ks[1..]).value;
      ReindexedUniqueDays(k.0, k.1, GroupOf(ex, k));
      forall i, j | 0 <= i < |head| && 0 <= j < |rest| ensures (head[i].iso, head[i].sex) != (rest[j].iso, rest[j].sex) {
        assert (head[i].iso, head[i].sex) == k;
        assert (rest[j].iso, rest[j].sex) in ks[1..];
      }
      UniqueDaysAppend(head, rest);
    }
  }

  /** With `daily=True` the table has exactly one row per (ISO, Sex, day) over each group's span
      (six days before its first week-end up to its last week-end), and no other rows. */
  lemma DailyTableOnePerDay(ex: seq<ExcessRecord>)
    requires DailyTable(ex).Ok?
    ensures var rows := DailyTable(ex).value;
      (forall i :: 0 <= i < |rows| ==> InSpan(ex, (rows[i].iso, rows[i].sex), rows[i].date)) &&
      (forall e, d :: e in ex && InSpan(ex, SeriesOf(e), d) ==>
        exists i :: 0 <= i < |rows| && rows[i].iso == e.iso && rows[i].sex == e.sex && rows[i].date == d) &&
      UniqueBy(rows, DayKey)
  {
    DailyOfRowsInSpan(ex, GroupKeys(ex));
    DailyOfCoversSpan(ex, GroupKeys(ex));
    DailyOfDistinctDays(ex, GroupKeys(ex));
  }

  /** The daily table fails exactly when some (ISO, Sex) group has two weekly records on one date. */
  lemma DailyTableFails(ex: seq<ExcessRecord>)
    ensures DailyTable(ex).Err? <==> exists e :: e in ex && !DistinctDates(GroupOf(ex, SeriesOf(e)))
  {
    DailyOfFails(ex, GroupKeys(ex));
  }

  /** What `get_data(daily)` computes from the raw table. */
  function ExcessOutput(raw: seq<RawRow>, daily: bool, lastDay: (int, int) -> Date): Result<Output, ResampleError>
  {
    var ex := Excess(raw, lastDay);
    if !daily then Ok(Weekly(ex))
    else
      match DailyTable(ex)
      case Err(err) => Err(err)
      case Ok(rows) => Ok(Daily(rows))
  }

  // ---------------------------------------------------------------------------
  // The class-level cache

  /** How `__init__` treated the cache. */
  datatype LoadOutcome = Reused | Loaded | Unavailable

  /** `HMDExcessMortality`; one object stands for the class, and `data` for its class-level slot. */
  class HMDExcessMortality {
    var data: Option<seq<RawRow>>

    /** The class attribute starts as None. */
    constructor ()
      ensures data == None
    {
      data := None;
    }

    /** `__init__(force_load)`: the table is (re)loaded exactly when none is stored or a reload is
        forced; `download` is what loading yields, None when the source cannot be read, in which case
        the stored table stays as it was. */
    method Init(forceLoad: bool, download: Option<seq<RawRow>>) returns (outcome: LoadOutcome)
      modifies this
      ensures outcome == Reused <==> old(data).Some? && !forceLoad
      ensures outcome == Unavailable <==> (old(data).None? || forceLoad) && download.None?
      ensures data == if outcome == Loaded then download else old(data)
    {
      if data.None? || forceLoad {
        if download.Some? {
          data := download;
          outcome := Loaded;
        } else {
          outcome := Unavailable;
        }
      } else {
        outcome := Reused;
      }
    }

    /** `get_raw_data`: the stored table, unchanged. */
    method GetRawData() returns (r: Option<seq<RawRow>>)
      ensures r == data
    {
      r := data;
    }

    /** `get_data(daily)`: computed afresh from the stored table on every call; an instance
        exists only after `__init__` stored a table. */
    method GetData(daily: bool, lastDay: (int, int) -> Date) returns (r: Result<Output, ResampleError>)
      requires data.Some?
      ensures r == ExcessOutput(data.value, daily, lastDay)
      ensures !daily ==> r.Ok? && r.value.Weekly? && forall e :: e in r.value.records ==> DailyAverageConsistent(e)
    {
      ExcessRecords(data.value, lastDay);
      r := ExcessOutput(data.value, daily, lastDay);
    }
  }
}
