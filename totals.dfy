/** Portfolio totals, `calculateTotals` (Website.js:247-390): for six tracked
    metrics, the month-by-month sums over every triple reporting the metric,
    averages for two of them, and a month-over-month change on the summed
    actual values. */
module Totals {
  import opened Sequences
  import opened Months
  import opened Structure
  import opened MoM

  /** The metrics of the `totals` object, in its key order (Website.js:250-293). */
  const TRACKED: seq<string> := ["Organic Total Sessions", "Organic Total Users",
                                 "% of users clicking on to further pages",
                                 "% of users clicking to partner pages",
                                 "Avg Session Duration", "Engagement Rate"]

  /** The metrics averaged instead of summed, in the order they are
      processed (Website.js:345-346). */
  const AVERAGED: seq<string> := ["Engagement Rate", "Avg Session Duration"]

  /** The five month-keyed maps of one tracked metric. */
  datatype Total = Total(actual: map<string, real>, forecast: map<string, real>,
                         ytdActual: map<string, real>, ytdForecast: map<string, real>,
                         momChange: map<string, real>)

  /** The four value columns that are summed. */
  datatype Field = Actual | Forecast | YtdActual | YtdForecast

  /** A value column of one triple. */
  function Values(s: Series, f: Field): map<string, real> {
    match f
    case Actual => s.actual
    case Forecast => s.forecast
    case YtdActual => s.ytdActual
    case YtdForecast => s.ytdForecast
  }

  /** A value column of one total. */
  function Column(tt: Total, f: Field): map<string, real> {
    match f
    case Actual => tt.actual
    case Forecast => tt.forecast
    case YtdActual => tt.ytdActual
    case YtdForecast => tt.ytdForecast
  }

  lemma TrackedDistinct()
    ensures Distinct(TRACKED)
  {
  }

  // ----- All months with data (Website.js:297-311) -----

  /** The months of the triples `ts`, each triple's in its key order, one
      triple after another. */
  function MonthLists(d: Dataset, ts: seq<Triple>): seq<string> {
    if ts == [] then []
    else
      var t := ts[|ts| - 1];
      MonthLists(d, ts[..|ts| - 1]) + (if t in d.series then d.series[t].months else [])
  }

  /** `allMonths` after the sort: every month with data, once, in calendar order. */
  function AllMonths(d: Dataset): seq<string> {
    SortByMonth(Dedup(MonthLists(d, d.order)))
  }

  /** `months.forEach(... push if not included)` for one triple: extends the
      first-seen list of `seen` by the months of the triple. */
  method PushMonths(allMonths: seq<string>, ghost seen: seq<string>, months: seq<string>)
    returns (r: seq<string>)
    requires allMonths == Dedup(seen)
    ensures r == Dedup(seen + months)
  {
    r := allMonths;
    assert seen + months[..0] == seen;
    var j := 0;
    while j < |months|
      invariant 0 <= j <= |months|
      invariant r == Dedup(seen + months[..j])
    {
      var month := months[j];
      assert seen + months[..j + 1] == (seen + months[..j]) + [month];
      DedupSnoc(seen + months[..j], month);
      if month !in r {
        r := r + [month];
      }
      j := j + 1;
    }
    assert months[..j] == months;
  }

  /** The nested loops gathering the months of the triples `ts`, before the sort. */
  method GatherMonths(d: Dataset, ts: seq<Triple>) returns (allMonths: seq<string>)
    requires forall t :: t in ts ==> t in d.series
    ensures allMonths == Dedup(MonthLists(d, ts))
  {
    allMonths := [];
    var k := 0;
    while k < |ts|
      invariant 0 <= k <= |ts|
      invariant allMonths == Dedup(MonthLists(d, ts[..k]))
    {
      var t := ts[k];
      assert ts[..k + 1][..k] == ts[..k];
      allMonths := PushMonths(allMonths, MonthLists(d, ts[..k]), d.series[t].months);
      k := k + 1;
    }
    assert ts[..k] == ts;
  }

  /** Every month of the triples `ts` occurs in their month lists, and no
      other. */
  lemma {:induction false} MonthListsMembers(d: Dataset, ts: seq<Triple>, m: string)
    ensures m in MonthLists(d, ts) <==> exists t :: t in ts && t in d.series && m in d.series[t].months
  {
    if ts != [] {
      var init, t := ts[..|ts| - 1], ts[|ts| - 1];
      MonthListsMembers(d, init, m);
      assert ts == init + [t];
    }
  }

  /** All months are listed once each, in calendar order. */
  lemma AllMonthsOrder(d: Dataset)
    ensures Distinct(AllMonths(d)) && SortedByMonth(AllMonths(d))
  {
    DedupProperties(MonthLists(d, d.order));
    SortByMonthProperties(Dedup(MonthLists(d, d.order)));
  }

  /** A month is among all months exactly when some visited triple has data
      for it. */
  lemma AllMonthsMembers(d: Dataset, m: string)
    ensures m in AllMonths(d) <==> exists t :: t in d.order && t in d.series && m in d.series[t].months
  {
    var xs := Dedup(MonthLists(d, d.order));
    DedupProperties(MonthLists(d, d.order));
    SortByMonthProperties(xs);
    MonthListsMembers(d, d.order, m);
    assert m in AllMonths(d) <==> m in multiset(AllMonths(d));
    assert m in xs <==> m in multiset(xs);
  }

  // ----- Zero initialisation (Website.js:315-322) -----

  /** A zero for each of the months `ms`. */
  function Zeros(ms: seq<string>): map<string, real> {
    map m | m in ms :: 0.0
  }

  /** One metric's maps after the initialisation: the four value columns zero
      on every month, no change yet. */
  function ZeroTotal(ms: seq<string>): Total {
    Total(Zeros(ms), Zeros(ms), Zeros(ms), Zeros(ms), map[])
  }

  /** The `totals` object after the initialisation over the months `ms`. */
  function Zeroed(ms: seq<string>): map<string, Total> {
    map metric | metric in TRACKED :: ZeroTotal(ms)
  }

  /** The four zero assignments of one metric and month. */
  function ZeroAt(tt: Total, m: string): Total {
    Total(tt.actual[m := 0.0], tt.forecast[m := 0.0], tt.ytdActual[m := 0.0], tt.ytdForecast[m := 0.0],
          tt.momChange)
  }

  /** The totals part way through the initialisation: months `ms[..i]` done
      for every metric, month `ms[i]` done for the metrics `done`. */
  function PartlyZeroed(ms: seq<string>, i: nat, done: seq<string>): map<string, Total>
    requires i < |ms|
  {
    map metric | metric in TRACKED :: ZeroTotal(if metric in done then ms[..i + 1] else ms[..i])
  }

  /** `allMonths.forEach(month => Object.keys(totals).forEach(...))`. */
  method InitTotals(allMonths: seq<string>) returns (totals: map<string, Total>)
    ensures totals == Zeroed(allMonths)
  {
    totals := map metric | metric in TRACKED :: Total(map[], map[], map[], map[], map[]);
    assert totals == Zeroed(allMonths[..0]);
    var i := 0;
    while i < |allMonths|
      invariant 0 <= i <= |allMonths|
      invariant totals == Zeroed(allMonths[..i])
    {
      totals := ZeroMonth(totals, allMonths, i);
      i := i + 1;
    }
    assert allMonths[..i] == allMonths;
  }

  /** `Object.keys(totals).forEach(...)` for the month `ms[i]`. */
  method ZeroMonth(totals0: map<string, Total>, ms: seq<string>, i: nat) returns (totals: map<string, Total>)
    requires i < |ms| && totals0 == Zeroed(ms[..i])
    ensures totals == Zeroed(ms[..i + 1])
  {
    totals := totals0;
    var month := ms[i];
    assert totals == PartlyZeroed(ms, i, TRACKED[..0]);
    var j := 0;
    while j < |TRACKED|
      invariant 0 <= j <= |TRACKED|
      invariant totals == PartlyZeroed(ms, i, TRACKED[..j])
    {
      var metric := TRACKED[j];
      ZeroStep(ms, i, j, totals);
      totals := totals[metric := ZeroAt(totals[metric], month)];
      j := j + 1;
    }
    assert TRACKED[..j] == TRACKED;
  }

  /** Zeroing month `ms[i]` for one more metric. */
  lemma ZeroStep(ms: seq<string>, i: nat, j: nat, totals: map<string, Total>)
    requires i < |ms| && j < |TRACKED| && totals == PartlyZeroed(ms, i, TRACKED[..j])
    ensures TRACKED[j] in totals
    ensures totals[TRACKED[j] := ZeroAt(totals[TRACKED[j]], ms[i])] == PartlyZeroed(ms, i, TRACKED[..j + 1])
  {
    var metric := TRACKED[j];
    TrackedDistinct();
    assert metric !in TRACKED[..j];
    assert TRACKED[..j + 1] == TRACKED[..j] + [metric];
    assert ms[..i + 1] == ms[..i] + [ms[i]];
    assert Zeros(ms[..i])[ms[i] := 0.0] == Zeros(ms[..i + 1]);
  }

  // ----- Sums over the triples (Website.js:325-341) -----

  /** One addition into a column: the triple's value for month `m`, or 0
      when it has none (`value || 0`). */
  function Bump(col: map<string, real>, m: string, values: map<string, real>): map<string, real> {
    col[m := At(col, m) + At(values, m)]
  }

  /** The four additions of one triple's values for month `m`. */
  function AddAt(tt: Total, m: string, s: Series): Total {
    Total(Bump(tt.actual, m, s.actual), Bump(tt.forecast, m, s.forecast),
          Bump(tt.ytdActual, m, s.ytdActual), Bump(tt.ytdForecast, m, s.ytdForecast),
          tt.momChange)
  }

  /** One triple's values added month by month over the months `ms`. */
  function AddMonths(tt: Total, s: Series, ms: seq<string>): Total {
    if ms == [] then tt else AddAt(AddMonths(tt, s, ms[..|ms| - 1]), ms[|ms| - 1], s)
  }

  /** The totals after the triples `ts` have been added, starting from `tot`;
      a triple whose metric has no entry in the totals is skipped. */
  function AccumulateOver(tot: map<string, Total>, d: Dataset, ts: seq<Triple>, ms: seq<string>): map<string, Total> {
    if ts == [] then tot
    else
      var prev := AccumulateOver(tot, d, ts[..|ts| - 1], ms);
      var t := ts[|ts| - 1];
      if t in d.series && t.metric in prev then prev[t.metric := AddMonths(prev[t.metric], d.series[t], ms)]
      else prev
  }

  /** `allMonths.forEach(...)` adding one triple's values to its metric. */
  method AddSeries(totals: map<string, Total>, metric: string, s: Series, ms: seq<string>)
    returns (r: map<string, Total>)
    requires metric in totals
    ensures r == totals[metric := AddMonths(totals[metric], s, ms)]
  {
    r := totals;
    assert ms[..0] == [];
    var j := 0;
    while j < |ms|
      invariant 0 <= j <= |ms|
      invariant r == totals[metric := AddMonths(totals[metric], s, ms[..j])]
    {
      var month := ms[j];
      assert ms[..j + 1][..j] == ms[..j];
      r := r[metric := AddAt(r[metric], month, s)];
      j := j + 1;
    }
    assert ms[..j] == ms;
  }

  /** The nested loops over the triples `ts`, adding each one whose metric is
      tracked. */
  method Accumulate(totals: map<string, Total>, d: Dataset, ts: seq<Triple>, ms: seq<string>)
    returns (r: map<string, Total>)
    requires forall t :: t in ts ==> t in d.series
    ensures r == AccumulateOver(totals, d, ts, ms)
  {
    r := totals;
    var k := 0;
    while k < |ts|
      invariant 0 <= k <= |ts|
      invariant r == AccumulateOver(totals, d, ts[..k], ms)
    {
      var t := ts[k];
      assert ts[..k + 1][..k] == ts[..k];
      if t.metric in r {
        r := AddSeries(r, t.metric, d.series[t], ms);
      }
      k := k + 1;
    }
    assert ts[..k] == ts;
  }

  // ----- Averages (Website.js:343-366) -----

  /** The number of triples among `ts` with the metric: the sub-initiatives,
      over all initiatives, that report it. */
  function MetricCount(ts: seq<Triple>, metric: string): nat {
    if ts == [] then 0
    else MetricCount(ts[..|ts| - 1], metric) + (if ts[|ts| - 1].metric == metric then 1 else 0)
  }

  /** The loops counting `metricCount`. */
  method CountMetric(ts: seq<Triple>, metric: string) returns (metricCount: nat)
    ensures metricCount == MetricCount(ts, metric)
  {
    metricCount := 0;
    var k := 0;
    while k < |ts|
      invariant 0 <= k <= |ts|
      invariant metricCount == MetricCount(ts[..k], metric)
    {
      assert ts[..k + 1][..k] == ts[..k];
      if ts[k].metric == metric {
        metricCount := metricCount + 1;
      }
      k := k + 1;
    }
    assert ts[..k] == ts;
  }

  /** One division in a column. */
  function Scale(col: map<string, real>, m: string, c: real): map<string, real>
    requires c != 0.0
  {
    col[m := At(col, m) / c]
  }

  /** The four divisions of one metric's month `m` by `c`. */
  function DivAt(tt: Total, m: string, c: real): Total
    requires c != 0.0
  {
    Total(Scale(tt.actual, m, c), Scale(tt.forecast, m, c), Scale(tt.ytdActual, m, c), Scale(tt.ytdForecast, m, c),
          tt.momChange)
  }

  /** One metric divided month by month over the months `ms`. */
  function DivideMonths(tt: Total, c: real, ms: seq<string>): Total
    requires c != 0.0
  {
    if ms == [] then tt else DivAt(DivideMonths(tt, c, ms[..|ms| - 1]), ms[|ms| - 1], c)
  }

  /** The totals after averaging the metrics `names` in order: a metric with
      an entry and a positive count is divided by its count. */
  function AverageOver(tot: map<string, Total>, d: Dataset, names: seq<string>, ms: seq<string>): map<string, Total> {
    if names == [] then tot
    else
      var prev := AverageOver(tot, d, names[..|names| - 1], ms);
      var metric := names[|names| - 1];
      var c := MetricCount(d.order, metric);
      if metric in prev && c > 0 then prev[metric := DivideMonths(prev[metric], c as real, ms)] else prev
  }

  /** `allMonths.forEach(...)` dividing one metric by its count. */
  method DivideSeries(totals: map<string, Total>, metric: string, c: nat, ms: seq<string>)
    returns (r: map<string, Total>)
    requires metric in totals && c > 0
    ensures r == totals[metric := DivideMonths(totals[metric], c as real, ms)]
  {
    r := totals;
    assert ms[..0] == [];
    var j := 0;
    while j < |ms|
      invariant 0 <= j <= |ms|
      invariant r == totals[metric := DivideMonths(totals[metric], c as real, ms[..j])]
    {
      var month := ms[j];
      assert ms[..j + 1][..j] == ms[..j];
      r := r[metric := DivAt(r[metric], month, c as real)];
      j := j + 1;
    }
    assert ms[..j] == ms;
  }

  /** `['Engagement Rate', 'Avg Session Duration'].forEach(...)`. */
  method Average(totals: map<string, Total>, d: Dataset, ms: seq<string>) returns (r: map<string, Total>)
    ensures r == AverageOver(totals, d, AVERAGED, ms)
  {
    r := totals;
    var k := 0;
    while k < |AVERAGED|
      invariant 0 <= k <= |AVERAGED|
      invariant r == AverageOver(totals, d, AVERAGED[..k], ms)
    {
      var metricToAverage := AVERAGED[k];
      assert AVERAGED[..k + 1][..k] == AVERAGED[..k];
      if metricToAverage in r {
        var metricCount := CountMetric(d.order, metricToAverage);
        if metricCount > 0 {
          r := DivideSeries(r, metricToAverage, metricCount, ms);
        }
      }
      k := k + 1;
    }
    assert AVERAGED[..k] == AVERAGED;
  }

  // ----- Month-over-month change of the totals (Website.js:369-386) -----

  /** The changes written into `base` along the months `ms`: 0 for the
      first month, then each month against the month before it. */
  function ChangesFrom(base: map<string, real>, ms: seq<string>, values: map<string, real>): map<string, real> {
    if ms == [] then base
    else if |ms| == 1 then base[ms[0] := 0.0]
    else
      var n := |ms|;
      ChangesFrom(base, ms[..n - 1], values)[ms[n - 1] := PercentChange(At(values, ms[n - 2]), At(values, ms[n - 1]))]
  }

  /** `allMonths.forEach((month, index) => ...)` for one metric. */
  method TotalChangesLoop(base: map<string, real>, ms: seq<string>, actual: map<string, real>)
    returns (momChange: map<string, real>)
    ensures momChange == ChangesFrom(base, ms, actual)
  {
    momChange := base;
    var index := 0;
    while index < |ms|
      invariant 0 <= index <= |ms|
      invariant momChange == ChangesFrom(base, ms[..index], actual)
    {
      var month := ms[index];
      assert ms[..index + 1][..index] == ms[..index];
      if index > 0 {
        var currentValue := At(actual, month);
        var previousValue := At(actual, ms[index - 1]);
        if previousValue != 0.0 {
          momChange := momChange[month := (currentValue - previousValue) / previousValue * 100.0];
        } else {
          momChange := momChange[month := if currentValue > 0.0 then 100.0 else 0.0];
        }
      } else {
        momChange := momChange[month := 0.0];
      }
      index := index + 1;
    }
    assert ms[..index] == ms;
  }

  /** The totals after the change loop has run for the metrics `names`. */
  function MoMOver(tot: map<string, Total>, names: seq<string>, ms: seq<string>): map<string, Total> {
    if names == [] then tot
    else
      var prev := MoMOver(tot, names[..|names| - 1], ms);
      var metric := names[|names| - 1];
      if metric in prev
      then prev[metric := prev[metric].(momChange := ChangesFrom(prev[metric].momChange, ms, prev[metric].actual))]
      else prev
  }

  /** `Object.keys(totals).forEach(...)` computing the changes. */
  method TotalsMoM(totals: map<string, Total>, ms: seq<string>) returns (r: map<string, Total>)
    ensures r == MoMOver(totals, TRACKED, ms)
  {
    r := totals;
    var k := 0;
    while k < |TRACKED|
      invariant 0 <= k <= |TRACKED|
      invariant r == MoMOver(totals, TRACKED[..k], ms)
    {
      var metric := TRACKED[k];
      assert TRACKED[..k + 1][..k] == TRACKED[..k];
      if metric in r {
        var momChange := TotalChangesLoop(r[metric].momChange, ms, r[metric].actual);
        r := r[metric := r[metric].(momChange := momChange)];
      }
      k := k + 1;
    }
    assert TRACKED[..k] == TRACKED;
  }

  // ----- The whole calculation -----

  /** The result of `calculateTotals`. */
  function TotalsOf(d: Dataset): map<string, Total> {
    MoMOver(Averaged(d), TRACKED, AllMonths(d))
  }

  /** The totals after the sums, before the averages. */
  function Summed(d: Dataset): map<string, Total> {
    AccumulateOver(Zeroed(AllMonths(d)), d, d.order, AllMonths(d))
  }

  /** The totals after the averages, before the changes. */
  function Averaged(d: Dataset): map<string, Total> {
    AverageOver(Summed(d), d, AVERAGED, AllMonths(d))
  }

  /** `calculateTotals`: gather and sort the months, zero the totals, add
      every triple, average two metrics, then compute the changes. */
  method CalculateTotals(d: Dataset) returns (totals: map<string, Total>)
    requires Valid(d)
    ensures totals == TotalsOf(d)
  {
    var allMonths := GatherMonths(d, d.order);
    allMonths := SortByMonth(allMonths);
    totals := InitTotals(allMonths);
    totals := Accumulate(totals, d, d.order, allMonths);
    totals := Average(totals, d, allMonths);
    totals := TotalsMoM(totals, allMonths);
  }

  // ----- What the totals are -----

  /** The sum of column `f` at month `m` over the triples among `ts` with
      the metric, a triple without a value for the month counting 0. */
  function Sum(d: Dataset, ts: seq<Triple>, metric: string, f: Field, m: string): real {
    if ts == [] then 0.0
    else
      var t := ts[|ts| - 1];
      Sum(d, ts[..|ts| - 1], metric, f, m) +
        (if t.metric == metric && t in d.series then At(Values(d.series[t], f), m) else 0.0)
  }

  /** The total reported for a metric, column and month: the sum over the
      visited triples, divided by the number of triples with the metric for
      an averaged metric reported by at least one triple. */
  function Final(d: Dataset, metric: string, f: Field, m: string): real {
    var c := MetricCount(d.order, metric);
    if metric in AVERAGED && c > 0 then Sum(d, d.order, metric, f, m) / c as real
    else Sum(d, d.order, metric, f, m)
  }

  /** The month-over-month changes of a total along the months `ms`. */
  function TotalChanges(ms: seq<string>, values: map<string, real>): map<string, real> {
    ChangesFrom(map[], ms, values)
  }

  /** The additions into one column over the months `ms`. */
  function BumpMonths(col: map<string, real>, values: map<string, real>, ms: seq<string>): map<string, real> {
    if ms == [] then col else Bump(BumpMonths(col, values, ms[..|ms| - 1]), ms[|ms| - 1], values)
  }

  /** Adding a triple over the months `ms` adds into each column on its own
      and leaves the changes alone. */
  lemma {:induction false} AddMonthsColumn(tt: Total, s: Series, ms: seq<string>, f: Field)
    ensures Column(AddMonths(tt, s, ms), f) == BumpMonths(Column(tt, f), Values(s, f), ms)
    ensures AddMonths(tt, s, ms).momChange == tt.momChange
  {
    if ms != [] {
      AddMonthsColumn(tt, s, ms[..|ms| - 1], f);
    }
  }

  /** Over duplicate-free months, each of those months gets the triple's
      value (or 0) added once, and the rest of the column is left alone. */
  lemma {:induction false} BumpMonthsValues(col: map<string, real>, values: map<string, real>, ms: seq<string>)
    requires Distinct(ms)
    ensures BumpMonths(col, values, ms).Keys == col.Keys + set m | m in ms
    ensures forall m :: m in ms ==> BumpMonths(col, values, ms)[m] == At(col, m) + At(values, m)
    ensures forall m :: m in col && m !in ms ==> BumpMonths(col, values, ms)[m] == col[m]
  {
    if ms != [] {
      var init, x := ms[..|ms| - 1], ms[|ms| - 1];
      assert x !in init;
      BumpMonthsValues(col, values, init);
      assert ms == init + [x];
    }
  }

  /** The divisions in one column over the months `ms`. */
  function ScaleMonths(col: map<string, real>, c: real, ms: seq<string>): map<string, real>
    requires c != 0.0
  {
    if ms == [] then col else Scale(ScaleMonths(col, c, ms[..|ms| - 1]), ms[|ms| - 1], c)
  }

  /** Dividing a metric over the months `ms` divides each column on its own
      and leaves the changes alone. */
  lemma {:induction false} DivideMonthsColumn(tt: Total, c: real, ms: seq<string>, f: Field)
    requires c != 0.0
    ensures Column(DivideMonths(tt, c, ms), f) == ScaleMonths(Column(tt, f), c, ms)
    ensures DivideMonths(tt, c, ms).momChange == tt.momChange
  {
    if ms != [] {
      DivideMonthsColumn(tt, c, ms[..|ms| - 1], f);
    }
  }

  /** Over duplicate-free months, each of those months is divided once, and
      the rest of the column is left alone. */
  lemma {:induction false} ScaleMonthsValues(col: map<string, real>, c: real, ms: seq<string>)
    requires c != 0.0 && Distinct(ms)
    ensures ScaleMonths(col, c, ms).Keys == col.Keys + set m | m in ms
    ensures forall m :: m in ms ==> ScaleMonths(col, c, ms)[m] == At(col, m) / c
    ensures forall m :: m in col && m !in ms ==> ScaleMonths(col, c, ms)[m] == col[m]
  {
    if ms != [] {
      var init, x := ms[..|ms| - 1], ms[|ms| - 1];
      assert x !in init;
      ScaleMonthsValues(col, c, init);
      assert ms == init + [x];
    }
  }

  /** Adding triples never adds or removes a metric. */
  lemma {:induction false} AccumulateKeys(tot: map<string, Total>, d: Dataset, ts: seq<Triple>, ms: seq<string>)
    ensures AccumulateOver(tot, d, ts, ms).Keys == tot.Keys
  {
    if ts != [] {
      AccumulateKeys(tot, d, ts[..|ts| - 1], ms);
    }
  }

  /** From the zeroed totals over duplicate-free months, each column of a
      tracked metric holds, for every month, the sum over the triples with
      that metric. */
  lemma {:induction false} AccumulateColumn(d: Dataset, ts: seq<Triple>, ms: seq<string>, metric: string, f: Field)
    requires Distinct(ms) && metric in TRACKED
    ensures metric in AccumulateOver(Zeroed(ms), d, ts, ms)
    ensures Column(AccumulateOver(Zeroed(ms), d, ts, ms)[metric], f).Keys == set m | m in ms
    ensures forall m :: m in ms ==> Column(AccumulateOver(Zeroed(ms), d, ts, ms)[metric], f)[m] == Sum(d, ts, metric, f, m)
    ensures AccumulateOver(Zeroed(ms), d, ts, ms)[metric].momChange == map[]
  {
    AccumulateKeys(Zeroed(ms), d, ts, ms);
    if ts != [] {
      var init, t := ts[..|ts| - 1], ts[|ts| - 1];
      AccumulateColumn(d, init, ms, metric, f);
      AccumulateKeys(Zeroed(ms), d, init, ms);
      var prev := AccumulateOver(Zeroed(ms), d, init, ms);
      if t in d.series && t.metric == metric {
        var s := d.series[t];
        AddMonthsColumn(prev[metric], s, ms, f);
        BumpMonthsValues(Column(prev[metric], f), Values(s, f), ms);
      }
    }
  }

  /** Averaging never adds or removes a metric. */
  lemma {:induction false} AverageKeys(tot: map<string, Total>, d: Dataset, names: seq<string>, ms: seq<string>)
    ensures AverageOver(tot, d, names, ms).Keys == tot.Keys
  {
    if names != [] {
      AverageKeys(tot, d, names[..|names| - 1], ms);
    }
  }

  /** Averaging the duplicate-free metrics `names` divides each month of a
      column of such a metric by its count once, when the count is
      positive, and leaves every other metric alone. */
  lemma {:induction false} AverageColumn(tot: map<string, Total>, d: Dataset, names: seq<string>, ms: seq<string>,
                                         metric: string, f: Field)
    requires Distinct(names) && Distinct(ms) && metric in tot
    requires Column(tot[metric], f).Keys == set m | m in ms
    ensures metric in AverageOver(tot, d, names, ms)
    ensures Column(AverageOver(tot, d, names, ms)[metric], f).Keys == set m | m in ms
    ensures forall m :: m in ms ==>
              Column(AverageOver(tot, d, names, ms)[metric], f)[m] ==
              var c := MetricCount(d.order, metric);
              if metric in names && c > 0 then Column(tot[metric], f)[m] / c as real else Column(tot[metric], f)[m]
    ensures AverageOver(tot, d, names, ms)[metric].momChange == tot[metric].momChange
  {
    AverageKeys(tot, d, names, ms);
    if names != [] {
      var init, x := names[..|names| - 1], names[|names| - 1];
      assert names == init + [x];
      AverageColumn(tot, d, init, ms, metric, f);
      AverageKeys(tot, d, init, ms);
      var prev := AverageOver(tot, d, init, ms);
      var c := MetricCount(d.order, x);
      if x == metric && c > 0 {
        assert metric !in init;
        DivideMonthsColumn(prev[metric], c as real, ms, f);
        ScaleMonthsValues(Column(prev[metric], f), c as real, ms);
      }
    }
  }

  /** The change loop over the duplicate-free metrics `names` fills the
      changes of each such metric from its actual values and touches
      nothing else. */
  lemma {:induction false} MoMOverMetric(tot: map<string, Total>, names: seq<string>, ms: seq<string>, metric: string)
    requires Distinct(names)
    ensures MoMOver(tot, names, ms).Keys == tot.Keys
    ensures metric in tot ==>
              MoMOver(tot, names, ms)[metric] ==
              if metric in names
              then tot[metric].(momChange := ChangesFrom(tot[metric].momChange, ms, tot[metric].actual))
              else tot[metric]
  {
    if names != [] {
      var init, x := names[..|names| - 1], names[|names| - 1];
      assert names == init + [x];
      assert x !in init;
      MoMOverMetric(tot, init, ms, metric);
      MoMOverMetric(tot, init, ms, x);
    }
  }

  lemma AveragedDistinct()
    ensures Distinct(AVERAGED)
  {
  }

  /** `calculateTotals` reports exactly the six tracked metrics. */
  lemma TotalsKeys(d: Dataset)
    ensures TotalsOf(d).Keys == set metric | metric in TRACKED
  {
    var ms := AllMonths(d);
    AccumulateKeys(Zeroed(ms), d, d.order, ms);
    AverageKeys(Summed(d), d, AVERAGED, ms);
    TrackedDistinct();
    MoMOverMetric(Averaged(d), TRACKED, ms, "");
  }

  /** Before the changes, each value column of a tracked metric has exactly
      the months with data, holding the reported totals. */
  lemma AveragedValues(d: Dataset, metric: string, f: Field)
    requires metric in TRACKED
    ensures metric in Averaged(d)
    ensures Column(Averaged(d)[metric], f).Keys == set m | m in AllMonths(d)
    ensures forall m :: m in AllMonths(d) ==> Column(Averaged(d)[metric], f)[m] == Final(d, metric, f, m)
    ensures Averaged(d)[metric].momChange == map[]
  {
    AllMonthsOrder(d);
    AccumulateColumn(d, d.order, AllMonths(d), metric, f);
    AveragedDistinct();
    AverageColumn(Summed(d), d, AVERAGED, AllMonths(d), metric, f);
  }

  /** A tracked metric leaves the change loop with its value columns as
      they were and its changes computed from its total actual values. */
  lemma TotalsMetric(d: Dataset, metric: string)
    requires metric in TRACKED
    ensures metric in Averaged(d) && metric in TotalsOf(d)
    ensures TotalsOf(d)[metric] ==
            Averaged(d)[metric].(momChange := TotalChanges(AllMonths(d), Averaged(d)[metric].actual))
  {
    AveragedValues(d, metric, Actual);
    TrackedDistinct();
    MoMOverMetric(Averaged(d), TRACKED, AllMonths(d), metric);
  }

  /** Each value column of a tracked metric has exactly the months with
      data, and holds for each the sum over the triples with the metric,
      averaged over their number for the averaged metrics. */
  lemma TotalsValues(d: Dataset, metric: string, f: Field)
    requires metric in TRACKED
    ensures metric in TotalsOf(d)
    ensures Column(TotalsOf(d)[metric], f).Keys == set m | m in AllMonths(d)
    ensures forall m :: m in AllMonths(d) ==> Column(TotalsOf(d)[metric], f)[m] == Final(d, metric, f, m)
  {
    TotalsMetric(d, metric);
    AveragedValues(d, metric, f);
    assert Column(TotalsOf(d)[metric], f) == Column(Averaged(d)[metric], f);
  }

  /** The changes of a tracked metric are those of its total actual values
      along all months. */
  lemma TotalsChanges(d: Dataset, metric: string)
    requires metric in TRACKED
    ensures metric in TotalsOf(d)
    ensures TotalsOf(d)[metric].momChange == TotalChanges(AllMonths(d), TotalsOf(d)[metric].actual)
  {
    TotalsMetric(d, metric);
  }

  /** Along duplicate-free months, the changes of a total are the changes
      of a triple with a 0 for the first month. */
  lemma {:induction false} TotalChangesFirstZero(ms: seq<string>, values: map<string, real>)
    requires Distinct(ms) && ms != []
    ensures TotalChanges(ms, values) == Changes(ms, values)[ms[0] := 0.0]
  {
    var n := |ms|;
    if n > 1 {
      var init := ms[..n - 1];
      TotalChangesFirstZero(init, values);
      assert ms[0] != ms[n - 1];
      assert init[0] == ms[0] && init[n - 2] == ms[n - 2];
    }
  }

  /** Along duplicate-free months, the changes of a total are keyed by every
      month: 0 for the first, and for each later month the change against
      the month before it. */
  lemma TotalChangesMeaning(ms: seq<string>, values: map<string, real>)
    requires Distinct(ms) && ms != []
    ensures TotalChanges(ms, values).Keys == set m | m in ms
    ensures TotalChanges(ms, values)[ms[0]] == 0.0
    ensures forall k :: 1 <= k < |ms| ==>
              TotalChanges(ms, values)[ms[k]] == PercentChange(At(values, ms[k - 1]), At(values, ms[k]))
  {
    TotalChangesFirstZero(ms, values);
    ChangesKeys(ms, values);
    ChangesValues(ms, values);
    forall k | 1 <= k < |ms| ensures ms[k] != ms[0] {
    }
    assert ms == [ms[0]] + ms[1..];
  }
}
