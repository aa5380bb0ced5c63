/** The structuring stage, `processData` (Website.js:141-207): unique lists
    of initiatives, sub-initiatives and metrics, and for every
    (initiative, sub-initiative, metric) triple present in the rows four
    month-keyed maps. */
module Structure {
  import opened Wrappers
  import opened Sequences
  import opened Numbers
  import opened Csv

  /** One parsed row as `processData` reads it. */
  datatype Row = Row(initiative: string, subInitiative: string, metric: string, month: string,
                     actual: real, forecast: real, ytdActual: real, ytdForecast: real)

  /** The key of the nested lookup `structured[initiative][subInitiative][metric]`. */
  datatype Triple = Triple(initiative: string, subInitiative: string, metric: string)

  function KeyOf(r: Row): Triple {
    Triple(r.initiative, r.subInitiative, r.metric)
  }

  // ----- From parsed entries to rows -----

  function TextOf(e: Entry, column: string): Option<string> {
    if column in e && e[column].TextCell? then Some(e[column].text) else None
  }

  function ValueIn(e: Entry, column: string): Option<real> {
    if column in e && e[column].NumberCell? && e[column].number.Num? then Some(e[column].number.value) else None
  }

  /** The row read from a parsed entry. A missing `Month` column reads as
      the empty month, which `processData` skips like any empty month; an
      entry without one of the three key columns, or whose value column is
      missing or NaN, has no row in this model. */
  function RowOf(e: Entry): (r: Option<Row>)
    ensures r.Some? <==>
      TextOf(e, "Initiative Cards").Some? && TextOf(e, "Sub Initiative").Some? && TextOf(e, "Metric").Some? &&
      ValueIn(e, "Actual").Some? && ValueIn(e, "Forecast").Some? &&
      ValueIn(e, "YTD Actual Totals").Some? && ValueIn(e, "YTD Forecast Totals").Some?
    ensures r.Some? ==> TextOf(e, "Initiative Cards") == Some(r.value.initiative)
    ensures r.Some? ==> TextOf(e, "Sub Initiative") == Some(r.value.subInitiative)
    ensures r.Some? ==> TextOf(e, "Metric") == Some(r.value.metric)
    ensures r.Some? ==> ValueIn(e, "Actual") == Some(r.value.actual)
    ensures r.Some? ==> ValueIn(e, "Forecast") == Some(r.value.forecast)
    ensures r.Some? ==> ValueIn(e, "YTD Actual Totals") == Some(r.value.ytdActual)
    ensures r.Some? ==> ValueIn(e, "YTD Forecast Totals") == Some(r.value.ytdForecast)
    ensures r.Some? ==> r.value.month == (if TextOf(e, "Month").Some? then TextOf(e, "Month").value else "")
  {
    var i, s, m := TextOf(e, "Initiative Cards"), TextOf(e, "Sub Initiative"), TextOf(e, "Metric");
    var a, f := ValueIn(e, "Actual"), ValueIn(e, "Forecast");
    var ya, yf := ValueIn(e, "YTD Actual Totals"), ValueIn(e, "YTD Forecast Totals");
    if i.Some? && s.Some? && m.Some? && a.Some? && f.Some? && ya.Some? && yf.Some? then
      var month := if TextOf(e, "Month").Some? then TextOf(e, "Month").value else "";
      Some(Row(i.value, s.value, m.value, month, a.value, f.value, ya.value, yf.value))
    else None
  }

  /** The rows of parsed entries, when every entry has one. */
  function ToRows(es: seq<Entry>): (rows: Option<seq<Row>>)
    ensures rows.Some? ==> |rows.value| == |es|
    ensures rows.Some? ==> forall k :: 0 <= k < |es| ==> RowOf(es[k]) == Some(rows.value[k])
    ensures (forall k :: 0 <= k < |es| ==> RowOf(es[k]).Some?) ==> rows.Some?
  {
    if es == [] then Some([])
    else
      assert forall k :: 0 <= k < |es| - 1 ==> es[..|es| - 1][k] == es[k];
      match (ToRows(es[..|es| - 1]), RowOf(es[|es| - 1]))
      case (Some(rs), Some(r)) => Some(rs + [r])
      case _ => None
  }

  // ----- Columns and matching rows -----

  function InitiativeColumn(rows: seq<Row>): seq<string> {
    seq(|rows|, k requires 0 <= k < |rows| => rows[k].initiative)
  }

  function SubInitiativeColumn(rows: seq<Row>): seq<string> {
    seq(|rows|, k requires 0 <= k < |rows| => rows[k].subInitiative)
  }

  function MetricColumn(rows: seq<Row>): seq<string> {
    seq(|rows|, k requires 0 <= k < |rows| => rows[k].metric)
  }

  /** `data.filter(...)` for one triple: its rows, in input order. */
  function Matching(rows: seq<Row>, t: Triple): seq<Row> {
    if rows == [] then []
    else
      var r := rows[|rows| - 1];
      Matching(rows[..|rows| - 1], t) + (if KeyOf(r) == t then [r] else [])
  }

  /** `data.some(...)` for an (initiative, sub-initiative) pair. */
  predicate HasPair(rows: seq<Row>, i: string, s: string) {
    exists r :: r in rows && r.initiative == i && r.subInitiative == s
  }

  /** The triples that occur in the rows. */
  function TriplesOf(rows: seq<Row>): set<Triple> {
    set r | r in rows :: KeyOf(r)
  }

  lemma {:induction false} MatchingMembers(rows: seq<Row>, t: Triple)
    ensures forall r :: r in Matching(rows, t) <==> r in rows && KeyOf(r) == t
  {
    if rows != [] {
      MatchingMembers(rows[..|rows| - 1], t);
      assert rows == rows[..|rows| - 1] + [rows[|rows| - 1]];
    }
  }

  /** A triple has rows exactly when it occurs in the data. */
  lemma MatchingNonEmpty(rows: seq<Row>, t: Triple)
    ensures |Matching(rows, t)| > 0 <==> t in TriplesOf(rows)
  {
    MatchingMembers(rows, t);
    if t in TriplesOf(rows) {
      var r :| r in rows && KeyOf(r) == t;
      assert r in Matching(rows, t);
    }
  }

  // ----- The month maps of one triple -----

  /** The four month-keyed maps of one triple. `months` lists the month keys
      in insertion order, the order `Object.keys` reports them in. */
  datatype Series = Series(months: seq<string>, actual: map<string, real>, forecast: map<string, real>,
                           ytdActual: map<string, real>, ytdForecast: map<string, real>)

  const EmptySeries := Series([], map[], map[], map[], map[])

  /** The four maps have one key set, the months listed once each. */
  ghost predicate WellFormed(s: Series) {
    && Distinct(s.months)
    && (forall m :: m in s.actual <==> m in s.months)
    && (forall m :: m in s.forecast <==> m in s.actual)
    && (forall m :: m in s.ytdActual <==> m in s.actual)
    && (forall m :: m in s.ytdForecast <==> m in s.actual)
  }

  /** The four assignments for one row's month (Website.js:182-185). */
  function Put(s: Series, r: Row): Series {
    Series(if r.month in s.actual then s.months else s.months + [r.month],
           s.actual[r.month := r.actual], s.forecast[r.month := r.forecast],
           s.ytdActual[r.month := r.ytdActual], s.ytdForecast[r.month := r.ytdForecast])
  }

  /** The non-empty months of the rows, in order. */
  function MonthsOf(rs: seq<Row>): seq<string> {
    if rs == [] then []
    else
      var r := rs[|rs| - 1];
      MonthsOf(rs[..|rs| - 1]) + (if r.month != "" then [r.month] else [])
  }

  /** The maps filled from the rows of one triple in order, a row with an
      empty month being skipped. */
  function Collect(rs: seq<Row>): Series {
    if rs == [] then EmptySeries
    else
      var init, r := rs[..|rs| - 1], rs[|rs| - 1];
      if r.month != "" then Put(Collect(init), r) else Collect(init)
  }

  /** Writing one month keeps the key sets equal, appending the month to the
      key order when it is new. */
  lemma PutWellFormed(s: Series, r: Row)
    requires WellFormed(s)
    ensures WellFormed(Put(s, r))
    ensures Put(s, r).months == if r.month in s.months then s.months else s.months + [r.month]
  {
    DistinctSnoc(s.months, r.month);
  }

  /** The key sets of the four maps agree, and the keys in insertion order
      are the non-empty months of the rows in order of first appearance. */
  lemma {:induction false} CollectWellFormed(rs: seq<Row>)
    ensures WellFormed(Collect(rs))
    ensures Collect(rs).months == Dedup(MonthsOf(rs))
  {
    if rs != [] {
      var init, r := rs[..|rs| - 1], rs[|rs| - 1];
      CollectWellFormed(init);
      DedupSnoc(MonthsOf(init), r.month);
      if r.month != "" {
        assert MonthsOf(rs) == MonthsOf(init) + [r.month];
        PutWellFormed(Collect(init), r);
      } else {
        assert MonthsOf(rs) == MonthsOf(init);
      }
    }
  }

  /** A month's values come from the last row of that month. */
  lemma {:induction false} CollectLastWins(rs: seq<Row>, j: nat)
    requires j < |rs| && rs[j].month != ""
    requires forall k :: j < k < |rs| ==> rs[k].month != rs[j].month
    ensures var s := Collect(rs); var m := rs[j].month;
            && m in s.actual && m in s.forecast && m in s.ytdActual && m in s.ytdForecast
            && s.actual[m] == rs[j].actual
            && s.forecast[m] == rs[j].forecast
            && s.ytdActual[m] == rs[j].ytdActual
            && s.ytdForecast[m] == rs[j].ytdForecast
  {
    var n := |rs|;
    if j < n - 1 {
      CollectLastWins(rs[..n - 1], j);
    }
  }

  /** The month keys are exactly the non-empty months of the rows. */
  lemma CollectKeys(rs: seq<Row>)
    ensures forall m :: m in Collect(rs).actual <==> m != "" && exists r :: r in rs && r.month == m
  {
    CollectWellFormed(rs);
    DedupProperties(MonthsOf(rs));
    MonthsOfMembers(rs);
  }

  lemma {:induction false} MonthsOfMembers(rs: seq<Row>)
    ensures forall m :: m in MonthsOf(rs) <==> m != "" && exists r :: r in rs && r.month == m
  {
    if rs != [] {
      var init := rs[..|rs| - 1];
      MonthsOfMembers(init);
      assert rs == init + [rs[|rs| - 1]];
    }
  }

  /** A triple whose rows all have an empty month still gets its (empty) maps. */
  lemma {:induction false} CollectNoMonths(rs: seq<Row>)
    requires forall k :: 0 <= k < |rs| ==> rs[k].month == ""
    ensures Collect(rs) == EmptySeries
  {
    if rs != [] {
      CollectNoMonths(rs[..|rs| - 1]);
    }
  }

  // ----- The iteration order of the nested lookup -----

  /** The triples under one pair, in the order of `ms`: those with rows. */
  function MetricTriples(rows: seq<Row>, i: string, s: string, ms: seq<string>): seq<Triple> {
    if ms == [] then []
    else
      var t := Triple(i, s, ms[|ms| - 1]);
      MetricTriples(rows, i, s, ms[..|ms| - 1]) + (if |Matching(rows, t)| > 0 then [t] else [])
  }

  /** The triples under one initiative: for each sub-initiative of `ss` that
      occurs with it, its triples. */
  function SubTriples(rows: seq<Row>, i: string, ss: seq<string>, ms: seq<string>): seq<Triple> {
    if ss == [] then []
    else
      var s := ss[|ss| - 1];
      SubTriples(rows, i, ss[..|ss| - 1], ms) + (if HasPair(rows, i, s) then MetricTriples(rows, i, s, ms) else [])
  }

  /** All triples, initiative by initiative. */
  function InitTriples(rows: seq<Row>, inits: seq<string>, ss: seq<string>, ms: seq<string>): seq<Triple> {
    if inits == [] then []
    else InitTriples(rows, inits[..|inits| - 1], ss, ms) + SubTriples(rows, inits[|inits| - 1], ss, ms)
  }

  lemma {:induction false} MetricTriplesMembers(rows: seq<Row>, i: string, s: string, ms: seq<string>)
    ensures forall t :: t in MetricTriples(rows, i, s, ms) <==>
              t.initiative == i && t.subInitiative == s && t.metric in ms && |Matching(rows, t)| > 0
  {
    if ms != [] {
      MetricTriplesMembers(rows, i, s, ms[..|ms| - 1]);
      assert ms == ms[..|ms| - 1] + [ms[|ms| - 1]];
    }
  }

  lemma {:induction false} SubTriplesMembers(rows: seq<Row>, i: string, ss: seq<string>, ms: seq<string>)
    ensures forall t :: t in SubTriples(rows, i, ss, ms) <==>
              t.initiative == i && t.subInitiative in ss && HasPair(rows, i, t.subInitiative)
              && t.metric in ms && |Matching(rows, t)| > 0
  {
    if ss != [] {
      var s := ss[|ss| - 1];
      SubTriplesMembers(rows, i, ss[..|ss| - 1], ms);
      MetricTriplesMembers(rows, i, s, ms);
      assert ss == ss[..|ss| - 1] + [s];
    }
  }

  lemma {:induction false} InitTriplesMembers(rows: seq<Row>, inits: seq<string>, ss: seq<string>, ms: seq<string>)
    ensures forall t :: t in InitTriples(rows, inits, ss, ms) <==>
              t.initiative in inits && t.subInitiative in ss && HasPair(rows, t.initiative, t.subInitiative)
              && t.metric in ms && |Matching(rows, t)| > 0
  {
    if inits != [] {
      InitTriplesMembers(rows, inits[..|inits| - 1], ss, ms);
      SubTriplesMembers(rows, inits[|inits| - 1], ss, ms);
      assert inits == inits[..|inits| - 1] + [inits[|inits| - 1]];
    }
  }

  lemma {:induction false} MetricTriplesDistinct(rows: seq<Row>, i: string, s: string, ms: seq<string>)
    requires Distinct(ms)
    ensures Distinct(MetricTriples(rows, i, s, ms))
  {
    if ms != [] {
      var init := ms[..|ms| - 1];
      MetricTriplesDistinct(rows, i, s, init);
      MetricTriplesMembers(rows, i, s, init);
      var t := Triple(i, s, ms[|ms| - 1]);
      assert ms[|ms| - 1] !in init;
      DistinctSnoc(MetricTriples(rows, i, s, init), t);
    }
  }

  lemma {:induction false} SubTriplesDistinct(rows: seq<Row>, i: string, ss: seq<string>, ms: seq<string>)
    requires Distinct(ss) && Distinct(ms)
    ensures Distinct(SubTriples(rows, i, ss, ms))
  {
    if ss != [] {
      var init, s := ss[..|ss| - 1], ss[|ss| - 1];
      SubTriplesDistinct(rows, i, init, ms);
      SubTriplesMembers(rows, i, init, ms);
      MetricTriplesDistinct(rows, i, s, ms);
      MetricTriplesMembers(rows, i, s, ms);
      assert s !in init;
      if HasPair(rows, i, s) {
        var a, b := SubTriples(rows, i, init, ms), MetricTriples(rows, i, s, ms);
        assert forall x, y :: 0 <= x < |a| && 0 <= y < |b| ==> a[x] != b[y] by {
          forall x, y | 0 <= x < |a| && 0 <= y < |b| ensures a[x] != b[y] {
            assert a[x] in a && b[y] in b;
          }
        }
        DistinctConcat(a, b);
      }
    }
  }

  lemma {:induction false} InitTriplesDistinct(rows: seq<Row>, inits: seq<string>, ss: seq<string>, ms: seq<string>)
    requires Distinct(inits) && Distinct(ss) && Distinct(ms)
    ensures Distinct(InitTriples(rows, inits, ss, ms))
  {
    if inits != [] {
      var init, i := inits[..|inits| - 1], inits[|inits| - 1];
      InitTriplesDistinct(rows, init, ss, ms);
      InitTriplesMembers(rows, init, ss, ms);
      SubTriplesDistinct(rows, i, ss, ms);
      SubTriplesMembers(rows, i, ss, ms);
      assert i !in init;
      var a, b := InitTriples(rows, init, ss, ms), SubTriples(rows, i, ss, ms);
      assert forall x, y :: 0 <= x < |a| && 0 <= y < |b| ==> a[x] != b[y] by {
        forall x, y | 0 <= x < |a| && 0 <= y < |b| ensures a[x] != b[y] {
          assert a[x] in a && b[y] in b;
        }
      }
      DistinctConcat(a, b);
    }
  }

  // ----- The whole structure -----

  /** What `processData` returns; `order` is the order in which the
      calculators visit the triples (`data.initiatives`, then the keys of
      each nested object), and `series` is the nested lookup. */
  datatype Dataset = Dataset(raw: seq<Row>, initiatives: seq<string>, subInitiatives: seq<string>,
                             metrics: seq<string>, order: seq<Triple>, series: map<Triple, Series>)

  /** The maps of the given triples. */
  function SeriesFor(rows: seq<Row>, ts: seq<Triple>): map<Triple, Series> {
    map t | t in ts :: Collect(Matching(rows, t))
  }

  lemma SeriesForSnoc(rows: seq<Row>, ts: seq<Triple>, t: Triple)
    ensures SeriesFor(rows, ts + [t]) == SeriesFor(rows, ts)[t := Collect(Matching(rows, t))]
  {
  }

  /** The structure `processData` builds from `rows`. */
  function Process(rows: seq<Row>): Dataset {
    var inits := Dedup(InitiativeColumn(rows));
    var ss := Dedup(SubInitiativeColumn(rows));
    var ms := Dedup(MetricColumn(rows));
    var order := InitTriples(rows, inits, ss, ms);
    Dataset(rows, inits, ss, ms, order, SeriesFor(rows, order))
  }

  /** What the calculators rely on: every visited triple has its maps, each
      triple is visited once, and the maps of each triple agree on their keys. */
  ghost predicate Valid(d: Dataset) {
    && Distinct(d.order)
    && d.series.Keys == (set t | t in d.order)
    && forall t :: t in d.series ==> WellFormed(d.series[t])
  }

  /** A value computed from the maps of each of the triples `ts`; what the
      calculators build by visiting the triples in order. */
  function PerTriple<V>(d: Dataset, ts: seq<Triple>, f: Series -> V): map<Triple, V> {
    map t | t in ts && t in d.series :: f(d.series[t])
  }

  /** Visiting one more triple adds its value. */
  lemma PerTripleStep<V>(d: Dataset, ts: seq<Triple>, k: nat, f: Series -> V, m: map<Triple, V>, v: V)
    requires k < |ts| && ts[k] in d.series
    requires m == PerTriple(d, ts[..k], f) && v == f(d.series[ts[k]])
    ensures m[ts[k] := v] == PerTriple(d, ts[..k + 1], f)
  {
    assert ts[..k + 1] == ts[..k] + [ts[k]];
  }

  /** Visiting triples that are exactly the keys gives a value for every
      triple. */
  lemma PerTripleAll<V>(d: Dataset, ts: seq<Triple>, f: Series -> V)
    requires d.series.Keys == set t | t in ts
    ensures PerTriple(d, ts, f) == map t | t in d.series :: f(d.series[t])
  {
  }

  /** `processData`: the unique lists, then for each initiative, each
      sub-initiative occurring with it and each metric with rows, the maps
      filled row by row. */
  method ProcessData(rows: seq<Row>) returns (d: Dataset)
    ensures d == Process(rows)
  {
    var initiatives := Dedup(InitiativeColumn(rows));
    var subInitiatives := Dedup(SubInitiativeColumn(rows));
    var metrics := Dedup(MetricColumn(rows));
    var order: seq<Triple> := [];
    var series: map<Triple, Series> := map[];
    for a := 0 to |initiatives|
      invariant order == InitTriples(rows, initiatives[..a], subInitiatives, metrics)
      invariant series == SeriesFor(rows, order)
    {
      order, series := FillInitiative(rows, initiatives[a], subInitiatives, metrics, order, series);
      assert initiatives[..a + 1][..a] == initiatives[..a];
    }
    assert initiatives[..|initiatives|] == initiatives;
    d := Dataset(rows, initiatives, subInitiatives, metrics, order, series);
  }

  /** `subInitiatives.forEach(...)` for one initiative: the sub-initiatives
      that occur with it get their metrics filled. */
  method FillInitiative(rows: seq<Row>, initiative: string, subInitiatives: seq<string>, metrics: seq<string>,
                        order0: seq<Triple>, series0: map<Triple, Series>)
    returns (order: seq<Triple>, series: map<Triple, Series>)
    requires series0 == SeriesFor(rows, order0)
    ensures order == order0 + SubTriples(rows, initiative, subInitiatives, metrics)
    ensures series == SeriesFor(rows, order)
  {
    order, series := order0, series0;
    for b := 0 to |subInitiatives|
      invariant order == order0 + SubTriples(rows, initiative, subInitiatives[..b], metrics)
      invariant series == SeriesFor(rows, order)
    {
      var subInitiative := subInitiatives[b];
      SubTriplesStep(rows, initiative, subInitiatives, b, metrics);
      if HasPair(rows, initiative, subInitiative) {
        order, series := FillPair(rows, initiative, subInitiative, metrics, order, series);
      }
    }
    assert subInitiatives[..|subInitiatives|] == subInitiatives;
  }

  /** One more sub-initiative adds the triples of its metrics when it occurs
      with the initiative. */
  lemma SubTriplesStep(rows: seq<Row>, i: string, ss: seq<string>, b: nat, ms: seq<string>)
    requires b < |ss|
    ensures SubTriples(rows, i, ss[..b + 1], ms) ==
            SubTriples(rows, i, ss[..b], ms) + (if HasPair(rows, i, ss[b]) then MetricTriples(rows, i, ss[b], ms) else [])
  {
    assert ss[..b + 1][..b] == ss[..b];
  }

  /** `metrics.forEach(...)` for one pair: each metric with rows gets its
      maps. */
  method FillPair(rows: seq<Row>, initiative: string, subInitiative: string, metrics: seq<string>,
                  order0: seq<Triple>, series0: map<Triple, Series>)
    returns (order: seq<Triple>, series: map<Triple, Series>)
    requires series0 == SeriesFor(rows, order0)
    ensures order == order0 + MetricTriples(rows, initiative, subInitiative, metrics)
    ensures series == SeriesFor(rows, order)
  {
    order, series := order0, series0;
    for c := 0 to |metrics|
      invariant order == order0 + MetricTriples(rows, initiative, subInitiative, metrics[..c])
      invariant series == SeriesFor(rows, order)
    {
      var t := Triple(initiative, subInitiative, metrics[c]);
      var metricData := Matching(rows, t);
      if |metricData| > 0 {
        var s := FillSeries(metricData);
        SeriesForSnoc(rows, order, t);
        series := series[t := s];
        order := order + [t];
      }
      assert metrics[..c + 1][..c] == metrics[..c];
    }
    assert metrics[..|metrics|] == metrics;
  }

  /** `metricData.forEach(...)`: the four assignments for each row with a
      non-empty month. */
  method FillSeries(metricData: seq<Row>) returns (s: Series)
    ensures s == Collect(metricData)
  {
    s := EmptySeries;
    for k := 0 to |metricData|
      invariant s == Collect(metricData[..k])
    {
      var item := metricData[k];
      assert metricData[..k + 1][..k] == metricData[..k];
      if item.month != "" {
        s := Put(s, item);
      }
    }
    assert metricData[..|metricData|] == metricData;
  }

  /** The unique lists are duplicate-free and hold exactly the column values;
      `ProcessListsOrder` gives their order. */
  lemma ProcessLists(rows: seq<Row>)
    ensures var d := Process(rows);
            && Distinct(d.initiatives) && Distinct(d.subInitiatives) && Distinct(d.metrics)
            && (forall x :: x in d.initiatives <==> exists r :: r in rows && r.initiative == x)
            && (forall x :: x in d.subInitiatives <==> exists r :: r in rows && r.subInitiative == x)
            && (forall x :: x in d.metrics <==> exists r :: r in rows && r.metric == x)
  {
    DedupProperties(InitiativeColumn(rows));
    DedupProperties(SubInitiativeColumn(rows));
    DedupProperties(MetricColumn(rows));
    InitiativeColumnMembers(rows);
    SubInitiativeColumnMembers(rows);
    MetricColumnMembers(rows);
  }

  /** The unique lists are in order of first appearance: every row holding
      a later element of a list is preceded by a row holding each earlier one. */
  lemma ProcessListsOrder(rows: seq<Row>)
    ensures var d := Process(rows);
            (forall i, j, k :: 0 <= i < j < |d.initiatives| && 0 <= k < |rows| && rows[k].initiative == d.initiatives[j] ==>
               exists m :: 0 <= m < k && rows[m].initiative == d.initiatives[i])
            && (forall i, j, k :: 0 <= i < j < |d.subInitiatives| && 0 <= k < |rows| && rows[k].subInitiative == d.subInitiatives[j] ==>
                  exists m :: 0 <= m < k && rows[m].subInitiative == d.subInitiatives[i])
            && (forall i, j, k :: 0 <= i < j < |d.metrics| && 0 <= k < |rows| && rows[k].metric == d.metrics[j] ==>
                  exists m :: 0 <= m < k && rows[m].metric == d.metrics[i])
  {
    var d := Process(rows);
    ProcessListsAre(rows);
    InitiativeOrder(rows, d.initiatives);
    SubInitiativeOrder(rows, d.subInitiatives);
    MetricOrder(rows, d.metrics);
  }

  lemma ProcessListsAre(rows: seq<Row>)
    ensures Process(rows).initiatives == Dedup(InitiativeColumn(rows))
    ensures Process(rows).subInitiatives == Dedup(SubInitiativeColumn(rows))
    ensures Process(rows).metrics == Dedup(MetricColumn(rows))
  {
  }

  lemma InitiativeOrder(rows: seq<Row>, d: seq<string>)
    requires d == Dedup(InitiativeColumn(rows))
    ensures forall i, j, k :: 0 <= i < j < |d| && 0 <= k < |rows| && rows[k].initiative == d[j] ==>
              exists m :: 0 <= m < k && rows[m].initiative == d[i]
  {
    var c := InitiativeColumn(rows);
    DedupPrecedes(c);
    forall i, j, k | 0 <= i < j < |d| && 0 <= k < |rows| && rows[k].initiative == d[j]
      ensures exists m :: 0 <= m < k && rows[m].initiative == d[i]
    {
      assert c[k] == d[j];
      var m :| 0 <= m < k && c[m] == d[i];
      assert rows[m].initiative == d[i];
    }
  }

  lemma SubInitiativeOrder(rows: seq<Row>, d: seq<string>)
    requires d == Dedup(SubInitiativeColumn(rows))
    ensures forall i, j, k :: 0 <= i < j < |d| && 0 <= k < |rows| && rows[k].subInitiative == d[j] ==>
              exists m :: 0 <= m < k && rows[m].subInitiative == d[i]
  {
    var c := SubInitiativeColumn(rows);
    DedupPrecedes(c);
    forall i, j, k | 0 <= i < j < |d| && 0 <= k < |rows| && rows[k].subInitiative == d[j]
      ensures exists m :: 0 <= m < k && rows[m].subInitiative == d[i]
    {
      assert c[k] == d[j];
      var m :| 0 <= m < k && c[m] == d[i];
      assert rows[m].subInitiative == d[i];
    }
  }

  lemma MetricOrder(rows: seq<Row>, d: seq<string>)
    requires d == Dedup(MetricColumn(rows))
    ensures forall i, j, k :: 0 <= i < j < |d| && 0 <= k < |rows| && rows[k].metric == d[j] ==>
              exists m :: 0 <= m < k && rows[m].metric == d[i]
  {
    var c := MetricColumn(rows);
    DedupPrecedes(c);
    forall i, j, k | 0 <= i < j < |d| && 0 <= k < |rows| && rows[k].metric == d[j]
      ensures exists m :: 0 <= m < k && rows[m].metric == d[i]
    {
      assert c[k] == d[j];
      var m :| 0 <= m < k && c[m] == d[i];
      assert rows[m].metric == d[i];
    }
  }


  lemma InitiativeColumnMembers(rows: seq<Row>)
    ensures forall x :: x in InitiativeColumn(rows) <==> exists r :: r in rows && r.initiative == x
  {
    forall x | x in InitiativeColumn(rows) ensures exists r :: r in rows && r.initiative == x {
      var k :| 0 <= k < |rows| && InitiativeColumn(rows)[k] == x;
      assert rows[k] in rows;
    }
    forall r | r in rows ensures r.initiative in InitiativeColumn(rows) {
      var k :| 0 <= k < |rows| && rows[k] == r;
      assert InitiativeColumn(rows)[k] == r.initiative;
    }
  }

  lemma SubInitiativeColumnMembers(rows: seq<Row>)
    ensures forall x :: x in SubInitiativeColumn(rows) <==> exists r :: r in rows && r.subInitiative == x
  {
    forall x | x in SubInitiativeColumn(rows) ensures exists r :: r in rows && r.subInitiative == x {
      var k :| 0 <= k < |rows| && SubInitiativeColumn(rows)[k] == x;
      assert rows[k] in rows;
    }
    forall r | r in rows ensures r.subInitiative in SubInitiativeColumn(rows) {
      var k :| 0 <= k < |rows| && rows[k] == r;
      assert SubInitiativeColumn(rows)[k] == r.subInitiative;
    }
  }

  lemma MetricColumnMembers(rows: seq<Row>)
    ensures forall x :: x in MetricColumn(rows) <==> exists r :: r in rows && r.metric == x
  {
    forall x | x in MetricColumn(rows) ensures exists r :: r in rows && r.metric == x {
      var k :| 0 <= k < |rows| && MetricColumn(rows)[k] == x;
      assert rows[k] in rows;
    }
    forall r | r in rows ensures r.metric in MetricColumn(rows) {
      var k :| 0 <= k < |rows| && rows[k] == r;
      assert MetricColumn(rows)[k] == r.metric;
    }
  }

  /** The nested lookup has an entry for a triple exactly when some row has
      that triple, and a pair level exactly when some row has that pair; the
      entry holds the maps filled from the triple's rows; and the structure
      is valid for the calculators. */
  lemma ProcessSeries(rows: seq<Row>)
    ensures var d := Process(rows);
            && (forall t :: t in d.series <==> t in TriplesOf(rows))
            && (forall t :: t in d.series ==> d.series[t] == Collect(Matching(rows, t)))
            && (forall i, s :: HasPair(rows, i, s) <==> exists t :: t in d.series && t.initiative == i && t.subInitiative == s)
            && Valid(d)
  {
    var d := Process(rows);
    ProcessLists(rows);
    InitTriplesMembers(rows, d.initiatives, d.subInitiatives, d.metrics);
    InitTriplesDistinct(rows, d.initiatives, d.subInitiatives, d.metrics);
    forall t ensures t in d.series <==> t in TriplesOf(rows) {
      MatchingNonEmpty(rows, t);
      if t in TriplesOf(rows) {
        var r :| r in rows && KeyOf(r) == t;
        assert HasPair(rows, t.initiative, t.subInitiative);
      }
    }
    forall i, s | HasPair(rows, i, s)
      ensures exists t :: t in d.series && t.initiative == i && t.subInitiative == s
    {
      var r :| r in rows && r.initiative == i && r.subInitiative == s;
      assert KeyOf(r) in TriplesOf(rows);
    }
    forall t | t in d.series ensures WellFormed(d.series[t]) {
      CollectWellFormed(Matching(rows, t));
    }
  }

  /** A triple whose rows all lack a month is still in the lookup, with empty maps. */
  lemma ProcessEmptyMonths(rows: seq<Row>, t: Triple)
    requires t in TriplesOf(rows)
    requires forall r :: r in rows && KeyOf(r) == t ==> r.month == ""
    ensures t in Process(rows).series && Process(rows).series[t] == EmptySeries
  {
    ProcessSeries(rows);
    MatchingMembers(rows, t);
    var ms := Matching(rows, t);
    assert forall k :: 0 <= k < |ms| ==> ms[k] in ms;
    CollectNoMonths(ms);
  }
}
