/** Month-over-month changes per triple, `calculateMoMChanges`
    (Website.js:210-244). */
module MoM {
  import opened Sequences
  import opened Months
  import opened Structure

  /** The percent change from `prev` to `cur`; from a zero previous value
      the change is 100 when the current value is positive and 0 otherwise. */
  function PercentChange(prev: real, cur: real): real {
    if prev != 0.0 then (cur - prev) / prev * 100.0
    else if cur > 0.0 then 100.0 else 0.0
  }

  /** Applying the change to a non-zero previous value gives back the
      current value; from zero, the change is 100 for growth and 0 otherwise. */
  lemma PercentChangeInverse(prev: real, cur: real)
    ensures prev != 0.0 ==> prev + prev * PercentChange(prev, cur) / 100.0 == cur
    ensures prev == 0.0 ==> PercentChange(prev, cur) == (if cur > 0.0 then 100.0 else 0.0)
  {
    if prev != 0.0 {
      var r := PercentChange(prev, cur);
      assert r == (cur - prev) / prev * 100.0;
      assert prev * r / 100.0 == cur - prev;
    }
  }

  /** From a positive value, the change is positive exactly when the value
      grew, zero exactly when it stayed, and -100 exactly when it fell to 0. */
  lemma PercentChangeSign(prev: real, cur: real)
    requires prev > 0.0
    ensures PercentChange(prev, cur) > 0.0 <==> cur > prev
    ensures PercentChange(prev, cur) == 0.0 <==> cur == prev
    ensures PercentChange(prev, cur) == -100.0 <==> cur == 0.0
  {
    var r := PercentChange(prev, cur);
    PercentChangeInverse(prev, cur);
    assert prev * r == (cur - prev) * 100.0;
  }

  /** The boundary cases of the change: a fall to zero is -100, growth
      from zero is 100, and zero to zero is 0. */
  lemma PercentChangeBoundaries()
    ensures PercentChange(100.0, 0.0) == -100.0
    ensures PercentChange(0.0, 50.0) == 100.0
    ensures PercentChange(0.0, 0.0) == 0.0
  {
  }

  /** The value stored under a month key; every month read below is a key. */
  function At(values: map<string, real>, m: string): real {
    if m in values then values[m] else 0.0
  }

  /** The changes along the months `ms` (already in calendar order): every
      month after the first, against the month before it. */
  function Changes(ms: seq<string>, values: map<string, real>): map<string, real> {
    if |ms| <= 1 then map[]
    else
      var n := |ms|;
      Changes(ms[..n - 1], values)[ms[n - 1] := PercentChange(At(values, ms[n - 2]), At(values, ms[n - 1]))]
  }

  /** The changes of one triple: its months sorted by calendar position. */
  function SeriesChanges(s: Series): map<string, real> {
    Changes(SortedMonths(s), s.actual)
  }

  /** The loop `for (let i = 1; i < months.length; i++)` over the sorted months. */
  method ChangesLoop(months: seq<string>, actual: map<string, real>) returns (changes: map<string, real>)
    ensures changes == Changes(months, actual)
  {
    changes := map[];
    if |months| == 0 {
      return;
    }
    var i := 1;
    while i < |months|
      invariant 1 <= i <= |months|
      invariant changes == Changes(months[..i], actual)
    {
      var currentMonth := months[i];
      var previousMonth := months[i - 1];
      var currentValue := At(actual, currentMonth);
      var previousValue := At(actual, previousMonth);
      assert months[..i + 1][..i] == months[..i];
      if previousValue != 0.0 {
        var percentChange := (currentValue - previousValue) / previousValue * 100.0;
        changes := changes[currentMonth := percentChange];
      } else {
        changes := changes[currentMonth := if currentValue > 0.0 then 100.0 else 0.0];
      }
      i := i + 1;
    }
    assert months[..i] == months;
  }

  /** Along months `ms`, the changes are keyed by every month but the first. */
  lemma {:induction false} ChangesKeys(ms: seq<string>, values: map<string, real>)
    ensures ms == [] ==> Changes(ms, values).Keys == {}
    ensures ms != [] ==> Changes(ms, values).Keys == set m | m in ms[1..]
  {
    var n := |ms|;
    if n > 1 {
      var init := ms[..n - 1];
      ChangesKeys(init, values);
      assert ms[1..] == init[1..] + [ms[n - 1]];
    } else if n == 1 {
      assert ms[1..] == [];
    }
  }

  /** Along duplicate-free months, each change is taken from the month
      before. */
  lemma {:induction false} ChangesValues(ms: seq<string>, values: map<string, real>)
    requires Distinct(ms)
    ensures forall k :: 1 <= k < |ms| ==>
              ms[k] in Changes(ms, values) &&
              Changes(ms, values)[ms[k]] == PercentChange(At(values, ms[k - 1]), At(values, ms[k]))
  {
    var n := |ms|;
    if n > 1 {
      var init := ms[..n - 1];
      ChangesValues(init, values);
      assert ms[n - 1] !in init;
      forall k | 1 <= k < n - 1
        ensures ms[k] in Changes(ms, values)
        ensures Changes(ms, values)[ms[k]] == PercentChange(At(values, ms[k - 1]), At(values, ms[k]))
      {
        assert ms[k] == init[k] && ms[k - 1] == init[k - 1];
      }
    }
  }

  /** The number of changes is one less than the number of months. */
  lemma ChangesCount(ms: seq<string>, values: map<string, real>)
    requires Distinct(ms) && |ms| >= 1
    ensures |Changes(ms, values).Keys| == |ms| - 1
  {
    ChangesKeys(ms, values);
    DistinctCard(ms[1..]);
  }

  /** The result of `calculateMoMChanges`: the changes of every triple. */
  function MoMOf(d: Dataset): map<Triple, map<string, real>> {
    map t | t in d.series :: SeriesChanges(d.series[t])
  }

  /** `calculateMoMChanges`: every triple, in the order the nested loops
      visit them, gets the changes along its sorted months. */
  method CalculateMoMChanges(d: Dataset) returns (momChanges: map<Triple, map<string, real>>)
    requires d.series.Keys == set t | t in d.order
    ensures momChanges == MoMOf(d)
  {
    momChanges := ChangesOver(d, d.order);
    MoMOfOrder(d);
  }

  /** Visiting the triples in their order reaches every triple. */
  lemma MoMOfOrder(d: Dataset)
    requires d.series.Keys == set t | t in d.order
    ensures MoMOf(d) == PerTriple(d, d.order, SeriesChanges)
  {
    PerTripleAll(d, d.order, SeriesChanges);
  }

  /** The loops over the triples `ts`. */
  method ChangesOver(d: Dataset, ts: seq<Triple>) returns (momChanges: map<Triple, map<string, real>>)
    requires forall t :: t in ts ==> t in d.series
    ensures momChanges == PerTriple(d, ts, SeriesChanges)
  {
    momChanges := map[];
    var k := 0;
    while k < |ts|
      invariant 0 <= k <= |ts|
      invariant momChanges == PerTriple(d, ts[..k], SeriesChanges)
    {
      var t := ts[k];
      var changes := SeriesChangesOf(d.series[t]);
      PerTripleStep(d, ts, k, SeriesChanges, momChanges, changes);
      momChanges := momChanges[t := changes];
      k := k + 1;
    }
    assert ts[..k] == ts;
  }

  /** One triple: sort its months, then walk them. */
  method SeriesChangesOf(s: Series) returns (changes: map<string, real>)
    ensures changes == SeriesChanges(s)
  {
    var months := SortByMonth(s.months);
    changes := ChangesLoop(months, s.actual);
  }

  /** The months of a triple sorted by calendar position, as the calculators
      visit them. */
  function SortedMonths(s: Series): seq<string> {
    SortByMonth(s.months)
  }

  /** Sorting a triple's months keeps them: the same months, each once, all
      of them keys of the maps. */
  lemma SortedMonthsKeys(s: Series)
    requires WellFormed(s)
    ensures |SortedMonths(s)| == |s.months| && Distinct(SortedMonths(s))
    ensures forall k :: 0 <= k < |SortedMonths(s)| ==> SortedMonths(s)[k] in s.actual
  {
    var ms := SortedMonths(s);
    SortByMonthProperties(s.months);
    assert |ms| == |s.months| by {
      assert |multiset(ms)| == |multiset(s.months)|;
    }
    forall k | 0 <= k < |ms| ensures ms[k] in s.actual {
      assert ms[k] in multiset(ms);
    }
  }

  /** Sorting a triple's months keeps the same set of months. */
  lemma SortedMonthsSame(s: Series)
    ensures forall m :: m in SortedMonths(s) <==> m in s.months
  {
    SortByMonthProperties(s.months);
    forall m ensures m in SortedMonths(s) <==> m in s.months {
      assert m in SortedMonths(s) <==> m in multiset(SortedMonths(s));
    }
  }

  /** For each triple with `n` months, the changes are keyed by the `n - 1`
      months after the calendar-first one, each taken against the month
      before it in calendar order. */
  lemma MoMProperties(d: Dataset, t: Triple)
    requires Valid(d) && t in d.series
    ensures SortedMonths(d.series[t]) != [] ==>
              MoMOf(d)[t].Keys == set m | m in SortedMonths(d.series[t])[1..]
    ensures |d.series[t].months| >= 1 ==> |MoMOf(d)[t].Keys| == |d.series[t].months| - 1
    ensures forall k :: 1 <= k < |SortedMonths(d.series[t])| ==>
              MoMOf(d)[t][SortedMonths(d.series[t])[k]] ==
              PercentChange(At(d.series[t].actual, SortedMonths(d.series[t])[k - 1]),
                            At(d.series[t].actual, SortedMonths(d.series[t])[k]))
  {
    var s := d.series[t];
    var ms := SortedMonths(s);
    SortedMonthsKeys(s);
    ChangesKeys(ms, s.actual);
    ChangesValues(ms, s.actual);
    if |s.months| >= 1 {
      ChangesCount(ms, s.actual);
    }
  }
}
