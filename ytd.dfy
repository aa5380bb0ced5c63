/** Year-to-date achievement per triple, `calculateYTDAchievement`
    (Website.js:393-424). */
module Ytd {
  import opened Sequences
  import opened Months
  import opened Structure
  import opened MoM

  /** Year-to-date actual as a percentage of the year-to-date forecast; a
      zero forecast gives 0. */
  function Achievement(actual: real, forecast: real): real {
    if forecast != 0.0 then actual / forecast * 100.0 else 0.0
  }

  /** Against a non-zero forecast the achievement is the percentage the
      actual makes of it; against a zero forecast it is 0. */
  lemma AchievementRatio(actual: real, forecast: real)
    ensures forecast != 0.0 ==> Achievement(actual, forecast) * forecast == actual * 100.0
    ensures forecast == 0.0 ==> Achievement(actual, forecast) == 0.0
  {
    if forecast != 0.0 {
      assert actual / forecast * forecast == actual;
    }
  }

  /** Against a positive forecast, the achievement reaches 100 exactly when
      the actual reaches the forecast, and is 100 exactly when they agree. */
  lemma AchievementMet(actual: real, forecast: real)
    requires forecast > 0.0
    ensures Achievement(actual, forecast) >= 100.0 <==> actual >= forecast
    ensures Achievement(actual, forecast) == 100.0 <==> actual == forecast
  {
    var r := Achievement(actual, forecast);
    AchievementRatio(actual, forecast);
    assert r * forecast == actual * 100.0;
    if r >= 100.0 {
      assert r * forecast >= 100.0 * forecast;
    }
    if actual >= forecast {
      assert r * forecast >= forecast * 100.0;
    }
  }

  /** The achievement of one month of a triple. */
  function MonthAchievement(s: Series, m: string): real {
    Achievement(At(s.ytdActual, m), At(s.ytdForecast, m))
  }

  /** The achievements of the months `ms`. */
  function AchievementsAlong(s: Series, ms: seq<string>): map<string, real> {
    map m | m in ms :: MonthAchievement(s, m)
  }

  /** The achievements of one triple, over its months in calendar order. */
  function SeriesAchievement(s: Series): map<string, real> {
    AchievementsAlong(s, SortedMonths(s))
  }

  /** The `months.forEach` of one triple. */
  method AchievementLoop(s: Series, months: seq<string>) returns (achievement: map<string, real>)
    ensures achievement == AchievementsAlong(s, months)
  {
    achievement := map[];
    var i := 0;
    while i < |months|
      invariant 0 <= i <= |months|
      invariant achievement == AchievementsAlong(s, months[..i])
    {
      var month := months[i];
      var actual := At(s.ytdActual, month);
      var forecast := At(s.ytdForecast, month);
      AlongStep(s, months, i, achievement);
      if forecast != 0.0 {
        achievement := achievement[month := actual / forecast * 100.0];
      } else {
        achievement := achievement[month := 0.0];
      }
      i := i + 1;
    }
    assert months[..i] == months;
  }

  lemma AlongStep(s: Series, ms: seq<string>, i: nat, a: map<string, real>)
    requires i < |ms| && a == AchievementsAlong(s, ms[..i])
    ensures a[ms[i] := MonthAchievement(s, ms[i])] == AchievementsAlong(s, ms[..i + 1])
  {
    assert ms[..i + 1] == ms[..i] + [ms[i]];
  }

  /** One triple: sort its months, then walk them. */
  method SeriesAchievementOf(s: Series) returns (achievement: map<string, real>)
    ensures achievement == SeriesAchievement(s)
  {
    var months := SortByMonth(s.months);
    achievement := AchievementLoop(s, months);
  }

  /** The result of `calculateYTDAchievement`: the achievements of every
      triple. */
  function YtdOf(d: Dataset): map<Triple, map<string, real>> {
    map t | t in d.series :: SeriesAchievement(d.series[t])
  }

  /** `calculateYTDAchievement`: every triple, in the order the nested
      loops visit them, gets the achievement of each of its months. */
  method CalculateYtdAchievement(d: Dataset) returns (ytdAchievement: map<Triple, map<string, real>>)
    requires d.series.Keys == set t | t in d.order
    ensures ytdAchievement == YtdOf(d)
  {
    ytdAchievement := AchievementsOver(d, d.order);
    YtdOfOrder(d);
  }

  /** Visiting the triples in their order reaches every triple. */
  lemma YtdOfOrder(d: Dataset)
    requires d.series.Keys == set t | t in d.order
    ensures YtdOf(d) == PerTriple(d, d.order, SeriesAchievement)
  {
    PerTripleAll(d, d.order, SeriesAchievement);
  }

  /** The loops over the triples `ts`. */
  method AchievementsOver(d: Dataset, ts: seq<Triple>) returns (ytdAchievement: map<Triple, map<string, real>>)
    requires forall t :: t in ts ==> t in d.series
    ensures ytdAchievement == PerTriple(d, ts, SeriesAchievement)
  {
    ytdAchievement := map[];
    var k := 0;
    while k < |ts|
      invariant 0 <= k <= |ts|
      invariant ytdAchievement == PerTriple(d, ts[..k], SeriesAchievement)
    {
      var t := ts[k];
      var achievement := SeriesAchievementOf(d.series[t]);
      PerTripleStep(d, ts, k, SeriesAchievement, ytdAchievement, achievement);
      ytdAchievement := ytdAchievement[t := achievement];
      k := k + 1;
    }
    assert ts[..k] == ts;
  }

  /** The achievements of a well-formed triple are keyed by its months,
      each computed from that month's year-to-date actual and forecast. */
  lemma SeriesAchievementKeys(s: Series)
    requires WellFormed(s)
    ensures SeriesAchievement(s).Keys == s.actual.Keys
    ensures forall m :: m in s.actual ==>
              m in s.ytdActual && m in s.ytdForecast &&
              SeriesAchievement(s)[m] == Achievement(s.ytdActual[m], s.ytdForecast[m])
  {
    SortedMonthsSame(s);
  }

  /** Every month with data of a triple gets an achievement, computed from
      that month's year-to-date actual and forecast, and no other month
      does. */
  lemma YtdProperties(d: Dataset, t: Triple)
    requires Valid(d) && t in d.series
    ensures YtdOf(d)[t].Keys == d.series[t].actual.Keys
    ensures forall m :: m in d.series[t].actual ==>
              m in d.series[t].ytdActual && m in d.series[t].ytdForecast &&
              YtdOf(d)[t][m] == Achievement(d.series[t].ytdActual[m], d.series[t].ytdForecast[m])
  {
    SeriesAchievementKeys(d.series[t]);
  }
}
