/**
  The forecast chart card: which series of the weather document is charted
  for the selected scenario, how daily dates are shortened for the x axis,
  which data keys the charts read, the per-point "extreme" flag of the
  extreme-weather chart, and the card's title and description.
*/
module ForecastDashboard {
  import opened ClimaTypes
  import opened JsStrings
  import ClimateMap

  /** An element of the charted series: an hourly or a daily entry, kept whole. */
  datatype ForecastPoint = HourlyPoint(hour: HourlyDataPoint) | DailyPoint(day: DailyDataPoint)

  function PointCondition(p: ForecastPoint): Option<string> {
    match p
    case HourlyPoint(h) => h.condition
    case DailyPoint(d) => d.condition
  }

  function AsHourly(s: seq<HourlyDataPoint>): (r: seq<ForecastPoint>)
    ensures |r| == |s| && forall i :: 0 <= i < |s| ==> r[i] == HourlyPoint(s[i])
  {
    if s == [] then [] else [HourlyPoint(s[0])] + AsHourly(s[1..])
  }

  function AsDaily(s: seq<DailyDataPoint>): (r: seq<ForecastPoint>)
    ensures |r| == |s| && forall i :: 0 <= i < |s| ==> r[i] == DailyPoint(s[i])
  {
    if s == [] then [] else [DailyPoint(s[0])] + AsDaily(s[1..])
  }

  /** The series charted for a scenario; nothing for a scenario outside the three. */
  function GetForecastData(data: WeatherData, scenario: ScenarioType): (r: seq<ForecastPoint>)
    ensures scenario.Short? ==>
      && |r| == |data.forecast.short_term_forecast|
      && forall i :: 0 <= i < |r| ==> r[i] == HourlyPoint(data.forecast.short_term_forecast[i])
    ensures scenario.Medium? ==>
      && |r| == |data.forecast.medium_term_forecast|
      && forall i :: 0 <= i < |r| ==> r[i] == DailyPoint(data.forecast.medium_term_forecast[i])
    ensures scenario.Long? ==>
      && |r| == |data.forecast.long_term_forecast|
      && forall i :: 0 <= i < |r| ==> r[i] == DailyPoint(data.forecast.long_term_forecast[i])
    ensures scenario.UnknownScenario? ==> r == []
  {
    match scenario
    case Short => AsHourly(data.forecast.short_term_forecast)
    case Medium => AsDaily(data.forecast.medium_term_forecast)
    case Long => AsDaily(data.forecast.long_term_forecast)
    case UnknownScenario(_) => []
  }

  // ---------------------------------------------------------- x-axis ticks

  /**
    The tick label of a daily date: the `-`-separated fields after the first,
    joined with `/` (the hourly branch formats a `Date` in the host locale and
    is not part of this model).
  */
  function DailyTick(value: string): string {
    Join(SplitChar(value, '-')[1..], "/")
  }

  /**
    What the tick label is, without splitting: empty when the date has no
    `-`, and otherwise everything after the first `-` with each later `-`
    turned into `/`.
  */
  lemma DailyTickDropsFirstField(value: string)
    ensures '-' !in value ==> DailyTick(value) == ""
    ensures forall i :: 0 <= i < |value| && value[i] == '-' && '-' !in value[..i] ==>
      DailyTick(value) == ReplaceChar(value[i + 1..], '-', '/')
  {
    if '-' !in value {
      SplitCharNone(value, '-');
    }
    forall i | 0 <= i < |value| && value[i] == '-' && '-' !in value[..i]
      ensures DailyTick(value) == ReplaceChar(value[i + 1..], '-', '/')
    {
      SplitCharTail(value, '-', i);
      SplitJoinReplaces(value[i + 1..], '-', '/');
    }
  }

  /** An ISO date `year-month-day` becomes `month/day`. */
  lemma DailyTickOfIsoDate(year: string, month: string, day: string)
    requires '-' !in year && '-' !in month && '-' !in day
    ensures DailyTick(year + "-" + month + "-" + day) == month + "/" + day
  {
    var v := year + "-" + month + "-" + day;
    var k := |year|;
    assert v[k] == '-' && v[..k] == year;
    var tail := v[k + 1..];
    assert tail == month + "-" + day;
    SplitCharTail(v, '-', k);
    SplitJoinReplaces(tail, '-', '/');
    var r := ReplaceChar(tail, '-', '/');
    assert r == month + "/" + day by {
      forall q | 0 <= q < |r|
        ensures r[q] == (month + "/" + day)[q]
      {
        if q < |month| {
          assert tail[q] == month[q];
        } else if q > |month| {
          assert tail[q] == day[q - |month| - 1];
        }
      }
    }
  }

  // ----------------------------------------------------------- data keys

  /** The property the temperature line reads. */
  function TemperatureKey(scenario: ScenarioType): (k: string)
    ensures k == "temperature" <==> scenario.Short?
    ensures k == "avg_temperature" <==> !scenario.Short?
  {
    if scenario.Short? then "temperature" else "avg_temperature"
  }

  /** The property the x axis of every chart reads. */
  function XAxisKey(scenario: ScenarioType): (k: string)
    ensures k == "datetime" <==> scenario.Short?
    ensures k == "date" <==> !scenario.Short?
  {
    if scenario.Short? then "datetime" else "date"
  }

  /** Every hourly entry has the property the x axis reads for the short scenario, every daily one the other. */
  lemma XAxisKeyNamesPointField(data: WeatherData, scenario: ScenarioType)
    ensures forall p :: p in GetForecastData(data, scenario) ==>
      (p.HourlyPoint? <==> XAxisKey(scenario) == "datetime")
  {
  }

  // ---------------------------------------------------- extreme-weather flag

  /** A derived row of the extreme-weather chart: the entry with its flag and condition added. */
  datatype ConditionPoint = ConditionPoint(item: ForecastPoint, isExtreme: int, conditionType: string)

  /** Whether a raw condition counts as extreme once defaulted. */
  predicate IsExtremeCondition(c: Option<string>) {
    ClimateMap.ConditionOrNormal(c) != "Normal"
  }

  /**
    The rows of the extreme-weather chart: one per entry, in order, each
    keeping the whole entry; the flag is 1 exactly for a present, non-empty
    condition other than "Normal", and 0 otherwise.
  */
  function ConditionData(series: seq<ForecastPoint>): (r: seq<ConditionPoint>)
    ensures |r| == |series|
    ensures forall i :: 0 <= i < |r| ==> r[i].item == series[i]
    ensures forall i :: 0 <= i < |r| ==> (r[i].isExtreme == 1 <==> IsExtremeCondition(PointCondition(series[i])))
    ensures forall i :: 0 <= i < |r| ==> (r[i].isExtreme == 0 <==> !IsExtremeCondition(PointCondition(series[i])))
    ensures forall i :: 0 <= i < |r| ==> r[i].conditionType != ""
    ensures forall i :: 0 <= i < |r| ==> (r[i].conditionType == "Normal" <==> r[i].isExtreme == 0)
    ensures forall i :: 0 <= i < |r| ==> r[i].conditionType == ClimateMap.ConditionOrNormal(PointCondition(series[i]))
  {
    if series == [] then []
    else
      var item := series[0];
      var condition := ClimateMap.ConditionOrNormal(PointCondition(item));
      [ConditionPoint(item, if condition != "Normal" then 1 else 0, condition)] + ConditionData(series[1..])
  }

  /** The y-axis label of the extreme-weather chart. */
  function ExtremeTickLabel(value: int): (r: string)
    ensures r == "Yes" <==> value == 1
    ensures r == "No" <==> value != 1
  {
    if value == 1 then "Yes" else "No"
  }

  // ---------------------------------------------------------------- charts

  /** What each chart renderer hands to the chart library. */
  datatype Chart =
    | TemperatureChart(points: seq<ForecastPoint>, xKey: string, yKey: string, tickInterval: nat)
    | PrecipitationChart(points: seq<ForecastPoint>, xKey: string, yKey: string, tickInterval: nat)
    | ExtremeWeatherChart(rows: seq<ConditionPoint>, xKey: string, yKey: string, tickInterval: nat)

  /** The chart for a map type; a map type outside the three gets the temperature chart. */
  function RenderChartByType(data: WeatherData, scenario: ScenarioType, mapType: MapType): (c: Chart)
    ensures c.TemperatureChart? <==> mapType.Temperature? || mapType.UnknownMap?
    ensures c.PrecipitationChart? <==> mapType.Precipitation?
    ensures c.ExtremeWeatherChart? <==> mapType.ExtremeWeather?
    ensures c.xKey == XAxisKey(scenario)
    ensures c.TemperatureChart? ==> c.yKey == TemperatureKey(scenario) && c.points == GetForecastData(data, scenario)
    ensures c.PrecipitationChart? ==> c.yKey == "precipitation_mm" && c.points == GetForecastData(data, scenario)
    ensures c.ExtremeWeatherChart? ==> c.yKey == "isExtreme" && c.rows == ConditionData(GetForecastData(data, scenario))
    ensures c.tickInterval == if scenario.Short? then (if c.ExtremeWeatherChart? then 2 else 4) else 0
  {
    var points := GetForecastData(data, scenario);
    var x := XAxisKey(scenario);
    match mapType
    case Precipitation => PrecipitationChart(points, x, "precipitation_mm", if scenario.Short? then 4 else 0)
    case ExtremeWeather => ExtremeWeatherChart(ConditionData(points), x, "isExtreme", if scenario.Short? then 2 else 0)
    case _ => TemperatureChart(points, x, TemperatureKey(scenario), if scenario.Short? then 4 else 0)
  }

  // ------------------------------------------------------- title and text

  function Timeframe(scenario: ScenarioType): (t: string)
    ensures t == "Hourly" <==> scenario.Short?
    ensures t == "Daily" <==> scenario.Medium?
    ensures t == "Long-Term" <==> scenario.Long? || scenario.UnknownScenario?
  {
    if scenario.Short? then "Hourly" else if scenario.Medium? then "Daily" else "Long-Term"
  }

  function ChartTypeName(mapType: MapType): (n: string)
    ensures n == "Temperature" <==> mapType.Temperature?
    ensures n == "Precipitation" <==> mapType.Precipitation?
    ensures n == "Extreme Weather" <==> mapType.ExtremeWeather? || mapType.UnknownMap?
  {
    if mapType.Temperature? then "Temperature"
    else if mapType.Precipitation? then "Precipitation"
    else "Extreme Weather"
  }

  /** `<timeframe> <chart type> Forecast - <city>`. */
  function ChartTitle(data: WeatherData, scenario: ScenarioType, mapType: MapType): (t: string)
    ensures t == Timeframe(scenario) + " " + ChartTypeName(mapType) + " Forecast - " + data.city
    ensures |t| > |" Forecast - " + data.city| && t[|t| - |" Forecast - " + data.city|..] == " Forecast - " + data.city
  {
    var view := Timeframe(scenario) + " " + ChartTypeName(mapType);
    var suffix := " Forecast - " + data.city;
    assert (view + suffix)[|view + suffix| - |suffix|..] == suffix;
    view + suffix
  }

  /**
    The title tells the timeframe and the chart type apart: two views of the
    same city with the same title agree on both. (The words differ in their
    first letters: H/D/L and T/P/E.)
  */
  lemma ChartTitleDeterminesView(data: WeatherData, s1: ScenarioType, m1: MapType, s2: ScenarioType, m2: MapType)
    requires ChartTitle(data, s1, m1) == ChartTitle(data, s2, m2)
    ensures Timeframe(s1) == Timeframe(s2)
    ensures ChartTypeName(m1) == ChartTypeName(m2)
  {
    var t := ChartTitle(data, s1, m1);
    var f1, f2 := Timeframe(s1), Timeframe(s2);
    assert t[0] == f1[0] && t[0] == f2[0];
    assert f1 == f2;
    var n1, n2 := ChartTypeName(m1), ChartTypeName(m2);
    assert t[|f1| + 1] == n1[0];
    assert ChartTitle(data, s2, m2)[|f1| + 1] == n2[0];
  }

  /** The text under the title. */
  function Description(scenario: ScenarioType): (d: string)
    ensures d == "48-hour hourly forecast" <==> scenario.Short?
    ensures d == "Daily forecast for next week" <==> scenario.Medium?
    ensures d == "Extended forecast" <==> scenario.Long? || scenario.UnknownScenario?
  {
    if scenario.Short? then "48-hour hourly forecast"
    else if scenario.Medium? then "Daily forecast for next week"
    else "Extended forecast"
  }
}
