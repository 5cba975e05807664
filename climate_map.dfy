/**
  The map marker of the forecast page: the reading it shows is taken from the
  first hour of the short-term forecast, and each map layer turns that reading
  into one of a fixed set of colours and a label.
*/
module ClimateMap {
  import opened ClimaTypes
  import opened JsStrings

  /** The reading the marker shows. */
  datatype CurrentValues = CurrentValues(temperature: int, precipitation: int, condition: string)

  const DefaultValues := CurrentValues(0, 0, "Normal")

  /**
    `condition || "Normal"`: a missing condition and an empty one (both falsy)
    read as "Normal".
  */
  function ConditionOrNormal(c: Option<string>): (r: string)
    ensures r != ""
    ensures HasText(c) ==> r == c.value
    ensures !HasText(c) ==> r == "Normal"
  {
    if HasText(c) then c.value else "Normal"
  }

  /**
    The current values: those of the first short-term entry, each missing
    field replaced by its default; all defaults when there is no entry.
  */
  function GetCurrentValues(data: WeatherData): (v: CurrentValues)
    ensures data.forecast.short_term_forecast == [] ==> v == DefaultValues
    ensures data.forecast.short_term_forecast != [] ==>
      var first := data.forecast.short_term_forecast[0];
      && (first.temperature.Some? ==> v.temperature == first.temperature.value)
      && (first.temperature.None? ==> v.temperature == 0)
      && (first.precipitation_mm.Some? ==> v.precipitation == first.precipitation_mm.value)
      && (first.precipitation_mm.None? ==> v.precipitation == 0)
      && v.condition == ConditionOrNormal(first.condition)
  {
    var short := data.forecast.short_term_forecast;
    if |short| == 0 then DefaultValues
    else
      var first := short[0];
      CurrentValues(first.temperature.GetOr(0), first.precipitation_mm.GetOr(0), ConditionOrNormal(first.condition))
  }

  /**
    Nothing but the first short-term entry matters: two documents that agree
    on it (or both lack it) show the same marker values, whatever their other
    hours, days, city or coordinates.
  */
  lemma CurrentValuesOnlyFromFirstEntry(d1: WeatherData, d2: WeatherData)
    requires |d1.forecast.short_term_forecast| == 0 <==> |d2.forecast.short_term_forecast| == 0
    requires |d1.forecast.short_term_forecast| > 0 ==>
      d1.forecast.short_term_forecast[0] == d2.forecast.short_term_forecast[0]
    ensures GetCurrentValues(d1) == GetCurrentValues(d2)
  {
  }

  // --------------------------------------------------------------- bands

  /** The number of thresholds the reading lies strictly above: its band, 0 the lowest. */
  function BandIndex(x: int, thresholds: seq<int>): (k: nat)
    ensures k <= |thresholds|
  {
    if thresholds == [] then 0
    else (if x > thresholds[0] then 1 else 0) + BandIndex(x, thresholds[1..])
  }

  /** A higher reading never falls in a lower band. */
  lemma {:induction false} BandIndexMonotone(x: int, y: int, thresholds: seq<int>)
    requires x <= y
    ensures BandIndex(x, thresholds) <= BandIndex(y, thresholds)
  {
    if thresholds != [] {
      BandIndexMonotone(x, y, thresholds[1..]);
    }
  }

  /** Against five thresholds the band is the sum of the five comparisons. */
  lemma BandIndexOfFive(x: int, t: seq<int>)
    requires |t| == 5
    ensures BandIndex(x, t) ==
      (if x > t[0] then 1 else 0) + (if x > t[1] then 1 else 0) + (if x > t[2] then 1 else 0)
      + (if x > t[3] then 1 else 0) + (if x > t[4] then 1 else 0)
  {
    assert BandIndex(x, t[4..]) == (if x > t[4] then 1 else 0) by {
      assert t[4..][1..] == [];
    }
    assert BandIndex(x, t[3..]) == (if x > t[3] then 1 else 0) + BandIndex(x, t[4..]) by {
      assert t[3..][1..] == t[4..];
    }
    assert BandIndex(x, t[2..]) == (if x > t[2] then 1 else 0) + BandIndex(x, t[3..]) by {
      assert t[2..][1..] == t[3..];
    }
    assert BandIndex(x, t[1..]) == (if x > t[1] then 1 else 0) + BandIndex(x, t[2..]) by {
      assert t[1..][1..] == t[2..];
    }
  }

  const TemperatureThresholds: seq<int> := [0, 10, 20, 25, 30]

  /** Very cold, cold, cool, mild, warm, hot. */
  const TemperaturePalette: seq<string> := ["#0000ff", "#add8e6", "#00ff00", "#ffd700", "#ff8c00", "#ff4444"]

  function TemperatureColor(temperature: int): (c: string)
    ensures c in TemperaturePalette
    ensures c == "#ff4444" <==> temperature > 30
    ensures c == "#0000ff" <==> temperature <= 0
  {
    if temperature > 30 then "#ff4444"
    else if temperature > 25 then "#ff8c00"
    else if temperature > 20 then "#ffd700"
    else if temperature > 10 then "#00ff00"
    else if temperature > 0 then "#add8e6"
    else "#0000ff"
  }

  /**
    The if-chain agrees with the band of the reading against the thresholds
    0, 10, 20, 25 and 30, each compared strictly: exactly 30 is still "warm".
  */
  lemma TemperatureColorIsBand(temperature: int)
    ensures TemperatureColor(temperature) == TemperaturePalette[BandIndex(temperature, TemperatureThresholds)]
  {
    BandIndexOfFive(temperature, TemperatureThresholds);
  }

  /** Temperature colours are banded monotonically: a warmer reading never gets a colder colour. */
  lemma TemperatureBandMonotone(t1: int, t2: int)
    requires t1 <= t2
    ensures BandIndex(t1, TemperatureThresholds) <= BandIndex(t2, TemperatureThresholds)
    ensures TemperatureColor(t1) == TemperaturePalette[BandIndex(t1, TemperatureThresholds)]
    ensures TemperatureColor(t2) == TemperaturePalette[BandIndex(t2, TemperatureThresholds)]
  {
    BandIndexMonotone(t1, t2, TemperatureThresholds);
    TemperatureColorIsBand(t1);
    TemperatureColorIsBand(t2);
  }

  const PrecipitationThresholds: seq<int> := [0, 1, 5, 10, 20]

  /** None, trace, very light, light, moderate, heavy. */
  const PrecipitationPalette: seq<string> := ["#ffffff", "#e0ffff", "#87ceeb", "#4169e1", "#0000ff", "#000080"]

  function PrecipitationColor(precipitation: int): (c: string)
    ensures c in PrecipitationPalette
    ensures c == "#000080" <==> precipitation > 20
    ensures c == "#ffffff" <==> precipitation <= 0
  {
    if precipitation > 20 then "#000080"
    else if precipitation > 10 then "#0000ff"
    else if precipitation > 5 then "#4169e1"
    else if precipitation > 1 then "#87ceeb"
    else if precipitation > 0 then "#e0ffff"
    else "#ffffff"
  }

  /** The if-chain agrees with the band against 0, 1, 5, 10 and 20 mm; 0 mm is white. */
  lemma PrecipitationColorIsBand(precipitation: int)
    ensures PrecipitationColor(precipitation) == PrecipitationPalette[BandIndex(precipitation, PrecipitationThresholds)]
  {
    BandIndexOfFive(precipitation, PrecipitationThresholds);
  }

  lemma PrecipitationBandMonotone(p1: int, p2: int)
    requires p1 <= p2
    ensures BandIndex(p1, PrecipitationThresholds) <= BandIndex(p2, PrecipitationThresholds)
    ensures PrecipitationColor(p1) == PrecipitationPalette[BandIndex(p1, PrecipitationThresholds)]
    ensures PrecipitationColor(p2) == PrecipitationPalette[BandIndex(p2, PrecipitationThresholds)]
  {
    BandIndexMonotone(p1, p2, PrecipitationThresholds);
    PrecipitationColorIsBand(p1);
    PrecipitationColorIsBand(p2);
  }

  // ------------------------------------------------------ extreme weather

  /**
    The extreme-weather rules in the order they are tried: the first rule with
    a keyword that occurs (case-sensitively) in the condition decides the colour.
  */
  datatype Rule = Rule(keywords: seq<string>, color: string)

  const ExtremeRules: seq<Rule> := [
    Rule(["storm"], "#ff4500"),
    Rule(["hurricane", "tornado"], "#8b0000"),
    Rule(["flood"], "#0000cd"),
    Rule(["heat"], "#ff0000"),
    Rule(["snow", "blizzard"], "#f0f8ff")
  ]

  const NormalColor := "#00ff00"
  const OtherExtremeColor := "#ff8c00"

  predicate MentionsAny(condition: string, keywords: seq<string>) {
    exists k :: 0 <= k < |keywords| && Contains(condition, keywords[k])
  }

  /** The colour of the first rule that applies, or the fallback. */
  function FirstRuleColor(condition: string, rules: seq<Rule>, fallback: string): (c: string)
  {
    if rules == [] then fallback
    else if MentionsAny(condition, rules[0].keywords) then rules[0].color
    else FirstRuleColor(condition, rules[1..], fallback)
  }

  function ExtremeWeatherColor(condition: string): (c: string)
    ensures c == NormalColor <==> condition == "Normal"
    ensures c == "#ff4500" <==> condition != "Normal" && Contains(condition, "storm")
    ensures c == "#8b0000" <==>
      && condition != "Normal" && !Contains(condition, "storm")
      && (Contains(condition, "hurricane") || Contains(condition, "tornado"))
    ensures c == OtherExtremeColor <==>
      && condition != "Normal"
      && !Contains(condition, "storm") && !Contains(condition, "hurricane") && !Contains(condition, "tornado")
      && !Contains(condition, "flood") && !Contains(condition, "heat")
      && !Contains(condition, "snow") && !Contains(condition, "blizzard")
  {
    if condition == "Normal" then NormalColor
    else if Contains(condition, "storm") then "#ff4500"
    else if Contains(condition, "hurricane") || Contains(condition, "tornado") then "#8b0000"
    else if Contains(condition, "flood") then "#0000cd"
    else if Contains(condition, "heat") then "#ff0000"
    else if Contains(condition, "snow") || Contains(condition, "blizzard") then "#f0f8ff"
    else OtherExtremeColor
  }

  /**
    The if-chain is the rule table read top to bottom after the exact
    "Normal" check, so an earlier keyword wins over a later one.
  */
  lemma {:induction false} ExtremeWeatherColorIsFirstRule(condition: string)
    ensures ExtremeWeatherColor(condition) ==
      if condition == "Normal" then NormalColor else FirstRuleColor(condition, ExtremeRules, OtherExtremeColor)
  {
    var r := ExtremeRules;
    var fb := OtherExtremeColor;
    assert r[0..] == r && r[5..] == [];
    assert FirstRuleColor(condition, r[4..], fb) ==
      if Contains(condition, "snow") || Contains(condition, "blizzard") then "#f0f8ff" else fb by {
      FirstRuleStep(condition, r, 4, fb);
      MentionsAnyOf(condition, ["snow", "blizzard"]);
    }
    assert FirstRuleColor(condition, r[3..], fb) ==
      if Contains(condition, "heat") then "#ff0000" else FirstRuleColor(condition, r[4..], fb) by {
      FirstRuleStep(condition, r, 3, fb);
      MentionsAnyOf(condition, ["heat"]);
    }
    assert FirstRuleColor(condition, r[2..], fb) ==
      if Contains(condition, "flood") then "#0000cd" else FirstRuleColor(condition, r[3..], fb) by {
      FirstRuleStep(condition, r, 2, fb);
      MentionsAnyOf(condition, ["flood"]);
    }
    assert FirstRuleColor(condition, r[1..], fb) ==
      if Contains(condition, "hurricane") || Contains(condition, "tornado") then "#8b0000"
      else FirstRuleColor(condition, r[2..], fb) by {
      FirstRuleStep(condition, r, 1, fb);
      MentionsAnyOf(condition, ["hurricane", "tornado"]);
    }
    assert FirstRuleColor(condition, r, fb) ==
      if Contains(condition, "storm") then "#ff4500" else FirstRuleColor(condition, r[1..], fb) by {
      FirstRuleStep(condition, r, 0, fb);
      MentionsAnyOf(condition, ["storm"]);
    }
  }

  lemma FirstRuleStep(condition: string, rules: seq<Rule>, i: nat, fallback: string)
    requires i < |rules|
    ensures FirstRuleColor(condition, rules[i..], fallback) ==
      if MentionsAny(condition, rules[i].keywords) then rules[i].color
      else FirstRuleColor(condition, rules[i + 1..], fallback)
  {
    assert rules[i..][1..] == rules[i + 1..];
  }

  lemma MentionsAnyOf(condition: string, keywords: seq<string>)
    requires 1 <= |keywords| <= 2
    ensures MentionsAny(condition, keywords) <==>
      Contains(condition, keywords[0]) || (|keywords| == 2 && Contains(condition, keywords[1]))
  {
    if Contains(condition, keywords[0]) {
      assert MentionsAny(condition, keywords);
    }
  }

  /** A condition naming both a storm and a hurricane is coloured as a storm. */
  lemma StormBeforeHurricane(condition: string)
    requires Contains(condition, "storm") && Contains(condition, "hurricane")
    ensures ExtremeWeatherColor(condition) == "#ff4500"
  {
  }

  // --------------------------------------------------------------- marker

  datatype MarkerProps = MarkerProps(color: string, value: string)

  const DegreesSuffix := "\U{00B0}C"
  const MillimetresSuffix := " mm"

  /** The colour and label of the marker for the selected layer. */
  function GetMarkerProperties(data: WeatherData, mapType: MapType): (m: MarkerProps)
    ensures mapType.UnknownMap? <==> m == MarkerProps("#ff4444", "N/A")
  {
    var v := GetCurrentValues(data);
    match mapType
    case Temperature => MarkerProps(TemperatureColor(v.temperature), IntText(v.temperature) + DegreesSuffix)
    case Precipitation => MarkerProps(PrecipitationColor(v.precipitation), IntText(v.precipitation) + MillimetresSuffix)
    case ExtremeWeather => MarkerProps(ExtremeWeatherColor(v.condition), v.condition)
    case UnknownMap(_) => MarkerProps("#ff4444", "N/A")
  }

  /**
    The colour and the label come from the same current values: the label is
    the reading's decimal text (no leading zeros, a minus sign only for a
    negative reading) and its unit, and reading the number back out of the
    label and colouring it gives the marker's colour.
  */
  lemma MarkerColorMatchesLabel(data: WeatherData, mapType: MapType)
    ensures var m := GetMarkerProperties(data, mapType); var v := GetCurrentValues(data);
      match mapType
      case Temperature =>
        && m.value == IntText(v.temperature) + DegreesSuffix
        && |m.value| >= 2 && m.value[|m.value| - 2..] == DegreesSuffix
        && ParseInt(m.value[..|m.value| - 2]) == v.temperature
        && m.color == TemperatureColor(ParseInt(m.value[..|m.value| - 2]))
      case Precipitation =>
        && m.value == IntText(v.precipitation) + MillimetresSuffix
        && |m.value| >= 3 && m.value[|m.value| - 3..] == MillimetresSuffix
        && ParseInt(m.value[..|m.value| - 3]) == v.precipitation
        && m.color == PrecipitationColor(ParseInt(m.value[..|m.value| - 3]))
      case ExtremeWeather => m.value == v.condition && m.color == ExtremeWeatherColor(m.value)
      case UnknownMap(_) => m.value == "N/A"
  {
    var v := GetCurrentValues(data);
    var m := GetMarkerProperties(data, mapType);
    match mapType
    case Temperature =>
      IntTextRoundTrip(v.temperature);
      assert m.value[..|m.value| - 2] == IntText(v.temperature);
    case Precipitation =>
      IntTextRoundTrip(v.precipitation);
      assert m.value[..|m.value| - 3] == IntText(v.precipitation);
    case ExtremeWeather =>
    case UnknownMap(_) =>
  }
}
