/**
  The state of the climate forecasting page: the selected map layer and
  forecast horizon, the location being shown and the text being typed, and
  the weather document with its loading flag and error message. Each React
  state cell is a field; each handler is a method. A request's outcome is a
  parameter, so a fetch is its start (`BeginFetch`) followed by its end
  (`CompleteFetch`).
*/
module ForecastPage {
  import opened ClimaTypes
  import opened JsStrings
  import Fetch
  import Markdown

  const FetchFailedMessage := "Failed to fetch data"

  /**
    The submit rule: the trimmed input replaces the location unless it is
    empty, in which case the location stays as it was. A trimmed location
    stays trimmed.
  */
  function SubmittedLocation(location: string, input: string): (r: string)
    ensures Trim(input) != "" ==> r == Trim(input)
    ensures Trim(input) == "" ==> r == location
    ensures IsTrimmed(location) ==> IsTrimmed(r)
  {
    var trimmed := Trim(input);
    if trimmed != "" then trimmed else location
  }

  class ForecastPage {
    var selectedMapLayer: MapType
    var forecastScenario: ScenarioType
    var weatherData: Option<WeatherData>
    var loading: bool
    var error: Option<string>
    var location: string
    var locationInput: string
    var mounted: bool

    /** The location shown is always a trimmed text: it is only ever set from a trimmed input. */
    ghost predicate Valid()
      reads this
    {
      IsTrimmed(location)
    }

    constructor ()
      ensures Valid()
      ensures selectedMapLayer == Temperature && forecastScenario == Short
      ensures weatherData.None? && !loading && error.None?
      ensures location == "" && locationInput == "" && !mounted
    {
      selectedMapLayer := Temperature;
      forecastScenario := Short;
      weatherData := None;
      loading := false;
      error := None;
      location := "";
      locationInput := "";
      mounted := false;
    }

    /** The mount effect: the page renders once this has run. */
    method Mount()
      requires Valid()
      modifies this
      ensures Valid()
      ensures mounted
      ensures selectedMapLayer == old(selectedMapLayer) && forecastScenario == old(forecastScenario)
      ensures weatherData == old(weatherData) && loading == old(loading) && error == old(error)
      ensures location == old(location) && locationInput == old(locationInput)
    {
      mounted := true;
    }

    /** Typing in the location box changes only the typed text. */
    method EditLocationInput(value: string)
      requires Valid()
      modifies this
      ensures Valid()
      ensures locationInput == value
      ensures selectedMapLayer == old(selectedMapLayer) && forecastScenario == old(forecastScenario)
      ensures weatherData == old(weatherData) && loading == old(loading) && error == old(error)
      ensures location == old(location) && mounted == old(mounted)
    {
      locationInput := value;
    }

    /** Submitting the form: the location becomes what the submit rule gives. */
    method Submit()
      requires Valid()
      modifies this
      ensures Valid()
      ensures location == SubmittedLocation(old(location), old(locationInput))
      ensures locationInput == old(locationInput) && mounted == old(mounted)
      ensures selectedMapLayer == old(selectedMapLayer) && forecastScenario == old(forecastScenario)
      ensures weatherData == old(weatherData) && loading == old(loading) && error == old(error)
    {
      location := SubmittedLocation(location, locationInput);
    }

    /** The start of a request: loading, with the previous error cleared. */
    method BeginFetch()
      requires Valid()
      modifies this
      ensures Valid()
      ensures loading && error.None?
      ensures weatherData == old(weatherData) && location == old(location)
      ensures selectedMapLayer == old(selectedMapLayer) && forecastScenario == old(forecastScenario)
      ensures locationInput == old(locationInput) && mounted == old(mounted)
    {
      loading := true;
      error := None;
    }

    /**
      The end of a request: a document replaces the previous one; a failed
      response or an exception leaves the previous document and sets the
      message; loading ends in every case.
    */
    method CompleteFetch(outcome: Fetch.Outcome<WeatherData>)
      requires Valid()
      modifies this
      ensures Valid()
      ensures !loading
      ensures outcome.Ok? ==> weatherData == Some(outcome.data) && error == old(error)
      ensures outcome.NotOk? ==> weatherData == old(weatherData) && error == Some(FetchFailedMessage)
      ensures outcome.Threw? ==>
        && weatherData == old(weatherData)
        && error == Some(Fetch.CaughtMessage(outcome.thrown))
      ensures location == old(location) && locationInput == old(locationInput) && mounted == old(mounted)
      ensures selectedMapLayer == old(selectedMapLayer) && forecastScenario == old(forecastScenario)
    {
      match outcome {
        case Ok(data) =>
          weatherData := Some(data);
        case NotOk =>
          // the code throws `new Error('Failed to fetch data')` and catches it at once
          error := Some(Fetch.CaughtMessage(Fetch.ErrorInstance(FetchFailedMessage)));
        case Threw(t) =>
          error := Some(Fetch.CaughtMessage(t));
      }
      loading := false;
    }

    /**
      `fetchWeatherData` with its request's outcome: nothing at all happens
      while the location is empty; otherwise the request runs to its end.
    */
    method FetchWeatherData(outcome: Fetch.Outcome<WeatherData>)
      requires Valid()
      modifies this
      ensures Valid()
      ensures old(location) == "" ==>
        && weatherData == old(weatherData) && loading == old(loading) && error == old(error)
      ensures old(location) != "" ==> !loading
      ensures old(location) != "" && outcome.Ok? ==> weatherData == Some(outcome.data) && error.None?
      ensures old(location) != "" && outcome.NotOk? ==>
        && weatherData == old(weatherData)
        && error == Some(FetchFailedMessage)
      ensures old(location) != "" && outcome.Threw? ==>
        && weatherData == old(weatherData)
        && error == Some(Fetch.CaughtMessage(outcome.thrown))
      ensures location == old(location) && locationInput == old(locationInput) && mounted == old(mounted)
      ensures selectedMapLayer == old(selectedMapLayer) && forecastScenario == old(forecastScenario)
    {
      if location == "" {
        return;
      }
      BeginFetch();
      CompleteFetch(outcome);
    }

    /** Choosing a map layer, then refetching when a location is set. */
    method ChangeMapLayer(layer: MapType, outcome: Fetch.Outcome<WeatherData>)
      requires Valid()
      modifies this
      ensures Valid()
      ensures selectedMapLayer == layer
      ensures forecastScenario == old(forecastScenario)
      ensures location == old(location) && locationInput == old(locationInput) && mounted == old(mounted)
      ensures old(location) == "" ==>
        && weatherData == old(weatherData) && loading == old(loading) && error == old(error)
      ensures old(location) != "" ==> !loading
      ensures old(location) != "" && outcome.Ok? ==> weatherData == Some(outcome.data) && error.None?
      ensures old(location) != "" && outcome.NotOk? ==>
        && weatherData == old(weatherData)
        && error == Some(FetchFailedMessage)
      ensures old(location) != "" && outcome.Threw? ==>
        && weatherData == old(weatherData)
        && error == Some(Fetch.CaughtMessage(outcome.thrown))
    {
      selectedMapLayer := layer;
      if location != "" {
        FetchWeatherData(outcome);
      }
    }

    /** Choosing a forecast horizon, then refetching when a location is set. */
    method ChangeScenario(scenario: ScenarioType, outcome: Fetch.Outcome<WeatherData>)
      requires Valid()
      modifies this
      ensures Valid()
      ensures forecastScenario == scenario
      ensures selectedMapLayer == old(selectedMapLayer)
      ensures location == old(location) && locationInput == old(locationInput) && mounted == old(mounted)
      ensures old(location) == "" ==>
        && weatherData == old(weatherData) && loading == old(loading) && error == old(error)
      ensures old(location) != "" ==> !loading
      ensures old(location) != "" && outcome.Ok? ==> weatherData == Some(outcome.data) && error.None?
      ensures old(location) != "" && outcome.NotOk? ==>
        && weatherData == old(weatherData)
        && error == Some(FetchFailedMessage)
      ensures old(location) != "" && outcome.Threw? ==>
        && weatherData == old(weatherData)
        && error == Some(Fetch.CaughtMessage(outcome.thrown))
    {
      forecastScenario := scenario;
      if location != "" {
        FetchWeatherData(outcome);
      }
    }

    /**
      The effect that runs when the location, layer, horizon or mounted flag
      changes: a fetch, only once mounted and with a location.
    */
    method DependenciesChanged(outcome: Fetch.Outcome<WeatherData>)
      requires Valid()
      modifies this
      ensures Valid()
      ensures !(old(mounted) && old(location) != "") ==>
        && weatherData == old(weatherData) && loading == old(loading) && error == old(error)
      ensures old(mounted) && old(location) != "" ==> !loading
      ensures old(mounted) && old(location) != "" && outcome.Ok? ==> weatherData == Some(outcome.data) && error.None?
      ensures old(mounted) && old(location) != "" && outcome.NotOk? ==>
        && weatherData == old(weatherData)
        && error == Some(FetchFailedMessage)
      ensures old(mounted) && old(location) != "" && outcome.Threw? ==>
        && weatherData == old(weatherData)
        && error == Some(Fetch.CaughtMessage(outcome.thrown))
      ensures location == old(location) && locationInput == old(locationInput) && mounted == old(mounted)
      ensures selectedMapLayer == old(selectedMapLayer) && forecastScenario == old(forecastScenario)
    {
      if mounted && location != "" {
        FetchWeatherData(outcome);
      }
    }
  }

  // ------------------------------------------------------------ the panels

  /** What the map-and-chart card shows. */
  datatype MainPanel = LocationPrompt | MainSpinner | MapAndCharts(data: WeatherData, mapType: MapType, scenario: ScenarioType) | EmptyMain

  function MainPanelView(location: string, loading: bool, weatherData: Option<WeatherData>, mapType: MapType, scenario: ScenarioType): (v: MainPanel)
    ensures v.LocationPrompt? <==> location == ""
    ensures v.MainSpinner? <==> location != "" && loading
    ensures v.MapAndCharts? <==> location != "" && !loading && weatherData.Some?
    ensures v.MapAndCharts? ==> v.data == weatherData.value && v.mapType == mapType && v.scenario == scenario
  {
    if location == "" then LocationPrompt
    else if loading then MainSpinner
    else if weatherData.Some? then MapAndCharts(weatherData.value, mapType, scenario)
    else EmptyMain
  }

  /** What the risk card or the impact card shows. */
  datatype AnalysisPanel = AnalysisPrompt | AnalysisSpinner | AnalysisText(content: Option<Markdown.Rendered>) | AlertList(alerts: seq<Alert>) | NoAnalysis

  /**
    The risk card: the formatted risks when there are any, else the alerts
    when there is at least one, else a "no data" note.
  */
  function RiskPanelView(location: string, loading: bool, weatherData: Option<WeatherData>): (v: AnalysisPanel)
    ensures v.AnalysisPrompt? <==> location == ""
    ensures v.AnalysisSpinner? <==> location != "" && loading
    ensures v.AnalysisText? <==> location != "" && !loading && weatherData.Some? && HasText(weatherData.value.projected_climate_risks)
    ensures v.AnalysisText? ==> v.content == Markdown.ParseMarkdownContent(weatherData.value.projected_climate_risks.value)
    ensures v.AlertList? ==> weatherData.Some? && weatherData.value.alerts == Some(v.alerts) && |v.alerts| > 0
    ensures v.AlertList? <==>
      && location != "" && !loading && weatherData.Some?
      && !HasText(weatherData.value.projected_climate_risks)
      && weatherData.value.alerts.Some? && |weatherData.value.alerts.value| > 0
  {
    if location == "" then AnalysisPrompt
    else if loading then AnalysisSpinner
    else if weatherData.Some? && HasText(weatherData.value.projected_climate_risks) then
      AnalysisText(Markdown.ParseMarkdownContent(weatherData.value.projected_climate_risks.value))
    else if weatherData.Some? && weatherData.value.alerts.Some? && |weatherData.value.alerts.value| > 0 then
      AlertList(weatherData.value.alerts.value)
    else NoAnalysis
  }

  /** The impact card: the formatted analysis when there is one, else a "no data" note. */
  function ImpactPanelView(location: string, loading: bool, weatherData: Option<WeatherData>): (v: AnalysisPanel)
    ensures v.AnalysisPrompt? <==> location == ""
    ensures v.AnalysisSpinner? <==> location != "" && loading
    ensures v.AnalysisText? <==> location != "" && !loading && weatherData.Some? && HasText(weatherData.value.regional_impact_analysis)
    ensures v.AnalysisText? ==> v.content == Markdown.ParseMarkdownContent(weatherData.value.regional_impact_analysis.value)
    ensures !v.AlertList?
  {
    if location == "" then AnalysisPrompt
    else if loading then AnalysisSpinner
    else if weatherData.Some? && HasText(weatherData.value.regional_impact_analysis) then
      AnalysisText(Markdown.ParseMarkdownContent(weatherData.value.regional_impact_analysis.value))
    else NoAnalysis
  }
}
