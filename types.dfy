/**
  The shared data model of the climate forecasting page: which map layer and
  forecast horizon are selected, and the weather document the forecast service
  returns. Optional JSON properties become `Option`s; a map type or scenario
  outside the declared unions (the `default:` branches of the components)
  becomes the `Unknown` case carrying the raw string.
*/
module ClimaTypes {

  datatype Option<+T> = None | Some(value: T) {
    function GetOr(default: T): (r: T)
      ensures Some? ==> r == value
      ensures None? ==> r == default
    {
      match this
      case Some(v) => v
      case None => default
    }
  }

  /** JavaScript truthiness of an optional text: present and not empty. */
  predicate HasText(t: Option<string>) {
    t.Some? && t.value != ""
  }

  /** The map layer selected on the page. */
  datatype MapType = Temperature | Precipitation | ExtremeWeather | UnknownMap(raw: string)

  /** The forecast horizon selected on the page. */
  datatype ScenarioType = Short | Medium | Long | UnknownScenario(raw: string)

  /** One hour of the short-term forecast. Readings are whole numbers in this model. */
  datatype HourlyDataPoint = HourlyDataPoint(
    datetime: string,
    temperature: Option<int>,
    precipitation_mm: Option<int>,
    condition: Option<string>)

  /** One day of the medium- or long-term forecast. */
  datatype DailyDataPoint = DailyDataPoint(
    date: string,
    avg_temperature: Option<int>,
    precipitation_mm: Option<int>,
    condition: Option<string>)

  datatype ForecastData = ForecastData(
    short_term_forecast: seq<HourlyDataPoint>,
    medium_term_forecast: seq<DailyDataPoint>,
    long_term_forecast: seq<DailyDataPoint>)

  datatype Coordinates = Coordinates(lat: real, lon: real)

  datatype Alert = Alert(event: string, description: string)

  datatype WeatherData = WeatherData(
    city: string,
    coordinates: Coordinates,
    forecast: ForecastData,
    regional_impact_analysis: Option<string>,
    projected_climate_risks: Option<string>,
    alerts: Option<seq<Alert>>)
}

/**
  What a `fetch` call followed by `response.json()` can come to, as seen by
  the code that awaits it: a successful response whose body parsed, a response
  whose `ok` flag is false, or an exception (network failure, a body that is
  not JSON). The request itself, its URL and its body are outside the model.
*/
module Fetch {

  /** The value a `catch` block receives. */
  datatype Thrown = ErrorInstance(message: string) | OtherValue

  datatype Outcome<+T> = Ok(data: T) | NotOk | Threw(thrown: Thrown)

  /**
    The message a `catch (err)` block shows: an `Error`'s own message, and a
    fixed text for anything else that was thrown.
  */
  function CaughtMessage(t: Thrown): (m: string)
    ensures t.ErrorInstance? ==> m == t.message
    ensures t.OtherValue? ==> m == "An error occurred"
  {
    match t
    case ErrorInstance(msg) => msg
    case OtherValue => "An error occurred"
  }
}
