/** The parts of an OpenWeather response the clock reads
    (src/weather/open_weather_types.rs), and the outcome of one request
    (src/weather.rs). Every field of the response has a serde default, so
    the list of weather descriptions may be empty. */
module WeatherTypes {

  datatype Description = Description(main: string)

  datatype OpenWeather = OpenWeather(weather: seq<Description>, temp: real)

  /** What `get_weather` returned: the HTTP request and decoding are not
      modelled, only whether they produced a response. */
  datatype FetchOutcome = Fetched(response: OpenWeather) | FetchFailed
}
