/** The temperature unit codec of src/weather/units.rs: the unit names
    OpenWeather expects in a request, and the letter shown after a
    temperature. */
module Units {
  import opened Wrappers

  const UnitsImperial: string := "imperial"
  const UnitsMetric: string := "metric"
  const UnitsStandard: string := "standard"

  datatype TemperatureUnits = Imperial | Metric | Standard

  /** `ToString for TemperatureUnits`. */
  function ToString(u: TemperatureUnits): (s: string)
    ensures s == UnitsImperial || s == UnitsMetric || s == UnitsStandard
  {
    match u
    case Imperial => UnitsImperial
    case Metric => UnitsMetric
    case Standard => UnitsStandard
  }

  /** `TemperatureUnits::from_string`; `None` is the panic on an
      unrecognised name. It accepts exactly the three unit names, and
      serialising the parsed unit gives the same name back. */
  function FromString(s: string): (r: Option<TemperatureUnits>)
    ensures r.Some? <==> s in {UnitsImperial, UnitsMetric, UnitsStandard}
    ensures r.Some? ==> ToString(r.value) == s
  {
    if s == UnitsImperial then Some(Imperial)
    else if s == UnitsMetric then Some(Metric)
    else if s == UnitsStandard then Some(Standard)
    else None
  }

  /** `TemperatureUnits::as_char`: each unit has its own display letter,
      F, C or K. */
  function AsChar(u: TemperatureUnits): (c: char)
    ensures c == 'F' <==> u == Imperial
    ensures c == 'C' <==> u == Metric
    ensures c == 'K' <==> u == Standard
  {
    match u
    case Imperial => 'F'
    case Metric => 'C'
    case Standard => 'K'
  }

  /** Parsing what was serialised gives back the unit. */
  lemma FromStringToString(u: TemperatureUnits)
    ensures FromString(ToString(u)) == Some(u)
  {
  }

  /** Distinct units serialise to distinct strings. */
  lemma ToStringInjective(u: TemperatureUnits, v: TemperatureUnits)
    ensures ToString(u) == ToString(v) ==> u == v
  {
    if ToString(u) == ToString(v) {
      FromStringToString(u);
      FromStringToString(v);
    }
  }
}
