/**
  The forecast record built at boot from the decoded weather response
  (the field mapping of `Forecast.__init__`). The response is taken as
  already decoded: each member of a JSON object is absent, an explicit
  null, or a value.
 */
module Weather {
  import opened Wrappers
  import Decimal
  import Formatters

  /** One member of a decoded JSON object. */
  datatype Field<+T> = Absent | Null | Present(value: T)

  /** `dict.get(key)`: both a missing member and an explicit null read as `None`. */
  function Get<T>(f: Field<T>): Option<T> {
    if f.Present? then Some(f.value) else None
  }

  type HourOfDay = h: int | 0 <= h < 24

  /** A parsed `forecastStart` timestamp; the display uses only its hour. */
  datatype StartTime = StartTime(hour: HourOfDay)

  datatype CurrentWeather = CurrentWeather(
    temperature: Field<real>,
    temperatureApparent: Field<real>,
    conditionCode: Field<string>,
    humidity: Field<real>,
    uvIndex: Field<int>,
    windSpeed: Field<real>)

  /** The `{}` default used when `currentWeather` is missing. */
  const NoCurrentWeather := CurrentWeather(Absent, Absent, Absent, Absent, Absent, Absent)

  datatype HourlyData = HourlyData(
    forecastStart: Field<StartTime>,
    conditionCode: Field<string>,
    temperature: Field<real>,
    precipitationChance: Field<real>)

  datatype ForecastHourly = ForecastHourly(hours: Field<seq<HourlyData>>)

  datatype WeatherResponse = WeatherResponse(
    currentWeather: Field<CurrentWeather>,
    forecastHourly: Field<ForecastHourly>)

  /** One hourly row: start, condition, temperature and precipitation chance, in the script's tuple order. */
  datatype HourEntry = HourEntry(start: StartTime, condition: string, temperature: string, chance: string)

  datatype Forecast = Forecast(
    temp: string,
    feelsLike: string,
    condition: string,
    humidity: string,
    uvIndex: string,
    windSpeed: string,
    hours: seq<HourEntry>)

  /** The exceptions the constructor can raise on a decoded response. */
  datatype BuildError =
    | CurrentWeatherNull        // `None.get` on an explicit null `currentWeather`
    | ForecastHourlyNull        // `None.get` on an explicit null `forecastHourly`
    | HoursNull                 // iterating an explicit null `hours`
    | StartMissing(index: nat)  // `fromisoformat(None)` for the hour at `index`

  /**
    The UV index followed by "UV". The default 0 applies only to a missing
    member; an explicit null is rendered as Python's `None`.
   */
  function UvIndex(f: Field<int>): (r: string)
    ensures f.Absent? ==> r == "0UV"
    ensures f.Null? ==> r == "NoneUV"
    ensures f.Present? ==> |r| > 2 && r[|r| - 2..] == "UV" && Decimal.Parse(r[..|r| - 2]) == Some(f.value)
    ensures f.Present? ==> Decimal.Canonical(r[..|r| - 2])
  {
    match f
    case Absent => "0UV"
    case Null => "NoneUV"
    case Present(n) =>
      var r := Decimal.FromInt(n) + "UV";
      assert r[..|r| - 2] == Decimal.FromInt(n);
      r
  }

  /** The row for one hour whose start is present. */
  function Entry(h: HourlyData): HourEntry
    requires h.forecastStart.Present?
  {
    HourEntry(
      h.forecastStart.value,
      Formatters.Condition(Get(h.conditionCode)),
      Formatters.Temp(Get(h.temperature)),
      Formatters.Percent(Get(h.precipitationChance)))
  }

  predicate HasStart(h: HourlyData) {
    h.forecastStart.Present?
  }

  /**
    The list comprehension over the hours: one row per input hour in input
    order, or the index of the first hour whose start is missing.
   */
  function Hours(hs: seq<HourlyData>): (r: Result<seq<HourEntry>, nat>)
    ensures r.Success? <==> forall i :: 0 <= i < |hs| ==> HasStart(hs[i])
    ensures r.Success? ==> |r.value| == |hs|
    ensures r.Success? ==> forall i :: 0 <= i < |hs| ==> HasStart(hs[i]) && r.value[i] == Entry(hs[i])
    ensures r.Failure? ==> r.error < |hs| && !HasStart(hs[r.error])
    ensures r.Failure? ==> forall i :: 0 <= i < r.error ==> HasStart(hs[i])
  {
    if |hs| == 0 then Success([])
    else if !HasStart(hs[0]) then Failure(0)
    else
      var tail := hs[1..];
      TailIndex(hs);
      match Hours(tail)
      case Failure(k) =>
        assert !HasStart(hs[k + 1]);
        Failure(k + 1)
      case Success(rest) =>
        var rows := [Entry(hs[0])] + rest;
        ConsIndex(Entry(hs[0]), rest);
        Success(rows)
  }

  /** Index `i` of a sequence is index `i - 1` of its tail. */
  lemma TailIndex<T>(s: seq<T>)
    requires |s| > 0
    ensures forall i :: 1 <= i < |s| ==> s[i] == s[1..][i - 1]
  {
  }

  /** Index `i` of `[x] + s` is index `i - 1` of `s`. */
  lemma ConsIndex<T>(x: T, s: seq<T>)
    ensures forall i :: 1 <= i <= |s| ==> ([x] + s)[i] == s[i - 1]
  {
  }

  /** The response's `currentWeather` object, or `{}` when it is missing. */
  function CurrentOf(w: WeatherResponse): CurrentWeather
    requires !w.currentWeather.Null?
  {
    if w.currentWeather.Present? then w.currentWeather.value else NoCurrentWeather
  }

  /** No container the constructor calls `.get` on or iterates is an explicit null. */
  predicate Shaped(w: WeatherResponse) {
    && !w.currentWeather.Null?
    && !w.forecastHourly.Null?
    && !(w.forecastHourly.Present? && w.forecastHourly.value.hours.Null?)
  }

  /** The input hours, `[]` when `forecastHourly` or its `hours` is missing. */
  function HoursOf(w: WeatherResponse): seq<HourlyData>
    requires Shaped(w)
  {
    if w.forecastHourly.Present? && w.forecastHourly.value.hours.Present?
    then w.forecastHourly.value.hours.value
    else []
  }

  /** The current-conditions strings computed from one `currentWeather` object. */
  function Current(cw: CurrentWeather, hours: seq<HourEntry>): Forecast {
    Forecast(
      Formatters.Temp(Get(cw.temperature)),
      Formatters.Temp(Get(cw.temperatureApparent)),
      Formatters.Condition(Get(cw.conditionCode)),
      Formatters.Percent(Get(cw.humidity)),
      UvIndex(cw.uvIndex),
      Formatters.Speed(Get(cw.windSpeed)),
      hours)
  }

  /**
    `Forecast.__init__` after the response is decoded: every display string
    of the record, or the exception the script raises first.
   */
  function Build(w: WeatherResponse): (r: Result<Forecast, BuildError>)
    ensures w.currentWeather.Null? ==> r == Failure(CurrentWeatherNull)
    ensures !w.currentWeather.Null? && w.forecastHourly.Null? ==> r == Failure(ForecastHourlyNull)
    ensures !w.currentWeather.Null? && w.forecastHourly.Present? && w.forecastHourly.value.hours.Null? ==>
              r == Failure(HoursNull)
    ensures r.Success? <==> Shaped(w) && forall i :: 0 <= i < |HoursOf(w)| ==> HasStart(HoursOf(w)[i])
    ensures r.Failure? && Shaped(w) ==>
              && r.error.StartMissing?
              && r.error.index < |HoursOf(w)|
              && !HasStart(HoursOf(w)[r.error.index])
              && forall i :: 0 <= i < r.error.index ==> HasStart(HoursOf(w)[i])
  {
    if !Shaped(w) then
      if w.currentWeather.Null? then Failure(CurrentWeatherNull)
      else if w.forecastHourly.Null? then Failure(ForecastHourlyNull)
      else Failure(HoursNull)
    else
      match Hours(HoursOf(w))
      case Failure(k) => Failure(StartMissing(k))
      case Success(rows) => Success(Current(CurrentOf(w), rows))
  }

  /** Each current-conditions string is its formatter applied to the matching member. */
  lemma BuildCurrentFields(w: WeatherResponse, f: Forecast)
    requires Build(w) == Success(f)
    ensures !w.currentWeather.Null?
    ensures f.temp == Formatters.Temp(Get(CurrentOf(w).temperature))
    ensures f.feelsLike == Formatters.Temp(Get(CurrentOf(w).temperatureApparent))
    ensures f.condition == Formatters.Condition(Get(CurrentOf(w).conditionCode))
    ensures f.humidity == Formatters.Percent(Get(CurrentOf(w).humidity))
    ensures f.uvIndex == UvIndex(CurrentOf(w).uvIndex)
    ensures f.windSpeed == Formatters.Speed(Get(CurrentOf(w).windSpeed))
  {
  }

  /** A missing `currentWeather` shows every placeholder, and "0UV" for the UV index. */
  lemma MissingCurrentWeather(w: WeatherResponse, f: Forecast)
    requires w.currentWeather.Absent? && Build(w) == Success(f)
    ensures f.temp == "--" + [Formatters.Degree] && f.feelsLike == "--" + [Formatters.Degree]
    ensures f.condition == "?"
    ensures f.humidity == "--%"
    ensures f.uvIndex == "0UV"
    ensures f.windSpeed == "--mph"
  {
  }

  /** The hourly rows follow the input hours one for one and in order. */
  lemma BuildHours(w: WeatherResponse, f: Forecast)
    requires Build(w) == Success(f)
    ensures Shaped(w) && |f.hours| == |HoursOf(w)|
    ensures forall i :: 0 <= i < |f.hours| ==>
              && HasStart(HoursOf(w)[i])
              && f.hours[i].start == HoursOf(w)[i].forecastStart.value
              && f.hours[i].condition == Formatters.Condition(Get(HoursOf(w)[i].conditionCode))
              && f.hours[i].temperature == Formatters.Temp(Get(HoursOf(w)[i].temperature))
              && f.hours[i].chance == Formatters.Percent(Get(HoursOf(w)[i].precipitationChance))
    ensures (w.forecastHourly.Absent? || w.forecastHourly.value.hours.Absent?) ==> f.hours == []
  {
    var r := Hours(HoursOf(w));
    assert r.Success? && f.hours == r.value;
  }
}
