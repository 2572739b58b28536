/** The older, stand-alone loop in `main` of src/main.rs (the non-ARM
    build): refresh the weather every 600 seconds and keep showing the last
    weather obtained. Instants are integer nanoseconds. */
module MainLoop {
  import opened Wrappers
  import opened WeatherTypes
  import WeatherPoll
  import Light

  /** `Duration::from_secs(600)`. */
  const RefreshInterval: nat := 600 * Light.NanosPerSecond

  /** The loop variables of `main`: here the weather is always present. */
  datatype MainState = MainState(lastAttempt: int, lastSuccess: int, weather: OpenWeather)

  /** Start-up: a failed initial request is fatal (`expect`), shown as
      `None`; otherwise both instants are the start time. */
  function Startup(start: int, initial: FetchOutcome): (r: Option<MainState>)
    ensures r.None? <==> initial.FetchFailed?
    ensures r.Some? ==> r.value.lastAttempt == r.value.lastSuccess == start
    ensures r.Some? ==> r.value.weather == initial.response
  {
    match initial
    case Fetched(w) => Some(MainState(start, start, w))
    case FetchFailed => None
  }

  /** The refresh step of one iteration of `main`'s loop: a request only
      after strictly more than 600 s, the attempt instant recorded whatever
      the outcome, the success instant equal to that attempt on success, and
      the weather and success instant kept on failure. */
  function MainRefresh(s: MainState, now: int, fetch: FetchOutcome): (r: MainState)
    ensures r != s ==> now - s.lastAttempt > 600 * Light.NanosPerSecond
    ensures now - s.lastAttempt > RefreshInterval ==> r.lastAttempt == now
    ensures now - s.lastAttempt > RefreshInterval && fetch.Fetched? ==>
      r.lastSuccess == r.lastAttempt && r.weather == fetch.response
    ensures fetch.FetchFailed? ==> r.weather == s.weather && r.lastSuccess == s.lastSuccess
  {
    if WeatherPoll.DurationSince(now, s.lastAttempt) > RefreshInterval then
      match fetch
      case Fetched(updated) => MainState(now, now, updated)
      case FetchFailed => s.(lastAttempt := now)
    else s
  }

  /** The same state in the newer loop of src/lib.rs. */
  function Lift(s: MainState): WeatherPoll.PollState
  {
    WeatherPoll.PollState(s.lastAttempt, s.lastSuccess, Some(s.weather))
  }

  /** The older loop's refresh is the newer loop's refresh with a
      600-second polling interval. */
  lemma MainRefreshAgreesWithRun(s: MainState, now: int, fetch: FetchOutcome)
    ensures WeatherPoll.Refresh(Lift(s), now, RefreshInterval, fetch) == Lift(MainRefresh(s, now, fetch))
  {
  }

  /** The weather shown on each tick: the state's weather after refreshing. */
  function MainShown(s: MainState, ticks: seq<WeatherPoll.Tick>): (r: seq<OpenWeather>)
    ensures |r| == |ticks|
    decreases |ticks|
  {
    if ticks == [] then []
    else
      var s' := MainRefresh(s, ticks[0].now, ticks[0].fetch);
      [s'.weather] + MainShown(s', ticks[1..])
  }

  /** The state after running the refresh step on every tick. */
  function MainAfter(s: MainState, ticks: seq<WeatherPoll.Tick>): MainState
    decreases |ticks|
  {
    if ticks == [] then s
    else MainAfter(MainRefresh(s, ticks[0].now, ticks[0].fetch), ticks[1..])
  }

  /** Tick `k` uses the weather of the state reached after refreshing on
      ticks `0..k`. */
  lemma {:induction false} MainShownAfterPrefix(s: MainState, ticks: seq<WeatherPoll.Tick>)
    ensures forall k :: 0 <= k < |ticks| ==> MainShown(s, ticks)[k] == MainAfter(s, ticks[..k + 1]).weather
    decreases |ticks|
  {
    if ticks != [] {
      var s' := MainRefresh(s, ticks[0].now, ticks[0].fetch);
      MainShownAfterPrefix(s', ticks[1..]);
      forall k | 0 <= k < |ticks|
        ensures MainShown(s, ticks)[k] == MainAfter(s, ticks[..k + 1]).weather
      {
        assert ticks[..k + 1][0] == ticks[0];
        assert ticks[..k + 1][1..] == ticks[1..][..k];
        if k > 0 {
          assert MainShown(s, ticks)[k] == MainShown(s', ticks[1..])[k - 1];
        }
      }
    }
  }

  /** While every request fails, the previous weather keeps being shown. */
  lemma {:induction false} FailuresKeepShowingWeather(s: MainState, ticks: seq<WeatherPoll.Tick>)
    requires WeatherPoll.AllFail(ticks)
    ensures forall k :: 0 <= k < |ticks| ==> MainShown(s, ticks)[k] == s.weather
    decreases |ticks|
  {
    if ticks != [] {
      var s' := MainRefresh(s, ticks[0].now, ticks[0].fetch);
      FailuresKeepShowingWeather(s', ticks[1..]);
      forall k | 0 <= k < |ticks| ensures MainShown(s, ticks)[k] == s.weather {
        if k > 0 {
          assert MainShown(s, ticks)[k] == MainShown(s', ticks[1..])[k - 1];
        }
      }
    }
  }

  /** How `main` ends over a finite prefix of its endless loop: the
      initial request failed (`expect`), or the loop ran and `used` holds
      the weather each tick displayed, `panicked` telling whether it stopped
      at the `weather[0]` index of a weather without descriptions. */
  datatype MainOutcome = InitialFetchFailed | Ran(used: seq<OpenWeather>, panicked: bool)

  /** `main` over a finite prefix of its endless loop. Each tick displays
      the weather the refresh step leaves, until the first tick whose
      weather has an empty description list, where the process panics. */
  method RunMain(start: int, initial: FetchOutcome, ticks: seq<WeatherPoll.Tick>)
    returns (outcome: MainOutcome)
    ensures outcome.InitialFetchFailed? <==> initial.FetchFailed?
    ensures outcome.Ran? ==>
      var full := MainShown(Startup(start, initial).value, ticks);
      && |outcome.used| <= |ticks|
      && outcome.used == full[..|outcome.used|]
      && (forall k :: 0 <= k < |outcome.used| ==> outcome.used[k].weather != [])
      && (outcome.panicked <==> |outcome.used| < |ticks|)
      && (outcome.panicked ==> full[|outcome.used|].weather == [])
  {
    if initial.FetchFailed? {
      return InitialFetchFailed;
    }
    ghost var full := MainShown(Startup(start, initial).value, ticks);
    var lastWeatherAttempt := start;
    var lastWeatherSuccess := start;
    var weather := initial.response;
    var used: seq<OpenWeather> := [];
    var i := 0;
    while i < |ticks|
      invariant i <= |ticks| && |used| == i
      invariant used + MainShown(MainState(lastWeatherAttempt, lastWeatherSuccess, weather), ticks[i..]) == full
      invariant forall k :: 0 <= k < i ==> used[k].weather != []
    {
      ghost var before := MainState(lastWeatherAttempt, lastWeatherSuccess, weather);
      MainShownStep(before, ticks, i);
      var now := ticks[i].now;
      var durationSinceLastWeather := WeatherPoll.DurationSince(now, lastWeatherAttempt);
      if durationSinceLastWeather > RefreshInterval {
        lastWeatherAttempt := now;
        if ticks[i].fetch.Fetched? {
          lastWeatherSuccess := lastWeatherAttempt;
          weather := ticks[i].fetch.response;
        }
      }
      assert MainState(lastWeatherAttempt, lastWeatherSuccess, weather) == MainRefresh(before, now, ticks[i].fetch);
      ghost var rest := MainShown(MainState(lastWeatherAttempt, lastWeatherSuccess, weather), ticks[i + 1..]);
      if |weather.weather| == 0 {
        PrefixOfConcat(used, [weather] + rest, full);
        return Ran(used, true);
      }
      AppendOne(used, weather, rest);
      used := used + [weather];
      i := i + 1;
    }
    PrefixOfConcat(used, [], full);
    return Ran(used, false);
  }

  /** Unfolding `MainShown` by one tick from position `i`. */
  lemma MainShownStep(s: MainState, ticks: seq<WeatherPoll.Tick>, i: nat)
    requires i < |ticks|
    ensures var s' := MainRefresh(s, ticks[i].now, ticks[i].fetch);
      MainShown(s, ticks[i..]) == [s'.weather] + MainShown(s', ticks[i + 1..])
  {
    assert ticks[i..][1..] == ticks[i + 1..];
  }

  lemma AppendOne<T>(xs: seq<T>, x: T, ys: seq<T>)
    ensures xs + ([x] + ys) == (xs + [x]) + ys
  {
  }

  lemma PrefixOfConcat<T>(xs: seq<T>, ys: seq<T>, zs: seq<T>)
    requires xs + ys == zs
    ensures zs[..|xs|] == xs
    ensures |ys| > 0 ==> zs[|xs|] == ys[0]
  {
    assert zs[..|xs|] == (xs + ys)[..|xs|];
  }
}
