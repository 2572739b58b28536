/** The weather refresh and staleness logic of `run` in src/lib.rs. Instants
    and durations are integer nanoseconds; the clock and the HTTP request
    are inputs of each loop iteration. */
module WeatherPoll {
  import opened Wrappers
  import opened WeatherTypes

  /** The three variables `run` updates from one iteration to the next. */
  datatype PollState = PollState(lastAttempt: int, lastSuccess: int, weather: Option<OpenWeather>)

  /** One iteration's inputs: the instant it starts at, and what the weather
      request would return if it were made. */
  datatype Tick = Tick(now: int, fetch: FetchOutcome)

  /** `Instant::duration_since`, which saturates at zero. */
  function DurationSince(later: int, earlier: int): (d: nat)
    ensures later >= earlier ==> d == later - earlier
    ensures later < earlier ==> d == 0
  {
    if later >= earlier then later - earlier else 0
  }

  /** `no_weather_error_duration`: three polling intervals. */
  function NoWeatherErrorDuration(pollingInterval: nat): nat
  {
    pollingInterval * 3
  }

  /** Start-up: both instants are the start time, and the weather is that of
      the initial request, or none when it failed. */
  function Start(start: int, initial: FetchOutcome): (s: PollState)
    ensures s.lastAttempt == s.lastSuccess == start
    ensures s.weather == None <==> initial.FetchFailed?
    ensures initial.Fetched? ==> s.weather == Some(initial.response)
  {
    PollState(start, start, if initial.Fetched? then Some(initial.response) else None)
  }

  /** A refresh is due only when strictly more than one polling interval has
      passed since the last attempt. */
  predicate RefreshDue(s: PollState, now: int, pollingInterval: nat)
  {
    DurationSince(now, s.lastAttempt) > pollingInterval
  }

  /** The refresh step of one iteration: nothing when not due; when due,
      the attempt instant moves to `now` whatever the outcome, a success
      replaces the weather and the success instant, and a failure keeps
      both. */
  function Refresh(s: PollState, now: int, pollingInterval: nat, fetch: FetchOutcome): (r: PollState)
    ensures r.lastAttempt != s.lastAttempt ==> now > s.lastAttempt + pollingInterval
    ensures !RefreshDue(s, now, pollingInterval) ==> r == s
    ensures RefreshDue(s, now, pollingInterval) ==> r.lastAttempt == now
    ensures RefreshDue(s, now, pollingInterval) && fetch.Fetched? ==>
      r.weather == Some(fetch.response) && r.lastSuccess == now
    ensures fetch.FetchFailed? ==> r.weather == s.weather && r.lastSuccess == s.lastSuccess
  {
    if !RefreshDue(s, now, pollingInterval) then s
    else
      match fetch
      case Fetched(updated) => PollState(now, now, Some(updated))
      case FetchFailed => s.(lastAttempt := now)
  }

  /** The weather handed to the display: none exactly when the last success
      is more than three polling intervals old or there is no weather at all,
      otherwise the current weather. */
  function ShownWeather(s: PollState, now: int, pollingInterval: nat): (r: Option<OpenWeather>)
    ensures r == None <==> now > s.lastSuccess + 3 * pollingInterval || s.weather == None
    ensures r.Some? ==> r == s.weather
  {
    if now > s.lastSuccess + NoWeatherErrorDuration(pollingInterval) then None else s.weather
  }

  /** A success is never later than the attempt that made it. */
  ghost predicate Consistent(s: PollState)
  {
    s.lastSuccess <= s.lastAttempt
  }

  /** Refreshing keeps a success no later than the last attempt. */
  lemma RefreshConsistent(s: PollState, now: int, pollingInterval: nat, fetch: FetchOutcome)
    requires Consistent(s)
    ensures Consistent(Refresh(s, now, pollingInterval, fetch))
  {
  }

  /** The state after running the refresh step on every tick. */
  function After(s: PollState, pollingInterval: nat, ticks: seq<Tick>): PollState
    decreases |ticks|
  {
    if ticks == [] then s
    else After(Refresh(s, ticks[0].now, pollingInterval, ticks[0].fetch), pollingInterval, ticks[1..])
  }

  /** The weather shown on each tick: refresh first, then decide staleness. */
  function Shown(s: PollState, pollingInterval: nat, ticks: seq<Tick>): (r: seq<Option<OpenWeather>>)
    ensures |r| == |ticks|
    decreases |ticks|
  {
    if ticks == [] then []
    else
      var s' := Refresh(s, ticks[0].now, pollingInterval, ticks[0].fetch);
      [ShownWeather(s', ticks[0].now, pollingInterval)] + Shown(s', pollingInterval, ticks[1..])
  }

  /** Tick `k` shows the staleness decision, taken at that tick's instant,
      on the state reached after refreshing on ticks `0..k`. */
  lemma {:induction false} ShownAfterPrefix(s: PollState, pollingInterval: nat, ticks: seq<Tick>)
    ensures forall k :: 0 <= k < |ticks| ==>
      Shown(s, pollingInterval, ticks)[k] ==
        ShownWeather(After(s, pollingInterval, ticks[..k + 1]), ticks[k].now, pollingInterval)
    decreases |ticks|
  {
    if ticks != [] {
      var s' := Refresh(s, ticks[0].now, pollingInterval, ticks[0].fetch);
      ShownAfterPrefix(s', pollingInterval, ticks[1..]);
      forall k | 0 <= k < |ticks|
        ensures Shown(s, pollingInterval, ticks)[k] ==
          ShownWeather(After(s, pollingInterval, ticks[..k + 1]), ticks[k].now, pollingInterval)
      {
        assert ticks[..k + 1][0] == ticks[0];
        assert ticks[..k + 1][1..] == ticks[1..][..k];
        if k > 0 {
          assert Shown(s, pollingInterval, ticks)[k] == Shown(s', pollingInterval, ticks[1..])[k - 1];
        }
      }
    }
  }

  predicate AllFail(ticks: seq<Tick>)
  {
    forall k :: 0 <= k < |ticks| ==> ticks[k].fetch.FetchFailed?
  }

  /** While every request fails, the weather and the last success instant
      never change, however many attempts are made. */
  lemma {:induction false} FailuresKeepWeather(s: PollState, pollingInterval: nat, ticks: seq<Tick>)
    requires AllFail(ticks)
    ensures After(s, pollingInterval, ticks).weather == s.weather
    ensures After(s, pollingInterval, ticks).lastSuccess == s.lastSuccess
    decreases |ticks|
  {
    if ticks != [] {
      FailuresKeepWeather(Refresh(s, ticks[0].now, pollingInterval, ticks[0].fetch), pollingInterval, ticks[1..]);
    }
  }

  /** Once requests keep failing, every tick later than three polling
      intervals after the last success shows no weather; earlier ticks show
      the weather held before the failures. */
  lemma {:induction false} FailuresGoStale(s: PollState, pollingInterval: nat, ticks: seq<Tick>)
    requires AllFail(ticks)
    ensures forall k :: 0 <= k < |ticks| ==>
      Shown(s, pollingInterval, ticks)[k] ==
        if ticks[k].now > s.lastSuccess + 3 * pollingInterval then None else s.weather
    decreases |ticks|
  {
    if ticks != [] {
      var s' := Refresh(s, ticks[0].now, pollingInterval, ticks[0].fetch);
      FailuresGoStale(s', pollingInterval, ticks[1..]);
      forall k | 0 <= k < |ticks|
        ensures Shown(s, pollingInterval, ticks)[k] ==
          if ticks[k].now > s.lastSuccess + 3 * pollingInterval then None else s.weather
      {
        if k > 0 {
          assert Shown(s, pollingInterval, ticks)[k] == Shown(s', pollingInterval, ticks[1..])[k - 1];
        }
      }
    }
  }

  /** If the initial request fails, nothing is shown until a request
      succeeds, although the success instant starts at start-up. */
  lemma InitialFailureShowsNothing(start: int, pollingInterval: nat, ticks: seq<Tick>)
    requires AllFail(ticks)
    ensures Start(start, FetchFailed).lastSuccess == start
    ensures forall k :: 0 <= k < |ticks| ==> Shown(Start(start, FetchFailed), pollingInterval, ticks)[k] == None
  {
    FailuresGoStale(Start(start, FetchFailed), pollingInterval, ticks);
  }

  /** A tick whose due request succeeds shows the new weather at once. */
  lemma SuccessShowsFreshWeather(s: PollState, pollingInterval: nat, t: Tick)
    requires RefreshDue(s, t.now, pollingInterval) && t.fetch.Fetched?
    ensures Shown(s, pollingInterval, [t]) == [Some(t.fetch.response)]
  {
  }

  /** The loop-carried state of `run`. */
  class RunLoop {
    const pollingInterval: nat
    var lastWeatherAttempt: int
    var lastWeatherSuccess: int
    var weather: Option<OpenWeather>

    function State(): PollState
      reads this
    {
      PollState(lastWeatherAttempt, lastWeatherSuccess, weather)
    }

    /** The set-up before the loop, given the start instant and the outcome
        of the initial request. */
    constructor (start: int, pollingInterval: nat, initial: FetchOutcome)
      ensures State() == Start(start, initial) && this.pollingInterval == pollingInterval
      ensures Consistent(State())
    {
      this.pollingInterval := pollingInterval;
      lastWeatherAttempt := start;
      lastWeatherSuccess := start;
      weather := match initial
        case Fetched(w) => Some(w)
        case FetchFailed => None;
    }

    /** One iteration of the loop, up to the display call: refresh if due,
        then pick the weather to show. */
    method Step(now: int, fetch: FetchOutcome) returns (shown: Option<OpenWeather>)
      requires Consistent(State())
      modifies this
      ensures State() == Refresh(old(State()), now, pollingInterval, fetch)
      ensures Consistent(State())
      ensures shown == ShownWeather(State(), now, pollingInterval)
    {
      RefreshConsistent(State(), now, pollingInterval, fetch);
      var durationSinceLastWeather := DurationSince(now, lastWeatherAttempt);
      if durationSinceLastWeather > pollingInterval {
        lastWeatherAttempt := now;
        match fetch {
          case Fetched(updatedWeather) =>
            lastWeatherSuccess := now;
            weather := Some(updatedWeather);
          case FetchFailed =>
        }
      }
      if now > lastWeatherSuccess + NoWeatherErrorDuration(pollingInterval) {
        shown := None;
      } else {
        shown := weather;
      }
    }
  }

  /** `run` over a finite prefix of its endless loop: the weather handed to
      the display on each tick. */
  method Run(start: int, pollingInterval: nat, initial: FetchOutcome, ticks: seq<Tick>)
    returns (shown: seq<Option<OpenWeather>>)
    ensures shown == Shown(Start(start, initial), pollingInterval, ticks)
  {
    var loop := new RunLoop(start, pollingInterval, initial);
    shown := [];
    var i := 0;
    while i < |ticks|
      invariant i <= |ticks|
      invariant loop.pollingInterval == pollingInterval
      invariant Consistent(loop.State())
      invariant shown + Shown(loop.State(), pollingInterval, ticks[i..])
                == Shown(Start(start, initial), pollingInterval, ticks)
    {
      var s := loop.Step(ticks[i].now, ticks[i].fetch);
      assert ticks[i..][1..] == ticks[i + 1..];
      shown := shown + [s];
      i := i + 1;
    }
  }
}
