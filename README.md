# pi_clock core, modelled in Dafny

pi_clock is a Raspberry Pi desk clock. It fetches the weather from OpenWeather
now and then. It shows the time and the weather on one or more displays, and it
dims them according to a light reading. This project models the logic between
the clock's raw inputs and what is rendered:

- **Brightness** (`light.dfy`, module `Light`): `normalize_lux` and the
  time-of-day brightness curve of the time light sensor. The curve is full
  brightness from 08:00 to 19:00, then a ramp down to 23:00, then darkness until
  07:00, then a ramp up to 08:00. A time of day is a count of nanoseconds since
  midnight. Ramp offsets are cut to whole seconds, as `num_seconds` does.
- **Page rotation** (`rotation.dfy`, module `Rotation`): the `StateMachine` of
  src/lib.rs. It is a class whose constructor fills the second-to-page table in a
  loop with a running counter, and whose `CurrentState` looks the second up.
- **Weather refresh and staleness in `run`** (`weather_poll.dfy`, module
  `WeatherPoll`). The three loop variables become a class `RunLoop` with one
  `Step` per loop iteration. `Run` drives it over a finite list of ticks. Value
  functions (`Refresh`, `ShownWeather`, `Shown`) give the same steps as data, and
  the lemmas are stated about them.
- **The older loop in `main`** (`main_loop.dfy`, module `MainLoop`). It polls
  every 600 seconds, and a failed first request stops the process. It is proved
  to be the newer loop's refresh with a 600-second interval.
- **Display helpers** (`display.dfy`, module `Display`): `truncate_to_characters`,
  `split_time`, `console_time_str`, the text of the console weather fields, and
  the `Composite` display, which prints its sub-displays in order and stops at
  the first error.
- **Temperature units** (`units.dfy`, module `Units`): the three-way codec of
  src/weather/units.rs.

`wrappers.dfy` holds the `Option` and `Result` types, and `weather_types.dfy`
holds the parts of a weather response that the clock reads. Inside the modelled
functions each panic is an error value, `None` or `Err`. These are `from_string`
on an unknown name, the slice in `truncate_to_characters`, the `% 0` and
`unwrap()` in `current_state`, the final `panic!` of the brightness curve, and
the `w.weather[0]` index in `console_weather_and_temp_str`. A lemma or contract
then says when the panic can happen, or proves that it cannot. In the older loop
of src/main.rs, two panics end the process: the `expect` on the initial request
(src/main.rs:52-53) and the `weather.weather[0]` index (src/main.rs:89).
`MainLoop.RunMain` returns which of them ended the run, if either did.

Facts of the code that the model keeps:

- A refresh is due only when strictly more than the polling interval has passed
  since the last attempt (src/lib.rs:91-92). Exactly one interval is not enough.
- There is no separate never-fetched state. The display gets `None` both before
  the first success and once the weather is stale (src/lib.rs:80-86 and
  src/lib.rs:116-124).
- Every struct of the weather response carries `#[serde(default)]`
  (src/weather/open_weather_types.rs), so the list of weather descriptions may
  be empty. `weather[0]` then panics (src/display.rs:156, src/main.rs:89).

## Model

| member | source | states |
|---|---|---|
| `Units.ToString` | src/weather/units.rs:11-18 | each unit serialises to one of the three names "imperial", "metric", "standard" |
| `Units.FromStringToString` | src/weather/units.rs:11-29 | parsing a serialised unit gives that unit back |
| `Units.FromString` | src/weather/units.rs:22-29 | `from_string` accepts exactly the three names, any other string being the panic (`None`), and serialising an accepted string's unit gives the same string back |
| `Units.ToStringInjective` | src/weather/units.rs:1-17 | different units serialise to different strings |
| `Units.AsChar` | src/weather/units.rs:31-37 | the letter is F exactly for Imperial, C exactly for Metric, K exactly for Standard |
| `Light.NormalizeLux` | src/light.rs:175-179 | the result is in [0,1]; it is 0 at or below MIN_LUX and 1 at or above MAX_LUX; between the bounds it is the linear rescaling |
| `Light.NormalizeLuxClamps` | src/light.rs:177-177 | a reading below MIN_LUX or above MAX_LUX gives the same value as the nearest bound |
| `Light.NormalizeProgressToLux` | src/light.rs:108-110 | turning a ramp progress in [0,1] into lux and normalising it gives the progress back |
| `Light.NormalizeLuxIdempotent` | src/light.rs:176-179 | normalising, mapping back to lux and normalising again changes nothing |
| `Light.NormalizeLuxMonotonic` | src/light.rs:176-179 | a brighter reading never gives a smaller normalised value |
| `Light.NumSeconds` | src/light.rs:105-107 | whole seconds truncated toward zero: for a non-negative duration, the largest whole second not above it |
| `Light.SubNanos` | src/light.rs:84-84 | subtracting from a time of day wraps around midnight, so `midnight - 1ns` is the last nanosecond of the day |
| `Light.Share` | src/light.rs:117-119 | a ramp share `part / (part + rest)` lies in [0,1]; it is 1 exactly when rest is 0 and 0 exactly when part is 0 |
| `Light.TimeBasedBrightness` | src/light.rs:79-127 | every time of day gets a brightness (the final `panic!` is never reached), and it lies in [0,1] |
| `Light.TimeSensorReading` | src/light.rs:60-77 | the time light sensor always reads a value between 0 and 1 |
| `Light.CasesPartitionDay` | src/light.rs:82-126 | the five half-open ranges and the last-nanosecond special case cover every time of day exactly once |
| `Light.RampDenominatorPositive` | src/light.rs:105-119 | on each ramp both whole-second offsets are non-negative and their sum is the ramp length in seconds, or one less, so never 0 |
| `Light.FullBrightDuringDay` | src/light.rs:93-95 | brightness is 1 from 08:00 inclusive to 19:00 exclusive |
| `Light.FullDarkDuringNight` | src/light.rs:88-99 | brightness is 0 from 23:00 to midnight, the last nanosecond included, and from midnight to 07:00 |
| `Light.EveningRampValue` | src/light.rs:101-111 | on [19:00, 23:00) brightness is whole seconds until 23:00 divided by (seconds since 19:00 + seconds until 23:00) |
| `Light.MorningRampValue` | src/light.rs:113-124 | on [07:00, 08:00) brightness is whole seconds since 07:00 divided by (seconds since 07:00 + seconds until 08:00) |
| `Light.EveningRampDims` | src/light.rs:101-111 | across the evening ramp a later time is never brighter |
| `Light.MorningRampBrightens` | src/light.rs:113-124 | across the morning ramp a later time is never dimmer |
| `Light.EveningTestPoints` | src/light.rs:216-262 | 19:00 and 19:00:00.001 give 1; 20:00, 21:00 and 22:00 give 0.75, 0.5 and 0.25; 22:59:59.999 gives 0 |
| `Light.MorningTestPoints` | src/light.rs:320-366 | 07:00 and 07:00:00.001 give 0; 07:15, 07:30 and 07:45 give 0.25, 0.5 and 0.75; 07:59:59.999 gives 1 |
| `Rotation.Table` | src/lib.rs:141-145 | every second `0 .. duration*count - 1` of one cycle has an entry (so the lookup in `current_state` cannot miss) and no other key does, and every stored page is below the page count |
| `Rotation.DivStep` | src/lib.rs:143-145 | bumping the counter exactly when `i + 1` is a multiple of the duration keeps the counter equal to `i / duration` |
| `Rotation.StateMachine.constructor` | src/lib.rs:137-153 | the loop with its running counter builds exactly the table mapping each second `i` of the cycle to `i / duration` |
| `Rotation.StateMachine.CurrentState` | src/lib.rs:155-158 | the lookup fails only when the cycle is empty (duration or count 0); otherwise it returns `(second % (duration*count)) / duration`, which is below the count |
| `Rotation.CurrentStatePeriodic` | src/lib.rs:155-158 | for any second counter, second `s + duration*count` shows the same page as second `s`; since the source passes the second of the minute, this holds only between two seconds of the same minute |
| `Rotation.RotationOfThreeByThree` | src/lib.rs:20-20 | with STATE_COUNT 3 pages of 3 s: seconds 0-2 give page 0, 3-5 page 1, 6-8 page 2, and 9 gives page 0 again |
| `Rotation.RotationSkipsAtMinuteWrap` | src/lib.rs:155-158 | the second of the minute wraps at 60, which 3 pages of 3 s do not divide: seconds 57-59 show page 1 and the next second, 0, shows page 0, so page 2 is skipped once a minute |
| `WeatherPoll.DurationSince` | src/lib.rs:91-91 | the elapsed time is `later - earlier`, or 0 when `earlier` is later |
| `WeatherPoll.Start` | src/lib.rs:77-86 | both instants start at start-up; the weather is the initial response, or none exactly when the initial request failed |
| `WeatherPoll.Refresh` | src/lib.rs:91-114 | a request happens only when strictly more than the interval has passed since the last attempt; the attempt instant becomes `now` whatever the outcome; a success stores the weather and sets the success instant to `now`; a failure keeps both |
| `WeatherPoll.RefreshConsistent` | src/lib.rs:91-114 | a refresh keeps the last success no later than the last attempt |
| `WeatherPoll.ShownWeather` | src/lib.rs:116-124 | the display gets no weather exactly when `now > last_success + 3*interval` or there is no weather; otherwise it gets the current weather |
| `WeatherPoll.FailuresKeepWeather` | src/lib.rs:107-112 | over any run of failed requests, the weather and the last success instant never change |
| `WeatherPoll.FailuresGoStale` | src/lib.rs:73-124 | while requests keep failing, each tick shows the held weather up to 3 intervals after the last success and nothing afterwards |
| `WeatherPoll.InitialFailureShowsNothing` | src/lib.rs:77-86 | if the initial request fails, nothing is shown until a request succeeds, although the success instant starts at start-up |
| `WeatherPoll.SuccessShowsFreshWeather` | src/lib.rs:100-106 | a due request that succeeds makes that same tick show the new weather |
| `WeatherPoll.ShownAfterPrefix` | src/lib.rs:88-124 | on tick `k` the display gets the staleness decision, taken at that tick's instant, on the state left by refreshing on ticks `0..k` |
| `WeatherPoll.RunLoop.constructor` | src/lib.rs:77-86 | the loop variables start as `Start` says; with the two start-up clock reads taken as one instant, the last success is no later than the last attempt |
| `WeatherPoll.RunLoop.Step` | src/lib.rs:89-124 | one iteration updates the three variables as `Refresh` does and hands the display `ShownWeather` of the new state, keeping the last success no later than the last attempt |
| `WeatherPoll.Run` | src/lib.rs:69-128 | the loop, run over a finite list of ticks, hands the display the weather sequence `Shown` describes |
| `MainLoop.Startup` | src/main.rs:49-53 | a failed initial request stops the program; otherwise both instants are the start time and the weather is the response |
| `MainLoop.MainRefresh` | src/main.rs:56-80 | a request only after strictly more than 600 s since the last attempt; the attempt instant is recorded whatever the outcome; on success the success instant equals it and the weather is replaced; on failure both are kept |
| `MainLoop.MainRefreshAgreesWithRun` | src/main.rs:58-79 | the older loop's refresh equals the newer loop's refresh with a 600 s polling interval |
| `MainLoop.FailuresKeepShowingWeather` | src/main.rs:74-82 | while requests keep failing, every tick uses the previous weather |
| `MainLoop.MainShownAfterPrefix` | src/main.rs:55-82 | tick `k` uses the weather of the state left by refreshing on ticks `0..k` |
| `MainLoop.RunMain` | src/main.rs:49-91 | the process stops at start-up exactly when the initial request fails; otherwise each tick uses the weather `MainShown` describes, and the run stops with a panic exactly at the first tick whose weather has no description, before that tick is displayed |
| `Display.TruncateToCharacters` | src/display.rs:689-695 | the slice panics (`None`) exactly when the string is longer than the limit and the limit is below 2 |
| `Display.TruncateShape` | src/display.rs:689-695 | a string within the limit is kept; a longer one becomes exactly `length` characters: its first character, `'`, then its last `length-2` characters |
| `Display.TruncateFits` | src/main.rs:372-378 | the result is as long as the input when the input fits, and exactly `length` characters otherwise |
| `Display.TruncateExamples` | src/main.rs:384-394 | "abcd",3 gives "a'd"; "abcdefg",5 gives "a'efg"; "Thunderstorm",7 gives "T'storm"; short strings and "Tornado",7 are unchanged |
| `Display.SplitTime` | src/display.rs:676-687 | four values, each a decimal digit below 10 |
| `Display.SplitTimeDigits` | src/display.rs:676-687 | for hour < 24 and minute < 60, the first two digits make the hour and the last two the minute |
| `Display.SplitTimeExamples` | src/display.rs:713-732 | 01:03, 00:00, 12:34 and 23:59 give [0,1,0,3], [0,0,0,0], [1,2,3,4] and [2,3,5,9] |
| `Display.ConsoleTimeStr` | src/display.rs:142-145 | the time text is always 5 characters: two digits, `:`, two digits |
| `Display.ConsoleTimeStrRoundTrip` | src/display.rs:142-145 | reading the hour and minute back from the text gives the clock time that produced it |
| `Display.PadLeft` | src/display.rs:166-169 | a right-aligned field is as wide as the width, or as the text when that is longer (never cut) |
| `Display.PadLeftShape` | src/display.rs:166-169 | a right-aligned field ends with the whole text and starts with spaces only |
| `Display.NoWeatherStrs` | src/display.rs:166-169 | without weather, "WEATHER" is right-aligned to `weather_chars` and "ERR" to `temp_digits+2`, padded with spaces on the left and each kept whole even when wider than its field |
| `Display.WeatherDescStr` | src/display.rs:153-158 | the description field is exactly `weather_chars` wide; a description that fits is padded with spaces on the left, and a longer one becomes its first character, `'`, then its last `weather_chars-2` characters; it panics only when the response has no description, or the description is too long for a width below 2 |
| `Display.PrintSpec` | src/display.rs:59-87 | a display prints its devices in order up to and including the first failing one; the result is that device's error, and `Ok` exactly when no device fails, in which case every device printed |
| `Display.PrintAll` | src/display.rs:80-85 | the same guarantee for the list of sub-displays of a composite, printed in order with an exit at the first error |
| `Display.Print` | src/display.rs:59-87 | the recursive print with its early-exit loop calls exactly the devices, and returns exactly the result, that `PrintSpec` describes |

## Left out

- Hardware displays (HD44780, ILI9341, AlphaNum4, SevenSegment4), their
  `set_brightness` and PWM maths: these are foreign device calls and floating
  point. A device in `Display.DisplayTree` is only a number, and its `print`
  either succeeds or fails.
- The console displays' own `print` bodies, `console_date_str` and
  `mmm_from_time`: these are `println!` output over wall-clock dates.
- The `Some` branch temperature text of `console_weather_and_temp_str`
  (`temp.round()` of an `f32`): this is floating-point formatting. Only the
  description half of that branch is modelled (`Display.WeatherDescStr`).
- `Light.TimeBasedBrightness`: uses exact reals where the source uses `f32`, so
  rounding in `progress * (MAX_LUX - MIN_LUX) + MIN_LUX` and in the division is
  not modelled.
- `Light.TimeOfDay`: leap-second times of chrono's `NaiveTime` (fractions of a
  second of 1 s or more) are not represented.
- The random and VEML7700 light sensors and the `LightSensorType` dispatch: they
  use an RNG, a mutex and an I2C device.
- `get_weather` (HTTP via ureq and serde_json decoding): a request is only its
  outcome, `WeatherTypes.FetchOutcome`. The response keeps only the fields the
  clock reads (`weather[..].main`, `main.temp`).
- The error wrappers in src/weather/error.rs, src/display/error.rs and
  src/light/error.rs: they are conversions without logic.
- src/config.rs: its fields are parameters (`pollingInterval`, the state
  duration).
- `Local::now()`, `Instant::now()` and `thread::sleep`: times are parameters,
  and each loop iteration takes its instant from the tick list.
- `WeatherPoll.Start` and `MainLoop.Startup`: the source reads the clock twice
  at start-up, first for the last attempt and then for the last success
  (src/lib.rs:77-78, src/main.rs:49-50). The model takes both as one instant
  `start`. It therefore does not capture that the first staleness deadline
  moves by the gap between the two reads. `WeatherPoll.Consistent` (success
  no later than attempt) holds at start-up only because of this merge.
- `WeatherPoll.Run`: the display call's error exit (`?`) and the sleep are not
  modelled. The endless loop is modelled over a finite list of ticks.
- `MainLoop.RunMain`: the row formatting and printing inside the loop are not
  modelled, only the weather each iteration uses and the `weather[0]` panic.
  The loop is finite, as in `Run`.
- `WeatherPoll.DurationSince`: follows the saturating `Instant::duration_since`
  of current Rust. Older Rust panicked when the clock went backwards, which a
  monotonic clock never does.
- Overflow of `Instant + Duration` in the staleness test is not modelled.
- `Rotation.StateMachine.constructor`: requires `duration * count` to fit a
  `u32`, as the source's `u32` arithmetic does. Overflow is not modelled.
- `Rotation.StateMachine.CurrentState`: takes the second of the minute as a
  parameter instead of reading `Local::now()`.
- `Display.TruncateToCharacters`: one character stands for one byte. Slicing a
  multi-byte UTF-8 description off a character boundary panics in the source,
  and that case is not modelled.
- The copy of `truncate_to_characters` in src/main.rs:372-378 is the same code
  as the one in src/display.rs:689-695. It is modelled once by
  `Display.TruncateToCharacters`.
- The commented-out code in src/main.rs, the ARM `main`, and environment and
  argument parsing: these are not core logic.
