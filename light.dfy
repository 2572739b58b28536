/** The light model of src/light.rs: rescaling a lux reading to [0, 1]
    and the synthetic, clock-driven brightness curve used by the time
    light sensor. A time of day is a count of nanoseconds since midnight,
    the resolution of chrono's `NaiveTime`; lux and brightness values are
    reals (the source uses `f32`). */
module Light {
  import opened Wrappers

  const MaxLux: real := 50.0
  const MinLux: real := 1.0

  const NanosPerSecond: nat := 1_000_000_000
  const SecondsPerHour: nat := 3600
  const NanosPerDay: nat := 24 * SecondsPerHour * NanosPerSecond

  /** A `NaiveTime` without leap seconds. */
  type TimeOfDay = t: nat | t < NanosPerDay

  function Hms(h: nat, m: nat, s: nat): nat
  {
    ((h * 60 + m) * 60 + s) * NanosPerSecond
  }

  const MaxLuxStartTime: TimeOfDay := Hms(8, 0, 0)
  const MaxLuxEndTime: TimeOfDay := Hms(19, 0, 0)
  /** Must be before midnight. */
  const MinLuxStartTime: TimeOfDay := Hms(23, 0, 0)
  /** Must be after midnight. */
  const MinLuxEndTime: TimeOfDay := Hms(7, 0, 0)

  const Midnight: TimeOfDay := 0

  /** `NaiveTime - Duration`: the clock wraps around at midnight. */
  function SubNanos(t: TimeOfDay, d: nat): (r: TimeOfDay)
    ensures (r + d - t) % NanosPerDay == 0
  {
    (t - d) % NanosPerDay
  }

  /** The last representable instant of the day, `midnight - 1ns`. */
  const LastNano: TimeOfDay := SubNanos(Midnight, 1)

  /** `Range::contains` on the half-open range `start..end`. */
  predicate InRange(start: TimeOfDay, end: TimeOfDay, t: TimeOfDay)
  {
    start <= t < end
  }

  /** `Duration::num_seconds`: whole seconds, truncated toward zero. */
  function NumSeconds(nanos: int): (s: int)
    ensures nanos >= 0 ==> 0 <= s * NanosPerSecond <= nanos < (s + 1) * NanosPerSecond
    ensures nanos <= 0 ==> (s - 1) * NanosPerSecond < nanos <= s * NanosPerSecond <= 0
  {
    if nanos >= 0 then nanos / NanosPerSecond else -((-nanos) / NanosPerSecond)
  }

  /** `normalize_lux`: clamp into [MinLux, MaxLux], then rescale to [0, 1]. */
  function NormalizeLux(lux: real): (r: real)
    ensures 0.0 <= r <= 1.0
    ensures lux <= MinLux ==> r == 0.0
    ensures lux >= MaxLux ==> r == 1.0
    ensures MinLux <= lux <= MaxLux ==> r * (MaxLux - MinLux) == lux - MinLux
  {
    var truncated := Max(Min(lux, MaxLux), MinLux);
    (truncated - MinLux) / (MaxLux - MinLux)
  }

  function Min(a: real, b: real): real { if a <= b then a else b }
  function Max(a: real, b: real): real { if a >= b then a else b }

  /** The inverse of `NormalizeLux` on [0, 1]: a ramp's progress turned back
      into lux, as `progress * (MAX_LUX - MIN_LUX) + MIN_LUX` does. */
  function ProgressToLux(progress: real): real
  {
    progress * (MaxLux - MinLux) + MinLux
  }

  /** Out-of-range readings are first clamped to the nearest bound. */
  lemma NormalizeLuxClamps(lux: real)
    ensures lux < MinLux ==> NormalizeLux(lux) == NormalizeLux(MinLux)
    ensures lux > MaxLux ==> NormalizeLux(lux) == NormalizeLux(MaxLux)
  {
  }

  /** Rescaling a progress value in [0, 1] to lux and normalising it again
      gives the progress back. */
  lemma NormalizeProgressToLux(p: real)
    requires 0.0 <= p <= 1.0
    ensures NormalizeLux(ProgressToLux(p)) == p
  {
  }

  /** Normalising is idempotent under re-scaling: mapping a normalised value
      back to lux and normalising again changes nothing. */
  lemma NormalizeLuxIdempotent(lux: real)
    ensures NormalizeLux(ProgressToLux(NormalizeLux(lux))) == NormalizeLux(lux)
  {
    NormalizeProgressToLux(NormalizeLux(lux));
  }

  /** A brighter reading never normalises to a dimmer value. */
  lemma NormalizeLuxMonotonic(a: real, b: real)
    requires a <= b
    ensures NormalizeLux(a) <= NormalizeLux(b)
  {
  }

  /** The share `part / (part + rest)` of a ramp, in [0, 1]. */
  function Share(part: nat, rest: nat): (r: real)
    requires part + rest > 0
    ensures 0.0 <= r <= 1.0
    ensures r == 1.0 <==> rest == 0
    ensures r == 0.0 <==> part == 0
  {
    part as real / (part + rest) as real
  }

  /** Progress through the 19:00-23:00 ramp, in whole seconds: the share of
      the ramp still to go. */
  function EveningProgress(t: TimeOfDay): real
    requires InRange(MaxLuxEndTime, MinLuxStartTime, t)
  {
    RampDenominatorPositive(t);
    var sinceFullBright := NumSeconds(t - MaxLuxEndTime);
    var untilFullDark := NumSeconds(MinLuxStartTime - t);
    Share(untilFullDark, sinceFullBright)
  }

  /** Progress through the 07:00-08:00 ramp, in whole seconds: the share of
      the ramp already done. */
  function MorningProgress(t: TimeOfDay): real
    requires InRange(MinLuxEndTime, MaxLuxStartTime, t)
  {
    RampDenominatorPositive(t);
    var sinceFullDark := NumSeconds(t - MinLuxEndTime);
    var untilFullBright := NumSeconds(MaxLuxStartTime - t);
    Share(sinceFullDark, untilFullBright)
  }

  datatype BrightnessError = BadTimeBounds

  /** `time_based_brightness_for_time`: the five half-open ranges of the day
      plus the special case for the last nanosecond before midnight; `Err`
      stands for the final `panic!`, which no time of day reaches. */
  function TimeBasedBrightness(t: TimeOfDay): (r: Result<real, BrightnessError>)
    ensures r.Ok? && 0.0 <= r.value <= 1.0
  {
    if t == LastNano then Ok(0.0)
    else if InRange(MaxLuxStartTime, MaxLuxEndTime, t) then Ok(1.0)
    else if InRange(MinLuxStartTime, LastNano, t) || InRange(Midnight, MinLuxEndTime, t) then Ok(0.0)
    else if InRange(MaxLuxEndTime, MinLuxStartTime, t) then
      Ok(NormalizeLux(ProgressToLux(EveningProgress(t))))
    else if InRange(MinLuxEndTime, MaxLuxStartTime, t) then
      Ok(NormalizeLux(ProgressToLux(MorningProgress(t))))
    else Err(BadTimeBounds)
  }

  /** `TimeLightSensor::read_light_normalized` with the wall clock passed in:
      always a value between 0 and 1. */
  function TimeSensorReading(t: TimeOfDay): (r: Result<real, BrightnessError>)
    ensures r.Ok? && 0.0 <= r.value <= 1.0
  {
    TimeBasedBrightness(t)
  }

  /** On either ramp the whole-second denominator is the ramp length in
      seconds, or one less when both offsets lost a fraction, and never 0. */
  lemma RampDenominatorPositive(t: TimeOfDay)
    ensures InRange(MaxLuxEndTime, MinLuxStartTime, t) ==>
      var d := NumSeconds(t - MaxLuxEndTime) + NumSeconds(MinLuxStartTime - t);
      NumSeconds(t - MaxLuxEndTime) >= 0 && NumSeconds(MinLuxStartTime - t) >= 0 &&
      4 * SecondsPerHour - 1 <= d <= 4 * SecondsPerHour
    ensures InRange(MinLuxEndTime, MaxLuxStartTime, t) ==>
      var d := NumSeconds(t - MinLuxEndTime) + NumSeconds(MaxLuxStartTime - t);
      NumSeconds(t - MinLuxEndTime) >= 0 && NumSeconds(MaxLuxStartTime - t) >= 0 &&
      SecondsPerHour - 1 <= d <= SecondsPerHour
  {
  }

  /** Which of the source's cases a time of day falls in: the five ranges
      and the special-cased last nanosecond. */
  function CaseCount(t: TimeOfDay): nat
  {
    (if t == LastNano then 1 else 0)
    + (if InRange(MaxLuxStartTime, MaxLuxEndTime, t) then 1 else 0)
    + (if InRange(MaxLuxEndTime, MinLuxStartTime, t) then 1 else 0)
    + (if InRange(MinLuxStartTime, LastNano, t) then 1 else 0)
    + (if InRange(Midnight, MinLuxEndTime, t) then 1 else 0)
    + (if InRange(MinLuxEndTime, MaxLuxStartTime, t) then 1 else 0)
  }

  /** The five ranges and the special case cover every time of day exactly
      once, so the `panic!` at the end is unreachable. */
  lemma CasesPartitionDay(t: TimeOfDay)
    ensures CaseCount(t) == 1
  {
  }

  /** Full brightness from 08:00 (inclusive) to 19:00 (exclusive). */
  lemma FullBrightDuringDay(t: TimeOfDay)
    requires MaxLuxStartTime <= t < MaxLuxEndTime
    ensures TimeBasedBrightness(t) == Ok(1.0)
  {
  }

  /** Full darkness from 23:00 to midnight, the last nanosecond of the day
      included, and from midnight to 07:00. */
  lemma FullDarkDuringNight(t: TimeOfDay)
    requires MinLuxStartTime <= t || t < MinLuxEndTime
    ensures TimeBasedBrightness(t) == Ok(0.0)
  {
  }

  /** On the 19:00-23:00 ramp the brightness is the share of whole seconds
      still to go until 23:00, a value in [0, 1]. */
  lemma EveningRampValue(t: TimeOfDay)
    requires MaxLuxEndTime <= t < MinLuxStartTime
    ensures 0.0 <= EveningProgress(t) <= 1.0
    ensures TimeBasedBrightness(t) == Ok(EveningProgress(t))
  {
    RampDenominatorPositive(t);
    NormalizeProgressToLux(EveningProgress(t));
  }

  /** On the 07:00-08:00 ramp the brightness is the share of whole seconds
      already gone since 07:00, a value in [0, 1]. */
  lemma MorningRampValue(t: TimeOfDay)
    requires MinLuxEndTime <= t < MaxLuxStartTime
    ensures 0.0 <= MorningProgress(t) <= 1.0
    ensures TimeBasedBrightness(t) == Ok(MorningProgress(t))
  {
    RampDenominatorPositive(t);
    NormalizeProgressToLux(MorningProgress(t));
  }

  /** A larger part and a smaller rest never give a smaller share. */
  lemma ShareMonotonic(p1: nat, r1: nat, p2: nat, r2: nat)
    requires p1 + r1 > 0 && p2 + r2 > 0
    requires p1 <= p2 && r1 >= r2
    ensures Share(p1, r1) <= Share(p2, r2)
  {
    var x1, x2 := p1 as real, p2 as real;
    var d1, d2 := (p1 + r1) as real, (p2 + r2) as real;
    // x1 * d2 == x1 * x2 + x1 * r2 <= x2 * x1 + x2 * r1 == x2 * d1
    ScaleNonNegative(r1 as real - r2 as real, x2);
    ScaleNonNegative(x2 - x1, r2 as real);
    CrossMultipliedLe(x1, d1, x2, d2);
  }

  /** Comparing two fractions by cross-multiplying their positive
      denominators. */
  lemma CrossMultipliedLe(x1: real, d1: real, x2: real, d2: real)
    requires d1 > 0.0 && d2 > 0.0
    requires x1 * d2 <= x2 * d1
    ensures x1 / d1 <= x2 / d2
  {
    var a, b := x1 / d1, x2 / d2;
    QuotientTimesDivisor(x1, d1);
    QuotientTimesDivisor(x2, d2);
    assert (a - b) * (d1 * d2) == x1 * d2 - x2 * d1;
    PositiveProduct(d1, d2);
    NonPositiveFactor(a - b, d1 * d2);
  }

  /** Dividing and multiplying back by the same non-zero real is the
      identity. */
  lemma QuotientTimesDivisor(x: real, d: real)
    requires d != 0.0
    ensures (x / d) * d == x
  {
  }

  lemma PositiveProduct(a: real, b: real)
    requires a > 0.0 && b > 0.0
    ensures a * b > 0.0
  {
  }

  lemma ScaleNonNegative(a: real, b: real)
    requires a >= 0.0 && b >= 0.0
    ensures a * b >= 0.0
  {
  }

  /** A product with a positive factor that is not positive has a
      non-positive other factor. */
  lemma NonPositiveFactor(e: real, k: real)
    requires k > 0.0 && e * k <= 0.0
    ensures e <= 0.0
  {
    if e > 0.0 {
      PositiveProduct(e, k);
    }
  }

  /** The evening ramp only ever dims: a later time is never brighter. */
  lemma EveningRampDims(t1: TimeOfDay, t2: TimeOfDay)
    requires MaxLuxEndTime <= t1 <= t2 < MinLuxStartTime
    ensures TimeBasedBrightness(t1).value >= TimeBasedBrightness(t2).value
  {
    EveningRampValue(t1);
    EveningRampValue(t2);
    RampDenominatorPositive(t1);
    RampDenominatorPositive(t2);
    NumSecondsMonotonic(t1 - MaxLuxEndTime, t2 - MaxLuxEndTime);
    NumSecondsMonotonic(MinLuxStartTime - t2, MinLuxStartTime - t1);
    ShareMonotonic(NumSeconds(MinLuxStartTime - t2), NumSeconds(t2 - MaxLuxEndTime),
                   NumSeconds(MinLuxStartTime - t1), NumSeconds(t1 - MaxLuxEndTime));
  }

  /** The morning ramp only ever brightens: a later time is never dimmer. */
  lemma MorningRampBrightens(t1: TimeOfDay, t2: TimeOfDay)
    requires MinLuxEndTime <= t1 <= t2 < MaxLuxStartTime
    ensures TimeBasedBrightness(t1).value <= TimeBasedBrightness(t2).value
  {
    MorningRampValue(t1);
    MorningRampValue(t2);
    RampDenominatorPositive(t1);
    RampDenominatorPositive(t2);
    NumSecondsMonotonic(t1 - MinLuxEndTime, t2 - MinLuxEndTime);
    NumSecondsMonotonic(MaxLuxStartTime - t2, MaxLuxStartTime - t1);
    ShareMonotonic(NumSeconds(t1 - MinLuxEndTime), NumSeconds(MaxLuxStartTime - t1),
                   NumSeconds(t2 - MinLuxEndTime), NumSeconds(MaxLuxStartTime - t2));
  }

  lemma NumSecondsMonotonic(a: nat, b: nat)
    requires a <= b
    ensures 0 <= NumSeconds(a) <= NumSeconds(b)
  {
  }

  /** The evening points the source's tests check: 19:00, the quarter,
      half and three-quarter points of the ramp, and the millisecond offsets
      that whole-second truncation rounds to the neighbouring plateau. */
  lemma EveningTestPoints()
    ensures TimeBasedBrightness(MaxLuxEndTime) == Ok(1.0)
    ensures TimeBasedBrightness(MaxLuxEndTime + Millisecond) == Ok(1.0)
    ensures TimeBasedBrightness(Hms(20, 0, 0)) == Ok(0.75)
    ensures TimeBasedBrightness(Hms(21, 0, 0)) == Ok(0.5)
    ensures TimeBasedBrightness(Hms(22, 0, 0)) == Ok(0.25)
    ensures TimeBasedBrightness(MinLuxStartTime - Millisecond) == Ok(0.0)
  {
    EveningPoint(MaxLuxEndTime, 0, 14400);
    EveningPoint(MaxLuxEndTime + Millisecond, 0, 14399);
    EveningPoint(Hms(20, 0, 0), 3600, 10800);
    EveningPoint(Hms(21, 0, 0), 7200, 7200);
    EveningPoint(Hms(22, 0, 0), 10800, 3600);
    EveningPoint(MinLuxStartTime - Millisecond, 14399, 0);
  }

  /** The morning points the source's tests check: 07:00, the quarter,
      half and three-quarter points of the ramp, and the millisecond
      offsets next to either end. */
  lemma MorningTestPoints()
    ensures TimeBasedBrightness(MinLuxEndTime) == Ok(0.0)
    ensures TimeBasedBrightness(MinLuxEndTime + Millisecond) == Ok(0.0)
    ensures TimeBasedBrightness(Hms(7, 15, 0)) == Ok(0.25)
    ensures TimeBasedBrightness(Hms(7, 30, 0)) == Ok(0.5)
    ensures TimeBasedBrightness(Hms(7, 45, 0)) == Ok(0.75)
    ensures TimeBasedBrightness(MaxLuxStartTime - Millisecond) == Ok(1.0)
  {
    MorningPoint(MinLuxEndTime, 0, 3600);
    MorningPoint(MinLuxEndTime + Millisecond, 0, 3599);
    MorningPoint(Hms(7, 15, 0), 900, 2700);
    MorningPoint(Hms(7, 30, 0), 1800, 1800);
    MorningPoint(Hms(7, 45, 0), 2700, 900);
    MorningPoint(MaxLuxStartTime - Millisecond, 3599, 0);
  }

  const Millisecond: nat := NanosPerSecond / 1000

  lemma EveningPoint(t: TimeOfDay, since: nat, until: nat)
    requires MaxLuxEndTime <= t < MinLuxStartTime
    requires NumSeconds(t - MaxLuxEndTime) == since && NumSeconds(MinLuxStartTime - t) == until
    ensures TimeBasedBrightness(t) == Ok(Share(until, since))
  {
    EveningRampValue(t);
  }

  lemma MorningPoint(t: TimeOfDay, since: nat, until: nat)
    requires MinLuxEndTime <= t < MaxLuxStartTime
    requires NumSeconds(t - MinLuxEndTime) == since && NumSeconds(MaxLuxStartTime - t) == until
    ensures TimeBasedBrightness(t) == Ok(Share(since, until))
  {
    MorningRampValue(t);
  }
}
