/** The text helpers of src/display.rs shared by the console displays, and
    the fan-out of a composite display. A string is a sequence of
    characters, each standing for one byte (weather descriptions are
    ASCII). */
module Display {
  import opened Wrappers
  import opened WeatherTypes

  /** `truncate_to_characters`: a string longer than `length` becomes its
      first character, an apostrophe and its last `length - 2` characters.
      `None` is the out-of-range slice panic when `length < 2`. */
  function TruncateToCharacters(s: string, length: nat): (r: Option<string>)
    ensures r.None? <==> |s| > length && length < 2
  {
    if |s| <= length then Some(s)
    else if |s| - length + 2 > |s| then None
    else Some(s[0..1] + "'" + s[|s| - length + 2..|s|])
  }

  /** Short strings are kept; longer ones become exactly `length`
      characters: the first one, an apostrophe, then the tail. */
  lemma TruncateShape(s: string, length: nat)
    requires |s| <= length || length >= 2
    ensures TruncateToCharacters(s, length).Some?
    ensures |s| <= length ==> TruncateToCharacters(s, length).value == s
    ensures |s| > length ==>
      var r := TruncateToCharacters(s, length).value;
      && |r| == length
      && r[0] == s[0] && r[1] == '\''
      && r[2..] == s[|s| - (length - 2)..]
  {
  }

  /** The truncated string never exceeds the limit. */
  lemma TruncateFits(s: string, length: nat)
    requires TruncateToCharacters(s, length).Some?
    ensures |TruncateToCharacters(s, length).value| == if |s| <= length then |s| else length
  {
  }

  /** The examples the source's tests check, in both copies of the helper. */
  lemma TruncateExamples()
    ensures TruncateToCharacters("", 3) == Some("")
    ensures TruncateToCharacters("a", 3) == Some("a")
    ensures TruncateToCharacters("ab", 3) == Some("ab")
    ensures TruncateToCharacters("abc", 3) == Some("abc")
    ensures TruncateToCharacters("abcd", 3) == Some("a'd")
    ensures TruncateToCharacters("abcdefg", 5) == Some("a'efg")
    ensures TruncateToCharacters("Tornado", 7) == Some("Tornado")
    ensures TruncateToCharacters("Thunderstorm", 7) == Some("T'storm")
  {
    assert "abcd"[0..1] + "'" + "abcd"[3..4] == "a'd";
    assert "abcdefg"[0..1] + "'" + "abcdefg"[4..7] == "a'efg";
    assert "Thunderstorm"[0..1] + "'" + "Thunderstorm"[7..12] == "T'storm";
  }

  /** `u8` of the `as u8` casts: the value modulo 256. */
  function AsU8(n: nat): (b: nat)
    ensures b < 256
  {
    n % 256
  }

  /** `split_time`: the hour and minute as four decimal digits. The result
      is always `Ok` in the source, so only its value is modelled. */
  function SplitTime(hour: nat, minute: nat): (digits: seq<nat>)
    ensures |digits| == 4
    ensures forall k :: 0 <= k < 4 ==> digits[k] < 10
  {
    var d4 := AsU8(minute % 10);
    var d3 := AsU8(minute / 10) % 10;
    var d2 := AsU8(hour % 10);
    var d1 := AsU8(hour / 10) % 10;
    [d1, d2, d3, d4]
  }

  /** For a clock time the digits give the hour and the minute back. */
  lemma SplitTimeDigits(hour: nat, minute: nat)
    requires hour < 24 && minute < 60
    ensures SplitTime(hour, minute)[0] * 10 + SplitTime(hour, minute)[1] == hour
    ensures SplitTime(hour, minute)[2] * 10 + SplitTime(hour, minute)[3] == minute
  {
  }

  /** The examples the source's tests check. */
  lemma SplitTimeExamples()
    ensures SplitTime(1, 3) == [0, 1, 0, 3]
    ensures SplitTime(0, 0) == [0, 0, 0, 0]
    ensures SplitTime(12, 34) == [1, 2, 3, 4]
    ensures SplitTime(23, 59) == [2, 3, 5, 9]
  {
  }

  function DigitChar(d: nat): (c: char)
    requires d < 10
    ensures '0' <= c <= '9'
  {
    ('0' as int + d) as char
  }

  function CharDigit(c: char): nat
    requires '0' <= c <= '9'
  {
    c as int - '0' as int
  }

  /** `console_time_str`: "HH:MM" from the four digits of `split_time`. */
  function ConsoleTimeStr(hour: nat, minute: nat): (s: string)
    ensures |s| == 5 && s[2] == ':'
    ensures forall k :: 0 <= k < 5 && k != 2 ==> '0' <= s[k] <= '9'
  {
    var st := SplitTime(hour, minute);
    [DigitChar(st[0]), DigitChar(st[1]), ':', DigitChar(st[2]), DigitChar(st[3])]
  }

  /** Reading the time back from the text: the inverse of `ConsoleTimeStr`. */
  function ParseTimeStr(s: string): (hm: (nat, nat))
    requires |s| == 5
    requires forall k :: 0 <= k < 5 && k != 2 ==> '0' <= s[k] <= '9'
  {
    (CharDigit(s[0]) * 10 + CharDigit(s[1]), CharDigit(s[3]) * 10 + CharDigit(s[4]))
  }

  /** The time text of a clock time reads back as that time. */
  lemma ConsoleTimeStrRoundTrip(hour: nat, minute: nat)
    requires hour < 24 && minute < 60
    ensures ParseTimeStr(ConsoleTimeStr(hour, minute)) == (hour, minute)
  {
    SplitTimeDigits(hour, minute);
  }

  function Spaces(n: nat): (s: string)
    ensures |s| == n && forall k :: 0 <= k < n ==> s[k] == ' '
  {
    seq(n, _ => ' ')
  }

  /** Rust's `{:>width$}`: right-aligned in a field of `width` characters,
      padded with spaces on the left and never cut. */
  function PadLeft(s: string, width: nat): (r: string)
    ensures |r| == if |s| >= width then |s| else width
  {
    if |s| >= width then s else Spaces(width - |s|) + s
  }

  /** A right-aligned field ends with the text and starts with spaces only. */
  lemma PadLeftShape(s: string, width: nat)
    ensures var r := PadLeft(s, width);
      && r[|r| - |s|..] == s
      && forall k :: 0 <= k < |r| - |s| ==> r[k] == ' '
  {
  }

  /** The `None` branch of `console_weather_and_temp_str`: "WEATHER" and
      "ERR" right-aligned to `weather_chars` and `temp_digits + 2`. Both
      fields are filled to their width with spaces on the left and keep
      their whole text, even when the width is smaller than the text. */
  function NoWeatherStrs(tempDigits: nat, weatherChars: nat): (r: (string, string))
    ensures |r.0| == (if weatherChars >= 7 then weatherChars else 7)
    ensures r.0[|r.0| - 7..] == "WEATHER"
    ensures forall k :: 0 <= k < |r.0| - 7 ==> r.0[k] == ' '
    ensures |r.1| == (if tempDigits + 2 >= 3 then tempDigits + 2 else 3)
    ensures r.1[|r.1| - 3..] == "ERR"
    ensures forall k :: 0 <= k < |r.1| - 3 ==> r.1[k] == ' '
  {
    PadLeftShape("WEATHER", weatherChars);
    PadLeftShape("ERR", tempDigits + 2);
    (PadLeft("WEATHER", weatherChars), PadLeft("ERR", tempDigits + 2))
  }

  /** The description half of the `Some` branch: the first weather
      description, truncated and right-aligned to `weather_chars`. A
      description that fits is padded with spaces on the left; a longer one
      becomes its first character, an apostrophe and its last
      `weather_chars - 2` characters. `None` is a panic: no description in
      the response, or a width below 2 that the truncation cannot meet. */
  function WeatherDescStr(w: OpenWeather, weatherChars: nat): (r: Option<string>)
    ensures r.Some? ==> |r.value| == weatherChars
    ensures r.None? <==> |w.weather| == 0 || (|w.weather[0].main| > weatherChars && weatherChars < 2)
    ensures r.Some? && |w.weather[0].main| <= weatherChars ==>
      var main := w.weather[0].main;
      r.value == Spaces(weatherChars - |main|) + main
    ensures r.Some? && |w.weather[0].main| > weatherChars ==>
      var main := w.weather[0].main;
      && r.value[0] == main[0] && r.value[1] == '\''
      && r.value[2..] == main[|main| - (weatherChars - 2)..]
  {
    if |w.weather| == 0 then None
    else
      match TruncateToCharacters(w.weather[0].main, weatherChars)
      case None => None
      case Some(t) =>
        TruncateShape(w.weather[0].main, weatherChars);
        Some(PadLeft(t, weatherChars))
  }

  /** A display: one device, or `DisplayType::Composite` over a slice of
      sub-displays, which may themselves be composite. Devices are named by
      a number; what a device prints is not modelled, only whether its
      `print` fails. */
  datatype DisplayTree = Device(id: nat) | Composite(parts: seq<DisplayTree>)

  datatype PrintResult = Printed | PrintFailed(device: nat)

  /** The devices of a display, in the order `print` visits them. */
  function Devices(d: DisplayTree): seq<nat>
    decreases d, 1
  {
    match d
    case Device(id) => [id]
    case Composite(parts) => DevicesOf(parts)
  }

  function DevicesOf(ds: seq<DisplayTree>): seq<nat>
    decreases ds, 0
  {
    if ds == [] then [] else Devices(ds[0]) + DevicesOf(ds[1..])
  }

  /** What a print promises: the devices printed are the display's devices
      up to and including the first failing one; the result is that
      device's error, and `Printed` exactly when no device fails, in which
      case every device was printed. */
  ghost predicate StopsAtFirstError(printed: seq<nat>, r: PrintResult, all: seq<nat>, failing: set<nat>)
  {
    && |printed| <= |all| && printed == all[..|printed|]
    && (forall k :: 0 <= k < |printed| - 1 ==> printed[k] !in failing)
    && (r.Printed? <==> forall k :: 0 <= k < |all| ==> all[k] !in failing)
    && (r.Printed? ==> printed == all)
    && (r.PrintFailed? ==> |printed| > 0 && printed[|printed| - 1] == r.device && r.device in failing)
  }

  /** The model of `print` on one display: the devices whose `print` was
      called, and the outcome. `failing` holds the devices whose `print`
      returns an error. A display prints its devices in order and stops at
      the first error. */
  function PrintSpec(d: DisplayTree, failing: set<nat>): (r: (seq<nat>, PrintResult))
    ensures StopsAtFirstError(r.0, r.1, Devices(d), failing)
    decreases d, 1
  {
    match d
    case Device(id) => ([id], if id in failing then PrintFailed(id) else Printed)
    case Composite(parts) => PrintAll(parts, failing)
  }

  /** Printing a list of displays in order, leaving at the first error as
      `?` does: the devices of the list are printed in order up to the
      first failing one. */
  function PrintAll(ds: seq<DisplayTree>, failing: set<nat>): (r: (seq<nat>, PrintResult))
    ensures StopsAtFirstError(r.0, r.1, DevicesOf(ds), failing)
    decreases ds, 0
  {
    if ds == [] then ([], Printed)
    else
      var head := PrintSpec(ds[0], failing);
      if head.1.PrintFailed? then
        StopsAfterFailure(head.0, head.1, Devices(ds[0]), DevicesOf(ds[1..]), failing);
        head
      else
        var rest := PrintAll(ds[1..], failing);
        StopsAfterSuccess(head.0, Devices(ds[0]), rest.0, rest.1, DevicesOf(ds[1..]), failing);
        (head.0 + rest.0, rest.1)
  }

  /** A failure in the first display ends the print, whatever follows. */
  lemma StopsAfterFailure(hp: seq<nat>, hr: PrintResult, hall: seq<nat>, rall: seq<nat>, failing: set<nat>)
    requires StopsAtFirstError(hp, hr, hall, failing) && hr.PrintFailed?
    ensures StopsAtFirstError(hp, hr, hall + rall, failing)
  {
    var all := hall + rall;
    assert hp == all[..|hp|];
    assert all[|hp| - 1] == hp[|hp| - 1];
  }

  /** After a first display that printed every device, the rest of the
      list carries on from where it stopped. */
  lemma StopsAfterSuccess(hp: seq<nat>, hall: seq<nat>, rp: seq<nat>, rr: PrintResult, rall: seq<nat>,
                          failing: set<nat>)
    requires StopsAtFirstError(hp, Printed, hall, failing)
    requires StopsAtFirstError(rp, rr, rall, failing)
    ensures StopsAtFirstError(hp + rp, rr, hall + rall, failing)
  {
    var all := hall + rall;
    var printed := hp + rp;
    assert printed == all[..|printed|];
    forall k | 0 <= k < |printed| - 1
      ensures printed[k] !in failing
    {
      if k >= |hp| {
        assert printed[k] == rp[k - |hp|];
      }
    }
    if rr.PrintFailed? {
      assert all[|printed| - 1] == printed[|printed| - 1];
      assert printed[|printed| - 1] == rp[|rp| - 1];
    } else {
      forall k | 0 <= k < |all| ensures all[k] !in failing {
        if k >= |hall| {
          assert all[k] == rall[k - |hall|];
        }
      }
    }
  }

  /** `DisplayType::print`: a device prints (or fails); a composite prints
      its sub-displays in order and returns the first error. */
  method Print(d: DisplayTree, failing: set<nat>) returns (printed: seq<nat>, r: PrintResult)
    ensures (printed, r) == PrintSpec(d, failing)
    decreases d
  {
    match d
    case Device(id) =>
      printed := [id];
      r := if id in failing then PrintFailed(id) else Printed;
    case Composite(parts) =>
      printed := [];
      var i := 0;
      assert parts[0..] == parts;
      assert printed + PrintAll(parts[0..], failing).0 == PrintAll(parts, failing).0;
      while i < |parts|
        invariant i <= |parts|
        invariant PrintAll(parts, failing) == (printed + PrintAll(parts[i..], failing).0, PrintAll(parts[i..], failing).1)
      {
        var p, pr := Print(parts[i], failing);
        assert parts[i..][0] == parts[i];
        assert parts[i..][1..] == parts[i + 1..];
        ghost var rest := PrintAll(parts[i + 1..], failing);
        ghost var before := printed;
        printed := printed + p;
        if pr.PrintFailed? {
          r := pr;
          return;
        }
        assert PrintAll(parts[i..], failing) == (p + rest.0, rest.1);
        assert before + (p + rest.0) == printed + rest.0;
        i := i + 1;
      }
      assert parts[i..] == [];
      assert printed + [] == printed;
      r := Printed;
  }
}
