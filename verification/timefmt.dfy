/** Durations are integer milliseconds (a `TimeSpan` without its sub-millisecond
    ticks). This module holds the two custom `TimeSpan` formats the program
    prints, `hh\:mm\:ss\.fff` and `mm\:ss`, and a reader for the first. */
module TimeFormat {
  import opened Basics
  import opened Strings
  import opened Numbers

  const MsPerSecond: int := 1000
  const MsPerMinute: int := 60_000
  const MsPerHour: int := 3_600_000
  const MsPerDay: int := 86_400_000

  /** `TimeSpan.Hours`, `.Minutes`, `.Seconds`, `.Milliseconds` of the
      absolute value, which is what a custom format prints (no sign, days
      dropped). */
  function HoursPart(ms: int): (h: nat)
    ensures h < 24
  {
    (Abs(ms) / MsPerHour) % 24
  }

  function MinutesPart(ms: int): (m: nat)
    ensures m < 60
  {
    (Abs(ms) / MsPerMinute) % 60
  }

  function SecondsPart(ms: int): (s: nat)
    ensures s < 60
  {
    (Abs(ms) / MsPerSecond) % 60
  }

  function MillisPart(ms: int): (f: nat)
    ensures f < 1000
  {
    Abs(ms) % MsPerSecond
  }

  lemma NatToStringShort(n: nat)
    ensures n < 10 ==> |NatToString(n)| == 1
    ensures n < 100 ==> |NatToString(n)| <= 2
    ensures n < 1000 ==> |NatToString(n)| <= 3
  {
    if n >= 10 && n < 1000 {
      NatToStringShort(n / 10);
    }
  }

  /** Two or three zero-padded digits. */
  function Fixed(n: nat, width: nat): (s: string)
    requires (width == 2 && n < 100) || (width == 3 && n < 1000)
    ensures |s| == width && AllDigits(s) && DigitsValue(s) == n
  {
    NatToStringShort(n);
    PadZeros(n, width)
  }

  /** `TimeSpan.ToString(@"hh\:mm\:ss\.fff")`. */
  function FormatHmsFff(ms: int): (s: string)
    ensures |s| == 12 && s[2] == ':' && s[5] == ':' && s[8] == '.'
    ensures AllDigits(s[0..2]) && AllDigits(s[3..5]) && AllDigits(s[6..8]) && AllDigits(s[9..12])
  {
    var a, b, c, d := Fixed(HoursPart(ms), 2), Fixed(MinutesPart(ms), 2), Fixed(SecondsPart(ms), 2), Fixed(MillisPart(ms), 3);
    ClockTextSlices(a, b, c, d);
    a + ":" + b + ":" + c + "." + d
  }

  /** `TimeSpan.ToString(@"mm\:ss")`. */
  function FormatMmSs(ms: int): (s: string)
    ensures |s| == 5 && s[2] == ':'
  {
    Fixed(MinutesPart(ms), 2) + ":" + Fixed(SecondsPart(ms), 2)
  }

  /** `TimeSpan.TryParse` restricted to the text `FormatHmsFff` produces:
      `hh:mm:ss.fff` with hours below 24 and minutes and seconds below 60. */
  function ParseHmsFff(s: string): (r: Option<int>)
    ensures r.Some? ==> 0 <= r.value < MsPerDay
  {
    if |s| == 12 && s[2] == ':' && s[5] == ':' && s[8] == '.'
       && AllDigits(s[0..2]) && AllDigits(s[3..5]) && AllDigits(s[6..8]) && AllDigits(s[9..12])
    then
      var h := DigitsValue(s[0..2]);
      var m := DigitsValue(s[3..5]);
      var sec := DigitsValue(s[6..8]);
      var f := DigitsValue(s[9..12]);
      if h < 24 && m < 60 && sec < 60 && f < 1000
      then Some(((h * 60 + m) * 60 + sec) * 1000 + f)
      else None
    else None
  }

  /** The four components of a non-negative duration recombine into the
      duration modulo one day. */
  lemma ComponentsRecombine(ms: nat)
    ensures ((HoursPart(ms) * 60 + MinutesPart(ms)) * 60 + SecondsPart(ms)) * 1000 + MillisPart(ms)
            == ms % MsPerDay
  {
    var x1 := ms / 1000;
    var f := ms % 1000;
    var x2 := x1 / 60;
    var s := x1 % 60;
    var x3 := x2 / 60;
    var m := x2 % 60;
    var x4 := x3 / 24;
    var h := x3 % 24;
    assert ms / MsPerMinute == x2;
    assert ms / MsPerHour == x3;
    assert ms == x1 * 1000 + f;
    assert x1 == x2 * 60 + s;
    assert x2 == x3 * 60 + m;
    assert x3 == x4 * 24 + h;
    var rest := ((h * 60 + m) * 60 + s) * 1000 + f;
    assert ms == x4 * MsPerDay + rest;
    assert 0 <= rest < MsPerDay;
  }

  /** Reading back the printed form of a non-negative duration yields the
      duration with whole days dropped. */
  lemma ParseFormatHmsFff(ms: nat)
    ensures ParseHmsFff(FormatHmsFff(ms)) == Some(ms % MsPerDay)
  {
    ParseFixedParts(HoursPart(ms), MinutesPart(ms), SecondsPart(ms), MillisPart(ms));
    ComponentsRecombine(ms);
  }

  /** Four in-range components printed with their separators read back as
      their combination. */
  lemma ParseFixedParts(h: nat, m: nat, sec: nat, f: nat)
    requires h < 24 && m < 60 && sec < 60 && f < 1000
    ensures ParseHmsFff(Fixed(h, 2) + ":" + Fixed(m, 2) + ":" + Fixed(sec, 2) + "." + Fixed(f, 3))
            == Some(((h * 60 + m) * 60 + sec) * 1000 + f)
  {
    var a, b, c, d := Fixed(h, 2), Fixed(m, 2), Fixed(sec, 2), Fixed(f, 3);
    ClockTextSlices(a, b, c, d);
  }

  /** Where the four fields of an `hh:mm:ss.fff` text sit. */
  lemma ClockTextSlices(a: string, b: string, c: string, d: string)
    requires |a| == 2 && |b| == 2 && |c| == 2 && |d| == 3
    ensures var s := a + ":" + b + ":" + c + "." + d;
            |s| == 12 && s[2] == ':' && s[5] == ':' && s[8] == '.' &&
            s[0..2] == a && s[3..5] == b && s[6..8] == c && s[9..12] == d
  {
    var s := a + ":" + b + ":" + c + "." + d;
    assert s[0..2] == a && s[3..5] == b && s[6..8] == c && s[9..12] == d;
  }

  /** Within a day, the printed form reads back exactly. */
  lemma ParseFormatWithinDay(ms: int)
    requires 0 <= ms < MsPerDay
    ensures ParseHmsFff(FormatHmsFff(ms)) == Some(ms)
  {
    ParseFormatHmsFff(ms);
    WithinDayUnchanged(ms);
  }

  lemma WithinDayUnchanged(ms: int)
    requires 0 <= ms < MsPerDay
    ensures ms % MsPerDay == ms
  {
  }

  /** A zero duration prints as `00:00:00.000`. */
  lemma ZeroDurationText()
    ensures FormatHmsFff(0) == "00:00:00.000"
  {
    assert HoursPart(0) == 0 && MinutesPart(0) == 0 && SecondsPart(0) == 0 && MillisPart(0) == 0;
    var z2, z3 := Fixed(0, 2), Fixed(0, 3);
    assert z2 == "00" && z3 == "000" by {
      assert NatToString(0) == "0";
      assert PadZeros(0, 1) == "0";
    }
    assert FormatHmsFff(0) == z2 + ":" + z2 + ":" + z2 + "." + z3;
  }
}
