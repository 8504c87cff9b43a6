/** Reading ffmpeg's diagnostic lines. Two parsers exist: the optimisation
    service's (`time=H:M:S.frac` anywhere in the line, plus a separate
    `speed=Nx`) and the edit window's (`time=hh:mm:ss.cc` with exactly two
    digits per field). Each regular expression is written out as a matcher
    on the text from a position on, and `Regex.Match` as the leftmost
    position where it matches. Times are milliseconds. */
module Progress {
  import opened Basics
  import opened Strings
  import opened Numbers
  import opened TimeFormat

  /** `TimeSpan.MaxValue` in whole milliseconds. */
  const MaxMs: int := 922_337_203_685_477

  /** The digit characters `\d` matches, taken as ASCII. */
  function DigitRun(t: string): (n: nat)
    ensures n <= |t| && AllDigits(t[..n])
    ensures n == |t| || !IsAsciiDigit(t[n])
  {
    if |t| > 0 && IsAsciiDigit(t[0]) then
      var n := 1 + DigitRun(t[1..]);
      assert t[..n] == [t[0]] + t[1..][..n - 1];
      n
    else 0
  }

  /** `\d+` and `\d*` are greedy, and nothing after them in either pattern
      is a digit, so they take the whole run. */
  function SpanDigits(t: string): (r: (string, string))
    ensures AllDigits(r.0) && r.0 + r.1 == t
    ensures |r.1| == 0 || !IsAsciiDigit(r.1[0])
  {
    var n := DigitRun(t);
    assert t[..n] + t[n..] == t;
    (t[..n], t[n..])
  }

  lemma {:induction false} DigitRunOf(d: string, rest: string)
    requires AllDigits(d) && (|rest| == 0 || !IsAsciiDigit(rest[0]))
    ensures DigitRun(d + rest) == |d|
    decreases |d|
  {
    if |d| > 0 {
      assert (d + rest)[1..] == d[1..] + rest;
      DigitRunOf(d[1..], rest);
    } else {
      assert d + rest == rest;
    }
  }

  lemma SpanDigitsOf(d: string, rest: string)
    requires AllDigits(d) && (|rest| == 0 || !IsAsciiDigit(rest[0]))
    ensures SpanDigits(d + rest) == (d, rest)
  {
    DigitRunOf(d, rest);
    assert (d + rest)[..|d|] == d;
    assert (d + rest)[|d|..] == rest;
  }

  /* ---------- the optimisation service: `time=(\d+):(\d+):(\d+\.\d+)` ---------- */

  /** The four digit groups of a service time stamp: hours, minutes, whole
      seconds and the fraction of a second. */
  datatype Stamp = Stamp(hours: string, minutes: string, seconds: string, fraction: string)

  predicate WellFormedStamp(st: Stamp) {
    && |st.hours| > 0 && AllDigits(st.hours)
    && |st.minutes| > 0 && AllDigits(st.minutes)
    && |st.seconds| > 0 && AllDigits(st.seconds)
    && |st.fraction| > 0 && AllDigits(st.fraction)
  }

  /** One `(\d+)` group followed by the literal `sep`: the digits and the
      text after `sep`. */
  function Field(t: string, sep: char): (r: Option<(string, string)>)
    ensures r.Some? ==> |r.value.0| > 0 && AllDigits(r.value.0)
  {
    var (d, rest) := SpanDigits(t);
    if |d| == 0 || |rest| == 0 || rest[0] != sep then None else Some((d, rest[1..]))
  }

  lemma FieldOf(d: string, sep: char, rest: string)
    requires |d| > 0 && AllDigits(d) && !IsAsciiDigit(sep)
    ensures Field(d + [sep] + rest, sep) == Some((d, rest))
  {
    assert d + [sep] + rest == d + ([sep] + rest);
    SpanDigitsOf(d, [sep] + rest);
    assert ([sep] + rest)[1..] == rest;
  }

  /** The pattern matched at the start of `t`. */
  function MatchStamp(t: string): (r: Option<Stamp>)
    ensures r.Some? ==> WellFormedStamp(r.value) && StartsWith(t, "time=")
  {
    if StartsWith(t, "time=") then StampFields(t[5..]) else None
  }

  /** `(\d+):(\d+):(\d+\.\d+)` at the start of `u`. */
  function StampFields(u: string): (r: Option<Stamp>)
    ensures r.Some? ==> WellFormedStamp(r.value)
  {
    match Field(u, ':')
    case None => None
    case Some((h, rest)) => MinutesOn(h, rest)
  }

  function MinutesOn(h: string, u: string): (r: Option<Stamp>)
    requires |h| > 0 && AllDigits(h)
    ensures r.Some? ==> WellFormedStamp(r.value) && r.value.hours == h
  {
    match Field(u, ':')
    case None => None
    case Some((m, rest)) => SecondsOn(h, m, rest)
  }

  function SecondsOn(h: string, m: string, u: string): (r: Option<Stamp>)
    requires |h| > 0 && AllDigits(h) && |m| > 0 && AllDigits(m)
    ensures r.Some? ==> WellFormedStamp(r.value) && r.value.hours == h && r.value.minutes == m
  {
    match Field(u, '.')
    case None => None
    case Some((s, rest)) =>
      var f := SpanDigits(rest).0;
      if |f| == 0 then None else Some(Stamp(h, m, s, f))
  }

  /** The stamp pattern matches at position `k` of the line. */
  predicate StampAt(line: string, k: nat)
    requires k <= |line|
  {
    MatchStamp(line[k..]).Some?
  }

  /** `Regex.Match`: the leftmost position from `from` on where the stamp
      pattern matches. */
  function FindStamp(line: string, from: nat): (r: Option<nat>)
    requires from <= |line|
    ensures r.Some? ==> from <= r.value <= |line| && StampAt(line, r.value)
    decreases |line| - from
  {
    if StampAt(line, from) then Some(from)
    else if from == |line| then None
    else FindStamp(line, from + 1)
  }

  /** The position found is the leftmost match from `from` on, and no
      position matches when none is found. */
  lemma {:induction false} FindStampLeftmost(line: string, from: nat)
    requires from <= |line|
    ensures FindStamp(line, from).Some? ==> forall k :: from <= k < FindStamp(line, from).value ==> !StampAt(line, k)
    ensures FindStamp(line, from).None? ==> forall k :: from <= k <= |line| ==> !StampAt(line, k)
    decreases |line| - from
  {
    if StampAt(line, from) {
      assert FindStamp(line, from) == Some(from);
    } else if from == |line| {
      assert FindStamp(line, from) == None;
      forall k | from <= k <= |line|
        ensures !StampAt(line, k)
      {
        assert k == from;
      }
    } else {
      assert FindStamp(line, from) == FindStamp(line, from + 1);
      FindStampLeftmost(line, from + 1);
      forall k | from <= k <= |line| && (FindStamp(line, from).None? || k < FindStamp(line, from).value)
        ensures !StampAt(line, k)
      {
        if k != from {
          assert from + 1 <= k;
        }
      }
    }
  }

  /** The fraction of a second in milliseconds: the first three digits,
      with the rest dropped (finer than the model's resolution). */
  function FractionMillis(f: string): (ms: nat)
    requires |f| > 0 && AllDigits(f)
    ensures ms < 1000
  {
    ShortDigitsValue(f);
    if |f| >= 3 then ShortDigitsValue(f[..3]); DigitsValue(f[..3])
    else if |f| == 2 then DigitsValue(f) * 10
    else DigitsValue(f) * 100
  }

  /** `FromHours(int.Parse(h)) + FromMinutes(int.Parse(m)) +
      FromSeconds(double.Parse(s.f))`: `None` when `int.Parse` or the
      `TimeSpan` arithmetic overflows, which throws. */
  function StampMillis(st: Stamp): (r: Option<int>)
    requires WellFormedStamp(st)
    ensures r.Some? ==> 0 <= r.value <= MaxMs
    ensures r.Some? <==> DigitsValue(st.hours) <= IntMax && DigitsValue(st.minutes) <= IntMax &&
                         DigitsValue(st.hours) * MsPerHour + DigitsValue(st.minutes) * MsPerMinute +
                         DigitsValue(st.seconds) * MsPerSecond + FractionMillis(st.fraction) <= MaxMs
  {
    var h := DigitsValue(st.hours);
    var m := DigitsValue(st.minutes);
    if h > IntMax || m > IntMax then None
    else
      var ms := h * MsPerHour + m * MsPerMinute + DigitsValue(st.seconds) * MsPerSecond + FractionMillis(st.fraction);
      if ms > MaxMs then None else Some(ms)
  }

  /** The service's percentage `Math.Min((int)(elapsed / total * 100), 100)`,
      with the division and product taken exactly rather than in `double`. */
  function ServicePercent(elapsed: int, total: int, saturating: bool): (p: int)
    requires elapsed >= 0 && total > 0
    ensures p <= 100
    ensures elapsed * 100 / total <= IntMax ==> p == Min(elapsed * 100 / total, 100) && 0 <= p
  {
    Min(CastToInt32(Finite(elapsed * 100 / total), saturating), 100)
  }

  /** Events the service raises for one line. */
  datatype ServiceEvent = ProgressChanged(percentage: int, status: string) | StatusChanged(status: string)

  function ProgressStatus(percentage: int, remaining: int): string {
    "Processing... " + IntToString(percentage) + "% - ETA: " + FormatMmSs(remaining)
  }

  /* ---------- `speed=\s*(\d+\.?\d*)x` ---------- */

  /** The captured number of the speed pattern matched at the start of `t`. */
  function MatchSpeed(t: string): (r: Option<string>)
    ensures r.Some? ==> |r.value| > 0 && IsAsciiDigit(r.value[0]) && StartsWith(t, "speed=")
  {
    if StartsWith(t, "speed=") then SpeedNumber(TrimStartWith(t[6..], IsWhiteSpace)) else None
  }

  /** `(\d+\.?\d*)x` at the start of `u`. */
  function SpeedNumber(u: string): (r: Option<string>)
    ensures r.Some? ==> |r.value| > 0 && IsAsciiDigit(r.value[0])
  {
    var (whole, r1) := SpanDigits(u);
    if |whole| == 0 || |r1| == 0 then None
    else if r1[0] == 'x' then Some(whole)
    else if r1[0] != '.' then None
    else SpeedFraction(whole, r1[1..])
  }

  function SpeedFraction(whole: string, u: string): (r: Option<string>)
    requires |whole| > 0 && IsAsciiDigit(whole[0])
    ensures r.Some? ==> |r.value| > 0 && r.value[0] == whole[0]
  {
    var (frac, r2) := SpanDigits(u);
    if |r2| > 0 && r2[0] == 'x' then Some(whole + "." + frac) else None
  }

  predicate SpeedAt(line: string, k: nat)
    requires k <= |line|
  {
    MatchSpeed(line[k..]).Some?
  }

  function FindSpeed(line: string, from: nat): (r: Option<nat>)
    requires from <= |line|
    ensures r.Some? ==> from <= r.value <= |line| && SpeedAt(line, r.value)
    decreases |line| - from
  {
    if SpeedAt(line, from) then Some(from)
    else if from == |line| then None
    else FindSpeed(line, from + 1)
  }

  /** The position found is the leftmost match from `from` on, and no
      position matches when none is found. */
  lemma {:induction false} FindSpeedLeftmost(line: string, from: nat)
    requires from <= |line|
    ensures FindSpeed(line, from).Some? ==> forall k :: from <= k < FindSpeed(line, from).value ==> !SpeedAt(line, k)
    ensures FindSpeed(line, from).None? ==> forall k :: from <= k <= |line| ==> !SpeedAt(line, k)
    decreases |line| - from
  {
    if SpeedAt(line, from) {
      assert FindSpeed(line, from) == Some(from);
    } else if from == |line| {
      assert FindSpeed(line, from) == None;
      forall k | from <= k <= |line|
        ensures !SpeedAt(line, k)
      {
        assert k == from;
      }
    } else {
      assert FindSpeed(line, from) == FindSpeed(line, from + 1);
      FindSpeedLeftmost(line, from + 1);
      forall k | from <= k <= |line| && (FindSpeed(line, from).None? || k < FindSpeed(line, from).value)
        ensures !SpeedAt(line, k)
      {
        if k != from {
          assert from + 1 <= k;
        }
      }
    }
  }

  /** `"Processing speed: {speed:F1}x"`; `render` stands for the `F1`
      rendering of the parsed number. */
  function SpeedStatus(number: string, render: string -> string): string {
    "Processing speed: " + render(number) + "x"
  }

  /** The stamp half of `FFmpegService.ParseProgress`: a progress event and
      the same status when there is a stamp and the total duration is
      positive. `None` stands for the exception an overflow throws. */
  function TimeEvents(line: string, total: int, saturating: bool): (r: Option<seq<ServiceEvent>>)
    ensures r.Some? ==> |r.value| == 0 || |r.value| == 2
  {
    match FindStamp(line, 0)
    case None => Some([])
    case Some(k) =>
      match StampMillis(MatchStamp(line[k..]).value)
      case None => None
      case Some(elapsed) => if total > 0 then Some(StampEvents(elapsed, total, saturating)) else Some([])
  }

  /** The progress event and the status a readable stamp raises. */
  function StampEvents(elapsed: nat, total: int, saturating: bool): seq<ServiceEvent>
    requires total > 0
  {
    var p := ServicePercent(elapsed, total, saturating);
    var status := ProgressStatus(p, total - elapsed);
    [ProgressChanged(p, status), StatusChanged(status)]
  }

  /** The speed half: one status when the line carries a speed. */
  function SpeedEvents(line: string, render: string -> string): (r: seq<ServiceEvent>)
    ensures |r| <= 1
  {
    match FindSpeed(line, 0)
    case None => []
    case Some(k) => [StatusChanged(SpeedStatus(MatchSpeed(line[k..]).value, render))]
  }

  /** `FFmpegService.ParseProgress`: the stamp's events, then the speed's.
      An exception while reading the stamp is caught after it has skipped
      the rest of the handler, so such a line raises nothing at all. */
  function ServiceParse(line: string, total: int, saturating: bool, render: string -> string): (events: seq<ServiceEvent>)
    ensures |events| <= 3
  {
    match TimeEvents(line, total, saturating)
    case None => []
    case Some(events) => events + SpeedEvents(line, render)
  }

  /** `GetVideoDurationAsync`: the probed duration, or zero when ffprobe
      cannot be run or its output does not parse. */
  function ProbeDuration(probed: Option<int>): (d: int)
    ensures probed.None? ==> d == 0
    ensures probed.Some? ==> d == probed.value
  {
    match probed
    case None => 0
    case Some(ms) => ms
  }

  /* ---------- the edit window: `time=(\d{2}):(\d{2}):(\d{2})\.(\d{2})` ---------- */

  /** Two digits at `i` and `i + 1`. */
  predicate TwoDigitsAt(t: string, i: nat)
    requires i + 2 <= |t|
  {
    AllDigits(t[i..i + 2])
  }

  /** The edit window's pattern at the start of `t`, read as
      `new TimeSpan(0, h, m, s, cc * 10)`. */
  function MatchEditorStamp(t: string): (r: Option<int>)
    ensures r.Some? ==> StartsWith(t, "time=")
    ensures r.Some? ==> 0 <= r.value <= 99 * MsPerHour + 99 * MsPerMinute + 99 * MsPerSecond + 990
  {
    if |t| < 16 || t[..5] != "time=" || t[7] != ':' || t[10] != ':' || t[13] != '.' ||
       !TwoDigitsAt(t, 5) || !TwoDigitsAt(t, 8) || !TwoDigitsAt(t, 11) || !TwoDigitsAt(t, 14)
    then None
    else
      ShortDigitsValue(t[5..7]);
      ShortDigitsValue(t[8..10]);
      ShortDigitsValue(t[11..13]);
      ShortDigitsValue(t[14..16]);
      Some(DigitsValue(t[5..7]) * MsPerHour + DigitsValue(t[8..10]) * MsPerMinute +
           DigitsValue(t[11..13]) * MsPerSecond + DigitsValue(t[14..16]) * 10)
  }

  predicate EditorStampAt(line: string, k: nat)
    requires k <= |line|
  {
    MatchEditorStamp(line[k..]).Some?
  }

  function FindEditorStamp(line: string, from: nat): (r: Option<nat>)
    requires from <= |line|
    ensures r.Some? ==> from <= r.value <= |line| && EditorStampAt(line, r.value)
    decreases |line| - from
  {
    if EditorStampAt(line, from) then Some(from)
    else if from == |line| then None
    else FindEditorStamp(line, from + 1)
  }

  /** The position found is the leftmost match from `from` on, and no
      position matches when none is found. */
  lemma {:induction false} FindEditorStampLeftmost(line: string, from: nat)
    requires from <= |line|
    ensures FindEditorStamp(line, from).Some? ==> forall k :: from <= k < FindEditorStamp(line, from).value ==> !EditorStampAt(line, k)
    ensures FindEditorStamp(line, from).None? ==> forall k :: from <= k <= |line| ==> !EditorStampAt(line, k)
    decreases |line| - from
  {
    if EditorStampAt(line, from) {
      assert FindEditorStamp(line, from) == Some(from);
    } else if from == |line| {
      assert FindEditorStamp(line, from) == None;
      forall k | from <= k <= |line|
        ensures !EditorStampAt(line, k)
      {
        assert k == from;
      }
    } else {
      assert FindEditorStamp(line, from) == FindEditorStamp(line, from + 1);
      FindEditorStampLeftmost(line, from + 1);
      forall k | from <= k <= |line| && (FindEditorStamp(line, from).None? || k < FindEditorStamp(line, from).value)
        ensures !EditorStampAt(line, k)
      {
        if k != from {
          assert from + 1 <= k;
        }
      }
    }
  }

  /** `(a / b)` on doubles, truncated toward zero, for `a >= 0` and `b != 0`. */
  function TruncDiv(a: nat, b: int): (q: int)
    requires b != 0
    ensures b > 0 ==> q == a / b
    ensures b < 0 ==> q <= 0
  {
    if b > 0 then a / b else -(a / -b)
  }

  /** `encoded / total * 100` as a double: NaN for 0/0, infinity for a
      positive time over a zero duration. */
  function EditorQuotient(encoded: nat, total: int): Quotient {
    if total == 0 then (if encoded == 0 then NotANumber else PositiveInfinity)
    else Finite(TruncDiv(encoded * 100, total))
  }

  /** What one progress line does to the edit window: the bar value, the
      progress text, the elapsed-time text and (when the wall clock has
      advanced) the speed as a ratio of encoded to elapsed time. */
  datatype EditorUpdate = EditorUpdate(bar: int, text: string, elapsedText: string, speed: Option<Fraction>)

  function PercentText(percentage: int): string {
    IntToString(percentage) + "% - Processing..."
  }

  function EditorUpdateFor(encoded: nat, percentage: int, clock: int): EditorUpdate {
    EditorUpdate(Min(100, percentage), PercentText(percentage), FormatMmSs(clock),
                 if clock > 0 then Some(Fraction(encoded, clock)) else None)
  }

  /** The encoded time of the first stamp of a line that mentions `time=`. */
  function EditorStampTime(line: string): (r: Option<nat>)
    ensures r.Some? ==> Contains(line, "time=")
  {
    if !Contains(line, "time=") then None
    else match FindEditorStamp(line, 0)
      case None => None
      case Some(k) => Some(MatchEditorStamp(line[k..]).value)
  }

  /** `VideoProcessingWindow.ParseProgress` as written: no guard on the
      total duration. `clock` is the wall-clock time since processing
      started. */
  function EditorParseAsWritten(line: string, total: int, clock: int, saturating: bool): (u: Option<EditorUpdate>)
    ensures u.Some? <==> EditorStampTime(line).Some?
  {
    match EditorStampTime(line)
    case None => None
    case Some(encoded) =>
      Some(EditorUpdateFor(encoded, CastToInt32(EditorQuotient(encoded, total), saturating), clock))
  }

  lemma MulMonotone(x: int, y: int, k: int)
    requires x <= y && k >= 0
    ensures x * k <= y * k
  {
  }

  /** The exact whole percentage of `encoded` in `total`, limited to 100. */
  function CappedPercent(encoded: nat, total: int): (p: int)
    requires total > 0
    ensures 0 <= p <= 100
    ensures p < 100 ==> p * total <= encoded * 100 < (p + 1) * total
    ensures p == 100 <==> encoded >= total
  {
    PercentBracket(encoded, total);
    if encoded * 100 / total < 100 then encoded * 100 / total else 100
  }

  /** The truncated quotient brackets the exact ratio, and stays below 100
      exactly before the end. */
  lemma PercentBracket(encoded: nat, total: int)
    requires total > 0
    ensures var q := encoded * 100 / total;
            0 <= q && q * total <= encoded * 100 < (q + 1) * total && (q < 100 <==> encoded < total)
  {
    var a := encoded * 100;
    var q := a / total;
    var r := a % total;
    assert a == q * total + r && 0 <= r < total;
    if q < 100 {
      MulMonotone(q + 1, 100, total);
    } else {
      MulMonotone(100, q, total);
    }
  }

  /** The edit window's parser with the service's guard: no update unless
      the total duration is positive, and the percentage is limited to 100
      before it is shown. */
  function EditorParse(line: string, total: int, clock: int): (u: Option<EditorUpdate>)
    ensures u.Some? <==> EditorStampTime(line).Some? && total > 0
    ensures u.Some? ==> 0 <= u.value.bar <= 100 && u.value.text == PercentText(u.value.bar)
  {
    match EditorStampTime(line)
    case None => None
    case Some(encoded) =>
      if total <= 0 then None
      else Some(EditorUpdateFor(encoded, CappedPercent(encoded, total), clock))
  }

  /* ---------- what ffmpeg prints, and what the two parsers make of it ---------- */

  /** ffmpeg's `time=` value for a position that is a whole number of
      hundredths: total hours (at least two digits), minutes, seconds and
      hundredths. */
  function FfmpegStamp(ms: nat): (s: string)
    requires ms % 10 == 0
  {
    PadZeros(ms / MsPerHour, 2) + ":" + Fixed(MinutesPart(ms), 2) + ":" +
    Fixed(SecondsPart(ms), 2) + "." + Fixed(MillisPart(ms) / 10, 2)
  }

  /** Whole hours, minutes, seconds and milliseconds add back up. */
  lemma HoursRecombine(ms: nat)
    ensures (ms / MsPerHour) * MsPerHour + MinutesPart(ms) * MsPerMinute + SecondsPart(ms) * MsPerSecond
            + MillisPart(ms) == ms
  {
    var x1 := ms / 1000;
    var f := ms % 1000;
    var x2 := x1 / 60;
    var s := x1 % 60;
    var x3 := x2 / 60;
    var m := x2 % 60;
    assert ms / MsPerMinute == x2;
    assert ms / MsPerHour == x3;
    assert ms == x1 * 1000 + f;
    assert x1 == x2 * 60 + s;
    assert x2 == x3 * 60 + m;
  }

  /** A line whose `time=` value is ffmpeg's stamp followed by anything that
      does not continue the digits. */
  function StampLine(ms: nat, rest: string): string
    requires ms % 10 == 0
  {
    "time=" + FfmpegStamp(ms) + rest
  }

  lemma MatchStampOfParts(h: string, m: string, s: string, f: string, rest: string)
    requires WellFormedStamp(Stamp(h, m, s, f))
    requires |rest| == 0 || !IsAsciiDigit(rest[0])
    ensures MatchStamp("time=" + h + ":" + m + ":" + s + "." + f + rest) == Some(Stamp(h, m, s, f))
  {
    var t := "time=" + h + ":" + m + ":" + s + "." + f + rest;
    var r3 := f + rest;
    var r2 := s + ['.'] + r3;
    var r1 := m + [':'] + r2;
    var u := h + [':'] + r1;
    assert t == "time=" + u;
    assert t[5..] == u;
    FieldOf(h, ':', r1);
    FieldOf(m, ':', r2);
    FieldOf(s, '.', r3);
    SpanDigitsOf(f, rest);
    assert SecondsOn(h, m, r2) == Some(Stamp(h, m, s, f));
    assert MinutesOn(h, r1) == Some(Stamp(h, m, s, f));
    assert StampFields(u) == Some(Stamp(h, m, s, f));
  }

  /** Reading the hundredths back as a fraction of a second. */
  lemma HundredthsReadBack(ms: nat)
    requires ms % 10 == 0
    ensures FractionMillis(Fixed(MillisPart(ms) / 10, 2)) == MillisPart(ms)
  {
    assert MillisPart(ms) % 10 == 0;
  }

  /** The four digit groups ffmpeg prints for a position. */
  function StampOf(ms: nat): (st: Stamp)
    requires ms % 10 == 0
    ensures WellFormedStamp(st)
  {
    Stamp(PadZeros(ms / MsPerHour, 2), Fixed(MinutesPart(ms), 2), Fixed(SecondsPart(ms), 2),
          Fixed(MillisPart(ms) / 10, 2))
  }

  /** A stamp line is `time=`, the stamp's four groups with their
      separators, and the rest of the line. */
  lemma StampLineParts(ms: nat, rest: string)
    requires ms % 10 == 0
    ensures var st := StampOf(ms);
            StampLine(ms, rest) == "time=" + st.hours + ":" + st.minutes + ":" + st.seconds + "." + st.fraction + rest
  {
    var st := StampOf(ms);
    var stamp := st.hours + ":" + st.minutes + ":" + st.seconds + "." + st.fraction;
    assert FfmpegStamp(ms) == stamp;
    assert "time=" + stamp + rest == "time=" + st.hours + ":" + st.minutes + ":" + st.seconds + "." + st.fraction + rest;
  }

  lemma StampLineMatches(ms: nat, rest: string)
    requires ms % 10 == 0
    requires |rest| == 0 || !IsAsciiDigit(rest[0])
    ensures FindStamp(StampLine(ms, rest), 0) == Some(0)
    ensures MatchStamp(StampLine(ms, rest)) == Some(StampOf(ms))
  {
    var st := StampOf(ms);
    var line := StampLine(ms, rest);
    StampLineParts(ms, rest);
    MatchStampOfParts(st.hours, st.minutes, st.seconds, st.fraction, rest);
    assert line[0..] == line;
  }

  lemma StampOfValue(ms: nat)
    requires ms % 10 == 0 && ms <= MaxMs
    ensures StampMillis(StampOf(ms)) == Some(ms)
  {
    HundredthsReadBack(ms);
    HoursRecombine(ms);
  }

  /** The service reads ffmpeg's stamp back as the exact position, at the
      start of the line. */
  lemma ServiceReadsStamp(ms: nat, rest: string)
    requires ms % 10 == 0 && ms <= MaxMs
    requires |rest| == 0 || !IsAsciiDigit(rest[0])
    ensures FindStamp(StampLine(ms, rest), 0) == Some(0)
    ensures StampMillis(MatchStamp(StampLine(ms, rest)).value) == Some(ms)
  {
    StampLineMatches(ms, rest);
    StampOfValue(ms);
  }

  lemma EditorMatchOfParts(st: Stamp, rest: string, t: string)
    requires WellFormedStamp(st)
    requires |st.hours| == 2 && |st.minutes| == 2 && |st.seconds| == 2 && |st.fraction| == 2
    requires t == "time=" + st.hours + ":" + st.minutes + ":" + st.seconds + "." + st.fraction + rest
    ensures MatchEditorStamp(t) == Some(DigitsValue(st.hours) * MsPerHour + DigitsValue(st.minutes) * MsPerMinute +
                                        DigitsValue(st.seconds) * MsPerSecond + DigitsValue(st.fraction) * 10)
  {
    assert t[..5] == "time=";
    assert t[5..7] == st.hours && t[7] == ':';
    assert t[8..10] == st.minutes && t[10] == ':';
    assert t[11..13] == st.seconds && t[13] == '.';
    assert t[14..16] == st.fraction;
  }

  /** A line that matches at its start is read from there. */
  lemma EditorMatchAtStart(line: string)
    requires MatchEditorStamp(line).Some?
    ensures EditorStampTime(line) == MatchEditorStamp(line)
  {
    assert line[0..] == line;
    assert OccursAt(line, "time=", 0);
  }

  lemma EditorStampValue(ms: nat)
    requires ms % 10 == 0
    ensures var st := StampOf(ms);
            DigitsValue(st.hours) * MsPerHour + DigitsValue(st.minutes) * MsPerMinute +
            DigitsValue(st.seconds) * MsPerSecond + DigitsValue(st.fraction) * 10 == ms
  {
    HoursRecombine(ms);
    assert MillisPart(ms) % 10 == 0;
  }

  /** The edit window reads ffmpeg's stamp back exactly as long as the hours
      have two digits. */
  lemma EditorReadsStamp(ms: nat, rest: string)
    requires ms % 10 == 0 && ms < 100 * MsPerHour
    ensures EditorStampTime(StampLine(ms, rest)) == Some(ms)
  {
    var st := StampOf(ms);
    var line := StampLine(ms, rest);
    assert |st.hours| == 2 by {
      HoursBelowHundred(ms);
      NatToStringShort(ms / MsPerHour);
    }
    var v := DigitsValue(st.hours) * MsPerHour + DigitsValue(st.minutes) * MsPerMinute +
             DigitsValue(st.seconds) * MsPerSecond + DigitsValue(st.fraction) * 10;
    assert v == ms by {
      EditorStampValue(ms);
    }
    assert WellFormedStamp(st) && |st.minutes| == 2 && |st.seconds| == 2 && |st.fraction| == 2;
    EditorReadsParts(st, rest, v);
    StampLineParts(ms, rest);
  }

  /** A stamp line assembled from two-digit parts is read back as the value
      of those parts. */
  lemma EditorReadsParts(st: Stamp, rest: string, v: int)
    requires WellFormedStamp(st)
    requires |st.hours| == 2 && |st.minutes| == 2 && |st.seconds| == 2 && |st.fraction| == 2
    requires v == DigitsValue(st.hours) * MsPerHour + DigitsValue(st.minutes) * MsPerMinute +
                  DigitsValue(st.seconds) * MsPerSecond + DigitsValue(st.fraction) * 10
    ensures EditorStampTime("time=" + st.hours + ":" + st.minutes + ":" + st.seconds + "." + st.fraction + rest) == Some(v)
  {
    var t := "time=" + st.hours + ":" + st.minutes + ":" + st.seconds + "." + st.fraction + rest;
    EditorMatchOfParts(st, rest, t);
    EditorMatchAtStart(t);
  }

  lemma HoursBelowHundred(ms: nat)
    requires ms < 100 * MsPerHour
    ensures ms / MsPerHour < 100
  {
  }

  lemma LongHoursText(ms: nat)
    requires 100 * MsPerHour <= ms
    ensures |PadZeros(ms / MsPerHour, 2)| >= 3
  {
    NatToStringShort(ms / MsPerHour);
    if |NatToString(ms / MsPerHour)| < 3 {
      NatToStringValueBound(ms / MsPerHour);
    }
  }

  /** From a hundred hours on, the eighth character of the line is a third
      hour digit. */
  lemma ThirdHourDigit(ms: nat, rest: string)
    requires ms % 10 == 0 && 100 * MsPerHour <= ms
    ensures |StampLine(ms, rest)| > 7 && IsAsciiDigit(StampLine(ms, rest)[7])
  {
    var st := StampOf(ms);
    LongHoursText(ms);
    StampLineParts(ms, rest);
    var head := "time=" + st.hours;
    assert head[7] == st.hours[2];
  }

  /** From a hundred hours on, ffmpeg prints three or more hour digits and
      the edit window's pattern no longer matches there, while the service
      still reads the stamp. */
  lemma EditorMissesLongStamps(ms: nat, rest: string)
    requires ms % 10 == 0 && 100 * MsPerHour <= ms <= MaxMs
    requires |rest| == 0 || !IsAsciiDigit(rest[0])
    ensures MatchEditorStamp(StampLine(ms, rest)).None?
    ensures MatchStamp(StampLine(ms, rest)) == Some(StampOf(ms))
    ensures StampMillis(MatchStamp(StampLine(ms, rest)).value) == Some(ms)
  {
    ThirdHourDigit(ms, rest);
    StampLineMatches(ms, rest);
    StampOfValue(ms);
  }

  /* ---------- properties of the two parsers ---------- */

  /** Without a positive total duration the service emits no percentage,
      only status text. */
  lemma ServiceSilentWithoutDuration(line: string, total: int, saturating: bool, render: string -> string)
    requires total <= 0
    ensures forall i :: 0 <= i < |ServiceParse(line, total, saturating, render)| ==>
              ServiceParse(line, total, saturating, render)[i].StatusChanged?
  {
  }

  /** An unreadable probe gives a zero duration, and so no percentage. */
  lemma UnknownDurationGivesNoPercent(line: string, saturating: bool, render: string -> string)
    ensures forall i :: 0 <= i < |ServiceParse(line, ProbeDuration(None), saturating, render)| ==>
              ServiceParse(line, ProbeDuration(None), saturating, render)[i].StatusChanged?
  {
    ServiceSilentWithoutDuration(line, ProbeDuration(None), saturating, render);
  }

  lemma DivMonotone(a: int, b: int, d: int)
    requires 0 <= a <= b && d > 0
    ensures a / d <= b / d
  {
    var qa := a / d;
    var qb := b / d;
    assert qa * d <= a && b < (qb + 1) * d;
    if qa > qb {
      MulMonotone(qb + 1, qa, d);
    }
  }

  /** Whenever the cast saturates or the quotient fits an `int`, the
      service's percentage is the capped percentage. */
  lemma ServicePercentIsCapped(e: nat, total: int, saturating: bool)
    requires total > 0
    requires saturating || e * 100 / total <= IntMax
    ensures ServicePercent(e, total, saturating) == CappedPercent(e, total)
  {
  }

  lemma CappedPercentMonotone(e1: nat, e2: nat, total: int)
    requires e1 <= e2 && total > 0
    ensures CappedPercent(e1, total) <= CappedPercent(e2, total)
  {
    MulMonotone(e1, e2, 100);
    DivMonotone(e1 * 100, e2 * 100, total);
  }

  /** For a fixed positive duration, a later position never shows a smaller
      percentage, and the percentage reaches 100 exactly at the end; this
      holds whenever the cast saturates or the quotient fits an `int`. */
  lemma ServicePercentMonotone(e1: nat, e2: nat, total: int, saturating: bool)
    requires e1 <= e2 && total > 0
    requires saturating || e2 * 100 / total <= IntMax
    ensures 0 <= ServicePercent(e1, total, saturating) <= ServicePercent(e2, total, saturating) <= 100
    ensures ServicePercent(e2, total, saturating) == 100 <==> e2 >= total
  {
    MulMonotone(e1, e2, 100);
    DivMonotone(e1 * 100, e2 * 100, total);
    ServicePercentIsCapped(e1, total, saturating);
    ServicePercentIsCapped(e2, total, saturating);
    CappedPercentMonotone(e1, e2, total);
  }

  lemma StampEventsShape(ms: nat, total: int, saturating: bool)
    requires total > 0
    ensures var p := ServicePercent(ms, total, saturating);
            StampEvents(ms, total, saturating) == [ProgressChanged(p, ProgressStatus(p, total - ms)), StatusChanged(ProgressStatus(p, total - ms))]
  {
  }

  /** A line whose stamp reads without error raises the stamp's events
      followed by the speed's. */
  lemma ServiceParseOfEvents(line: string, total: int, saturating: bool, render: string -> string, head: seq<ServiceEvent>)
    requires TimeEvents(line, total, saturating) == Some(head)
    ensures ServiceParse(line, total, saturating, render) == head + SpeedEvents(line, render)
  {
  }

  lemma TimeEventsAt(line: string, ms: nat, total: int, saturating: bool)
    requires FindStamp(line, 0) == Some(0) && total > 0
    requires StampMillis(MatchStamp(line[0..]).value) == Some(ms)
    ensures TimeEvents(line, total, saturating) == Some(StampEvents(ms, total, saturating))
  {
  }

  /** A stamp line with a positive duration raises a progress event first,
      carrying the percentage of the position and the ETA text, and the
      same status text second. */
  lemma ServiceReportsStamp(ms: nat, rest: string, total: int, saturating: bool, render: string -> string)
    requires ms % 10 == 0 && ms <= MaxMs && total > 0
    requires |rest| == 0 || !IsAsciiDigit(rest[0])
    ensures var events := ServiceParse(StampLine(ms, rest), total, saturating, render);
            var p := ServicePercent(ms, total, saturating);
            |events| >= 2 &&
            events[0] == ProgressChanged(p, ProgressStatus(p, total - ms)) &&
            events[1] == StatusChanged(ProgressStatus(p, total - ms))
  {
    ServiceReadsStamp(ms, rest);
    LineStampEvents(StampLine(ms, rest), ms, total, saturating, render);
  }

  /** Any line whose stamp sits at its start and reads as `ms` raises the
      stamp's two events first. */
  lemma LineStampEvents(line: string, ms: nat, total: int, saturating: bool, render: string -> string)
    requires FindStamp(line, 0) == Some(0) && total > 0
    requires StampMillis(MatchStamp(line).value) == Some(ms)
    ensures var events := ServiceParse(line, total, saturating, render);
            var p := ServicePercent(ms, total, saturating);
            |events| >= 2 &&
            events[0] == ProgressChanged(p, ProgressStatus(p, total - ms)) &&
            events[1] == StatusChanged(ProgressStatus(p, total - ms))
  {
    ParseIsStampEvents(line, ms, total, saturating, render);
    StampEventsFirst(ms, total, saturating, SpeedEvents(line, render));
  }

  lemma ParseIsStampEvents(line: string, ms: nat, total: int, saturating: bool, render: string -> string)
    requires FindStamp(line, 0) == Some(0) && total > 0
    requires StampMillis(MatchStamp(line).value) == Some(ms)
    ensures ServiceParse(line, total, saturating, render) == StampEvents(ms, total, saturating) + SpeedEvents(line, render)
  {
    assert line[0..] == line;
    TimeEventsAt(line, ms, total, saturating);
    ServiceParseOfEvents(line, total, saturating, render, StampEvents(ms, total, saturating));
  }

  lemma StampEventsFirst(ms: nat, total: int, saturating: bool, tail: seq<ServiceEvent>)
    requires total > 0
    ensures var events := StampEvents(ms, total, saturating) + tail;
            var p := ServicePercent(ms, total, saturating);
            |events| >= 2 &&
            events[0] == ProgressChanged(p, ProgressStatus(p, total - ms)) &&
            events[1] == StatusChanged(ProgressStatus(p, total - ms))
  {
    var p := ServicePercent(ms, total, saturating);
    var status := ProgressStatus(p, total - ms);
    StampEventsShape(ms, total, saturating);
    assert ([ProgressChanged(p, status), StatusChanged(status)] + tail)[1] == StatusChanged(status);
  }

  /** With exact division, on every stamp both parsers read (below a hundred
      hours), the guarded edit-window percentage is the service's percentage. */
  lemma ParsersAgree(ms: nat, rest: string, total: int, clock: int, saturating: bool, render: string -> string)
    requires ms % 10 == 0 && ms < 100 * MsPerHour && total > 0
    requires |rest| == 0 || !IsAsciiDigit(rest[0])
    requires saturating || ms * 100 / total <= IntMax
    ensures EditorParse(StampLine(ms, rest), total, clock).Some?
    ensures var events := ServiceParse(StampLine(ms, rest), total, saturating, render);
            |events| >= 1 && events[0].ProgressChanged? &&
            events[0].percentage == EditorParse(StampLine(ms, rest), total, clock).value.bar
  {
    var line := StampLine(ms, rest);
    ServiceReportsStamp(ms, rest, total, saturating, render);
    EditorReadsStamp(ms, rest);
    EditorBarAt(line, ms, total, clock);
    ServicePercentIsCapped(ms, total, saturating);
  }

  lemma EditorBarAt(line: string, ms: nat, total: int, clock: int)
    requires EditorStampTime(line) == Some(ms) && total > 0
    ensures EditorParse(line, total, clock).Some?
    ensures EditorParse(line, total, clock).value.bar == CappedPercent(ms, total)
  {
  }

  /** Hours beyond `int` make `int.Parse` throw, whatever the minutes,
      seconds and fraction: the handler then drops the whole line,
      including any speed it carries. */
  lemma HugeHoursDropLine(h: nat, m: string, sec: string, f: string, rest: string, total: int, saturating: bool,
                          render: string -> string)
    requires h > IntMax && WellFormedStamp(Stamp(NatToString(h), m, sec, f))
    requires |rest| == 0 || !IsAsciiDigit(rest[0])
    ensures ServiceParse("time=" + NatToString(h) + ":" + m + ":" + sec + "." + f + rest, total, saturating, render) == []
  {
    var line := "time=" + NatToString(h) + ":" + m + ":" + sec + "." + f + rest;
    MatchStampOfParts(NatToString(h), m, sec, f, rest);
    assert line[0..] == line;
    StampFirstFound(line);
    TimeEventsThrow(line, total, saturating, render);
  }

  lemma StampFirstFound(line: string)
    requires StampAt(line, 0)
    ensures FindStamp(line, 0) == Some(0)
  {
  }

  /** A stamp that makes `int.Parse` or the `TimeSpan` arithmetic throw
      drops the whole line. */
  lemma TimeEventsThrow(line: string, total: int, saturating: bool, render: string -> string)
    requires FindStamp(line, 0) == Some(0) && StampMillis(MatchStamp(line[0..]).value).None?
    ensures ServiceParse(line, total, saturating, render) == []
  {
  }

  /** The speed number is read back from `speed=`, any white space, the
      digits and `x`. */
  lemma WholeSpeedReadsBack(pad: string, whole: string, rest: string)
    requires forall i :: 0 <= i < |pad| ==> IsWhiteSpace(pad[i])
    requires |whole| > 0 && AllDigits(whole)
    ensures MatchSpeed("speed=" + pad + whole + "x" + rest) == Some(whole)
  {
    var t := "speed=" + pad + whole + "x" + rest;
    var u := whole + ("x" + rest);
    assert t == "speed=" + (pad + u);
    assert t[6..] == pad + u;
    TrimStartOf(pad, u, IsWhiteSpace);
    SpanDigitsOf(whole, "x" + rest);
  }

  /** The same with a decimal point and a (possibly empty) fraction. */
  lemma PointSpeedReadsBack(pad: string, whole: string, frac: string, rest: string)
    requires forall i :: 0 <= i < |pad| ==> IsWhiteSpace(pad[i])
    requires |whole| > 0 && AllDigits(whole) && AllDigits(frac)
    ensures MatchSpeed("speed=" + pad + whole + "." + frac + "x" + rest) == Some(whole + "." + frac)
  {
    var u := whole + (['.'] + (frac + ("x" + rest)));
    assert "speed=" + pad + whole + "." + frac + "x" + rest == "speed=" + pad + u;
    PaddedSpeed(pad, u);
    SpeedNumberWithPoint(whole, frac, rest);
  }

  lemma PaddedSpeed(pad: string, u: string)
    requires forall i :: 0 <= i < |pad| ==> IsWhiteSpace(pad[i])
    requires |u| > 0 && IsAsciiDigit(u[0])
    ensures MatchSpeed("speed=" + pad + u) == SpeedNumber(u)
  {
    var t := "speed=" + pad + u;
    assert t == "speed=" + (pad + u);
    assert t[6..] == pad + u;
    TrimStartOf(pad, u, IsWhiteSpace);
  }

  lemma SpeedNumberWithPoint(whole: string, frac: string, rest: string)
    requires |whole| > 0 && AllDigits(whole) && AllDigits(frac)
    ensures SpeedNumber(whole + (['.'] + (frac + ("x" + rest)))) == Some(whole + "." + frac)
  {
    var r2 := "x" + rest;
    var r1 := ['.'] + (frac + r2);
    SpanDigitsOf(whole, r1);
    assert r1[1..] == frac + r2;
    SpanDigitsOf(frac, r2);
  }

  /** As written, a zero total duration (what the window holds when the
      probe failed) turns any stamp past zero into an infinite quotient,
      and the text shows `int.MaxValue` or `int.MinValue` percent; the
      guarded parser shows nothing. */
  lemma EditorZeroDurationAsWritten(ms: nat, rest: string, clock: int, saturating: bool)
    requires ms % 10 == 0 && 0 < ms < 100 * MsPerHour
    ensures var u := EditorParseAsWritten(StampLine(ms, rest), 0, clock, saturating);
            u.Some? && u.value.text == PercentText(if saturating then IntMax else IntMin)
    ensures EditorParse(StampLine(ms, rest), 0, clock).None?
  {
    EditorReadsStamp(ms, rest);
    EditorZeroTotal(StampLine(ms, rest), ms, clock, saturating);
    CastOfInfinity(saturating);
  }

  lemma CastOfInfinity(saturating: bool)
    ensures CastToInt32(PositiveInfinity, saturating) == if saturating then IntMax else IntMin
  {
  }

  lemma EditorZeroTotal(line: string, encoded: nat, clock: int, saturating: bool)
    requires EditorStampTime(line) == Some(encoded) && encoded > 0
    ensures var u := EditorParseAsWritten(line, 0, clock, saturating);
            u.Some? && u.value.text == PercentText(CastToInt32(PositiveInfinity, saturating))
    ensures EditorParse(line, 0, clock).None?
  {
  }

}
