/** `VideoMetadata`: what the prober reports about a file, and the derived
    texts the editor shows — duration, resolution, aspect ratio and the unit
    of the file size. */
module Metadata {
  import opened Basics
  import opened Strings
  import opened Numbers
  import opened TimeFormat

  /** Duration in milliseconds; the file size is a byte count. */
  datatype VideoMetadata = VideoMetadata(
    filePath: string,
    duration: int,
    width: int,
    height: int,
    format: string,
    videoCodec: string,
    audioCodec: string,
    fileSize: nat,
    bitrate: string)

  const DefaultMetadata: VideoMetadata := VideoMetadata("", 0, 0, 0, "", "", "", 0, "")

  /** `DurationFormatted`: `hh:mm:ss.fff`. */
  function DurationFormatted(m: VideoMetadata): (s: string)
    ensures |s| == 12 && s[2] == ':' && s[5] == ':' && s[8] == '.'
  {
    FormatHmsFff(m.duration)
  }

  /** The printed duration reads back as the duration with whole days
      dropped. */
  lemma DurationFormattedReadsBack(m: VideoMetadata)
    requires m.duration >= 0
    ensures ParseHmsFff(DurationFormatted(m)) == Some(m.duration % MsPerDay)
  {
    var d: nat := m.duration;
    ParseFormatHmsFff(d);
    assert DurationFormatted(m) == FormatHmsFff(d);
  }

  const ResolutionSeparator: string := " x "

  /** `ResolutionText`: `"<width> x <height>"`. */
  function ResolutionText(m: VideoMetadata): string {
    IntToString(m.width) + ResolutionSeparator + IntToString(m.height)
  }

  /** Reads a resolution text back: two integers around `" x "`. */
  function ParseResolution(s: string): (r: Option<(int, int)>)
    ensures r.Some? ==> InInt32(r.value.0) && InInt32(r.value.1)
  {
    var parts := Split(s, ResolutionSeparator);
    if |parts| != 2 then None
    else match (ParseInt32(parts[0]), ParseInt32(parts[1]))
      case (Some(w), Some(h)) => Some((w, h))
      case _ => None
  }

  lemma IntToStringHasNoSpace(i: int)
    ensures forall j :: 0 <= j < |IntToString(i)| ==> IntToString(i)[j] != ' '
  {
    var n := if i < 0 then -i else i;
    assert AllDigits(NatToString(n));
  }

  /** The resolution text names the width and the height it was made from. */
  lemma ResolutionTextReadsBack(m: VideoMetadata)
    requires InInt32(m.width) && InInt32(m.height)
    ensures ParseResolution(ResolutionText(m)) == Some((m.width, m.height))
  {
    var xs := [IntToString(m.width), IntToString(m.height)];
    IntToStringHasNoSpace(m.width);
    IntToStringHasNoSpace(m.height);
    assert Join(xs, ResolutionSeparator) == ResolutionText(m) by {
      assert xs[1..] == [IntToString(m.height)];
    }
    SplitJoin(xs, ResolutionSeparator);
    ParseIntToString(m.width);
    ParseIntToString(m.height);
  }

  /** `AspectRatio`: width over height, or zero when the height is not
      positive. */
  function AspectRatio(m: VideoMetadata): (r: Fraction)
    ensures r.den > 0
    ensures m.height > 0 ==> r.num * m.height == m.width * r.den
    ensures m.height <= 0 ==> r.num == 0
  {
    if m.height > 0 then Fraction(m.width, m.height) else Fraction(0, 1)
  }

  /** The size units, smallest first. */
  const SizeSuffixes: seq<string> := ["B", "KB", "MB", "GB", "TB"]

  /** The loop test of `FormatFileSize` after `c` divisions:
      `Math.Round(bytes / 1024^(c+1)) >= 1`, which for the midpoint-to-even
      rounding holds exactly when the quotient exceeds one half. */
  predicate KeepsDividing(bytes: int, c: nat) {
    2 * bytes > Pow1024(c + 1)
  }

  /** The number of divisions the loop performs, starting from `c`. */
  function DivisionsFrom(bytes: int, c: nat): (n: nat)
    requires c == 0 || 2 * bytes > Pow1024(c)
    ensures n >= c && (n == 0 || 2 * bytes > Pow1024(n)) && 2 * bytes <= Pow1024(n + 1)
    decreases 2 * bytes - Pow1024(c)
  {
    if KeepsDividing(bytes, c) then DivisionsFrom(bytes, c + 1) else c
  }

  /** The unit index `FormatFileSize` reaches, with no cap. */
  function UnitIndexAsWritten(bytes: int): nat {
    DivisionsFrom(bytes, 0)
  }

  /** The unit index is the one power of 1024 that brackets twice the size:
      `1024^c < 2 * bytes <= 1024^(c+1)` (for `c > 0`), so the printed
      number lies in (0.5, 512]. */
  lemma {:induction false} UnitIndexCharacterised(bytes: int, c: nat)
    ensures UnitIndexAsWritten(bytes) == c <==>
            ((c == 0 || 2 * bytes > Pow1024(c)) && 2 * bytes <= Pow1024(c + 1))
  {
    var n := UnitIndexAsWritten(bytes);
    if (c == 0 || 2 * bytes > Pow1024(c)) && 2 * bytes <= Pow1024(c + 1) {
      if c < n {
        Pow1024Monotone(c + 1, n);
      } else if n < c {
        Pow1024Monotone(n + 1, c);
      }
    }
  }

  /** `FormatFileSize`'s unit as written: `None` stands for the
      `IndexOutOfRangeException` raised when the loop runs past `TB`. */
  function SizeUnitAsWritten(bytes: int): Option<string> {
    var c := UnitIndexAsWritten(bytes);
    if c < |SizeSuffixes| then Some(SizeSuffixes[c]) else None
  }

  /** Just over half a pebibyte, the loop divides five times and the lookup
      runs past the last unit. */
  lemma SizeUnitOverflows()
    ensures UnitIndexAsWritten(0x2_0000_0000_0001) == 5
    ensures SizeUnitAsWritten(0x2_0000_0000_0001) == None
  {
    var b := 0x2_0000_0000_0001;
    assert Pow1024(5) == 0x4_0000_0000_0000;
    assert Pow1024(6) == 0x1000_0000_0000_0000;
    UnitIndexCharacterised(b, 5);
  }

  /** The unit index with the loop stopped at the last unit. */
  function UnitIndex(bytes: int): (c: nat)
    ensures c < |SizeSuffixes|
  {
    Min(UnitIndexAsWritten(bytes), |SizeSuffixes| - 1)
  }

  /** `FormatFileSize`'s unit with the loop capped at `TB`: always defined,
      and the same as the unit as written wherever that one is. */
  function SizeUnit(bytes: int): (u: string)
    ensures u in SizeSuffixes
    ensures SizeUnitAsWritten(bytes).Some? ==> SizeUnitAsWritten(bytes) == Some(u)
  {
    SizeSuffixes[UnitIndex(bytes)]
  }

  /** The unit as written is defined exactly up to 512 TiB. */
  lemma SizeUnitDefinedIff(bytes: int)
    ensures SizeUnitAsWritten(bytes).Some? <==> 2 * bytes <= Pow1024(5)
  {
    var c := UnitIndexAsWritten(bytes);
    if c >= 5 {
      Pow1024Monotone(5, c);
    } else {
      Pow1024Monotone(c + 1, 5);
    }
  }

  /** A fresh record: zero duration, 0 x 0, empty texts, no aspect ratio. */
  lemma DefaultMetadataIsEmpty()
    ensures DefaultMetadata.duration == 0 && ResolutionText(DefaultMetadata) == "0 x 0"
    ensures AspectRatio(DefaultMetadata).num == 0 && SizeUnit(DefaultMetadata.fileSize) == "B"
    ensures DurationFormatted(DefaultMetadata) == "00:00:00.000"
  {
    assert UnitIndexAsWritten(0) == 0;
    assert IntToString(0) == "0";
    ZeroDurationText();
  }
}
