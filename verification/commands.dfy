/** The two ffmpeg argument lists: `BuildFFmpegCommand` for a one-click
    optimisation and `BuildEditingCommand` for an edit. A command is the
    sequence of its space-separated arguments; the program's argument string
    is `CommandText` of it. Paths are passed inside double quotes. */
module Commands {
  import opened Basics
  import opened Strings
  import opened Numbers
  import opened TimeFormat
  import Crop
  import Resize
  import Editing
  import Optimization
  import Metadata

  /** The argument string handed to the process. */
  function CommandText(args: seq<string>): string {
    Join(args, " ")
  }

  function Unquote(t: string): (r: Option<string>)
    ensures r.Some? ==> Quote(r.value) == t
  {
    if |t| >= 2 && t[0] == '"' && t[|t| - 1] == '"' then
      assert t == "\"" + t[1..|t| - 1] + "\"";
      Some(t[1..|t| - 1])
    else None
  }

  lemma UnquoteQuote(s: string)
    ensures Unquote(Quote(s)) == Some(s)
  {
  }

  /** The optional switches and the quoted output path that end an
      optimisation command. */
  function FlagArgs(fastStart: bool, overwrite: bool, output: string): seq<string> {
    (if fastStart then ["-movflags", "+faststart"] else [])
    + (if overwrite then ["-y"] else [])
    + [Quote(output)]
  }

  /** `BuildFFmpegCommand`: input, video codec, CRF, preset, audio codec and
      bitrate in that order, then `-movflags +faststart` and `-y` when
      enabled, and the quoted output path last. */
  function BuildFFmpegCommand(o: Optimization.OptimizationOptions): (args: seq<string>)
    ensures |args| == 13 + (if o.addFastStart then 2 else 0) + (if o.overwriteExisting then 1 else 0)
    ensures args[|args| - 1] == Quote(o.outputPath)
  {
    ["-i", Quote(o.inputPath), "-c:v", o.videoCodec, "-crf", IntToString(o.crfValue),
     "-preset", o.preset, "-c:a", o.audioCodec, "-b:a", o.audioBitrate]
    + FlagArgs(o.addFastStart, o.overwriteExisting, o.outputPath)
  }

  /** What an optimisation command asks ffmpeg to do. */
  datatype OptimizeRequest = OptimizeRequest(
    input: string,
    videoCodec: string,
    crf: int,
    preset: string,
    audioCodec: string,
    audioBitrate: string,
    fastStart: bool,
    overwrite: bool,
    output: string)

  function RequestOf(o: Optimization.OptimizationOptions): OptimizeRequest {
    OptimizeRequest(o.inputPath, o.videoCodec, o.crfValue, o.preset, o.audioCodec,
                    o.audioBitrate, o.addFastStart, o.overwriteExisting, o.outputPath)
  }

  /** Reads the end of an optimisation command: the two optional switches
      in their fixed order and then exactly one quoted path. */
  function DecodeFlags(tail: seq<string>): Option<(bool, bool, string)> {
    var fastStart := |tail| >= 2 && tail[0] == "-movflags" && tail[1] == "+faststart";
    var afterFast := if fastStart then tail[2..] else tail;
    var overwrite := |afterFast| >= 1 && afterFast[0] == "-y";
    var rest := if overwrite then afterFast[1..] else afterFast;
    if |rest| != 1 then None
    else match Unquote(rest[0])
      case Some(output) => Some((fastStart, overwrite, output))
      case None => None
  }

  lemma DecodeFlagsReadsBack(fastStart: bool, overwrite: bool, output: string)
    ensures DecodeFlags(FlagArgs(fastStart, overwrite, output)) == Some((fastStart, overwrite, output))
  {
    UnquoteQuote(output);
    var q := Quote(output);
    assert q[0] == '"';
  }

  /** Reads an optimisation command back, the way ffmpeg sees its options. */
  function DecodeOptimizeCommand(args: seq<string>): Option<OptimizeRequest> {
    if |args| < 13 || args[0] != "-i" || args[2] != "-c:v" || args[4] != "-crf" ||
       args[6] != "-preset" || args[8] != "-c:a" || args[10] != "-b:a"
    then None
    else match (Unquote(args[1]), ParseInt32(args[5]), DecodeFlags(args[12..]))
      case (Some(input), Some(crf), Some((fastStart, overwrite, output))) =>
        Some(OptimizeRequest(input, args[3], crf, args[7], args[9], args[11], fastStart, overwrite, output))
      case _ => None
  }

  /** The optimisation command carries every option it was built from:
      fast start and overwrite appear exactly when enabled, and the paths,
      codecs, preset, bitrate and CRF come back unchanged. */
  lemma OptimizeCommandReadsBack(o: Optimization.OptimizationOptions)
    requires InInt32(o.crfValue)
    ensures DecodeOptimizeCommand(BuildFFmpegCommand(o)) == Some(RequestOf(o))
  {
    var args := BuildFFmpegCommand(o);
    BuildFFmpegShape(o);
    DecodeFlagsReadsBack(o.addFastStart, o.overwriteExisting, o.outputPath);
    ParseIntToString(o.crfValue);
    UnquoteQuote(o.inputPath);
    DecodeWellFormed(args, o.inputPath, o.crfValue, o.addFastStart, o.overwriteExisting, o.outputPath);
  }

  lemma BuildFFmpegShape(o: Optimization.OptimizationOptions)
    ensures var args := BuildFFmpegCommand(o);
            && args[0] == "-i" && args[1] == Quote(o.inputPath)
            && args[2] == "-c:v" && args[3] == o.videoCodec
            && args[4] == "-crf" && args[5] == IntToString(o.crfValue)
            && args[6] == "-preset" && args[7] == o.preset
            && args[8] == "-c:a" && args[9] == o.audioCodec
            && args[10] == "-b:a" && args[11] == o.audioBitrate
            && args[12..] == FlagArgs(o.addFastStart, o.overwriteExisting, o.outputPath)
  {
  }

  lemma DecodeWellFormed(args: seq<string>, input: string, crf: int, fastStart: bool, overwrite: bool, output: string)
    requires |args| >= 13 && args[0] == "-i" && args[2] == "-c:v" && args[4] == "-crf"
    requires args[6] == "-preset" && args[8] == "-c:a" && args[10] == "-b:a"
    requires Unquote(args[1]) == Some(input) && ParseInt32(args[5]) == Some(crf)
    requires DecodeFlags(args[12..]) == Some((fastStart, overwrite, output))
    ensures DecodeOptimizeCommand(args)
            == Some(OptimizeRequest(input, args[3], crf, args[7], args[9], args[11], fastStart, overwrite, output))
  {
  }

  /** `-ss <start> -t <end - start>` when the range is trimmed. */
  function TrimArgs(o: Editing.EditingOptions): seq<string> {
    if Editing.HasTrimming(o) then TrimTokens(o.trimStart, o.trimEnd - o.trimStart) else []
  }

  function TrimTokens(start: int, length: int): (ts: seq<string>)
    ensures |ts| == 4 && ts[0] == "-ss" && ts[1] == FormatHmsFff(start) && ts[2] == "-t" && ts[3] == FormatHmsFff(length)
  {
    ["-ss", FormatHmsFff(start), "-t", FormatHmsFff(length)]
  }

  /** `crop=<W>:<H>:<left>:<top>` with the cropped size computed from the
      source's size as `CropSettings` does. */
  function CropFilter(c: Crop.CropSettings, width: int, height: int): string {
    "crop=" + Join([IntToString(Crop.CalculateWidth(c, width)), IntToString(Crop.CalculateHeight(c, height)),
                    IntToString(c.left), IntToString(c.top)], ":")
  }

  /** `scale=<width>:<height>`. */
  function ScaleFilter(r: Resize.ResizeSettings): string {
    "scale=" + Join([IntToString(r.width), IntToString(r.height)], ":")
  }

  /** The filter chain: the crop (if any) before the scale (if any). */
  function Filters(o: Editing.EditingOptions, m: Metadata.VideoMetadata): seq<string> {
    (if Editing.HasCropping(o) then [CropFilter(o.crop, m.width, m.height)] else [])
    + (if Editing.HasResizing(o) then [ScaleFilter(o.resize)] else [])
  }

  /** One `-vf "<filters joined by commas>"` when there is any filter. */
  function FilterArgs(o: Editing.EditingOptions, m: Metadata.VideoMetadata): seq<string> {
    var filters := Filters(o, m);
    if |filters| > 0 then ["-vf", Quote(Join(filters, ","))] else []
  }

  /** The fixed encoder settings of an edit. */
  function EncodeArgs(crf: int): seq<string> {
    ["-c:v", "libx264", "-crf", IntToString(crf), "-preset", "medium",
     "-c:a", "aac", "-b:a", "128k", "-movflags", "+faststart", "-y"]
  }

  /** `BuildEditingCommand`: input, trim, filters, encoder settings, and the
      quoted output path last. */
  function BuildEditingCommand(o: Editing.EditingOptions, m: Metadata.VideoMetadata): (args: seq<string>)
    ensures |args| >= 3 && args[0] == "-i" && args[1] == Quote(o.inputPath) && args[|args| - 1] == Quote(o.outputPath)
  {
    var head := ["-i", Quote(o.inputPath)];
    var args := head + TrimArgs(o) + FilterArgs(o, m) + EncodeArgs(o.crfValue) + [Quote(o.outputPath)];
    assert args[..2] == head;
    args
  }

  function CountOf(xs: seq<string>, x: string): nat {
    if |xs| == 0 then 0 else (if xs[0] == x then 1 else 0) + CountOf(xs[1..], x)
  }

  lemma {:induction false} CountOfAppend(a: seq<string>, b: seq<string>, x: string)
    ensures CountOf(a + b, x) == CountOf(a, x) + CountOf(b, x)
    decreases |a|
  {
    if |a| == 0 {
      assert a + b == b;
    } else {
      assert (a + b)[1..] == a[1..] + b;
      CountOfAppend(a[1..], b, x);
    }
  }

  lemma CountOfAbsent(xs: seq<string>, x: string)
    requires forall i :: 0 <= i < |xs| ==> xs[i] != x
    ensures CountOf(xs, x) == 0
  {
    if |xs| > 0 {
      CountOfAbsent(xs[1..], x);
    }
  }

  lemma CountOfFive(a: seq<string>, b: seq<string>, c: seq<string>, d: seq<string>, e: seq<string>, x: string)
    ensures CountOf(a + b + c + d + e, x) == CountOf(a, x) + CountOf(b, x) + CountOf(c, x) + CountOf(d, x) + CountOf(e, x)
  {
    CountOfAppend(a, b, x);
    CountOfAppend(a + b, c, x);
    CountOfAppend(a + b + c, d, x);
    CountOfAppend(a + b + c + d, e, x);
  }

  /** A quoted argument is never an option name. */
  lemma QuotedIsNotOption(s: string, opt: string)
    requires |opt| > 0 && opt[0] == '-'
    ensures CountOf([Quote(s)], opt) == 0
  {
    CountOfAbsent([Quote(s)], opt);
  }

  lemma TrimHasNoFilter(o: Editing.EditingOptions)
    ensures CountOf(TrimArgs(o), "-vf") == 0
  {
    var t := TrimArgs(o);
    if Editing.HasTrimming(o) {
      assert forall i :: 0 <= i < |t| ==> |t[i]| != 3 || t[i] == "-ss";
    }
    CountOfAbsent(t, "-vf");
  }

  lemma EncodeHasNoFilter(crf: int)
    ensures CountOf(EncodeArgs(crf), "-vf") == 0
  {
    var e := EncodeArgs(crf);
    IntToStringHasNo(crf, 'v');
    assert "-vf"[1] == 'v';
    assert forall i :: 0 <= i < |e| ==> e[i] != "-vf";
    CountOfAbsent(e, "-vf");
  }

  /** There is a filter exactly when the edit crops or resizes. */
  lemma FiltersPresentIff(o: Editing.EditingOptions, m: Metadata.VideoMetadata)
    ensures |Filters(o, m)| > 0 <==> Editing.HasCropping(o) || Editing.HasResizing(o)
    ensures |Filters(o, m)| == 2 <==> Editing.HasCropping(o) && Editing.HasResizing(o)
  {
  }

  lemma FilterArgsCount(o: Editing.EditingOptions, m: Metadata.VideoMetadata)
    ensures CountOf(FilterArgs(o, m), "-vf") == if |Filters(o, m)| > 0 then 1 else 0
  {
    var f := FilterArgs(o, m);
    if |Filters(o, m)| > 0 {
      var q := Quote(Join(Filters(o, m), ","));
      assert f == ["-vf", q];
      assert q[0] == '"';
      assert f[1..] == [q];
      CountOfAbsent(f[1..], "-vf");
    }
  }

  /** An edit command holds exactly one `-vf` when it crops or resizes, and
      none otherwise. */
  lemma SingleFilterOption(o: Editing.EditingOptions, m: Metadata.VideoMetadata)
    ensures CountOf(BuildEditingCommand(o, m), "-vf") == (if Editing.HasCropping(o) || Editing.HasResizing(o) then 1 else 0)
  {
    var head := ["-i", Quote(o.inputPath)];
    assert head == ["-i"] + [Quote(o.inputPath)];
    CountOfAppend(["-i"], [Quote(o.inputPath)], "-vf");
    QuotedIsNotOption(o.inputPath, "-vf");
    QuotedIsNotOption(o.outputPath, "-vf");
    CountOfFive(head, TrimArgs(o), FilterArgs(o, m), EncodeArgs(o.crfValue), [Quote(o.outputPath)], "-vf");
    TrimHasNoFilter(o);
    EncodeHasNoFilter(o.crfValue);
    FilterArgsCount(o, m);
    FiltersPresentIff(o, m);
  }

  lemma DigitsHaveNo(s: string, c: char)
    requires AllDigits(s) && !IsAsciiDigit(c)
    ensures forall j :: 0 <= j < |s| ==> s[j] != c
  {
  }

  lemma IntToStringHasNo(i: int, c: char)
    requires !IsAsciiDigit(c) && c != '-'
    ensures forall j :: 0 <= j < |IntToString(i)| ==> IntToString(i)[j] != c
  {
    var n := if i < 0 then -i else i;
    DigitsHaveNo(NatToString(n), c);
    if i < 0 {
      assert forall j :: 1 <= j < |IntToString(i)| ==> IntToString(i)[j] == NatToString(n)[j - 1];
    }
  }

  /** `name=` followed by parts joined with `:` avoids any character that
      the name and the parts avoid, other than `=` and `:`. */
  lemma NamedPartsAvoid(name: string, parts: seq<string>, c: char)
    requires forall j :: 0 <= j < |name| ==> name[j] != c
    requires c != '=' && c != ':'
    requires forall i :: 0 <= i < |parts| ==> forall j :: 0 <= j < |parts[i]| ==> parts[i][j] != c
    ensures forall j :: 0 <= j < |name + "=" + Join(parts, ":")| ==> (name + "=" + Join(parts, ":"))[j] != c
  {
    var joined := Join(parts, ":");
    JoinAvoids(parts, ":", c);
    var f := name + "=" + joined;
    forall j | 0 <= j < |f|
      ensures f[j] != c
    {
      if j < |name| {
        assert f[j] == name[j];
      } else if j > |name| {
        assert f[j] == joined[j - |name| - 1];
      }
    }
  }

  lemma CropFilterHasNoComma(c: Crop.CropSettings, width: int, height: int)
    ensures forall j :: 0 <= j < |CropFilter(c, width, height)| ==> CropFilter(c, width, height)[j] != ','
  {
    var a, b, x, y := IntToString(Crop.CalculateWidth(c, width)), IntToString(Crop.CalculateHeight(c, height)),
                      IntToString(c.left), IntToString(c.top);
    IntToStringHasNo(Crop.CalculateWidth(c, width), ',');
    IntToStringHasNo(Crop.CalculateHeight(c, height), ',');
    IntToStringHasNo(c.left, ',');
    IntToStringHasNo(c.top, ',');
    NamedPartsAvoid("crop", [a, b, x, y], ',');
    assert "crop=" == "crop" + "=";
    assert CropFilter(c, width, height) == "crop" + "=" + Join([a, b, x, y], ":");
  }

  lemma ScaleFilterHasNoComma(r: Resize.ResizeSettings)
    ensures forall j :: 0 <= j < |ScaleFilter(r)| ==> ScaleFilter(r)[j] != ','
  {
    IntToStringHasNo(r.width, ',');
    IntToStringHasNo(r.height, ',');
    NamedPartsAvoid("scale", [IntToString(r.width), IntToString(r.height)], ',');
    assert "scale=" == "scale" + "=";
    assert ScaleFilter(r) == "scale" + "=" + Join([IntToString(r.width), IntToString(r.height)], ":");
  }

  lemma {:induction false} JoinAvoids(xs: seq<string>, sep: string, c: char)
    requires forall j :: 0 <= j < |sep| ==> sep[j] != c
    requires forall i :: 0 <= i < |xs| ==> forall j :: 0 <= j < |xs[i]| ==> xs[i][j] != c
    ensures forall j :: 0 <= j < |Join(xs, sep)| ==> Join(xs, sep)[j] != c
    decreases |xs|
  {
    if |xs| > 1 {
      JoinAvoids(xs[1..], sep, c);
    }
  }

  /** The filter chain reads back by splitting at commas, with the crop
      always before the scale. */
  lemma FilterChainReadsBack(o: Editing.EditingOptions, m: Metadata.VideoMetadata)
    requires |Filters(o, m)| > 0
    ensures Split(Join(Filters(o, m), ","), ",") == Filters(o, m)
    ensures Editing.HasCropping(o) ==> Filters(o, m)[0] == CropFilter(o.crop, m.width, m.height)
    ensures Editing.HasResizing(o) ==> Filters(o, m)[|Filters(o, m)| - 1] == ScaleFilter(o.resize)
  {
    var fs := Filters(o, m);
    CropFilterHasNoComma(o.crop, m.width, m.height);
    ScaleFilterHasNoComma(o.resize);
    assert forall i :: 0 <= i < |fs| ==> fs[i] == CropFilter(o.crop, m.width, m.height) || fs[i] == ScaleFilter(o.resize);
    SplitJoin(fs, ",");
  }

  /** Reads `crop=W:H:X:Y` back into its four numbers. */
  function ParseCropFilter(f: string): Option<seq<int>> {
    if !StartsWith(f, "crop=") then None
    else
      var parts := Split(f[5..], ":");
      if |parts| != 4 then None
      else match (ParseInt32(parts[0]), ParseInt32(parts[1]), ParseInt32(parts[2]), ParseInt32(parts[3]))
        case (Some(w), Some(h), Some(x), Some(y)) => Some([w, h, x, y])
        case _ => None
  }

  /** The crop filter names the cropped size computed from the source size
      and the left and top margins as the offset. */
  lemma CropFilterReadsBack(c: Crop.CropSettings, width: int, height: int)
    requires InInt32(c.left) && InInt32(c.top)
    ensures ParseCropFilter(CropFilter(c, width, height))
            == Some([Crop.CalculateWidth(c, width), Crop.CalculateHeight(c, height), c.left, c.top])
  {
    CropValuesReadBack(Crop.CalculateWidth(c, width), Crop.CalculateHeight(c, height), c.left, c.top);
  }

  /** Any four 32-bit values written as a crop filter read back. */
  lemma CropValuesReadBack(w: int, h: int, x: int, y: int)
    requires InInt32(w) && InInt32(h) && InInt32(x) && InInt32(y)
    ensures ParseCropFilter("crop=" + Join([IntToString(w), IntToString(h), IntToString(x), IntToString(y)], ":"))
            == Some([w, h, x, y])
  {
    var xs := [IntToString(w), IntToString(h), IntToString(x), IntToString(y)];
    var f := "crop=" + Join(xs, ":");
    assert f[5..] == Join(xs, ":");
    assert Split(f[5..], ":") == xs by {
      NumbersHaveNoColon(w, h, x, y);
      SplitJoin(xs, ":");
    }
    ParseIntToString(w);
    ParseIntToString(h);
    ParseIntToString(x);
    ParseIntToString(y);
    CropOfParts(f, xs, w, h, x, y);
  }

  lemma CropOfParts(f: string, parts: seq<string>, w: int, h: int, x: int, y: int)
    requires StartsWith(f, "crop=") && Split(f[5..], ":") == parts && |parts| == 4
    requires ParseInt32(parts[0]) == Some(w) && ParseInt32(parts[1]) == Some(h)
    requires ParseInt32(parts[2]) == Some(x) && ParseInt32(parts[3]) == Some(y)
    ensures ParseCropFilter(f) == Some([w, h, x, y])
  {
  }

  lemma NumbersHaveNoColon(w: int, h: int, x: int, y: int)
    ensures var xs := [IntToString(w), IntToString(h), IntToString(x), IntToString(y)];
            forall i, j :: 0 <= i < |xs| && 0 <= j < |xs[i]| ==> xs[i][j] != ":"[0]
  {
    var xs := [IntToString(w), IntToString(h), IntToString(x), IntToString(y)];
    forall i | 0 <= i < |xs|
      ensures forall j :: 0 <= j < |xs[i]| ==> xs[i][j] != ':'
    {
      IntToStringHasNo([w, h, x, y][i], ':');
    }
  }

  /** The trim arguments read back as the start and the length of the kept
      range, and the two add up to the chosen end (for ranges within a day,
      which is all the `hh` format can show). */
  lemma TrimArgsReadBack(o: Editing.EditingOptions)
    requires Editing.HasTrimming(o) && 0 <= o.trimStart <= o.trimEnd < MsPerDay
    ensures |TrimArgs(o)| == 4 && TrimArgs(o)[0] == "-ss" && TrimArgs(o)[2] == "-t"
    ensures ParseHmsFff(TrimArgs(o)[1]) == Some(o.trimStart)
    ensures ParseHmsFff(TrimArgs(o)[3]) == Some(o.trimEnd - o.trimStart)
  {
    var length := o.trimEnd - o.trimStart;
    TrimTokensReadBack(o.trimStart, length);
    assert TrimArgs(o) == TrimTokens(o.trimStart, length);
  }

  /** The two times of the trim tokens read back, within a day. */
  lemma TrimTokensReadBack(start: int, length: int)
    requires 0 <= start < MsPerDay && 0 <= length < MsPerDay
    ensures ParseHmsFff(TrimTokens(start, length)[1]) == Some(start)
    ensures ParseHmsFff(TrimTokens(start, length)[3]) == Some(length)
  {
    ParseFormatWithinDay(start);
    ParseFormatWithinDay(length);
  }

  /** Cutting 10 pixels from the top and bottom of a 1920x1080 source gives
      `crop=1920:1060:0:10`. */
  lemma CropFilterExample()
    ensures ParseCropFilter(CropFilter(Crop.CropSettings(10, 0, 10, 0), 1920, 1080)) == Some([1920, 1060, 0, 10])
  {
    var c := Crop.CropSettings(10, 0, 10, 0);
    CropFilterReadsBack(c, 1920, 1080);
    assert Crop.CalculateWidth(c, 1920) == 1920;
    assert Crop.CalculateHeight(c, 1080) == 1060;
  }
}
