/** The program's entry point: what one start with the given command-line
    arguments leads to, the test for a video file name, and the registry
    values the installer writes for the Explorer context menu. The file
    system is the set of paths that exist; which ffmpeg builds can be found
    is given. */
module Cli {
  import opened Basics
  import opened Strings
  import opened Paths
  import Optimization
  import Jobs
  import Results

  /** The extensions `IsVideoFile` accepts. */
  const VideoExtensions: seq<string> :=
    [".mp4", ".avi", ".mkv", ".mov", ".wmv", ".flv", ".webm", ".m4v",
     ".mpg", ".mpeg", ".3gp", ".asf", ".rm", ".rmvb", ".ts", ".mts"]

  /** The extensions `RegisterContextMenu` registers, listed separately in
      the installer. */
  const RegisteredExtensions: seq<string> :=
    [".mp4", ".avi", ".mkv", ".mov", ".wmv", ".flv", ".webm", ".m4v",
     ".mpg", ".mpeg", ".3gp", ".asf", ".rm", ".rmvb", ".ts", ".mts"]

  /** All the listed extensions are already lower case. */
  predicate IsLowerExtension(e: string) {
    LowerAscii(e) == e
  }

  /** `IsVideoFile`: the path's extension is in the set, compared without
      regard to letter case. */
  predicate IsVideoFile(path: string) {
    LowerAscii(ExtensionOf(path)) in VideoExtensions
  }

  /** Matching against the lower-case set is the same as the set's
      case-insensitive comparer: some listed extension equals the path's
      extension up to case. A path without an extension is never a video. */
  lemma IsVideoFileIff(path: string)
    ensures IsVideoFile(path) <==> exists i :: 0 <= i < |VideoExtensions| && EqualsIgnoreCase(ExtensionOf(path), VideoExtensions[i])
    ensures ExtensionOf(path) == "" ==> !IsVideoFile(path)
  {
    RegisteredMeansAccepted();
    var e := LowerAscii(ExtensionOf(path));
    if e in VideoExtensions {
      var i :| 0 <= i < |VideoExtensions| && VideoExtensions[i] == e;
      assert EqualsIgnoreCase(ExtensionOf(path), VideoExtensions[i]);
    }
    if exists i :: 0 <= i < |VideoExtensions| && EqualsIgnoreCase(ExtensionOf(path), VideoExtensions[i]) {
      var i :| 0 <= i < |VideoExtensions| && EqualsIgnoreCase(ExtensionOf(path), VideoExtensions[i]);
      assert VideoExtensions[i] == e;
    }
  }

  /** The letter case of the extension never matters. */
  lemma IsVideoFileIgnoresCase(a: string, b: string)
    requires EqualsIgnoreCase(ExtensionOf(a), ExtensionOf(b))
    ensures IsVideoFile(a) <==> IsVideoFile(b)
  {
  }

  /** The installer registers the menu for exactly the files the program
      then accepts: the two lists agree, each entry is a lower-case
      extension, and there are sixteen of them without repeats. */
  lemma RegisteredMeansAccepted()
    ensures RegisteredExtensions == VideoExtensions && |VideoExtensions| == 16
    ensures forall i :: 0 <= i < |VideoExtensions| ==>
              IsLowerExtension(VideoExtensions[i]) && |VideoExtensions[i]| >= 2 && VideoExtensions[i][0] == '.'
    ensures forall i, j :: 0 <= i < j < |VideoExtensions| ==> VideoExtensions[i] != VideoExtensions[j]
  {
  }

  // ---------------------------------------------------------------------
  // Start-up
  // ---------------------------------------------------------------------

  const FlagInstall: string := "--install"
  const FlagSetup: string := "--setup"

  const FileNotFoundTitle: string := "File Not Found"
  const InvalidTypeTitle: string := "Invalid File Type"
  const FFmpegMissingTitle: string := "FFmpeg Not Found"

  const InvalidTypeMessage: string :=
    "The selected file does not appear to be a video file.\n\nSupported formats: MP4, AVI, MKV, MOV, WMV, FLV, WEBM, M4V"
  const FFmpegMissingMessage: string :=
    "FFmpeg is required but was not found in the application directory or system PATH.\n\nPlease either:\n" +
    "• Ensure FFmpeg is properly bundled with the application, or\n" +
    "• Install FFmpeg and add it to your system PATH"

  function FileNotFoundMessage(path: string): string {
    "The specified video file does not exist:\n" + path
  }

  /** What a start leads to. */
  datatype Launch =
    | OpenEditor
    | Install
    | ShowSetup
    | ErrorDialog(title: string, message: string)
    | OptimizeWith(options: Optimization.OptimizationOptions)

  /** The checks every start with a file argument makes before the tool
      check, in the order `Main` makes them; `None` means they all pass. */
  function FileCheck(path: string, existing: set<Path>): (r: Option<Launch>)
    ensures r.None? <==> Jobs.FileAt(path) in existing && IsVideoFile(path)
    ensures Jobs.FileAt(path) !in existing ==> r == Some(ErrorDialog(FileNotFoundTitle, FileNotFoundMessage(path)))
    ensures Jobs.FileAt(path) in existing && !IsVideoFile(path) ==> r == Some(ErrorDialog(InvalidTypeTitle, InvalidTypeMessage))
  {
    if Jobs.FileAt(path) !in existing then Some(ErrorDialog(FileNotFoundTitle, FileNotFoundMessage(path)))
    else if !IsVideoFile(path) then Some(ErrorDialog(InvalidTypeTitle, InvalidTypeMessage))
    else None
  }

  /** Which of the two flags, if any, a start names: exactly one argument,
      equal to the flag up to letter case. */
  function FlagOf(args: seq<string>): (r: Option<Launch>)
    ensures r.Some? ==> |args| == 1 && (r.value == Install || r.value == ShowSetup)
    ensures r == Some(Install) <==> |args| == 1 && EqualsIgnoreCase(args[0], FlagInstall)
    ensures r == Some(ShowSetup) <==> |args| == 1 && EqualsIgnoreCase(args[0], FlagSetup)
  {
    if |args| == 1 && EqualsIgnoreCase(args[0], FlagInstall) then Some(Install)
    else if |args| == 1 && EqualsIgnoreCase(args[0], FlagSetup) then
      assert LowerAscii(args[0])[2] == 's';
      assert LowerAscii(FlagInstall)[2] == 'i';
      Some(ShowSetup)
    else None
  }

  /** `Main` as written: no argument opens the editor; a lone flag runs the
      installer or its dialog; otherwise the first argument must exist and
      look like a video, and the bundled tools or, failing them, a system
      ffmpeg must be found before the progress window starts optimising. */
  function MainAsWritten(args: seq<string>, existing: set<Path>, tools: Jobs.Tools): (l: Launch)
    ensures |args| == 0 <==> l == OpenEditor
  {
    if |args| == 0 then OpenEditor
    else if FlagOf(args).Some? then FlagOf(args).value
    else if FileCheck(args[0], existing).Some? then FileCheck(args[0], existing).value
    else if !Jobs.IsFFmpegAvailable(tools) && !tools.systemFfmpeg then ErrorDialog(FFmpegMissingTitle, FFmpegMissingMessage)
    else OptimizeWith(Optimization.DefaultOptimization.(inputPath := args[0]))
  }

  /** With only a system ffmpeg, the start-up check lets an existing video
      through, but the optimiser it starts accepts only the bundled tools
      and fails straight away with its "not bundled" error. */
  lemma SystemFFmpegAcceptedThenRefused(args: seq<string>, existing: set<Path>, tools: Jobs.Tools, probed: Option<int>,
                                        inputSize: int, report: Jobs.RunReport, saturating: bool, render: string -> string)
    requires |args| >= 1 && FlagOf(args).None? && Jobs.FileAt(args[0]) in existing && IsVideoFile(args[0])
    requires !Jobs.IsFFmpegAvailable(tools) && tools.systemFfmpeg
    ensures var l := MainAsWritten(args, existing, tools);
            l.OptimizeWith? &&
            Jobs.OptimizeVideo(l.options, tools, existing, probed, inputSize, report, saturating, render).result
              == Results.CreateErrorMessage(Jobs.ServiceToolsMissing)
  {
  }

  /** `Main` with the tool check the optimiser itself makes, so that a
      start that opens the progress window can also run ffmpeg. */
  function Main(args: seq<string>, existing: set<Path>, tools: Jobs.Tools): (l: Launch)
    ensures |args| == 0 <==> l == OpenEditor
    ensures l == Install <==> |args| == 1 && EqualsIgnoreCase(args[0], FlagInstall)
    ensures l == ShowSetup <==> |args| == 1 && EqualsIgnoreCase(args[0], FlagSetup)
    ensures l.OptimizeWith? <==>
              |args| >= 1 && FlagOf(args).None? && Jobs.FileAt(args[0]) in existing && IsVideoFile(args[0]) &&
              Jobs.IsFFmpegAvailable(tools)
    ensures l.OptimizeWith? ==> l.options == Optimization.DefaultOptimization.(inputPath := args[0])
  {
    if |args| == 0 then OpenEditor
    else if FlagOf(args).Some? then FlagOf(args).value
    else if FileCheck(args[0], existing).Some? then FileCheck(args[0], existing).value
    else if !Jobs.IsFFmpegAvailable(tools) then ErrorDialog(FFmpegMissingTitle, FFmpegMissingMessage)
    else OptimizeWith(Optimization.DefaultOptimization.(inputPath := args[0]))
  }

  /** A missing file is reported as missing whatever its extension, and
      neither version of `Main` ever starts an optimisation without some
      ffmpeg. */
  lemma MissingFileReportedFirst(args: seq<string>, existing: set<Path>, tools: Jobs.Tools)
    requires |args| >= 1 && FlagOf(args).None? && Jobs.FileAt(args[0]) !in existing
    ensures Main(args, existing, tools) == ErrorDialog(FileNotFoundTitle, FileNotFoundMessage(args[0]))
    ensures MainAsWritten(args, existing, tools) == Main(args, existing, tools)
  {
  }

  /** Without any ffmpeg both versions refuse with the same dialog, and
      with the bundled tools they agree on every start. */
  lemma VersionsAgree(args: seq<string>, existing: set<Path>, tools: Jobs.Tools)
    ensures !Jobs.IsFFmpegAvailable(tools) && !tools.systemFfmpeg ==> !MainAsWritten(args, existing, tools).OptimizeWith?
    ensures Jobs.IsFFmpegAvailable(tools) ==> MainAsWritten(args, existing, tools) == Main(args, existing, tools)
    ensures !tools.systemFfmpeg ==> MainAsWritten(args, existing, tools) == Main(args, existing, tools)
  {
  }

  /** An optimisation `Main` starts is one the optimiser carries out: it
      runs ffmpeg on the file the argument names. */
  lemma StartedOptimisationRuns(args: seq<string>, existing: set<Path>, tools: Jobs.Tools, probed: Option<int>,
                                inputSize: int, report: Jobs.RunReport, saturating: bool, render: string -> string)
    requires Main(args, existing, tools).OptimizeWith?
    ensures var l := Main(args, existing, tools);
            Jobs.OptimizeVideo(l.options, tools, existing, probed, inputSize, report, saturating, render).command.Some? &&
            l.options.inputPath == args[0]
  {
  }

  // ---------------------------------------------------------------------
  // Context-menu registration
  // ---------------------------------------------------------------------

  const ExeName: string := "SmolVideo.exe"
  const MenuText: string := "Optimise video"
  const VerbKey: string := "\\shell\\SmolVideo"

  /** One value the installer writes under `HKEY_CLASSES_ROOT`. */
  datatype RegistryValue = RegistryValue(key: string, name: string, data: string)

  /** The ProgID an extension is registered under: the default value of the
      extension's key, or, when that is missing or empty, the extension
      without its dot followed by `file`. */
  function ProgIdFor(extension: string, registered: Option<string>): (p: string)
    requires |extension| >= 1
    ensures registered.Some? && registered.value != "" ==> p == registered.value
    ensures registered.None? || registered.value == "" ==>
              |p| == |extension| + 3 && p[..|extension| - 1] == extension[1..] && p[|extension| - 1..] == "file"
  {
    if registered.None? || registered.value == "" then extension[1..] + "file" else registered.value
  }

  /** The command line Explorer runs: the program's path and the clicked
      file, each in quotes, separated by a space. */
  function MenuCommand(appPath: string): (c: string)
    ensures |c| == |appPath| + 7
    ensures c[0] == '"' && c[1..|appPath| + 1] == appPath && c[|appPath| + 1..] == "\" \"%1\""
  {
    Quote(appPath) + " " + Quote("%1")
  }

  /** The program's path can be read back from the command: it is what lies
      between the first quote and the next one, as long as it holds no
      quote itself. */
  lemma MenuCommandReadsBack(appPath: string)
    requires forall i :: 0 <= i < |appPath| ==> appPath[i] != '"'
    ensures var c := MenuCommand(appPath);
            IndexOfQuoteFrom(c, 1) == |appPath| + 1 && c[1..IndexOfQuoteFrom(c, 1)] == appPath
  {
    var c := MenuCommand(appPath);
    assert c[|appPath| + 1] == '"';
    assert forall i :: 1 <= i < |appPath| + 1 ==> c[i] == appPath[i - 1];
    QuoteSearch(c, 1, |appPath| + 1);
  }

  /** The first `"` at or after `from`, or the length when there is none. */
  function IndexOfQuoteFrom(s: string, from: nat): (k: nat)
    requires from <= |s|
    ensures from <= k <= |s|
    ensures k < |s| ==> s[k] == '"'
    ensures forall i :: from <= i < k ==> s[i] != '"'
    decreases |s| - from
  {
    if from == |s| || s[from] == '"' then from else IndexOfQuoteFrom(s, from + 1)
  }

  lemma QuoteSearch(s: string, from: nat, k: nat)
    requires from <= k < |s| && s[k] == '"'
    requires forall i :: from <= i < k ==> s[i] != '"'
    ensures IndexOfQuoteFrom(s, from) == k
  {
  }

  /** The three values written for one extension: the menu entry's text
      and icon under `<ProgID>\shell\SmolVideo`, and the command under its
      `command` subkey. */
  function ValuesFor(extension: string, registered: Option<string>, appPath: string): (vs: seq<RegistryValue>)
    requires |extension| >= 1
    ensures |vs| == 3
  {
    var progId := ProgIdFor(extension, registered);
    [RegistryValue(progId + VerbKey, "", MenuText),
     RegistryValue(progId + VerbKey, "Icon", appPath),
     RegistryValue(progId + VerbKey + "\\command", "", MenuCommand(appPath))]
  }

  /** `RegisterContextMenu(installPath)`: the values for each extension in
      turn; `lookup` gives the default value of each extension's key. */
  function RegisterContextMenu(installPath: string, lookup: string -> Option<string>): (vs: seq<RegistryValue>)
    ensures |vs| == 3 * |RegisteredExtensions|
  {
    ValuesFrom(RegisteredExtensions, lookup, Combine(installPath, ExeName))
  }

  function ValuesFrom(extensions: seq<string>, lookup: string -> Option<string>, appPath: string): (vs: seq<RegistryValue>)
    requires forall i :: 0 <= i < |extensions| ==> |extensions[i]| >= 1
    ensures |vs| == 3 * |extensions|
  {
    if extensions == [] then []
    else ValuesFor(extensions[0], lookup(extensions[0]), appPath) + ValuesFrom(extensions[1..], lookup, appPath)
  }

  /** The values of the `i`-th extension sit at positions `3i` to `3i + 2`. */
  lemma {:induction false} ValuesFromAt(extensions: seq<string>, lookup: string -> Option<string>, appPath: string, i: nat)
    requires forall j :: 0 <= j < |extensions| ==> |extensions[j]| >= 1
    requires i < |extensions|
    ensures ValuesFrom(extensions, lookup, appPath)[3 * i..3 * i + 3] == ValuesFor(extensions[i], lookup(extensions[i]), appPath)
    decreases i
  {
    var head := ValuesFor(extensions[0], lookup(extensions[0]), appPath);
    var tail := ValuesFrom(extensions[1..], lookup, appPath);
    assert ValuesFrom(extensions, lookup, appPath) == head + tail;
    if i > 0 {
      ValuesFromAt(extensions[1..], lookup, appPath, i - 1);
      TripleAfterHead(head, tail, i);
    } else {
      assert (head + tail)[..3] == head;
    }
  }

  lemma TripleAfterHead<T>(head: seq<T>, tail: seq<T>, i: nat)
    requires |head| == 3 && 0 < i && 3 * i + 3 <= |head| + |tail|
    ensures (head + tail)[3 * i..3 * i + 3] == tail[3 * (i - 1)..3 * (i - 1) + 3]
  {
  }

  /** Every video extension gets a menu command that starts the installed
      program on the clicked file, under its own ProgID or, without one,
      under `<extension without dot>file`. */
  lemma EveryExtensionGetsCommand(installPath: string, lookup: string -> Option<string>, i: nat)
    requires i < |RegisteredExtensions|
    ensures var e := RegisteredExtensions[i];
            var appPath := Combine(installPath, ExeName);
            var progId := ProgIdFor(e, lookup(e));
            RegisterContextMenu(installPath, lookup)[3 * i + 2] ==
              RegistryValue(progId + VerbKey + "\\command", "", MenuCommand(appPath)) &&
            RegisterContextMenu(installPath, lookup)[3 * i] == RegistryValue(progId + VerbKey, "", MenuText) &&
            ((lookup(e).None? || lookup(e).value == "") ==> progId == e[1..] + "file")
  {
    var appPath := Combine(installPath, ExeName);
    RegisteredNonEmpty();
    ExtensionCommandAt(RegisteredExtensions, lookup, appPath, i);
  }

  lemma RegisteredNonEmpty()
    ensures forall j :: 0 <= j < |RegisteredExtensions| ==> |RegisteredExtensions[j]| >= 1
  {
  }

  /** The first and last values written for the `i`-th extension of any
      list. */
  lemma ExtensionCommandAt(extensions: seq<string>, lookup: string -> Option<string>, appPath: string, i: nat)
    requires forall j :: 0 <= j < |extensions| ==> |extensions[j]| >= 1
    requires i < |extensions|
    ensures var e := extensions[i];
            var progId := ProgIdFor(e, lookup(e));
            ValuesFrom(extensions, lookup, appPath)[3 * i + 2] ==
              RegistryValue(progId + VerbKey + "\\command", "", MenuCommand(appPath)) &&
            ValuesFrom(extensions, lookup, appPath)[3 * i] == RegistryValue(progId + VerbKey, "", MenuText)
  {
    ValuesFromAt(extensions, lookup, appPath, i);
    var vs := ValuesFrom(extensions, lookup, appPath);
    assert vs[3 * i + 2] == vs[3 * i..3 * i + 3][2];
    assert vs[3 * i] == vs[3 * i..3 * i + 3][0];
  }
}
