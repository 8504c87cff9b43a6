/** One ffmpeg run from start to result, as the optimisation service
    (`FFmpegService.OptimizeVideoAsync`) and the edit window
    (`VideoProcessingWindow.ProcessVideoEditAsync`) drive it. The process
    itself is outside the model: what it did enters as a `RunReport` (the
    standard-error lines it wrote, and how it ended), and the file system
    before the run as the set of existing paths. */
module Jobs {
  import opened Basics
  import opened Strings
  import opened Numbers
  import opened Paths
  import opened Results
  import opened Progress
  import Optimization
  import Editing
  import Metadata
  import Commands

  /** The line end `StringBuilder.AppendLine` writes on Windows. */
  const NewLine: string := "\r\n"

  /** A line ffmpeg wrote to standard error, with the wall-clock time in
      milliseconds since the window started when it arrived. */
  datatype StderrLine = StderrLine(text: string, clock: int)

  /** How the run ended: the process exited (with its exit code, whether
      the output file exists afterwards, its size and the run time), the
      wait was cancelled, or something else threw (message and the
      exception's text). */
  datatype RunEnd =
    | Exited(exitCode: int, outputExists: bool, outputSize: int, elapsed: int)
    | Cancelled
    | Crashed(message: string, details: string)

  datatype RunReport = RunReport(lines: seq<StderrLine>, end: RunEnd)

  /* ---------- the standard-error log ---------- */

  /** What the error builder holds: every non-empty line followed by a
      line end; empty lines are skipped. */
  function ErrorLog(lines: seq<StderrLine>): string {
    if |lines| == 0 then ""
    else (if lines[0].text == "" then "" else lines[0].text + NewLine) + ErrorLog(lines[1..])
  }

  /** The log of a longer run extends the log of its beginning. */
  lemma {:induction false} ErrorLogAppend(a: seq<StderrLine>, b: seq<StderrLine>)
    ensures ErrorLog(a + b) == ErrorLog(a) + ErrorLog(b)
    decreases |a|
  {
    if |a| == 0 {
      assert a + b == b;
    } else {
      assert (a + b)[0] == a[0];
      assert (a + b)[1..] == a[1..] + b;
      ErrorLogAppend(a[1..], b);
    }
  }

  /** The log is empty exactly when every line was empty. */
  lemma {:induction false} ErrorLogEmptyIff(lines: seq<StderrLine>)
    ensures ErrorLog(lines) == "" <==> forall i :: 0 <= i < |lines| ==> lines[i].text == ""
    decreases |lines|
  {
    if |lines| > 0 {
      ErrorLogEmptyIff(lines[1..]);
      assert forall i :: 1 <= i < |lines| ==> lines[i] == lines[1..][i - 1];
    }
  }

  /* ---------- the outcome ---------- */

  const NoOutputMessage: string := "Output file was not created"
  const ExitPrefix: string := "FFmpeg process failed with exit code "
  const UnexpectedPrefix: string := "Unexpected error: "

  function ExitMessage(code: int): string {
    ExitPrefix + IntToString(code)
  }

  /** The classification both callers share: success only when the
      process exited with 0 and the output file exists; otherwise an error
      that names the exit code and carries the standard-error log. A
      cancelled wait and an unexpected exception each give their own
      error. */
  function Outcome(end: RunEnd, lines: seq<StderrLine>, outputPath: string, inputSize: int): (r: ProcessResult)
    ensures WellFormed(r)
    ensures r.success <==> end.Exited? && end.exitCode == 0 && end.outputExists
    ensures r.success ==> r.outputPath == outputPath && r.inputFileSize == inputSize &&
                          r.outputFileSize == end.outputSize && r.processingTime == end.elapsed
    ensures end.Exited? && !r.success ==> r.exitCode == end.exitCode && r.errorDetails == ErrorLog(lines)
    ensures end.Cancelled? ==> r == CreateErrorMessage(CancelledMessage)
    ensures end.Crashed? ==> r.exitCode == -1 && r.errorDetails == end.details
  {
    match end
    case Exited(code, present, size, elapsed) =>
      if code == 0 && present then CreateSuccess(outputPath, elapsed, inputSize, size)
      else CreateError(if code == 0 then NoOutputMessage else ExitMessage(code), ErrorLog(lines), code)
    case Cancelled => CreateErrorMessage(CancelledMessage)
    case Crashed(message, details) => CreateError(UnexpectedPrefix + message, details, -1)
  }

  /** The kinds of outcome a user can tell apart. */
  datatype OutcomeKind = Succeeded | NoOutput | ExitFailure(code: int) | UserCancelled | Unexpected

  function KindOf(end: RunEnd): OutcomeKind {
    match end
    case Exited(code, present, _, _) =>
      if code == 0 && present then Succeeded else if code == 0 then NoOutput else ExitFailure(code)
    case Cancelled => UserCancelled
    case Crashed(_, _) => Unexpected
  }

  /** Reads the kind of outcome back from the message alone. */
  function ClassifyMessage(m: string): Option<OutcomeKind> {
    if m == SuccessMessage then Some(Succeeded)
    else if m == NoOutputMessage then Some(NoOutput)
    else if m == CancelledMessage then Some(UserCancelled)
    else if StartsWith(m, ExitPrefix) then
      match ParseInt32(m[|ExitPrefix|..])
      case None => None
      case Some(code) => Some(ExitFailure(code))
    else if StartsWith(m, UnexpectedPrefix) then Some(Unexpected)
    else None
  }

  /** The message of every outcome tells which case produced it, and for
      a failed exit it names the exit code exactly. */
  lemma ClassifyOutcome(end: RunEnd, lines: seq<StderrLine>, outputPath: string, inputSize: int)
    requires end.Exited? ==> InInt32(end.exitCode)
    ensures ClassifyMessage(Outcome(end, lines, outputPath, inputSize).message) == Some(KindOf(end))
  {
    var m := Outcome(end, lines, outputPath, inputSize).message;
    FixedMessagesClassified();
    match end
    case Exited(code, present, _, _) =>
      if code != 0 {
        assert m == ExitMessage(code);
        ExitMessageClassified(code);
      } else if present {
        assert m == SuccessMessage;
      } else {
        assert m == NoOutputMessage;
      }
    case Cancelled =>
      assert m == CancelledMessage;
    case Crashed(message, _) =>
      assert m == UnexpectedPrefix + message;
      UnexpectedClassified(message);
  }

  lemma FixedMessagesClassified()
    ensures ClassifyMessage(SuccessMessage) == Some(Succeeded)
    ensures ClassifyMessage(NoOutputMessage) == Some(NoOutput)
    ensures ClassifyMessage(CancelledMessage) == Some(UserCancelled)
  {
    assert NoOutputMessage[0] != SuccessMessage[0];
    assert CancelledMessage[0] != SuccessMessage[0] && CancelledMessage[1] != NoOutputMessage[1];
  }

  lemma UnexpectedClassified(message: string)
    ensures ClassifyMessage(UnexpectedPrefix + message) == Some(Unexpected)
  {
    var m := UnexpectedPrefix + message;
    assert m[0] == 'U';
    assert m[0] != SuccessMessage[0] && m[0] != NoOutputMessage[0] && m[0] != CancelledMessage[0];
    assert m[0] != ExitPrefix[0];
    assert m[..|UnexpectedPrefix|] == UnexpectedPrefix;
  }

  lemma ExitMessageClassified(code: int)
    requires InInt32(code) && code != 0
    ensures ClassifyMessage(ExitMessage(code)) == Some(ExitFailure(code))
  {
    var m := ExitMessage(code);
    assert m[0] == 'F';
    assert m[0] != SuccessMessage[0] && m[0] != NoOutputMessage[0] && m[0] != CancelledMessage[0];
    assert m[..|ExitPrefix|] == ExitPrefix;
    assert m[|ExitPrefix|..] == IntToString(code);
    ParseIntToString(code);
  }

  /* ---------- the two callers' preconditions ---------- */

  /** Which ffmpeg builds can be found: the bundled ffmpeg and ffprobe
      next to the application, and an ffmpeg on the system path. */
  datatype Tools = Tools(bundledFfmpeg: bool, bundledFfprobe: bool, systemFfmpeg: bool)

  /** `IsFFmpegAvailable`: both bundled tools exist. */
  predicate IsFFmpegAvailable(t: Tools) {
    t.bundledFfmpeg && t.bundledFfprobe
  }

  const ServiceToolsMissing: string :=
    "FFmpeg not found. Please ensure FFmpeg is bundled with the application."
  const EditorToolsMissing: string :=
    "FFmpeg not found. Please ensure FFmpeg is bundled with the application or available in system PATH."

  function InputNotFound(path: string): string {
    "Input file not found: " + path
  }

  /** The file a path's text names. */
  function FileAt(s: string): Path {
    Path(DirectoryOf(s), StemOf(s), ExtensionOf(s))
  }

  /* ---------- the optimisation service ---------- */

  const StartingStatus: string := "Starting video optimization..."
  const OptimizedStatus: string := "Optimization completed successfully!"

  /** The events `ParseProgress` raises over a run: each non-empty line in
      arrival order. */
  function ServiceEventsOf(lines: seq<StderrLine>, total: int, saturating: bool, render: string -> string): seq<ServiceEvent> {
    if |lines| == 0 then []
    else LineEvents(lines[0], total, saturating, render) + ServiceEventsOf(lines[1..], total, saturating, render)
  }

  /** The handler only sees non-empty lines. */
  function LineEvents(line: StderrLine, total: int, saturating: bool, render: string -> string): seq<ServiceEvent> {
    if line.text == "" then [] else ServiceParse(line.text, total, saturating, render)
  }

  lemma {:induction false} ServiceEventsAppend(a: seq<StderrLine>, b: seq<StderrLine>, total: int, saturating: bool, render: string -> string)
    ensures ServiceEventsOf(a + b, total, saturating, render)
            == ServiceEventsOf(a, total, saturating, render) + ServiceEventsOf(b, total, saturating, render)
    decreases |a|
  {
    if |a| == 0 {
      assert a + b == b;
    } else {
      assert (a + b)[0] == a[0];
      assert (a + b)[1..] == a[1..] + b;
      ServiceEventsAppend(a[1..], b, total, saturating, render);
      var h := LineEvents(a[0], total, saturating, render);
      var x := ServiceEventsOf(a[1..], total, saturating, render);
      var y := ServiceEventsOf(b, total, saturating, render);
      assert ServiceEventsOf(a + b, total, saturating, render) == h + (x + y);
      assert h + (x + y) == (h + x) + y;
    }
  }

  /** Without a positive duration a whole run raises status texts only,
      never a percentage. */
  lemma {:induction false} ServiceRunSilentWithoutDuration(lines: seq<StderrLine>, total: int, saturating: bool, render: string -> string)
    requires total <= 0
    ensures forall i :: 0 <= i < |ServiceEventsOf(lines, total, saturating, render)| ==>
              ServiceEventsOf(lines, total, saturating, render)[i].StatusChanged?
    decreases |lines|
  {
    if |lines| > 0 {
      if lines[0].text != "" {
        ServiceSilentWithoutDuration(lines[0].text, total, saturating, render);
      }
      ServiceRunSilentWithoutDuration(lines[1..], total, saturating, render);
      var head := LineEvents(lines[0], total, saturating, render);
      var tail := ServiceEventsOf(lines[1..], total, saturating, render);
      assert ServiceEventsOf(lines, total, saturating, render) == head + tail;
    }
  }

  /** What the service returns and what it did on the way: the result, the
      ffmpeg arguments it ran (if it got that far) and its events. */
  datatype ServiceRun = ServiceRun(result: ProcessResult, command: Option<seq<string>>, events: seq<ServiceEvent>)

  /** A run's events: the start status, the events of its lines, and the
      completion status when it succeeded. */
  function RunEvents(success: bool, lineEvents: seq<ServiceEvent>): seq<ServiceEvent> {
    [StatusChanged(StartingStatus)] + lineEvents + (if success then [StatusChanged(OptimizedStatus)] else [])
  }

  /** The options with the output path the service picks. */
  function Prepared(o: Optimization.OptimizationOptions, existing: set<Path>): Optimization.OptimizationOptions {
    o.(outputPath := PathText(Optimization.GetUniqueOutputPath(o, existing)))
  }

  /** `OptimizeVideoAsync`. `probed` is what ffprobe reported as the
      duration, `saturating` selects the runtime's double-to-int cast and
      `render` the `F1` rendering of a speed. */
  function OptimizeVideo(o: Optimization.OptimizationOptions, tools: Tools, existing: set<Path>, probed: Option<int>,
                         inputSize: int, report: RunReport, saturating: bool, render: string -> string): (r: ServiceRun)
    ensures r.command.Some? <==> IsFFmpegAvailable(tools) && FileAt(o.inputPath) in existing
    ensures !IsFFmpegAvailable(tools) ==> r.result == CreateErrorMessage(ServiceToolsMissing) && r.events == []
    ensures IsFFmpegAvailable(tools) && FileAt(o.inputPath) !in existing ==>
              r.result == CreateErrorMessage(InputNotFound(o.inputPath)) && r.events == []
    ensures r.command.Some? ==> r.command.value == Commands.BuildFFmpegCommand(Prepared(o, existing))
    ensures r.command.Some? ==> r.result == Outcome(report.end, report.lines, Prepared(o, existing).outputPath, inputSize)
    ensures r.command.Some? ==>
              r.events == RunEvents(r.result.success, ServiceEventsOf(report.lines, ProbeDuration(probed), saturating, render))
  {
    if !IsFFmpegAvailable(tools) then ServiceRun(CreateErrorMessage(ServiceToolsMissing), None, [])
    else if FileAt(o.inputPath) !in existing then ServiceRun(CreateErrorMessage(InputNotFound(o.inputPath)), None, [])
    else
      var o' := Prepared(o, existing);
      var result := Outcome(report.end, report.lines, o'.outputPath, inputSize);
      ServiceRun(result, Some(Commands.BuildFFmpegCommand(o')),
                 RunEvents(result.success, ServiceEventsOf(report.lines, ProbeDuration(probed), saturating, render)))
  }

  /** The service reports success exactly when both tools and the input
      exist, ffmpeg exits with 0 and the output file is there; the result
      then names the file the command wrote, which did not exist before
      unless overwriting was asked for. */
  lemma OptimizeSucceedsIff(o: Optimization.OptimizationOptions, tools: Tools, existing: set<Path>, probed: Option<int>,
                            inputSize: int, report: RunReport, saturating: bool, render: string -> string)
    ensures var r := OptimizeVideo(o, tools, existing, probed, inputSize, report, saturating, render);
            r.result.success <==>
              IsFFmpegAvailable(tools) && FileAt(o.inputPath) in existing &&
              report.end.Exited? && report.end.exitCode == 0 && report.end.outputExists
    ensures var r := OptimizeVideo(o, tools, existing, probed, inputSize, report, saturating, render);
            var out := Optimization.GetUniqueOutputPath(o, existing);
            r.result.success ==>
              r.result.outputPath == PathText(out) &&
              r.command.value[|r.command.value| - 1] == Quote(r.result.outputPath) &&
              (!o.overwriteExisting ==> out !in existing)
  {
  }

  /** The command the service ran reads back as the request it was built
      from, with the chosen output path. */
  lemma OptimizeCommandIsRequest(o: Optimization.OptimizationOptions, tools: Tools, existing: set<Path>, probed: Option<int>,
                                 inputSize: int, report: RunReport, saturating: bool, render: string -> string)
    requires InInt32(o.crfValue)
    ensures var r := OptimizeVideo(o, tools, existing, probed, inputSize, report, saturating, render);
            r.command.Some? ==> Commands.DecodeOptimizeCommand(r.command.value) == Some(Commands.RequestOf(Prepared(o, existing)))
  {
    Commands.OptimizeCommandReadsBack(Prepared(o, existing));
  }

  /** A run starts with the start status and a successful one ends with
      the completion status. An unknown duration leaves only status
      texts. */
  lemma OptimizeEvents(o: Optimization.OptimizationOptions, tools: Tools, existing: set<Path>,
                       inputSize: int, report: RunReport, saturating: bool, render: string -> string)
    requires IsFFmpegAvailable(tools) && FileAt(o.inputPath) in existing
    ensures var r := OptimizeVideo(o, tools, existing, None, inputSize, report, saturating, render);
            |r.events| >= 1 && r.events[0] == StatusChanged(StartingStatus) &&
            (r.result.success ==> r.events[|r.events| - 1] == StatusChanged(OptimizedStatus)) &&
            forall i :: 0 <= i < |r.events| ==> r.events[i].StatusChanged?
  {
    var r := OptimizeVideo(o, tools, existing, None, inputSize, report, saturating, render);
    var lineEvents := ServiceEventsOf(report.lines, ProbeDuration(None), saturating, render);
    ServiceRunSilentWithoutDuration(report.lines, ProbeDuration(None), saturating, render);
    RunEventsShape(r.result.success, lineEvents);
  }

  lemma RunEventsShape(success: bool, lineEvents: seq<ServiceEvent>)
    ensures var e := RunEvents(success, lineEvents);
            |e| >= 1 && e[0] == StatusChanged(StartingStatus) &&
            (success ==> e[|e| - 1] == StatusChanged(OptimizedStatus)) &&
            ((forall i :: 0 <= i < |lineEvents| ==> lineEvents[i].StatusChanged?) ==>
               forall i :: 0 <= i < |e| ==> e[i].StatusChanged?)
  {
    var e := RunEvents(success, lineEvents);
    assert forall i :: 1 <= i <= |lineEvents| ==> e[i] == lineEvents[i - 1];
  }

  /* ---------- the edit window ---------- */

  /** Which ffmpeg the edit window runs. */
  datatype Encoder = BundledFfmpeg | SystemFfmpeg

  /** The bundled build if both its tools exist, else the system's. */
  function ChooseEncoder(t: Tools): (e: Option<Encoder>)
    ensures e == Some(BundledFfmpeg) <==> IsFFmpegAvailable(t)
    ensures e.None? <==> !IsFFmpegAvailable(t) && !t.systemFfmpeg
  {
    if IsFFmpegAvailable(t) then Some(BundledFfmpeg)
    else if t.systemFfmpeg then Some(SystemFfmpeg)
    else None
  }

  /** The total the edit window's progress is measured against, as
      written: the whole source duration, even when only a part is cut. */
  function ProgressTotalAsWritten(o: Editing.EditingOptions, m: Metadata.VideoMetadata): int {
    m.duration
  }

  /** The corrected total: the length of the output, which is what ffmpeg's
      `time=` counts up to. That is the trimmed span when trimming, else the
      whole duration. */
  function ProgressTotal(o: Editing.EditingOptions, m: Metadata.VideoMetadata): (t: int)
    ensures Editing.HasTrimming(o) ==> t == o.trimEnd - o.trimStart
    ensures !Editing.HasTrimming(o) ==> t == m.duration
  {
    if Editing.HasTrimming(o) then o.trimEnd - o.trimStart else m.duration
  }

  /** Updates from a run's lines with the guarded parser. */
  function EditorUpdatesOf(lines: seq<StderrLine>, total: int): seq<EditorUpdate> {
    if |lines| == 0 then []
    else
      (if lines[0].text == "" then []
       else match EditorParse(lines[0].text, total, lines[0].clock)
         case None => []
         case Some(u) => [u])
      + EditorUpdatesOf(lines[1..], total)
  }

  /** With the guarded parser, every bar value the edit window shows during
      a run lies in 0..100. */
  lemma {:induction false} EditorUpdatesBounded(lines: seq<StderrLine>, total: int)
    ensures forall i :: 0 <= i < |EditorUpdatesOf(lines, total)| ==> 0 <= EditorUpdatesOf(lines, total)[i].bar <= 100
    decreases |lines|
  {
    if |lines| > 0 {
      EditorUpdatesBounded(lines[1..], total);
    }
  }

  datatype EditRun = EditRun(result: ProcessResult, encoder: Option<Encoder>, command: Option<seq<string>>, updates: seq<EditorUpdate>)

  /** `ProcessVideoEditAsync` as evidently intended: the guarded parser
      and the corrected progress total. The output path was chosen by the
      editor before the window opened. */
  function ProcessVideoEdit(o: Editing.EditingOptions, m: Metadata.VideoMetadata, tools: Tools, existing: set<Path>,
                            inputSize: int, report: RunReport): (r: EditRun)
    ensures r.command.Some? <==> ChooseEncoder(tools).Some? && FileAt(o.inputPath) in existing
    ensures r.command.Some? ==> r.encoder == ChooseEncoder(tools) && r.command.value == Commands.BuildEditingCommand(o, m)
    ensures ChooseEncoder(tools).None? ==> r.result == CreateErrorMessage(EditorToolsMissing) && r.updates == []
    ensures ChooseEncoder(tools).Some? && FileAt(o.inputPath) !in existing ==>
              r.result == CreateErrorMessage(InputNotFound(o.inputPath)) && r.updates == []
    ensures r.command.Some? ==> r.result == Outcome(report.end, report.lines, o.outputPath, inputSize)
  {
    match ChooseEncoder(tools)
    case None => EditRun(CreateErrorMessage(EditorToolsMissing), None, None, [])
    case Some(encoder) =>
      if FileAt(o.inputPath) !in existing then EditRun(CreateErrorMessage(InputNotFound(o.inputPath)), None, None, [])
      else EditRun(Outcome(report.end, report.lines, o.outputPath, inputSize), Some(encoder),
                   Some(Commands.BuildEditingCommand(o, m)), EditorUpdatesOf(report.lines, ProgressTotal(o, m)))
  }

  /** Updates from a run's lines as written: the unguarded parser, with
      `saturating` choosing the runtime's double-to-int cast. */
  function EditorUpdatesAsWrittenOf(lines: seq<StderrLine>, total: int, saturating: bool): seq<EditorUpdate> {
    if |lines| == 0 then []
    else
      (if lines[0].text == "" then []
       else match EditorParseAsWritten(lines[0].text, total, lines[0].clock, saturating)
         case None => []
         case Some(u) => [u])
      + EditorUpdatesAsWrittenOf(lines[1..], total, saturating)
  }

  /** One as-written update: the bar never passes 100, and with a positive
      total and the saturating cast it never drops below 0. */
  lemma EditorBarAsWritten(line: string, total: int, clock: int, saturating: bool)
    ensures var u := EditorParseAsWritten(line, total, clock, saturating);
            u.Some? ==> u.value.bar <= 100 && (total > 0 && saturating ==> 0 <= u.value.bar)
  {
    match EditorStampTime(line)
    case None =>
    case Some(encoded) =>
      var q := EditorQuotient(encoded, total);
      var p := CastToInt32(q, saturating);
      assert EditorParseAsWritten(line, total, clock, saturating).value.bar == Min(100, p);
      if total > 0 && saturating {
        var a: nat := encoded * 100;
        var v := TruncDiv(a, total);
        QuotientNonNegative(a, total);
        CastOfNonNegative(q, v);
      }
  }

  lemma QuotientNonNegative(a: nat, b: int)
    requires b > 0
    ensures TruncDiv(a, b) >= 0
  {
    assert TruncDiv(a, b) == a / b;
  }

  /** The saturating cast of a non-negative finite quotient is non-negative. */
  lemma CastOfNonNegative(q: Quotient, v: int)
    requires q == Finite(v) && v >= 0
    ensures CastToInt32(q, true) >= 0
  {
  }

  /** As written, the bar never passes 100 during a run; with a positive
      total and the saturating cast it also never drops below 0. A zero
      total (a failed probe) or the older cast can show a negative bar. */
  lemma {:induction false} EditorUpdatesAsWrittenBounded(lines: seq<StderrLine>, total: int, saturating: bool)
    ensures forall i :: 0 <= i < |EditorUpdatesAsWrittenOf(lines, total, saturating)| ==>
              EditorUpdatesAsWrittenOf(lines, total, saturating)[i].bar <= 100
    ensures total > 0 && saturating ==>
              forall i :: 0 <= i < |EditorUpdatesAsWrittenOf(lines, total, saturating)| ==>
                0 <= EditorUpdatesAsWrittenOf(lines, total, saturating)[i].bar
    decreases |lines|
  {
    if |lines| > 0 {
      EditorBarAsWritten(lines[0].text, total, lines[0].clock, saturating);
      EditorUpdatesAsWrittenBounded(lines[1..], total, saturating);
    }
  }

  /** `ProcessVideoEditAsync` as written: progress is parsed without a
      guard and measured against the whole source duration. */
  function ProcessVideoEditAsWritten(o: Editing.EditingOptions, m: Metadata.VideoMetadata, tools: Tools, existing: set<Path>,
                                     inputSize: int, report: RunReport, saturating: bool): (r: EditRun)
    ensures r.command.Some? <==> ChooseEncoder(tools).Some? && FileAt(o.inputPath) in existing
    ensures r.command.None? ==> r.updates == []
  {
    match ChooseEncoder(tools)
    case None => EditRun(CreateErrorMessage(EditorToolsMissing), None, None, [])
    case Some(encoder) =>
      if FileAt(o.inputPath) !in existing then EditRun(CreateErrorMessage(InputNotFound(o.inputPath)), None, None, [])
      else EditRun(Outcome(report.end, report.lines, o.outputPath, inputSize), Some(encoder),
                   Some(Commands.BuildEditingCommand(o, m)),
                   EditorUpdatesAsWrittenOf(report.lines, ProgressTotalAsWritten(o, m), saturating))
  }

  /** The written and the corrected edit run differ only in the progress
      updates: the same command runs and the same result comes back. */
  lemma EditRunsDifferOnlyInUpdates(o: Editing.EditingOptions, m: Metadata.VideoMetadata, tools: Tools, existing: set<Path>,
                                    inputSize: int, report: RunReport, saturating: bool)
    ensures var w := ProcessVideoEditAsWritten(o, m, tools, existing, inputSize, report, saturating);
            w == ProcessVideoEdit(o, m, tools, existing, inputSize, report).(updates := w.updates)
  {
  }

  /** The edit window and the service classify a finished process alike:
      the same exit, output and log give the same success flag, message,
      details and exit code. */
  lemma EditAndServiceAgree(o: Editing.EditingOptions, m: Metadata.VideoMetadata, oo: Optimization.OptimizationOptions,
                            tools: Tools, existing: set<Path>, inputSize: int, report: RunReport,
                            saturating: bool, render: string -> string)
    requires IsFFmpegAvailable(tools) && FileAt(o.inputPath) in existing && FileAt(oo.inputPath) in existing
    ensures var e := ProcessVideoEdit(o, m, tools, existing, inputSize, report).result;
            var s := OptimizeVideo(oo, tools, existing, None, inputSize, report, saturating, render).result;
            e.success == s.success && e.message == s.message && e.errorDetails == s.errorDetails && e.exitCode == s.exitCode
  {
  }

  /** Keeping the first minute of a ten-minute video, ffmpeg's last stamp
      is one minute: measured against the whole duration the bar stops at
      10%, measured against the cut length it reaches 100%. */
  lemma TrimmedProgressAsWritten()
    ensures var o := Editing.DefaultEditing.(trimEnd := 60_000, duration := 600_000);
            var m := Metadata.DefaultMetadata.(duration := 600_000);
            var line := StampLine(60_000, "");
            EditorParse(line, ProgressTotalAsWritten(o, m), 0).Some? &&
            EditorParse(line, ProgressTotalAsWritten(o, m), 0).value.bar == 10 &&
            EditorParse(line, ProgressTotal(o, m), 0).Some? &&
            EditorParse(line, ProgressTotal(o, m), 0).value.bar == 100
  {
    var o := Editing.DefaultEditing.(trimEnd := 60_000, duration := 600_000);
    var m := Metadata.DefaultMetadata.(duration := 600_000);
    var line := StampLine(60_000, "");
    EditorReadsStamp(60_000, "");
    assert ProgressTotal(o, m) == 60_000 by {
      assert Editing.HasTrimming(o);
    }
    EditorBarAt(line, 60_000, 600_000, 0);
    EditorBarAt(line, 60_000, 60_000, 0);
    assert CappedPercent(60_000, 600_000) == 10;
  }

  /** With the corrected total, the stamp at the end of the output shows
      a full bar, whatever part of the video is cut. */
  lemma EndOfOutputShowsFull(o: Editing.EditingOptions, m: Metadata.VideoMetadata, rest: string, clock: int)
    requires var t := ProgressTotal(o, m); t > 0 && t % 10 == 0 && t < 100 * TimeFormat.MsPerHour
    ensures EditorParse(StampLine(ProgressTotal(o, m), rest), ProgressTotal(o, m), clock).Some?
    ensures EditorParse(StampLine(ProgressTotal(o, m), rest), ProgressTotal(o, m), clock).value.bar == 100
  {
    EditorReadsStamp(ProgressTotal(o, m), rest);
    EditorBarAt(StampLine(ProgressTotal(o, m), rest), ProgressTotal(o, m), ProgressTotal(o, m), clock);
  }

  /* ---------- what the edit window shows ---------- */

  const CancelLabel: string := "Cancel"
  const CloseLabel: string := "Close"
  const StartingText: string := "Starting video processing..."
  const CompletedText: string := "Processing completed successfully!"
  const FailedText: string := "Processing failed"
  const CancellingText: string := "Cancelling..."

  /** The window's visible state: bar, status text, the label of its one
      button, and whether cancellation was requested or the window closed. */
  datatype EditView = EditView(bar: int, text: string, button: string, cancelRequested: bool, closed: bool)

  const EditViewStart: EditView := EditView(0, StartingText, CancelLabel, false, false)

  /** One progress line's update. */
  function ShowUpdate(v: EditView, u: EditorUpdate): (v': EditView)
    ensures v'.bar == u.bar && v'.text == u.text && v'.button == v.button
  {
    v.(bar := u.bar, text := u.text)
  }

  /** `OnProcessingCompleted` / `OnProcessingFailed`. */
  function Finish(v: EditView, r: ProcessResult): (v': EditView)
    ensures v'.button == CloseLabel
    ensures r.success ==> v'.bar == 100 && v'.text == CompletedText
    ensures !r.success ==> v'.bar == v.bar && v'.text == FailedText
  {
    if r.success then v.(bar := 100, text := CompletedText, button := CloseLabel)
    else v.(text := FailedText, button := CloseLabel)
  }

  /** `CancelButton_Click`: while the button reads "Cancel" it requests
      cancellation; afterwards it closes the window. */
  function ClickButton(v: EditView): (v': EditView)
    ensures v.button == CancelLabel ==> v'.cancelRequested && v'.text == CancellingText && v'.closed == v.closed
    ensures v.button != CancelLabel ==> v'.closed && v'.cancelRequested == v.cancelRequested
  {
    if v.button == CancelLabel then v.(cancelRequested := true, text := CancellingText)
    else v.(closed := true)
  }

  /** Once the result is shown, the button only closes the window and never
      cancels; before that it never closes it. */
  lemma ButtonAfterFinish(v: EditView, r: ProcessResult)
    ensures ClickButton(Finish(v, r)).closed && ClickButton(Finish(v, r)).cancelRequested == v.cancelRequested
    ensures v.button == CancelLabel ==> ClickButton(v).closed == v.closed
  {
  }

  /** A cancelled run is reported as a failed one: the cancellation is
      caught inside the run and returned as an error result, so the
      "Processing cancelled" branch of `StartProcessing` is never reached. */
  lemma CancelShowsFailure(v: EditView, lines: seq<StderrLine>, outputPath: string, inputSize: int)
    ensures Finish(v, Outcome(Cancelled, lines, outputPath, inputSize)).text == FailedText
    ensures Outcome(Cancelled, lines, outputPath, inputSize).message == CancelledMessage
  {
  }

  /* ---------- `CalculateSizeChange` ---------- */

  /** The size change text: "N/A" for an empty original, else a plus sign
      for growth (or no change), the percentage as `render` writes it,
      and a percent sign. */
  function SizeChange(originalSize: int, newSize: int, render: Fraction -> string): string {
    if originalSize == 0 then "N/A"
    else
      var change := Fraction((newSize - originalSize) * 100, originalSize);
      (if change.num * change.den >= 0 then "+" else "") + render(change) + "%"
  }

  /** "N/A" appears exactly for an empty original; for a non-empty one the
      plus sign appears exactly when the file did not shrink (as long as
      the rendering itself never starts with a plus). */
  lemma SizeChangeCases(originalSize: int, newSize: int, render: Fraction -> string)
    requires originalSize >= 0 && newSize >= 0
    ensures SizeChange(originalSize, newSize, render) == "N/A" <==> originalSize == 0
    ensures originalSize > 0 && (|render(Fraction((newSize - originalSize) * 100, originalSize))| == 0 ||
                                 render(Fraction((newSize - originalSize) * 100, originalSize))[0] != '+') ==>
              (StartsWith(SizeChange(originalSize, newSize, render), "+") <==> newSize >= originalSize)
  {
    if originalSize > 0 {
      var s := SizeChange(originalSize, newSize, render);
      assert s[|s| - 1] == '%';
      var d := newSize - originalSize;
      var r := render(Fraction(d * 100, originalSize));
      if d >= 0 {
        assert d * 100 * originalSize >= 0;
        assert s == "+" + r + "%";
      } else {
        assert d * 100 * originalSize < 0;
        assert s == r + "%";
        assert |r| == 0 || r[0] != '+' ==> s[0] != '+';
      }
    }
  }
}
