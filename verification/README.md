# smol-video, modelled in Dafny

smol-video is a small Windows tool for re-encoding videos with ffmpeg. It has
two entry points. The one-click optimiser is started from the Explorer
context menu; it re-encodes a file to H.264/AAC in an `.mp4` next to it and
shows a progress window. The editor trims, crops and resizes a video and
then runs ffmpeg from its own processing window. This project models what
both do with their data, independent of WPF and of the processes they
start:

- the option records: crop, resize, editing and optimisation options, video
  metadata and the process result;
- how output file names are chosen;
- the ffmpeg argument lists both paths build;
- the two parsers of ffmpeg's progress lines;
- how a finished process is turned into a result;
- the state of the optimiser's progress window and of the editor's
  processing window;
- the editor's trim, crop, resize and quality controls;
- the command-line dispatch and the context-menu registry values.

Modelling choices:

- Times are whole milliseconds.
- A path is a (directory, name, extension) triple, and the file system is
  the set of paths that exist.
- A command is the list of its arguments; the source joins them with spaces.
- `int` arithmetic that wraps, and the `(int)` cast of a `double` quotient,
  are written out explicitly. The `double` arithmetic before a cast is
  modelled as exact. The program's rounding can make a truncated
  percentage one less than the model's; "## Left out" names the members
  this affects.
- Where the program as written differs from what it evidently intends,
  both are modelled: the `...AsWritten` members follow the code, and the
  rest of the model uses the intended behaviour.

Modules, one per file:

- Shared helpers: `Basics`, `Strings`, `Numbers`, `TimeFormat` and `Paths`.
- Data: `Crop`, `Resize`, `Editing`, `Optimization`, `Metadata` and
  `Results`.
- `Commands`: the argument builders.
- `Progress`: both line parsers.
- `Jobs`: the optimisation service, the edit run and the processing window.
- `OptimizerWindow`: the optimiser's progress window.
- `Editor`: the editor window's controls.
- `Cli`: the program's entry point.

## Model

| member | source | states |
|---|---|---|
| Crop.CalculateWidth | src/SmolVideo/Models/CropSettings.cs:12-15 | The cropped width is a 32-bit value. When nothing overflows it is the frame width less both side margins. |
| Crop.CalculateHeight | src/SmolVideo/Models/CropSettings.cs:17-20 | The cropped height is a 32-bit value. When nothing overflows it is the frame height less the top and bottom margins. |
| Crop.ValidCropFits | src/SmolVideo/Models/CropSettings.cs:22-26 | A crop that passes the intended check leaves a frame of at least one pixel inside the original. The check as written agrees with it whenever the margin sums fit in 32 bits. |
| Crop.OverflowPassesValidation | src/SmolVideo/Models/CropSettings.cs:22-26 | Margins of 1.5e9 on both sides of a 1920x1080 frame pass the check as written, and the computed width then exceeds 1920. |
| Crop.HasCroppingMeansSmaller | src/SmolVideo/Models/CropSettings.cs:10-20 | For a valid crop, `HasCropping` holds exactly when the output frame is smaller than the input. |
| Crop.Reset | src/SmolVideo/Models/CropSettings.cs:28-31 | After a reset nothing is cropped, and every frame keeps its size. |
| Resize.EvenHeight | src/SmolVideo/Models/ResizeSettings.cs:15-18 | The stored height is always a 32-bit value. |
| Resize.EvenHeightCharacterised | src/SmolVideo/Models/ResizeSettings.cs:15-18 | A rounded height below `int.MaxValue` becomes the nearest even value at or above it. Anything else becomes `int.MinValue`, whichever cast the runtime uses. |
| Resize.CalculateHeight | src/SmolVideo/Models/ResizeSettings.cs:11-20 | With the lock on and a known source size, the height is even. Below `int.MaxValue` it lies between the rounded proportional height and one more; past it the height wraps to `int.MinValue`. Otherwise nothing changes. |
| Resize.CalculateHeightSameOnEveryRuntime | src/SmolVideo/Models/ResizeSettings.cs:15-18 | The saturating cast and the older `int.MinValue` cast store the same height. |
| Resize.HugeWidthWrapsHeight | src/SmolVideo/Models/ResizeSettings.cs:9-18 | A width of 2000000000 on a 1080x1920 video wraps the height to `int.MinValue`, so there is no resize. |
| Resize.CalculatedHeightNearProportional | src/SmolVideo/Models/ResizeSettings.cs:11-20 | Unless the rounded height reaches `int.MaxValue`, the height is within 1.5 pixels of the exact proportional height. Otherwise it is `int.MinValue`. |
| Resize.ExactAspectKept | src/SmolVideo/Models/ResizeSettings.cs:11-20 | Scaling 1920x1080 to a width of 1280 gives a height of 720. |
| Resize.ResizingIffHeightAboveHalf | src/SmolVideo/Models/ResizeSettings.cs:9-20 | With the lock on and a positive width, resizing is on exactly when the proportional height exceeds half a pixel and its rounding stays below `int.MaxValue`. |
| Resize.SetDimensions | src/SmolVideo/Models/ResizeSettings.cs:22-26 | Both dimensions take the given values, and the lock is kept. |
| Resize.ValidMeansResizing | src/SmolVideo/Models/ResizeSettings.cs:28-31 | A valid size always means resizing. Within 8K, resizing and validity coincide. Also rests on line 9. |
| Resize.Reset | src/SmolVideo/Models/ResizeSettings.cs:33-36 | After a reset there is no resizing, and the lock is unchanged. |
| Editing.DefaultsEditNothing | src/SmolVideo/Models/EditingOptions.cs:8-18 | Fresh editing options ask for no trim, crop or resize, and use CRF 18. |
| Editing.TrimmingIffRangeShrinks | src/SmolVideo/Models/EditingOptions.cs:16 | Within the video, trimming is on exactly when the range is not the whole video. |
| Editing.OutputBase | src/SmolVideo/Models/EditingOptions.cs:20-28 | The edited file sits in the input's directory, is named after the input with `_edited`, and has the extension `.mp4`. |
| Editing.GetUniqueOutputPath | src/SmolVideo/Models/EditingOptions.cs:30-45 | The chosen path does not exist, is in the input's directory and ends in `.mp4`. It is the base name exactly when that name is free, and in general the first free candidate of the numbered series. |
| Editing.EditedOutputNeverInput | src/SmolVideo/Models/EditingOptions.cs:20-45 | No candidate name equals the input's file name in any letter case, so an edit never overwrites its source. |
| Editing.ResolveOutputPath | src/SmolVideo/Models/EditingOptions.cs:30-45 | The probing loop stops at the path the functional search names. |
| Optimization.Suffix | src/SmolVideo/Models/OptimizationOptions.cs:21-24 | `_optimized` is added exactly when the input's extension is `.mp4` in any letter case. |
| Optimization.OutputBase | src/SmolVideo/Models/OptimizationOptions.cs:17-28 | The output sits in the input's directory and is named after the input plus the suffix, with the extension `.mp4`. |
| Optimization.GetUniqueOutputPath | src/SmolVideo/Models/OptimizationOptions.cs:30-45 | With overwriting on, the base path is used. Without it, the path does not exist and is the first free candidate of the numbered series. |
| Optimization.OptimizedOutputNeverInput | src/SmolVideo/Models/OptimizationOptions.cs:17-45 | No candidate name equals the input's file name in any letter case. |
| Optimization.ResolveOutputPath | src/SmolVideo/Models/OptimizationOptions.cs:30-45 | The probing loop stops at the path the functional search names. |
| Paths.UniqueIndexCharacterised | src/SmolVideo/Models/EditingOptions.cs:30-45 | The counter chosen is the one whose candidate is free while every earlier candidate is taken. |
| Paths.CreatingResultAdvances | src/SmolVideo/Models/EditingOptions.cs:30-45 | Once the chosen file exists, the next search picks a later counter. |
| Paths.UnrelatedFilesIrrelevant | src/SmolVideo/Models/EditingOptions.cs:30-45 | Files that are not candidates do not change the choice. |
| Paths.ExtensionOf | src/SmolVideo/Models/OptimizationOptions.cs:21 | An extension is empty, or a dot followed by at least one character that is neither a dot nor a separator. |
| Metadata.DurationFormattedReadsBack | src/SmolVideo/Models/VideoMetadata.cs:18 | The `hh:mm:ss.fff` text parses back to the duration with whole days dropped. |
| Metadata.ResolutionTextReadsBack | src/SmolVideo/Models/VideoMetadata.cs:20 | The `W x H` text parses back to the width and height. |
| Metadata.AspectRatio | src/SmolVideo/Models/VideoMetadata.cs:21 | The ratio is width over height when the height is positive, and zero otherwise. |
| Metadata.UnitIndexCharacterised | src/SmolVideo/Models/VideoMetadata.cs:23-36 | The size loop stops at the unit whose power of 1024 brackets twice the size. This is the effect of rounding the quotient. |
| Metadata.SizeUnitOverflows | src/SmolVideo/Models/VideoMetadata.cs:23-36 | Just over half a pebibyte, the loop reaches index 5 and the unit lookup fails. |
| Metadata.SizeUnit | src/SmolVideo/Models/VideoMetadata.cs:23-36 | The capped unit is always one of the five, and agrees with the unit as written wherever that is defined. |
| Metadata.SizeUnitDefinedIff | src/SmolVideo/Models/VideoMetadata.cs:23-36 | The unit as written is defined exactly up to 512 TiB. |
| Metadata.DefaultMetadataIsEmpty | src/SmolVideo/Models/VideoMetadata.cs:7-21 | A fresh record is 0 x 0 with a zero duration shown as `00:00:00.000`, no aspect ratio, and size unit B. |
| Results.CreateSuccess | src/VideoOptimizer/Models/ProcessResult.cs:14-26 | A success copies its path, time and sizes, and carries no error details and exit code 0. |
| Results.CreateError | src/VideoOptimizer/Models/ProcessResult.cs:28-37 | A failure carries the message, details and exit code given, and names no output. |
| Results.CreateErrorMessage | src/VideoOptimizer/Models/ProcessResult.cs:28-37 | The default arguments give empty details and exit code -1. |
| Results.FactoriesInjective | src/VideoOptimizer/Models/ProcessResult.cs:14-37 | A success is never equal to an error. Each factory's results are equal exactly when their arguments are. |
| Results.GetCompressionRatio | src/VideoOptimizer/Models/ProcessResult.cs:39-43 | The ratio is output size over input size, or zero for an empty input. |
| Results.SizeOrderCharacterised | src/VideoOptimizer/Models/ProcessResult.cs:52-63 | The unit is the largest power of 1024 not above the size, capped at GB. |
| Results.SizeUnitExamples | src/VideoOptimizer/Models/ProcessResult.cs:52-63 | 1023 bytes are shown in B, 1024 in KB, and 5 GiB in GB. |
| Commands.BuildFFmpegCommand | src/SmolVideo/Services/FFmpegService.cs:154-176 | The command has 13 arguments, plus 2 for fast start and 1 for overwrite, and ends with the quoted output path. |
| Commands.OptimizeCommandReadsBack | src/SmolVideo/Services/FFmpegService.cs:154-176 | Decoding the command gives back the input, codecs, CRF, preset, bitrate, switches and output it was built from. |
| Commands.DecodeFlagsReadsBack | src/SmolVideo/Services/FFmpegService.cs:165-175 | The optional switches and the output read back in their fixed order. |
| Commands.BuildEditingCommand | src/SmolVideo/UI/VideoProcessingWindow.xaml.cs:209-255 | An edit command starts with `-i` and the quoted input, and ends with the quoted output. |
| Commands.SingleFilterOption | src/SmolVideo/UI/VideoProcessingWindow.xaml.cs:221-244 | An edit command holds exactly one `-vf` when it crops or resizes, and none otherwise. |
| Commands.FiltersPresentIff | src/SmolVideo/UI/VideoProcessingWindow.xaml.cs:221-238 | There is a filter exactly when the edit crops or resizes, and two exactly when it does both. |
| Commands.FilterChainReadsBack | src/SmolVideo/UI/VideoProcessingWindow.xaml.cs:221-244 | Splitting the `-vf` value at commas gives back the filters, with the crop before the scale. |
| Commands.CropFilterReadsBack | src/SmolVideo/UI/VideoProcessingWindow.xaml.cs:225-231 | The crop filter names the cropped size, with the left and top margins as the offset. |
| Commands.CropFilterExample | src/SmolVideo/UI/VideoProcessingWindow.xaml.cs:225-231 | Cutting 10 pixels from the top and bottom of 1920x1080 gives `crop=1920:1060:0:10`. |
| Commands.TrimArgsReadBack | src/SmolVideo/UI/VideoProcessingWindow.xaml.cs:214-219 | Within a day, `-ss` and `-t` read back as the start and the length of the kept range. |
| Commands.UnquoteQuote | src/SmolVideo/Services/FFmpegService.cs:156 | A quoted path is read back unchanged. |
| Progress.SpanDigits | src/SmolVideo/Services/FFmpegService.cs:218 | A greedy `\d+` takes the whole run of digits. |
| Progress.FindStampLeftmost | src/SmolVideo/Services/FFmpegService.cs:218-219 | The time pattern matches at no position before the one found, and when none is found it matches nowhere. |
| Progress.FindSpeedLeftmost | src/SmolVideo/Services/FFmpegService.cs:241-242 | The speed pattern matches at no position before the one found, and when none is found it matches nowhere. |
| Progress.StampMillis | src/SmolVideo/Services/FFmpegService.cs:221-225 | The stamp's value is in range, and is defined exactly when no `int.Parse` or `TimeSpan` step overflows. |
| Numbers.CastToInt32 | src/SmolVideo/Services/FFmpegService.cs:229 | A finite quotient that fits is truncated toward zero. Any result is a 32-bit value. |
| Progress.ServicePercent | src/SmolVideo/Services/FFmpegService.cs:229-230 | The percentage never exceeds 100. With exact division it equals the capped whole percentage when the quotient fits. |
| Progress.ServicePercentMonotone | src/SmolVideo/Services/FFmpegService.cs:227-230 | For a fixed duration, a later position never shows a smaller percentage. It reaches 100 exactly at the end. |
| Progress.ServicePercentIsCapped | src/SmolVideo/Services/FFmpegService.cs:229-230 | With exact division, when the cast saturates or the quotient fits, the service's percentage is the capped percentage. |
| Progress.ServiceParse | src/SmolVideo/Services/FFmpegService.cs:213-253 | One line raises at most three events. |
| Progress.TimeEvents | src/SmolVideo/Services/FFmpegService.cs:218-237 | The stamp raises no events, or two: a progress event and the same status. |
| Progress.SpeedEvents | src/SmolVideo/Services/FFmpegService.cs:241-247 | The speed raises at most one status. |
| Progress.ServiceReportsStamp | src/SmolVideo/Services/FFmpegService.cs:218-236 | A stamp line with a positive duration raises a progress event carrying the stamp's percentage and ETA, then the same status. |
| Progress.ServiceReadsStamp | src/SmolVideo/Services/FFmpegService.cs:218-225 | ffmpeg's stamp for a position is found at the start of the line and read back as that exact position. |
| Progress.ServiceSilentWithoutDuration | src/SmolVideo/Services/FFmpegService.cs:227 | Without a positive duration, a line raises only status texts. |
| Progress.UnknownDurationGivesNoPercent | src/SmolVideo/Services/FFmpegService.cs:178-211 | A failed probe gives duration zero, and hence no percentage. Also rests on line 227. |
| Progress.ProbeDuration | src/SmolVideo/Services/FFmpegService.cs:178-211 | A failed probe gives zero; otherwise the probed value is used. |
| Progress.HugeHoursDropLine | src/SmolVideo/Services/FFmpegService.cs:249-252 | For any well-formed stamp whose hours exceed `int`, parsing throws and the whole line yields no event, its speed included. Also rests on line 221. |
| Progress.WholeSpeedReadsBack | src/SmolVideo/Services/FFmpegService.cs:241-244 | `speed=`, any white space, digits and `x` read back as those digits. |
| Progress.PointSpeedReadsBack | src/SmolVideo/Services/FFmpegService.cs:241-244 | The same holds with a decimal point and a fraction. |
| Progress.FindEditorStampLeftmost | src/SmolVideo/UI/VideoProcessingWindow.xaml.cs:262-263 | The edit window's two-digit pattern matches at no position before the one found, and when none is found it matches nowhere. |
| Progress.MatchEditorStamp | src/SmolVideo/UI/VideoProcessingWindow.xaml.cs:262-270 | A two-digit stamp is read as a time below 100 hours. |
| Progress.EditorReadsStamp | src/SmolVideo/UI/VideoProcessingWindow.xaml.cs:260-270 | Below 100 hours, the edit window reads ffmpeg's stamp back exactly. |
| Progress.EditorMissesLongStamps | src/SmolVideo/UI/VideoProcessingWindow.xaml.cs:262 | From 100 hours on, the edit window's pattern no longer matches there, while the service still reads the stamp. |
| Progress.EditorParseAsWritten | src/SmolVideo/UI/VideoProcessingWindow.xaml.cs:257-290 | The edit window updates exactly on lines with a readable stamp. |
| Progress.EditorZeroDurationAsWritten | src/SmolVideo/UI/VideoProcessingWindow.xaml.cs:271-276 | With a zero duration, any later stamp shows an `int` extreme as the percentage. |
| Progress.CappedPercent | src/SmolVideo/UI/VideoProcessingWindow.xaml.cs:271-275 | The whole percentage, computed exactly, is in 0..100, brackets the exact ratio, and is 100 exactly at or past the end. |
| Progress.EditorParse | src/SmolVideo/UI/VideoProcessingWindow.xaml.cs:257-290 | Guarded, the edit window updates exactly with a stamp and a positive duration. Its bar is in 0..100 and its text shows the bar's value. |
| Progress.EditorBarAt | src/SmolVideo/UI/VideoProcessingWindow.xaml.cs:270-275 | With exact division, the bar is the capped percentage of the stamp's time. |
| Progress.ParsersAgree | src/SmolVideo/UI/VideoProcessingWindow.xaml.cs:257-290 | With exact division, on every stamp both parsers read, the edit window's bar equals the service's first percentage. |
| Jobs.ErrorLogAppend | src/SmolVideo/Services/FFmpegService.cs:84-91 | The error log of a longer run extends the log of its beginning. |
| Jobs.ErrorLogEmptyIff | src/SmolVideo/Services/FFmpegService.cs:84-91 | The log is empty exactly when every line was empty. |
| Jobs.Outcome | src/SmolVideo/Services/FFmpegService.cs:102-130 | Success exactly on exit 0 with the output present. A failed exit keeps its code and the log. A cancel gives the cancellation error, and a crash gives exit code -1 with the details. |
| Jobs.ClassifyOutcome | src/SmolVideo/Services/FFmpegService.cs:102-130 | The message alone tells which outcome produced it, and names a failing exit code exactly. |
| Jobs.OptimizeVideo | src/SmolVideo/Services/FFmpegService.cs:29-136 | ffmpeg runs exactly when both tools and the input exist, otherwise the matching error is returned. The command is built from the prepared options, and the events are the run's. |
| Jobs.OptimizeSucceedsIff | src/SmolVideo/Services/FFmpegService.cs:29-120 | The service succeeds exactly when the tools and input exist, ffmpeg exits 0 and the output exists. The result names the file the command wrote. |
| Jobs.OptimizeCommandIsRequest | src/SmolVideo/Services/FFmpegService.cs:46-57 | The command ffmpeg ran reads back as the request, with the chosen output path. |
| Jobs.OptimizeEvents | src/SmolVideo/Services/FFmpegService.cs:84-91 | A run starts with the start status, and a success ends with the completion status. An unknown duration gives status texts only. Also rests on lines 54, 107. |
| Jobs.ServiceEventsAppend | src/SmolVideo/Services/FFmpegService.cs:84-91 | The events of a longer run extend those of its beginning. |
| Jobs.ServiceRunSilentWithoutDuration | src/SmolVideo/Services/FFmpegService.cs:84-91 | Without a duration, a whole run raises no percentage. Also rests on line 227. |
| Jobs.ChooseEncoder | src/SmolVideo/UI/VideoProcessingWindow.xaml.cs:104-122 | The bundled build is used exactly when both its tools exist. With neither build there is none. |
| Jobs.ProgressTotal | src/SmolVideo/UI/VideoProcessingWindow.xaml.cs:214-219 | Corrected: progress is measured against the output's length, which is the cut span when trimming and otherwise the whole video. Line 168 as written passes the whole duration instead, see `Jobs.ProgressTotalAsWritten`. |
| Jobs.TrimmedProgressAsWritten | src/SmolVideo/UI/VideoProcessingWindow.xaml.cs:168 | Keeping one minute of a ten-minute video, the last stamp shows 10% as written and 100% when measured against the cut length. |
| Jobs.EndOfOutputShowsFull | src/SmolVideo/UI/VideoProcessingWindow.xaml.cs:257-290 | Measured against the output's length, the stamp at the output's end shows a full bar. Also rests on line 168. |
| Jobs.EditorUpdatesBounded | src/SmolVideo/UI/VideoProcessingWindow.xaml.cs:163-170 | With the guarded parser of the corrected program, every bar value shown during a run is in 0..100. |
| Jobs.ProcessVideoEdit | src/SmolVideo/UI/VideoProcessingWindow.xaml.cs:102-207 | The corrected run: ffmpeg runs exactly when some build and the input exist, with the chosen build and the edit command. Otherwise the matching error is returned. Progress uses the guarded parser and the cut length. |
| Jobs.EditorBarAsWritten | src/SmolVideo/UI/VideoProcessingWindow.xaml.cs:270-276 | As written, one update's bar never passes 100. With a positive total and the saturating cast it is never negative. |
| Jobs.EditorUpdatesAsWrittenBounded | src/SmolVideo/UI/VideoProcessingWindow.xaml.cs:163-170 | As written, no bar value shown during a run passes 100. With a positive total and the saturating cast none is negative. |
| Jobs.ProcessVideoEditAsWritten | src/SmolVideo/UI/VideoProcessingWindow.xaml.cs:102-207 | As written, ffmpeg runs exactly when some build and the input exist. Without a run there are no progress updates. |
| Jobs.EditRunsDifferOnlyInUpdates | src/SmolVideo/UI/VideoProcessingWindow.xaml.cs:102-207 | The written and the corrected run give the same encoder, command and result. Only the progress updates differ. |
| Jobs.EditAndServiceAgree | src/SmolVideo/UI/VideoProcessingWindow.xaml.cs:181-206 | The edit window and the service give the same flag, message, details and exit code for the same finished process. |
| Jobs.ShowUpdate | src/SmolVideo/UI/VideoProcessingWindow.xaml.cs:273-287 | A progress line sets the bar and text and leaves the button alone. |
| Jobs.Finish | src/SmolVideo/UI/VideoProcessingWindow.xaml.cs:309-340 | A success fills the bar and a failure keeps it. Either way the button becomes Close. |
| Jobs.ClickButton | src/SmolVideo/UI/VideoProcessingWindow.xaml.cs:342-353 | While the button reads Cancel it requests cancellation; afterwards it closes the window. |
| Jobs.ButtonAfterFinish | src/SmolVideo/UI/VideoProcessingWindow.xaml.cs:342-353 | After the result is shown the button only closes; before that it never closes. |
| Jobs.CancelShowsFailure | src/SmolVideo/UI/VideoProcessingWindow.xaml.cs:199-202 | A cancelled run is shown as a failure, so the "Processing cancelled" branch is never taken. Also rests on lines 75-90. |
| Jobs.SizeChangeCases | src/SmolVideo/UI/VideoProcessingWindow.xaml.cs:387-394 | "N/A" appears exactly for an empty original. Otherwise a plus sign appears exactly when the file did not shrink. |
| OptimizerWindow.RouteStatus | src/VideoOptimizer/UI/ProgressWindow.xaml.cs:89-109 | A speed status changes only the speed text; any other status replaces only the main text. |
| OptimizerWindow.LongMarkerImpliesMarker | src/VideoOptimizer/UI/ProgressWindow.xaml.cs:94 | The test for `Processing speed:` adds nothing to the test for `speed:`. |
| OptimizerWindow.ProgressStatusIsMainText | src/VideoOptimizer/UI/ProgressWindow.xaml.cs:89-109 | A progress status in SmolVideo's format replaces the main text and leaves the speed alone. |
| OptimizerWindow.SpeedStatusIsSpeedText | src/VideoOptimizer/UI/ProgressWindow.xaml.cs:94-101 | A speed status in SmolVideo's format sets the speed text to the number and its `x`. |
| OptimizerWindow.EndingsComplete | src/VideoOptimizer/UI/ProgressWindow.xaml.cs:111-163 | Every way a run can end marks the window completed, stops the timer and shows Close. A cancel leaves the cancellation error as the result. Also rests on lines 50-78. |
| OptimizerWindow.CancelClickByPhase | src/VideoOptimizer/UI/ProgressWindow.xaml.cs:171-187 | A click before completion cancels and keeps the window open. After completion it closes the window and reports the run's success. |
| OptimizerWindow.ClosingCleansUp | src/VideoOptimizer/UI/ProgressWindow.xaml.cs:209-223 | Closing stops the timer, unsubscribes and disposes. It cancels exactly when the run had not completed. |
| OptimizerWindow.UnsubscribedIgnoresService | src/VideoOptimizer/UI/ProgressWindow.xaml.cs:209-223 | Once unsubscribed, service events do not change the window. Also rests on lines 80-109. |
| OptimizerWindow.OpenedConsistent | src/VideoOptimizer/UI/ProgressWindow.xaml.cs:21-48 | A new window is consistent, not completed, and subscribed. |
| OptimizerWindow.StepKeepsConsistent | src/VideoOptimizer/UI/ProgressWindow.xaml.cs:50-223 | Every event keeps the window consistent, and completion and closing are never undone. |
| OptimizerWindow.RunKeepsConsistent | src/VideoOptimizer/UI/ProgressWindow.xaml.cs:50-223 | Over any sequence of events the window stays consistent. |
| Editor.DragStart | src/SmolVideo/UI/VideoEditorWindow.xaml.cs:620-642 | The start follows the pointer inside [0, end - 100 ms]. Below zero it sticks at 0, and past the limit at the limit. |
| Editor.DragEnd | src/SmolVideo/UI/VideoEditorWindow.xaml.cs:644-666 | The end follows the pointer inside [start + 100 ms, duration]. Past either bound it sticks there. |
| Editor.TypeStart | src/SmolVideo/UI/VideoEditorWindow.xaml.cs:668-686 | Parsed text moves the start inside [0, end - 1000 ms]. Unparsable text changes nothing. |
| Editor.TypeEnd | src/SmolVideo/UI/VideoEditorWindow.xaml.cs:668-686 | Parsed text moves the end inside [start + 1000 ms, duration]. Unparsable text changes nothing. |
| Editor.TrimEditsKeepRange | src/SmolVideo/UI/VideoEditorWindow.xaml.cs:633-681 | Each trim edit keeps 0 <= start <= end <= duration, and keeps its gap when the video leaves room. |
| Editor.DragStartEcho | src/SmolVideo/UI/VideoEditorWindow.xaml.cs:633-677 | As written, when the handle changes the box's text the start ends up clamped with the 1000 ms gap. |
| Editor.DragEndEcho | src/SmolVideo/UI/VideoEditorWindow.xaml.cs:657-681 | The same holds for the end handle. |
| Editor.DragEchoWidensGap | src/SmolVideo/UI/VideoEditorWindow.xaml.cs:633-681 | On a 10 s video the start dragged to 9.9 s lands at 9 s, and the end dragged to 0.1 s lands at 1 s. |
| Editor.DragEchoHarmlessWithWideGap | src/SmolVideo/UI/VideoEditorWindow.xaml.cs:633-677 | Where the handle already leaves 1000 ms, the echo changes nothing. |
| Editor.TypeCrop | src/SmolVideo/UI/VideoEditorWindow.xaml.cs:688-705 | Only when all four boxes parse are the margins taken, each raised to zero if negative. Otherwise the crop is unchanged. |
| Editor.CropTextRoundTrip | src/SmolVideo/UI/VideoEditorWindow.xaml.cs:692-700 | Typing the decimal forms of a non-negative crop sets exactly that crop. |
| Editor.TypeWidth | src/SmolVideo/UI/VideoEditorWindow.xaml.cs:746-760 | Only a positive width is taken. With the lock on, the height becomes even: close to proportional while it fits, and `int.MinValue` once it passes `int.MaxValue`. Anything else changes nothing. |
| Editor.ToggleAspect | src/SmolVideo/UI/VideoEditorWindow.xaml.cs:762-773 | The lock follows the box. Switching it on with a width set recomputes an even height: near-proportional while it fits, and `int.MinValue` once it passes `int.MaxValue`. |
| Editor.UnlockedWidthKeepsResizing | src/SmolVideo/UI/VideoEditorWindow.xaml.cs:746-760 | With the lock off, a width alone never switches resizing on. |
| Editor.ResetTrim | src/SmolVideo/UI/VideoEditorWindow.xaml.cs:775-784 | As evidently intended, after a reset the range is the whole video, so nothing is trimmed. |
| Editor.FullRangeRewrite | src/SmolVideo/UI/VideoEditorWindow.xaml.cs:863-864 | After the full range is set, the start box's rewrite changes nothing. The end box's, when it runs, moves the end to the duration less whole days, at least 1000 ms. Also rests on lines 668-686. |
| Editor.ResetTrimAsWritten | src/SmolVideo/UI/VideoEditorWindow.xaml.cs:775-784 | As written, the reset leaves the start at 0 and the range inside the video. |
| Editor.ResetTrimAsWrittenCharacterised | src/SmolVideo/UI/VideoEditorWindow.xaml.cs:775-784 | The reset as written equals the intended reset exactly when the video is shorter than a day or the end box already shows the duration. Otherwise the end is the duration's time of day. |
| Editor.ResetCrop | src/SmolVideo/UI/VideoEditorWindow.xaml.cs:786-797 | After a reset nothing is cropped, and nothing else changes. |
| Editor.ResetResize | src/SmolVideo/UI/VideoEditorWindow.xaml.cs:799-806 | After a reset nothing is resized, and the lock is kept. |
| Editor.LoadVideoAsWritten | src/SmolVideo/UI/VideoEditorWindow.xaml.cs:863-878 | Loading sets the new input and duration and keeps the output path. It starts at 0 with the range inside the video, no crop and CRF 18. Also rests on lines 98-104. |
| Editor.LoadKeepsOldResize | src/SmolVideo/UI/VideoEditorWindow.xaml.cs:863-878 | As written, any aspect-locked resize chosen on one video survives loading the next, so the fresh video already asks for an edit. Also rests on lines 98-104. |
| Editor.LoadVideo | src/SmolVideo/UI/VideoEditorWindow.xaml.cs:863-878 | As intended: a freshly loaded video asks for no edit, uses CRF 18 with the lock on, and its range lies inside the video. As written, the load keeps the old resize and echoes the end box, see `Editor.LoadVideoAsWritten`. |
| Editor.LoadsDifferOnlyInResizeAndEnd | src/SmolVideo/UI/VideoEditorWindow.xaml.cs:863-878 | The load as written differs from the intended load only in the resize and the end. The end is the whole video exactly when the video is shorter than a day or the end box already showed its duration. From fresh settings the resize agrees. Also rests on lines 98-104. |
| Editor.LongVideoLoadsTrimmed | src/SmolVideo/UI/VideoEditorWindow.xaml.cs:863-864 | A 25-hour video loaded while the end box shows anything but `01:00:00.000` starts trimmed to its first hour. Also rests on lines 668-686. |
| Editor.EditsKeepInvariant | src/SmolVideo/UI/VideoEditorWindow.xaml.cs:620-806 | After any sequence of intended edits the range stays inside the video and the margins stay non-negative. |
| Editor.LoadedSessionInRange | src/SmolVideo/UI/VideoEditorWindow.xaml.cs:620-806 | Every intended session that starts with the intended load keeps the range inside the video. Also rests on lines 98-104. |
| Editor.ApplyAsWritten | src/SmolVideo/UI/VideoEditorWindow.xaml.cs:620-806 | As written, no action changes the input path or the duration. |
| Editor.LoadWindowAsWritten | src/SmolVideo/UI/VideoEditorWindow.xaml.cs:863-878 | After a load the trim boxes show `00:00:00` and the duration, and the settings are the load as written. Also rests on lines 98-104. |
| Editor.AsWrittenAgreesWithIntended | src/SmolVideo/UI/VideoEditorWindow.xaml.cs:620-806 | The written and intended actions agree off the trim boxes, on typing that changes a box, on the trim reset below a day, and on a handle that leaves a 1000 ms gap. |
| Editor.DragsAsWrittenKeepRange | src/SmolVideo/UI/VideoEditorWindow.xaml.cs:633-681 | Both handles as written, echo included, keep the range inside the video. |
| Editor.EchoKeepsRange | src/SmolVideo/UI/VideoEditorWindow.xaml.cs:668-686 | Reading any text back into either trim box keeps the range inside the video. |
| Editor.ApplyAsWrittenKeepsInvariant | src/SmolVideo/UI/VideoEditorWindow.xaml.cs:620-806 | Every action as written keeps the range inside the video, the duration, the input path and non-negative margins. |
| Editor.WindowEditsKeepInvariant | src/SmolVideo/UI/VideoEditorWindow.xaml.cs:620-806 | After any sequence of actions as written, with the boxes' echoes, the same invariant holds. |
| Editor.LoadedWindowSessionInRange | src/SmolVideo/UI/VideoEditorWindow.xaml.cs:620-806 | Every session as written that starts with the written load keeps the range inside the video. Also rests on lines 98-104. |
| Editor.QualityDescription | src/SmolVideo/UI/VideoEditorWindow.xaml.cs:825-836 | The description is always one of the six labels. |
| Editor.QualityDescriptionByBand | src/SmolVideo/UI/VideoEditorWindow.xaml.cs:825-836 | The description is the table entry of the band the CRF falls in. |
| Editor.BandCharacterised | src/SmolVideo/UI/VideoEditorWindow.xaml.cs:825-836 | A CRF is in band k exactly when it lies above bound k-1 and at or below bound k. |
| Editor.QualityBandMonotone | src/SmolVideo/UI/VideoEditorWindow.xaml.cs:825-836 | A lower CRF never gets a worse label. |
| Editor.ClickProcess | src/SmolVideo/UI/VideoEditorWindow.xaml.cs:880-907 | Nothing happens without a video, and a notice appears without an edit. Otherwise only the output path changes. |
| Editor.StartedEditWritesFreshFile | src/SmolVideo/UI/VideoEditorWindow.xaml.cs:887-895 | A started edit writes a new `.mp4` next to the input whose name differs from the input's in any letter case. |
| Editor.FreshLoadHasNothingToDo | src/SmolVideo/UI/VideoEditorWindow.xaml.cs:887-893 | Right after the intended load, Process only shows the notice. Also rests on lines 98-104. |
| Editor.FreshLoadAsWrittenHasNothingToDo | src/SmolVideo/UI/VideoEditorWindow.xaml.cs:887-893 | As written, from fresh settings, Process right after a load shows only the notice exactly when the video is shorter than a day or the end box already showed its duration. Also rests on lines 98-104. |
| Cli.IsVideoFileIff | src/SmolVideo/Program.cs:98-108 | A file is a video exactly when its extension equals a listed one up to case. No extension means no video. |
| Cli.IsVideoFileIgnoresCase | src/SmolVideo/Program.cs:98-108 | Letter case of the extension never matters. |
| Cli.RegisteredMeansAccepted | src/SmolVideo/Program.cs:208-211 | The installer's list equals the accepted list: sixteen distinct lower-case extensions. Also rests on lines 100-104. |
| Cli.FileCheck | src/SmolVideo/Program.cs:44-60 | A missing file is reported before the type check. Only an existing video passes. |
| Cli.FlagOf | src/SmolVideo/Program.cs:32-42 | A lone `--install` or `--setup`, in any letter case, selects the installer or its dialog. |
| Cli.MainAsWritten | src/SmolVideo/Program.cs:15-96 | No argument opens the editor. |
| Cli.SystemFFmpegAcceptedThenRefused | src/SmolVideo/Program.cs:66-79 | As written, with only a system ffmpeg the start-up check passes, but the optimiser fails with its "not bundled" error. |
| Cli.Main | src/SmolVideo/Program.cs:15-96 | Corrected: no argument gives the editor, and a lone flag gives the installer or its dialog. Optimisation starts exactly for an existing video with the bundled tools, using the default options. As written, a system ffmpeg also passes start-up, see `Cli.MainAsWritten`. |
| Cli.MissingFileReportedFirst | src/SmolVideo/Program.cs:47-51 | A missing file is reported as missing whatever its extension. |
| Cli.VersionsAgree | src/SmolVideo/Program.cs:66-79 | With no ffmpeg both versions refuse. Without a system ffmpeg they agree on every start. |
| Cli.StartedOptimisationRuns | src/SmolVideo/Program.cs:81-89 | Every optimisation `Main` starts is one the optimiser carries out. |
| Cli.ProgIdFor | src/SmolVideo/Program.cs:218-224 | The registered ProgID is used when present; otherwise the extension without its dot plus `file`. |
| Cli.MenuCommand | src/SmolVideo/Program.cs:235 | The command is the quoted program path, a space, and `"%1"`. |
| Cli.MenuCommandReadsBack | src/SmolVideo/Program.cs:235 | The program path reads back from the command up to the next quote. |
| Cli.EveryExtensionGetsCommand | src/SmolVideo/Program.cs:205-243 | Every extension gets its menu text and the command under its ProgID or the fallback. |

## Left out

- WPF rendering: the timeline, playhead, scrubbing and seek timers, the crop overlay, colours and brushes. These are pixel and timer work in floating point.
- Installer side effects: directory copying, the admin check, the restart with elevation, and the dialog texts. Only the registry values are modelled, and a failure to write one extension's values (which is caught and skipped) is not.
- Processes and their lifetime: the start, the stdout builder, `WaitForExitAsync`, dispose and kill. A run enters the model as its stderr lines and how it ended.
- Exceptions thrown before a run's first status (for example, reading the input's size) are treated as if they came after it.
- Floating point is replaced by exact integer arithmetic:
  - speed values are kept as the matched text;
  - the speed, compression percentage and `F1`/`F2`/`n1` renderings are functions passed in as parameters;
  - the size summary in the optimiser window is a parameter too;
  - the frame rate is not modelled.
- Progress.StampMillis: fractions of a second finer than a millisecond are dropped.
- Progress.StampMillis: `double.Parse` of the seconds uses the current culture, but the model always reads `.` as the decimal point, which is the invariant culture's reading. Under a culture with a decimal comma, `05.12` reads as 512 seconds (de-DE) or throws (fr-FR); that is not modelled.
- Progress.ServiceReadsStamp: holds for the invariant culture only, for the same reason.
- Cli.FlagOf: `OrdinalIgnoreCase` is modelled as ASCII case folding. .NET also folds some other letters onto ASCII ones, for example `ı` (U+0131) and `ſ` (U+017F), so `--ınstall` is accepted by the program but not by the model.
- Cli.IsVideoFileIff: extensions are compared with ASCII case folding only, so `clip.avı` is a video to the program but not to the model.
- Cli.IsVideoFileIgnoresCase: only ASCII letter case is covered, for the same reason.
- Resize.CalculateHeight: `(double)newWidth * originalHeight / originalWidth` is computed exactly. A `double` rounds products above 2^53, which the model does not.
- Numbers.CastToInt32: the out-of-range cast is a parameter choosing between .NET 9's saturation and the older `int.MinValue` result.
- `\d` in the regular expressions is taken as ASCII digits. .NET also accepts other Unicode digits, which `int.Parse` then rejects.
- Editor.TypeStart: `TimeSpan.TryParse` of text a user types enters as its result. Only the program's own `hh:mm:ss.fff` text is parsed in the model. Reset writes `00:00:00`, which enters as 0.
- Editor.LoadVideoAsWritten: the trim boxes' text is a parameter, and a write runs a handler only when it changes the text. For the crop and width boxes the model assumes each box shows what its setting holds.
- Editor.ResetTrimAsWritten: durations are whole milliseconds, so the ticks `fff` drops below a millisecond are not modelled.
- Editor.EditsKeepInvariant: states the intended session. The session as written, with the trim boxes' echoes, is `Editor.WindowEditsKeepInvariant`.
- Editor.LoadedSessionInRange: states the intended session after the intended load. The written one is `Editor.LoadedWindowSessionInRange`.
- Jobs.EditorUpdatesBounded: states the corrected run. As written, a zero total or the older cast can show a negative percentage in the progress text (WPF keeps the bar itself within its range), see `Jobs.EditorUpdatesAsWrittenBounded`.
- Progress.ServicePercent: the program divides and multiplies in `double` before truncating, and that rounding can give one less than the exact floor the model states. At 29 s of 100 s, `29.0 / 100.0 * 100` is 28.999999999999996, so the service shows 28 where the model says 29.
- Progress.ServicePercentIsCapped: holds of the exact model only. The program's service value can be one less than `CappedPercent`, for example 28 at 29 s of 100 s.
- Progress.CappedPercent: the bracket states the exact floor. The edit window's `(int)(ms / total * 100)` in `double` can be one less, for example 28 at 17.4 s of 60 s where the model says 29.
- Progress.EditorBarAt: the bar equals the exact `CappedPercent`. The program's `double` rounding can show one less, as under `Progress.CappedPercent`.
- Progress.ParsersAgree: holds of the exact model only. The service divides seconds and the edit window divides milliseconds, so their `double` roundings differ. At 16.2 s of 60 s the service shows 26 and the edit window 27.
- Jobs.ProgressTotal: states the corrected total, the output's length. As written, line 168 measures progress against the whole duration; that run is `Jobs.ProgressTotalAsWritten`.
- Editor.LoadVideo: states the intended load. The written load, which keeps the old resize and echoes the end box, is `Editor.LoadVideoAsWritten`.
- Cli.Main: states the corrected start-up, which refuses without the bundled tools. As written, a system ffmpeg also passes start-up, see `Cli.MainAsWritten`.
- Jobs.ProcessVideoEdit: models the corrected run. `Jobs.ProcessVideoEditAsWritten` is the run as written.
- Editor.DragStart: the pointer position enters as the time it stands for. The division by the timeline width and the NaN guard are not modelled.
- `CrfSlider_ValueChanged` rounds a `double` slider value. The model takes the CRF as an integer and covers only its label.
- `GetQualityBrush`: colours only.
- `IsSystemFFmpegAvailableAsync` and `VideoMetadataService` are not part of this model: both start ffprobe or ffmpeg processes and parse their output with library code. Whether a system ffmpeg exists, and the probed metadata, enter as parameters.
- `ErrorDialog` is not part of this model: it is a dialog whose only behaviour is clipboard and timer side effects.
- The optimiser window talks to a VideoOptimizer `FFmpegService` that is not part of this model. Its progress, status and final result enter the window as events.
- The `ProcessResult` class SmolVideo uses is not part of this model. The VideoOptimizer `ProcessResult` stands for it, with the same factories.
- Clocks are integers passed in. `Main`'s outer exception dialog is not modelled.
- Where the code and its description differ, the model follows the code:
  - the crop and resize `IsValid` checks are never called before processing;
  - no pixel-format or hardware-acceleration arguments are emitted;
  - percentages are truncated, not rounded.

## Findings

| source | as written | input that shows it | evidently intended | confidence | as-written member | corrected member |
|---|---|---|---|---|---|---|
| src/SmolVideo/Models/CropSettings.cs:22-26 | `Left + Right` and `Top + Bottom` are summed in wrapping 32-bit arithmetic | Left = Right = 1 500 000 000 on a 1920x1080 frame passes, and the width then wraps past 1920 | compare the true sums with the frame size | high, not executed | Crop.OverflowPassesValidation | Crop.ValidCropFits |
| src/SmolVideo/UI/VideoProcessingWindow.xaml.cs:271-276 | the percentage divides by the total duration with no check that it is positive, and the text shows the uncapped value | a failed probe gives duration 0, and any stamp past 0 shows `int.MinValue` (or `int.MaxValue`) percent | no update without a positive duration, and the shown value capped at 100 as the service does | high, not executed | Progress.EditorZeroDurationAsWritten | Progress.EditorParse |
| src/SmolVideo/Models/VideoMetadata.cs:23-36 | the unit loop has no upper bound on its counter | 2^49 + 1 bytes makes the counter 5 and indexes past `TB` | stop at the last unit | medium, not executed | Metadata.SizeUnitOverflows | Metadata.SizeUnit |
| src/SmolVideo/UI/VideoEditorWindow.xaml.cs:633-635 | the handle writes its time into the trim box, whose handler clamps it again with a 1000 ms gap | on a 10 s video, the start dragged to 9.9 s lands at 9 s | the handle's own 100 ms gap | medium, not executed | Editor.DragEchoWidensGap | Editor.DragStart |
| src/SmolVideo/UI/VideoProcessingWindow.xaml.cs:168 | progress is measured against the whole video even when only a part is encoded | keeping 0-60 s of a 600 s video, the bar stops at 10% | measure against the cut length | high, not executed | Jobs.TrimmedProgressAsWritten | Jobs.EndOfOutputShowsFull |
| src/SmolVideo/UI/VideoEditorWindow.xaml.cs:863-864 | after setting the full range, the load writes the duration as `hh:mm:ss.fff` into the end box, whose handler reads it back, and `hh` drops whole days | a 25-hour video loaded while the end box shows another time starts trimmed to 01:00:00, and Process cuts it to its first hour | a fresh video starts untrimmed | medium, not executed | Editor.LongVideoLoadsTrimmed | Editor.LoadVideo |
| src/SmolVideo/UI/VideoEditorWindow.xaml.cs:863-878 | emptying the width box on load does not reset the resize, because empty text does not parse | set width 1280 (height 720), load another video, and Process resizes it to 1280x720 with empty boxes | a new video starts with no resize | medium, not executed | Editor.LoadKeepsOldResize | Editor.LoadVideo |
| src/SmolVideo/Program.cs:66-79 | start-up accepts a system ffmpeg, but `OptimizeVideoAsync` only runs the bundled one | bundled tools missing, system ffmpeg present, an existing `.mp4` argument | start-up and the optimiser agree on which ffmpeg counts | medium, not executed | Cli.SystemFFmpegAcceptedThenRefused | Cli.Main |
