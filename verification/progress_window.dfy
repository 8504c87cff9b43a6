/** The optimiser's `ProgressWindow` as a state machine: the service's
    progress and status events, the result of the run, the cancel button
    and closing the window. Renderings of numbers and of the completion
    summary are parameters of the steps that show them. */
module OptimizerWindow {
  import opened Basics
  import opened Strings
  import opened Results
  import Numbers
  import TimeFormat
  import Progress
  import Commands

  const CancelLabel: string := "Cancel"
  const CloseLabel: string := "Close"
  const CancellingLabel: string := "Cancelling..."
  const SpeedMarker: string := "speed:"
  const LongSpeedMarker: string := "Processing speed:"
  const CompletedText: string := "Optimization completed successfully!"
  const CancelledText: string := "Operation cancelled"

  /** What the window shows and holds. `cancelCalls` counts the calls of
      the service's `CancelOperation`; `dialog` is the message and details
      an error dialog was opened with. */
  datatype Window = Window(
    bar: int,
    progressText: string,
    speedText: string,
    button: string,
    buttonEnabled: bool,
    completed: bool,
    timerRunning: bool,
    subscribed: bool,
    cancelRequested: bool,
    cancelCalls: nat,
    result: Option<ProcessResult>,
    dialog: Option<(string, string)>,
    dialogResult: Option<bool>,
    closed: bool,
    disposed: bool)

  /** The constructor's state once `Loaded` has started the elapsed-time
      timer: subscribed to the service, nothing completed or cancelled. */
  const Opened: Window :=
    Window(0, "", "", CancelLabel, true, false, true, true, false, 0, None, None, None, false, false)

  /** What can happen to an open window. */
  datatype Event =
    | ProgressChanged(percentage: int, status: string)
    | StatusChanged(status: string)
    | Finished(r: ProcessResult)
    | ThrewCancelled
    | Threw(message: string, details: string)
    | CancelClicked
    | Closing

  /* ---------- status routing ---------- */

  /** Whether a status is about speed. The second test is implied by the
      first (see `LongMarkerImpliesMarker`). */
  predicate IsSpeedStatus(status: string) {
    Contains(status, SpeedMarker) || Contains(status, LongSpeedMarker)
  }

  /** `OnStatusChanged`: a speed status sets the speed text to the last
      non-empty piece after `speed:`, trimmed; any other status replaces
      the main progress text. */
  function RouteStatus(w: Window, status: string): (w': Window)
    ensures !IsSpeedStatus(status) ==> w' == w.(progressText := status)
    ensures IsSpeedStatus(status) ==> w' == w.(speedText := w'.speedText)
    ensures IsSpeedStatus(status) ==>
              match LastNonEmpty(Split(status, SpeedMarker))
              case None => w'.speedText == w.speedText
              case Some(piece) => w'.speedText == Trim(piece)
  {
    if IsSpeedStatus(status) then
      match LastNonEmpty(Split(status, SpeedMarker))
      case None => w
      case Some(piece) => w.(speedText := Trim(piece))
    else w.(progressText := status)
  }

  /** Any status containing "Processing speed:" also contains "speed:". */
  lemma LongMarkerImpliesMarker(status: string)
    ensures Contains(status, LongSpeedMarker) ==> Contains(status, SpeedMarker)
    ensures IsSpeedStatus(status) <==> Contains(status, SpeedMarker)
  {
    if Contains(status, LongSpeedMarker) {
      var k := IndexOf(status, LongSpeedMarker).value;
      assert OccursAt(status, LongSpeedMarker, k);
      assert status[k + 11..k + 17] == status[k..k + 17][11..17];
      assert OccursAt(status, SpeedMarker, k + 11);
      ContainsMeansOccurs(status, SpeedMarker);
    }
  }

  /** A text without a lower-case `p` cannot contain "speed:". */
  lemma NoSpeedWithoutP(s: string)
    requires forall i :: 0 <= i < |s| ==> s[i] != 'p'
    ensures !Contains(s, SpeedMarker) && !IsSpeedStatus(s)
  {
    forall j | 0 <= j
      ensures !OccursAt(s, SpeedMarker, j)
    {
      if j + 6 <= |s| {
        assert s[j..j + 6][1] == s[j + 1];
      }
    }
    ContainsMeansOccurs(s, SpeedMarker);
    LongMarkerImpliesMarker(s);
  }

  /** A progress status in the format SmolVideo's service prints
      ("Processing... 42% - ETA: 01:05") replaces the main text and leaves
      the speed alone. */
  lemma ProgressStatusIsMainText(w: Window, percentage: int, remaining: int)
    ensures RouteStatus(w, Progress.ProgressStatus(percentage, remaining))
            == w.(progressText := Progress.ProgressStatus(percentage, remaining))
  {
    var s := Progress.ProgressStatus(percentage, remaining);
    var a := "Processing... ";
    var b := Numbers.IntToString(percentage);
    var c := "% - ETA: ";
    var d := TimeFormat.FormatMmSs(remaining);
    assert s == a + b + c + d;
    assert forall i :: 0 <= i < |b| ==> b[i] != 'p' by {
      IntToStringHasNoP(percentage);
    }
    assert forall i :: 0 <= i < |d| ==> d[i] != 'p' by {
      MmSsHasNoP(remaining);
    }
    forall i | 0 <= i < |s|
      ensures s[i] != 'p'
    {
      if i < |a| {
        assert s[i] == a[i];
      } else if i < |a| + |b| {
        assert s[i] == b[i - |a|];
      } else if i < |a| + |b| + |c| {
        assert s[i] == c[i - |a| - |b|];
      } else {
        assert s[i] == d[i - |a| - |b| - |c|];
      }
    }
    NoSpeedWithoutP(s);
  }

  lemma IntToStringHasNoP(i: int)
    ensures forall k :: 0 <= k < |Numbers.IntToString(i)| ==> Numbers.IntToString(i)[k] != 'p'
  {
    Commands.IntToStringHasNo(i, 'p');
  }

  lemma MmSsHasNoP(ms: int)
    ensures forall k :: 0 <= k < |TimeFormat.FormatMmSs(ms)| ==> TimeFormat.FormatMmSs(ms)[k] != 'p'
  {
    var m := TimeFormat.Fixed(TimeFormat.MinutesPart(ms), 2);
    var s := TimeFormat.Fixed(TimeFormat.SecondsPart(ms), 2);
    Commands.DigitsHaveNo(m, 'p');
    Commands.DigitsHaveNo(s, 'p');
    var t := m + ":" + s;
    assert TimeFormat.FormatMmSs(ms) == t;
    forall k | 0 <= k < |t|
      ensures t[k] != 'p'
    {
      if k < |m| {
        assert t[k] == m[k];
      } else if k > |m| {
        assert t[k] == s[k - |m| - 1];
      }
    }
  }

  /** A speed status in the format SmolVideo's service prints
      ("Processing speed: 1.5x") sets the speed
      text to the number and its `x`, and leaves the main text alone,
      provided the number's text has no `s` and does not start with white
      space. */
  lemma SpeedStatusIsSpeedText(w: Window, number: string)
    requires forall i :: 0 <= i < |number| ==> number[i] != 's'
    requires |number| == 0 || !IsWhiteSpace(number[0])
    ensures RouteStatus(w, "Processing speed: " + number + "x") == w.(speedText := number + "x")
  {
    var status := "Processing speed: " + number + "x";
    var rest := " " + number + "x";
    SplitSpeedStatus(number);
    assert LastNonEmpty(["Processing ", rest]) == Some(rest);
    TrimSpeedPiece(number);
    assert Contains(status, SpeedMarker) by {
      SpeedStatusParts(number);
      MarkerAt11(rest);
    }
  }

  lemma TrimSpeedPiece(number: string)
    requires |number| == 0 || !IsWhiteSpace(number[0])
    ensures Trim(" " + number + "x") == number + "x"
  {
    var u := number + "x";
    assert " " + number + "x" == " " + u;
    assert u[0] == (if |number| == 0 then 'x' else number[0]);
    TrimStartOf(" ", u, IsWhiteSpace);
    TrimEndKeeps(u);
  }

  lemma TrimEndKeeps(u: string)
    requires |u| > 0 && !IsWhiteSpace(u[|u| - 1])
    ensures TrimEndWith(u, IsWhiteSpace) == u
  {
    var r := TrimEndWith(u, IsWhiteSpace);
    assert |r| == |u|;
  }

  lemma SplitSpeedStatus(number: string)
    requires forall i :: 0 <= i < |number| ==> number[i] != 's'
    ensures Split("Processing speed: " + number + "x", SpeedMarker) == ["Processing ", " " + number + "x"]
  {
    var rest := " " + number + "x";
    SpeedStatusParts(number);
    RestHasNoS(number);
    SplitAroundMarker(rest);
  }

  lemma SpeedStatusParts(number: string)
    ensures "Processing speed: " + number + "x" == "Processing " + SpeedMarker + (" " + number + "x")
  {
    assert "Processing speed: " == "Processing " + SpeedMarker + " ";
  }

  lemma SplitAroundMarker(rest: string)
    requires forall i :: 0 <= i < |rest| ==> rest[i] != SpeedMarker[0]
    ensures Split("Processing " + SpeedMarker + rest, SpeedMarker) == ["Processing ", rest]
  {
    var status := "Processing " + SpeedMarker + rest;
    MarkerAt11(rest);
    assert status[17..] == rest;
    NoOccurrence(rest, SpeedMarker);
    SplitInTwo(status, SpeedMarker, 11, rest);
  }

  lemma SplitInTwo(s: string, sep: string, k: nat, rest: string)
    requires |sep| > 0 && IndexOf(s, sep) == Some(k)
    requires k + |sep| <= |s| && s[k + |sep|..] == rest && IndexOf(rest, sep) == None
    ensures Split(s, sep) == [s[..k], rest]
  {
    SplitUnfold(s, sep, k);
  }

  lemma RestHasNoS(number: string)
    requires forall i :: 0 <= i < |number| ==> number[i] != 's'
    ensures forall i :: 0 <= i < |" " + number + "x"| ==> (" " + number + "x")[i] != SpeedMarker[0]
  {
    var rest := " " + number + "x";
    forall i | 0 <= i < |rest|
      ensures rest[i] != 's'
    {
      if 0 < i < |rest| - 1 {
        assert rest[i] == number[i - 1];
      }
    }
  }

  lemma MarkerAt11(rest: string)
    ensures IndexOf("Processing " + SpeedMarker + rest, SpeedMarker) == Some(11)
    ensures ("Processing " + SpeedMarker + rest)[..11] == "Processing "
  {
    var status := "Processing " + SpeedMarker + rest;
    var head := "Processing speed:";
    assert forall k :: 0 <= k < |head| ==> status[k] == head[k];
    assert status[..11] == head[..11];
    assert status[11..17] == head[11..17];
    forall j | 0 <= j < 11
      ensures !OccursAt(status, SpeedMarker, j)
    {
      assert status[j..j + 6][0] == status[j] && status[j..j + 6][1] == status[j + 1];
      assert status[j] != 's' || status[j + 1] != 'p';
    }
    FirstOccurrenceAt(status, SpeedMarker, 11);
  }

  /** The first place `sep` occurs is where `IndexOf` finds it. */
  lemma FirstOccurrenceAt(s: string, sep: string, k: nat)
    requires OccursAt(s, sep, k)
    requires forall j :: 0 <= j < k ==> !OccursAt(s, sep, j)
    ensures IndexOf(s, sep) == Some(k)
  {
    var r := IndexOf(s, sep);
    assert r.Some?;
    assert r.value <= k;
  }

  /* ---------- the lifecycle ---------- */

  const ErrorPrefix: string := "Error: "

  /** `OnOptimizationCompleted`: the timer stops, the bar fills and the
      text becomes the size summary; `summary` is how that text renders
      the result's sizes and compression. */
  function Complete(w: Window, r: ProcessResult, summary: ProcessResult -> string): Window {
    w.(completed := true, timerRunning := false, bar := 100, progressText := summary(r),
       button := CloseLabel, result := Some(r))
  }

  /** `OnOptimizationFailed`: the timer stops and the message is shown,
      with an error dialog carrying the details. */
  function Fail(w: Window, r: ProcessResult): Window {
    w.(completed := true, timerRunning := false, progressText := ErrorPrefix + r.message,
       button := CloseLabel, result := Some(r), dialog := Some((r.message, r.errorDetails)))
  }

  /** `OnOptimizationCancelled`, after the result was set to the
      cancellation error. */
  function CancelledView(w: Window): Window {
    w.(completed := true, timerRunning := false, progressText := CancelledText,
       button := CloseLabel, result := Some(CreateErrorMessage(CancelledMessage)))
  }

  /** `ProgressWindow_Closing`: stop the timer, unsubscribe, cancel the run
      unless it has completed, and dispose of the cancellation source. */
  function CloseWindow(w: Window): Window {
    var unsubscribed := w.(timerRunning := false, subscribed := false, disposed := true, closed := true);
    if w.completed then unsubscribed
    else unsubscribed.(cancelRequested := true, cancelCalls := w.cancelCalls + 1)
  }

  /** One event. Service events reach the window only while it is
      subscribed; a click before completion cancels, after it closes
      with the dialog result telling whether the run succeeded. */
  function Step(w: Window, e: Event, summary: ProcessResult -> string): Window {
    match e
    case ProgressChanged(percentage, status) =>
      if w.subscribed then w.(bar := percentage, progressText := status) else w
    case StatusChanged(status) =>
      if w.subscribed then RouteStatus(w, status) else w
    case Finished(r) =>
      if r.success then Complete(w, r, summary) else Fail(w, r)
    case ThrewCancelled => CancelledView(w)
    case Threw(message, details) => Fail(w, CreateError("Unexpected error: " + message, details, -1))
    case CancelClicked =>
      if w.completed then
        CloseWindow(w.(dialogResult := Some(w.result.Some? && w.result.value.success)))
      else
        w.(buttonEnabled := false, button := CancellingLabel, cancelRequested := true, cancelCalls := w.cancelCalls + 1)
    case Closing => CloseWindow(w)
  }

  function Run(w: Window, events: seq<Event>, summary: ProcessResult -> string): Window
    decreases |events|
  {
    if |events| == 0 then w else Run(Step(w, events[0], summary), events[1..], summary)
  }

  /** Every way the run can end marks the window completed, stops the
      timer and turns the button into "Close"; a cancellation leaves the
      cancellation error as the result. */
  lemma EndingsComplete(w: Window, e: Event, summary: ProcessResult -> string)
    requires e.Finished? || e.ThrewCancelled? || e.Threw?
    ensures var w' := Step(w, e, summary);
            w'.completed && !w'.timerRunning && w'.button == CloseLabel && w'.result.Some?
    ensures e.Finished? ==> Step(w, e, summary).result == Some(e.r)
    ensures e.ThrewCancelled? ==> Step(w, e, summary).result.value.message == CancelledMessage &&
                                  Step(w, e, summary).progressText == CancelledText
    ensures e.Finished? && e.r.success ==> Step(w, e, summary).bar == 100
    ensures e.Finished? && !e.r.success ==> Step(w, e, summary).dialog == Some((e.r.message, e.r.errorDetails))
  {
  }

  /** A click before completion asks to cancel and keeps the window open;
      after completion it closes it without cancelling anything, and the
      dialog result is the run's success. */
  lemma CancelClickByPhase(w: Window, summary: ProcessResult -> string)
    ensures var w' := Step(w, CancelClicked, summary);
            !w.completed ==> w'.cancelRequested && w'.cancelCalls == w.cancelCalls + 1 &&
                             !w'.buttonEnabled && w'.closed == w.closed
    ensures var w' := Step(w, CancelClicked, summary);
            w.completed ==> w'.closed && w'.cancelCalls == w.cancelCalls &&
                            w'.cancelRequested == w.cancelRequested &&
                            w'.dialogResult == Some(w.result.Some? && w.result.value.success)
  {
  }

  /** Closing always stops the timer, unsubscribes and disposes; it calls
      `CancelOperation` exactly when the run had not completed. */
  lemma ClosingCleansUp(w: Window, summary: ProcessResult -> string)
    ensures var w' := Step(w, Closing, summary);
            !w'.timerRunning && !w'.subscribed && w'.disposed && w'.closed &&
            w'.cancelCalls == w.cancelCalls + (if w.completed then 0 else 1) &&
            w'.completed == w.completed
  {
  }

  /** Once unsubscribed, the service's events no longer change the window. */
  lemma UnsubscribedIgnoresService(w: Window, e: Event, summary: ProcessResult -> string)
    requires !w.subscribed && (e.ProgressChanged? || e.StatusChanged?)
    ensures Step(w, e, summary) == w
  {
  }

  /** What holds of the window at every point: a completed window has its
      result, its timer stopped and a "Close" button; a closed one is
      unsubscribed and disposed; `CancelOperation` is called only together
      with a cancellation request. */
  predicate Consistent(w: Window) {
    && (w.completed ==> !w.timerRunning && w.result.Some? && w.button == CloseLabel)
    && (w.closed ==> !w.subscribed && w.disposed && !w.timerRunning)
    && (w.cancelCalls > 0 ==> w.cancelRequested)
  }

  lemma OpenedConsistent()
    ensures Consistent(Opened) && !Opened.completed && Opened.subscribed
  {
  }

  lemma StepKeepsConsistent(w: Window, e: Event, summary: ProcessResult -> string)
    requires Consistent(w)
    ensures Consistent(Step(w, e, summary))
    ensures w.completed ==> Step(w, e, summary).completed
    ensures w.closed ==> Step(w, e, summary).closed
  {
    match e
    case ProgressChanged(_, _) =>
    case StatusChanged(_) =>
    case Finished(_) => EndingsComplete(w, e, summary);
    case ThrewCancelled => EndingsComplete(w, e, summary);
    case Threw(_, _) => EndingsComplete(w, e, summary);
    case CancelClicked => CancelClickByPhase(w, summary);
    case Closing => ClosingCleansUp(w, summary);
  }

  /** Over any sequence of events the window stays consistent, and once
      completed or closed it stays so. */
  lemma {:induction false} RunKeepsConsistent(w: Window, events: seq<Event>, summary: ProcessResult -> string)
    requires Consistent(w)
    ensures Consistent(Run(w, events, summary))
    ensures w.completed ==> Run(w, events, summary).completed
    ensures w.closed ==> Run(w, events, summary).closed
    decreases |events|
  {
    if |events| > 0 {
      StepKeepsConsistent(w, events[0], summary);
      RunKeepsConsistent(Step(w, events[0], summary), events[1..], summary);
    }
  }
}
