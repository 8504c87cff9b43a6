/** The video editor window's handlers that change the editing options:
    the two trim handles and the two trim text boxes, the crop and width
    text boxes, the aspect-ratio check box, the reset buttons, loading a
    video, the quality label of the CRF slider and the Process button.
    Times are milliseconds; a pointer position on the timeline enters as the
    time it stands for, and a text box's content as what `int.TryParse` or
    `TimeSpan.TryParse` made of it. */
module Editor {
  import opened Basics
  import opened Strings
  import opened Numbers
  import opened TimeFormat
  import opened Paths
  import opened Editing
  import Crop
  import Resize
  import opened Metadata

  /** The smallest range the handles leave between start and end. */
  const HandleGap: int := 100
  /** The smallest range the text boxes leave between start and end. */
  const TextGap: int := 1000

  /** The trim range lies inside the loaded video. */
  predicate TrimInRange(o: EditingOptions, m: VideoMetadata) {
    0 <= o.trimStart <= o.trimEnd <= m.duration
  }

  // ---------------------------------------------------------------------
  // Trim handles and trim text boxes
  // ---------------------------------------------------------------------

  /** `StartHandle_MouseMove`: the start follows the pointer time `t`, but
      never goes below zero nor within `HandleGap` of the end. */
  function DragStart(o: EditingOptions, t: int): (o': EditingOptions)
    ensures o' == o.(trimStart := o'.trimStart)
    ensures 0 <= o'.trimStart <= Max(0, o.trimEnd - HandleGap)
    ensures 0 <= t <= o.trimEnd - HandleGap ==> o'.trimStart == t
    ensures t < 0 ==> o'.trimStart == 0
    ensures t > o.trimEnd - HandleGap ==> o'.trimStart == Max(0, o.trimEnd - HandleGap)
  {
    o.(trimStart := Max(0, Min(t, o.trimEnd - HandleGap)))
  }

  /** `EndHandle_MouseMove`: the end follows the pointer time `t`, but never
      goes past the video's end nor within `HandleGap` of the start. */
  function DragEnd(o: EditingOptions, m: VideoMetadata, t: int): (o': EditingOptions)
    ensures o' == o.(trimEnd := o'.trimEnd)
    ensures Min(m.duration, o.trimStart + HandleGap) <= o'.trimEnd <= m.duration
    ensures o.trimStart + HandleGap <= t <= m.duration ==> o'.trimEnd == t
    ensures t > m.duration ==> o'.trimEnd == m.duration
    ensures t < o.trimStart + HandleGap ==> o'.trimEnd == Min(m.duration, o.trimStart + HandleGap)
  {
    o.(trimEnd := Min(m.duration, Max(t, o.trimStart + HandleGap)))
  }

  /** `TrimTextBox_TextChanged` for the start box: a text that parses moves
      the start like the handle does, with `TextGap` instead of
      `HandleGap`; any other text changes nothing. */
  function TypeStart(o: EditingOptions, parsed: Option<int>): (o': EditingOptions)
    ensures o' == o.(trimStart := o'.trimStart)
    ensures parsed.None? ==> o' == o
    ensures parsed.Some? ==> 0 <= o'.trimStart <= Max(0, o.trimEnd - TextGap)
    ensures parsed.Some? && 0 <= parsed.value <= o.trimEnd - TextGap ==> o'.trimStart == parsed.value
  {
    match parsed
    case None => o
    case Some(time) => o.(trimStart := Max(0, Min(time, o.trimEnd - TextGap)))
  }

  /** `TrimTextBox_TextChanged` for the end box. */
  function TypeEnd(o: EditingOptions, m: VideoMetadata, parsed: Option<int>): (o': EditingOptions)
    ensures o' == o.(trimEnd := o'.trimEnd)
    ensures parsed.None? ==> o' == o
    ensures parsed.Some? ==> Min(m.duration, o.trimStart + TextGap) <= o'.trimEnd <= m.duration
    ensures parsed.Some? && o.trimStart + TextGap <= parsed.value <= m.duration ==> o'.trimEnd == parsed.value
  {
    match parsed
    case None => o
    case Some(time) => o.(trimEnd := Min(m.duration, Max(time, o.trimStart + TextGap)))
  }

  /** Each of the four trim edits keeps the range inside the video, and
      keeps the gap its control promises whenever the video leaves room
      for it. */
  lemma TrimEditsKeepRange(o: EditingOptions, m: VideoMetadata, t: int, parsed: Option<int>)
    requires TrimInRange(o, m)
    ensures TrimInRange(DragStart(o, t), m) && TrimInRange(DragEnd(o, m, t), m)
    ensures TrimInRange(TypeStart(o, parsed), m) && TrimInRange(TypeEnd(o, m, parsed), m)
    ensures o.trimEnd >= HandleGap ==> DragStart(o, t).trimEnd - DragStart(o, t).trimStart >= HandleGap
    ensures o.trimStart + HandleGap <= m.duration ==> DragEnd(o, m, t).trimEnd - o.trimStart >= HandleGap
    ensures o.trimEnd >= TextGap && parsed.Some? ==> TypeStart(o, parsed).trimEnd - TypeStart(o, parsed).trimStart >= TextGap
    ensures o.trimStart + TextGap <= m.duration && parsed.Some? ==> TypeEnd(o, m, parsed).trimEnd - o.trimStart >= TextGap
  {
  }

  /** The start handle as written: after clamping, the handler writes the
      new start into the start text box as `hh:mm:ss.fff`; when that changes
      the box's text, the box's own handler reads it back and clamps it a
      second time with the wider `TextGap`. */
  function DragStartAsWritten(o: EditingOptions, t: int, shownText: string): (o': EditingOptions)
    ensures o' == o.(trimStart := o'.trimStart)
  {
    var o1 := DragStart(o, t);
    var text := FormatHmsFff(o1.trimStart);
    if text == shownText then o1 else TypeStart(o1, ParseHmsFff(text))
  }

  /** The end handle as written, with the same echo through the end box. */
  function DragEndAsWritten(o: EditingOptions, m: VideoMetadata, t: int, shownText: string): (o': EditingOptions)
    ensures o' == o.(trimEnd := o'.trimEnd)
  {
    var o1 := DragEnd(o, m, t);
    var text := FormatHmsFff(o1.trimEnd);
    if text == shownText then o1 else TypeEnd(o1, m, ParseHmsFff(text))
  }

  /** Whenever the handle's new start changes the box's text, the
      as-written start ends up clamped with the text box's gap instead. */
  lemma DragStartEcho(o: EditingOptions, t: int, shownText: string)
    requires 0 <= t <= o.trimEnd - HandleGap && t < MsPerDay
    requires shownText != FormatHmsFff(t)
    ensures DragStartAsWritten(o, t, shownText).trimStart == Max(0, Min(t, o.trimEnd - TextGap))
  {
    ParseFormatWithinDay(t);
  }

  /** The same for the end handle. */
  lemma DragEndEcho(o: EditingOptions, m: VideoMetadata, t: int, shownText: string)
    requires o.trimStart + HandleGap <= t <= m.duration && 0 <= t < MsPerDay
    requires shownText != FormatHmsFff(t)
    ensures DragEndAsWritten(o, m, t, shownText).trimEnd == Min(m.duration, Max(t, o.trimStart + TextGap))
  {
    ParseFormatWithinDay(t);
  }

  /** Durations within a day print differently. */
  lemma FormatWithinDayInjective(a: int, b: int)
    requires 0 <= a < MsPerDay && 0 <= b < MsPerDay && a != b
    ensures FormatHmsFff(a) != FormatHmsFff(b)
  {
    ParseFormatWithinDay(a);
    ParseFormatWithinDay(b);
  }

  /** On a ten-second video, dragging the start from 0 s to 9.9 s is a
      position the handle accepts, but the echo through the text box pulls
      it back to 9 s; likewise the end dragged from 10 s to 0.1 s is pushed
      out to 1 s. */
  lemma DragEchoWidensGap()
    ensures var o := DefaultEditing.(trimEnd := 10000, duration := 10000);
            DragStart(o, 9900).trimStart == 9900 &&
            DragStartAsWritten(o, 9900, FormatHmsFff(0)).trimStart == 9000
    ensures var o := DefaultEditing.(trimEnd := 10000, duration := 10000);
            var m := DefaultMetadata.(duration := 10000);
            DragEnd(o, m, 100).trimEnd == 100 &&
            DragEndAsWritten(o, m, 100, FormatHmsFff(10000)).trimEnd == 1000
  {
    var o := DefaultEditing.(trimEnd := 10000, duration := 10000);
    var m := DefaultMetadata.(duration := 10000);
    FormatWithinDayInjective(0, 9900);
    DragStartEcho(o, 9900, FormatHmsFff(0));
    FormatWithinDayInjective(10000, 100);
    DragEndEcho(o, m, 100, FormatHmsFff(10000));
  }

  /** Where the handle already leaves a text-box-sized gap, the echo is
      harmless: the as-written handle lands where the handle alone does. */
  lemma DragEchoHarmlessWithWideGap(o: EditingOptions, m: VideoMetadata, t: int, shownStart: string, shownEnd: string)
    requires TrimInRange(o, m) && m.duration < MsPerDay
    ensures DragStart(o, t).trimStart <= o.trimEnd - TextGap ==>
              DragStartAsWritten(o, t, shownStart) == DragStart(o, t)
    ensures DragEnd(o, m, t).trimEnd >= o.trimStart + TextGap ==>
              DragEndAsWritten(o, m, t, shownEnd) == DragEnd(o, m, t)
  {
    ParseFormatWithinDay(DragStart(o, t).trimStart);
    ParseFormatWithinDay(DragEnd(o, m, t).trimEnd);
  }

  // ---------------------------------------------------------------------
  // Crop and resize boxes
  // ---------------------------------------------------------------------

  /** `CropTextBox_TextChanged`: only when all four boxes parse are the
      margins taken, each raised to zero if negative; otherwise the crop is
      left as it was. */
  function TypeCrop(c: Crop.CropSettings, top: Option<int>, right: Option<int>, bottom: Option<int>, left: Option<int>)
    : (c': Crop.CropSettings)
    ensures !(top.Some? && right.Some? && bottom.Some? && left.Some?) ==> c' == c
    ensures top.Some? && right.Some? && bottom.Some? && left.Some? ==>
              Crop.NonNegative(c') &&
              (top.value >= 0 ==> c'.top == top.value) && (right.value >= 0 ==> c'.right == right.value) &&
              (bottom.value >= 0 ==> c'.bottom == bottom.value) && (left.value >= 0 ==> c'.left == left.value)
    ensures top.Some? && right.Some? && bottom.Some? && left.Some? ==>
              (top.value < 0 ==> c'.top == 0) && (right.value < 0 ==> c'.right == 0) &&
              (bottom.value < 0 ==> c'.bottom == 0) && (left.value < 0 ==> c'.left == 0)
  {
    if top.Some? && right.Some? && bottom.Some? && left.Some? then
      Crop.CropSettings(Max(0, top.value), Max(0, right.value), Max(0, bottom.value), Max(0, left.value))
    else c
  }

  /** Typing the decimal forms of a non-negative 32-bit crop into the four
      boxes sets exactly that crop, whatever was there before. */
  lemma CropTextRoundTrip(c0: Crop.CropSettings, c: Crop.CropSettings)
    requires Crop.NonNegative(c) && Crop.AllInt32(c)
    ensures TypeCrop(c0, ParseInt32(IntToString(c.top)), ParseInt32(IntToString(c.right)),
                     ParseInt32(IntToString(c.bottom)), ParseInt32(IntToString(c.left))) == c
  {
    ParseIntToString(c.top);
    ParseIntToString(c.right);
    ParseIntToString(c.bottom);
    ParseIntToString(c.left);
  }

  /** `ResizeWidthTextBox_TextChanged`: a positive width that parses is
      taken, and with the aspect lock on the height is recomputed from the
      loaded video's size (wrapping to `int.MinValue` when it passes
      `int.MaxValue`); any other text changes nothing. */
  function TypeWidth(r: Resize.ResizeSettings, m: VideoMetadata, parsed: Option<int>): (r': Resize.ResizeSettings)
    ensures !(parsed.Some? && parsed.value > 0) ==> r' == r
    ensures parsed.Some? && parsed.value > 0 ==>
              r'.width == parsed.value && r'.maintainAspectRatio == r.maintainAspectRatio
    ensures parsed.Some? && parsed.value > 0 && !r.maintainAspectRatio ==> r'.height == r.height
    ensures parsed.Some? && parsed.value > 0 && r.maintainAspectRatio && m.width > 0 && m.height > 0 ==>
              r'.height % 2 == 0 &&
              (Resize.HeightFits(m.width, m.height, parsed.value) ==>
                 2 * Abs(r'.height * m.width - parsed.value * m.height) <= 3 * m.width) &&
              (!Resize.HeightFits(m.width, m.height, parsed.value) ==> r'.height == IntMin)
  {
    match parsed
    case Some(w) =>
      if w > 0 then
        var r1 := r.(width := w);
        if r1.maintainAspectRatio then
          NearProportionalWhenKnown(r1, m, w);
          Resize.CalculateHeight(r1, m.width, m.height, w)
        else r1
      else r
    case None => r
  }

  lemma NearProportionalWhenKnown(r: Resize.ResizeSettings, m: VideoMetadata, w: int)
    requires r.maintainAspectRatio
    ensures m.width > 0 && m.height > 0 && Resize.HeightFits(m.width, m.height, w) ==>
              2 * Abs(Resize.CalculateHeight(r, m.width, m.height, w).height * m.width - w * m.height) <= 3 * m.width
    ensures m.width > 0 && m.height > 0 && !Resize.HeightFits(m.width, m.height, w) ==>
              Resize.CalculateHeight(r, m.width, m.height, w).height == IntMin
  {
    if m.width > 0 && m.height > 0 {
      Resize.CalculatedHeightNearProportional(r, m.width, m.height, w);
    }
  }

  /** `MaintainAspectRatioCheckBox_Changed`: the lock follows the box, and
      switching it on with a width already set recomputes the height. */
  function ToggleAspect(r: Resize.ResizeSettings, m: VideoMetadata, checked: bool): (r': Resize.ResizeSettings)
    ensures r'.maintainAspectRatio == checked && r'.width == r.width
    ensures !(checked && r.width > 0) ==> r'.height == r.height
    ensures checked && r.width > 0 && m.width > 0 && m.height > 0 ==>
              r'.height % 2 == 0 &&
              (Resize.HeightFits(m.width, m.height, r.width) ==>
                 2 * Abs(r'.height * m.width - r.width * m.height) <= 3 * m.width) &&
              (!Resize.HeightFits(m.width, m.height, r.width) ==> r'.height == IntMin)
  {
    var r1 := r.(maintainAspectRatio := checked);
    if checked && r1.width > 0 then
      NearProportionalWhenKnown(r1, m, r1.width);
      Resize.CalculateHeight(r1, m.width, m.height, r1.width)
    else r1
  }

  /** With the lock off, a width alone never switches resizing on: the
      height box has no handler, so the height stays whatever it was. */
  lemma UnlockedWidthKeepsResizing(r: Resize.ResizeSettings, m: VideoMetadata, parsed: Option<int>)
    requires !r.maintainAspectRatio && !Resize.HasResizing(r) && r.height <= 0
    ensures !Resize.HasResizing(TypeWidth(r, m, parsed))
  {
  }

  // ---------------------------------------------------------------------
  // Resets and loading
  // ---------------------------------------------------------------------

  /** `ResetTrimButton_Click` as evidently intended: the whole video. */
  function ResetTrim(o: EditingOptions, m: VideoMetadata): (o': EditingOptions)
    ensures o' == o.(trimStart := 0, trimEnd := m.duration)
    ensures o.duration == m.duration ==> !HasTrimming(o')
    ensures m.duration >= 0 ==> TrimInRange(o', m)
  {
    o.(trimStart := 0, trimEnd := m.duration)
  }

  /** The text both resets write into the start box. */
  const ResetStartText: string := "00:00:00"

  /** The two writes that follow setting the full range, in the trim reset
      and in the load: `00:00:00` into the start box, then the duration's
      `hh:mm:ss.fff` text into the end box. A write whose text differs from
      what the box showed runs the box's handler, which reads the text back
      and clamps it; `00:00:00` reads as zero. */
  function RewriteTrimBoxes(o: EditingOptions, m: VideoMetadata, shownStart: string, shownEnd: string): (o': EditingOptions)
    ensures o' == o.(trimStart := o'.trimStart, trimEnd := o'.trimEnd)
  {
    var o1 := if shownStart == ResetStartText then o else TypeStart(o, Some(0));
    if shownEnd == DurationFormatted(m) then o1 else TypeEnd(o1, m, ParseHmsFff(DurationFormatted(m)))
  }

  /** After the full range is set, the start box's echo changes nothing,
      and the end box's echo, when it runs, reads back the duration less its
      whole days (`hh` prints the hour within the day), raised to at least
      the text box's gap. */
  lemma FullRangeRewrite(o: EditingOptions, m: VideoMetadata, shownStart: string, shownEnd: string)
    requires o.trimStart == 0 && o.trimEnd == m.duration && m.duration >= 0
    ensures RewriteTrimBoxes(o, m, shownStart, shownEnd) ==
            if shownEnd == DurationFormatted(m) then o
            else o.(trimEnd := Min(m.duration, Max(m.duration % MsPerDay, TextGap)))
  {
    DurationFormattedReadsBack(m);
  }

  /** `ResetTrimButton_Click` as written: the whole video, then the two
      box writes. The start always ends at zero and the range inside the
      video. */
  function ResetTrimAsWritten(o: EditingOptions, m: VideoMetadata, shownStart: string, shownEnd: string): (o': EditingOptions)
    ensures o' == o.(trimStart := 0, trimEnd := o'.trimEnd)
    ensures m.duration >= 0 ==> TrimInRange(o', m)
  {
    RewriteTrimBoxes(ResetTrim(o, m), m, shownStart, shownEnd)
  }

  /** The reset as written is the intended one exactly when the video is
      shorter than a day or the end box already shows its duration. Past a
      day, a rewritten end box moves the end to the duration's time of day,
      at least one second in. */
  lemma ResetTrimAsWrittenCharacterised(o: EditingOptions, m: VideoMetadata, shownStart: string, shownEnd: string)
    ensures m.duration >= 0 ==>
              (ResetTrimAsWritten(o, m, shownStart, shownEnd) == ResetTrim(o, m) <==>
               m.duration < MsPerDay || shownEnd == DurationFormatted(m))
    ensures m.duration >= 0 && shownEnd != DurationFormatted(m) ==>
              ResetTrimAsWritten(o, m, shownStart, shownEnd) ==
              ResetTrim(o, m).(trimEnd := Min(m.duration, Max(m.duration % MsPerDay, TextGap)))
  {
    if m.duration >= 0 {
      FullRangeRewrite(ResetTrim(o, m), m, shownStart, shownEnd);
      DayEchoKeepsEnd(m.duration);
    }
  }

  /** `ResetCropButton_Click`: nothing is cropped any more. */
  function ResetCrop(o: EditingOptions): (o': EditingOptions)
    ensures o' == o.(crop := o'.crop)
    ensures !HasCropping(o') && Crop.NonNegative(o'.crop)
  {
    o.(crop := Crop.Reset(o.crop))
  }

  /** `ResetResizeButton_Click`: both dimensions cleared, the lock kept. */
  function ResetResize(o: EditingOptions): (o': EditingOptions)
    ensures o' == o.(resize := o'.resize)
    ensures !HasResizing(o') && o'.resize.maintainAspectRatio == o.resize.maintainAspectRatio
  {
    o.(resize := Resize.Reset(o.resize))
  }

  /** `LoadVideoFile` as written: the new input, its duration and the full
      range, then `ResetAllControls`, which rewrites the two trim boxes
      (`RewriteTrimBoxes`), writes `0` into the crop boxes (the margins
      become zero), resets the slider to CRF 18, ticks the lock box (its
      handler runs only when it was clear) and empties the width box, whose
      text does not parse, so the width handler changes nothing. */
  function LoadVideoAsWritten(o: EditingOptions, path: string, m: VideoMetadata, shownStart: string, shownEnd: string)
    : (o': EditingOptions)
    ensures o'.inputPath == path && o'.duration == m.duration && o'.outputPath == o.outputPath
    ensures o'.trimStart == 0 && (m.duration >= 0 ==> TrimInRange(o', m))
    ensures !HasCropping(o') && Crop.NonNegative(o'.crop) && o'.crfValue == DefaultCrf
  {
    RewriteTrimBoxes(LoadFields(o, path, m), m, shownStart, shownEnd)
  }

  /** The settings `LoadVideoFile` and `ResetAllControls` assign before the
      trim boxes are rewritten. */
  function LoadFields(o: EditingOptions, path: string, m: VideoMetadata): EditingOptions {
    var r1 := TypeWidth(o.resize, m, ParseInt32(""));
    var r2 := if r1.maintainAspectRatio then r1 else ToggleAspect(r1, m, true);
    o.(inputPath := path, duration := m.duration, trimStart := 0, trimEnd := m.duration,
       crop := Crop.NoCrop, resize := r2, crfValue := DefaultCrf)
  }

  /** A resize chosen for one video survives loading the next: set a width
      (say 1280, giving 720 on a 16:9 video) on one video, load another,
      and the fresh video already asks for that resize although both size
      boxes are empty. */
  lemma LoadKeepsOldResize(o: EditingOptions, path: string, m: VideoMetadata, shownStart: string, shownEnd: string)
    requires HasResizing(o) && o.resize.maintainAspectRatio
    ensures LoadVideoAsWritten(o, path, m, shownStart, shownEnd).resize == o.resize
    ensures HasAnyEdit(LoadVideoAsWritten(o, path, m, shownStart, shownEnd))
  {
    EmptyTextUnparsed();
  }

  lemma EmptyTextUnparsed()
    ensures ParseInt32("") == None
  {
  }

  /** `LoadVideoFile` as `ResetAllControls` evidently intends: the new video,
      its full range, no crop, no size with the lock on, and CRF 18. */
  function LoadVideo(o: EditingOptions, path: string, m: VideoMetadata): (o': EditingOptions)
    ensures o'.inputPath == path && o'.duration == m.duration && o'.outputPath == o.outputPath
    ensures !HasAnyEdit(o') && o'.crfValue == DefaultCrf
    ensures o'.resize.maintainAspectRatio && Crop.NonNegative(o'.crop)
    ensures m.duration >= 0 ==> TrimInRange(o', m)
  {
    o.(inputPath := path, duration := m.duration, trimStart := 0, trimEnd := m.duration,
       crop := Crop.NoCrop, resize := Resize.DefaultResize, crfValue := DefaultCrf)
  }

  /** The two loads differ only in the resize settings and the end they
      leave. The end is the whole video exactly when the video is shorter
      than a day or the end box already showed its duration, and from fresh
      settings the resize agrees too. */
  lemma LoadsDifferOnlyInResizeAndEnd(o: EditingOptions, path: string, m: VideoMetadata, shownStart: string, shownEnd: string)
    ensures var w := LoadVideoAsWritten(o, path, m, shownStart, shownEnd);
            w == LoadVideo(o, path, m).(resize := w.resize, trimEnd := w.trimEnd)
    ensures m.duration >= 0 ==>
              (LoadVideoAsWritten(o, path, m, shownStart, shownEnd).trimEnd == m.duration <==>
               m.duration < MsPerDay || shownEnd == DurationFormatted(m))
    ensures o.resize == Resize.DefaultResize ==>
              LoadVideoAsWritten(o, path, m, shownStart, shownEnd).resize == Resize.DefaultResize
  {
    var o1 := LoadFields(o, path, m);
    assert o1 == LoadVideo(o, path, m).(resize := o1.resize) && (o.resize == Resize.DefaultResize ==> o1.resize == o.resize) by {
      EmptyTextUnparsed();
    }
    if m.duration >= 0 {
      FullRangeRewrite(o1, m, shownStart, shownEnd);
      DayEchoKeepsEnd(m.duration);
    }
  }

  /** Whole days drop out of a remainder by a day. */
  lemma DayRemainder(k: nat, r: int)
    requires 0 <= r < MsPerDay
    ensures (k * MsPerDay + r) % MsPerDay == r
  {
  }

  /** The end box's echo of a full range leaves the end at the duration
      exactly when the video is shorter than a day. */
  lemma DayEchoKeepsEnd(d: int)
    requires d >= 0
    ensures Min(d, Max(d % MsPerDay, TextGap)) == d <==> d < MsPerDay
  {
    if d >= MsPerDay {
      assert d % MsPerDay < MsPerDay;
    } else {
      WithinDayUnchanged(d);
    }
  }

  /** A 25-hour video loaded while the end box shows anything but
      `01:00:00.000` starts out trimmed to its first hour: the end box
      prints the duration as `01:00:00.000`, which its handler reads back as
      the new end. */
  lemma LongVideoLoadsTrimmed(o: EditingOptions, path: string, m: VideoMetadata, shownStart: string, shownEnd: string)
    requires m.duration == 25 * MsPerHour && shownEnd != DurationFormatted(m)
    ensures LoadVideoAsWritten(o, path, m, shownStart, shownEnd).trimEnd == MsPerHour
    ensures HasTrimming(LoadVideoAsWritten(o, path, m, shownStart, shownEnd))
  {
    var o1 := LoadFields(o, path, m);
    assert o1.trimStart == 0 && o1.trimEnd == m.duration && o1.duration == m.duration;
    var d := m.duration;
    assert d == 1 * MsPerDay + MsPerHour;
    assert d % MsPerDay == MsPerHour by {
      DayRemainder(1, MsPerHour);
    }
    assert Max(MsPerHour, TextGap) == MsPerHour;
    FullRangeRewrite(o1, m, shownStart, shownEnd);
  }


  // ---------------------------------------------------------------------
  // A session of edits
  // ---------------------------------------------------------------------

  /** One user action on a loaded video. Typing carries the box's new text
      and what `TimeSpan.TryParse` makes of it. */
  datatype EditEvent =
    | DragStartTo(t: int)
    | DragEndTo(t: int)
    | TypedStart(text: string, start: Option<int>)
    | TypedEnd(text: string, end: Option<int>)
    | TypedCrop(top: Option<int>, right: Option<int>, bottom: Option<int>, left: Option<int>)
    | TypedWidth(width: Option<int>)
    | AspectLock(checked: bool)
    | ResetTrimClicked
    | ResetCropClicked
    | ResetResizeClicked

  /** An action as the handlers evidently intend it: each sets its own
      setting once, with no echo through the trim boxes. */
  function Apply(o: EditingOptions, m: VideoMetadata, e: EditEvent): EditingOptions {
    match e
    case DragStartTo(t) => DragStart(o, t)
    case DragEndTo(t) => DragEnd(o, m, t)
    case TypedStart(_, p) => TypeStart(o, p)
    case TypedEnd(_, p) => TypeEnd(o, m, p)
    case TypedCrop(t, r, b, l) => o.(crop := TypeCrop(o.crop, t, r, b, l))
    case TypedWidth(p) => o.(resize := TypeWidth(o.resize, m, p))
    case AspectLock(c) => o.(resize := ToggleAspect(o.resize, m, c))
    case ResetTrimClicked => ResetTrim(o, m)
    case ResetCropClicked => ResetCrop(o)
    case ResetResizeClicked => ResetResize(o)
  }

  function ApplyAll(o: EditingOptions, m: VideoMetadata, es: seq<EditEvent>): EditingOptions
    decreases |es|
  {
    if es == [] then o else ApplyAll(Apply(o, m, es[0]), m, es[1..])
  }

  /** What every action keeps once a video is loaded: the range inside the
      video, the options' duration equal to the video's, the input path,
      and margins that are never negative. */
  predicate SessionInvariant(o: EditingOptions, m: VideoMetadata, path: string) {
    TrimInRange(o, m) && o.duration == m.duration && o.inputPath == path && Crop.NonNegative(o.crop)
  }

  lemma ApplyKeepsInvariant(o: EditingOptions, m: VideoMetadata, path: string, e: EditEvent)
    requires SessionInvariant(o, m, path)
    ensures SessionInvariant(Apply(o, m, e), m, path)
  {
    match e
    case DragStartTo(t) => TrimEditsKeepRange(o, m, t, None);
    case DragEndTo(t) => TrimEditsKeepRange(o, m, t, None);
    case TypedStart(_, p) => TrimEditsKeepRange(o, m, 0, p);
    case TypedEnd(_, p) => TrimEditsKeepRange(o, m, 0, p);
    case _ =>
  }

  /** After loading a video, any sequence of edits keeps the trim range
      inside the video and the margins non-negative. */
  lemma {:induction false} EditsKeepInvariant(o: EditingOptions, m: VideoMetadata, path: string, es: seq<EditEvent>)
    requires SessionInvariant(o, m, path)
    ensures SessionInvariant(ApplyAll(o, m, es), m, path)
    decreases |es|
  {
    if es != [] {
      ApplyKeepsInvariant(o, m, path, es[0]);
      EditsKeepInvariant(Apply(o, m, es[0]), m, path, es[1..]);
    }
  }

  /** Every session of intended edits that starts with the intended load
      keeps the range inside the video. */
  lemma LoadedSessionInRange(o: EditingOptions, path: string, m: VideoMetadata, es: seq<EditEvent>)
    requires m.duration >= 0
    ensures TrimInRange(ApplyAll(LoadVideo(o, path, m), m, es), m)
  {
    EditsKeepInvariant(LoadVideo(o, path, m), m, path, es);
  }

  // ---------------------------------------------------------------------
  // The same session as written, with the trim boxes' text
  // ---------------------------------------------------------------------

  /** The editor window as written: its settings and the text the two trim
      boxes show, which decides whether a write runs a box's handler. */
  datatype EditorWindow = EditorWindow(options: EditingOptions, startText: string, endText: string)

  /** An action as written. The handles and the trim reset write the boxes
      and echo through them; typing runs a box's handler only when the text
      changes; every other action is the intended one. */
  function ApplyAsWritten(w: EditorWindow, m: VideoMetadata, e: EditEvent): (w': EditorWindow)
    ensures w'.options.inputPath == w.options.inputPath && w'.options.duration == w.options.duration
  {
    var o := w.options;
    match e
    case DragStartTo(t) =>
      EditorWindow(DragStartAsWritten(o, t, w.startText), FormatHmsFff(DragStart(o, t).trimStart), w.endText)
    case DragEndTo(t) =>
      EditorWindow(DragEndAsWritten(o, m, t, w.endText), w.startText, FormatHmsFff(DragEnd(o, m, t).trimEnd))
    case TypedStart(text, p) =>
      if text == w.startText then w else EditorWindow(TypeStart(o, p), text, w.endText)
    case TypedEnd(text, p) =>
      if text == w.endText then w else EditorWindow(TypeEnd(o, m, p), w.startText, text)
    case ResetTrimClicked =>
      EditorWindow(ResetTrimAsWritten(o, m, w.startText, w.endText), ResetStartText, DurationFormatted(m))
    case _ => w.(options := Apply(o, m, e))
  }

  function ApplyAllAsWritten(w: EditorWindow, m: VideoMetadata, es: seq<EditEvent>): EditorWindow
    decreases |es|
  {
    if es == [] then w else ApplyAllAsWritten(ApplyAsWritten(w, m, es[0]), m, es[1..])
  }

  /** `LoadVideoFile` on the window as written: the trim boxes end up
      showing `00:00:00` and the duration. */
  function LoadWindowAsWritten(w: EditorWindow, path: string, m: VideoMetadata): (w': EditorWindow)
    ensures w'.startText == ResetStartText && w'.endText == DurationFormatted(m)
    ensures w'.options == LoadVideoAsWritten(w.options, path, m, w.startText, w.endText)
  {
    EditorWindow(LoadVideoAsWritten(w.options, path, m, w.startText, w.endText), ResetStartText, DurationFormatted(m))
  }

  /** Where the written program and the intended one agree: on every action
      that does not touch the trim boxes, on typing that changes a box's
      text, on the trim reset for a video shorter than a day, and on a
      handle that already leaves a text-box-sized gap. */
  lemma AsWrittenAgreesWithIntended(w: EditorWindow, m: VideoMetadata, e: EditEvent)
    ensures !(e.DragStartTo? || e.DragEndTo? || e.TypedStart? || e.TypedEnd? || e.ResetTrimClicked?) ==>
              ApplyAsWritten(w, m, e).options == Apply(w.options, m, e)
    ensures e.TypedStart? && e.text != w.startText ==> ApplyAsWritten(w, m, e).options == Apply(w.options, m, e)
    ensures e.TypedEnd? && e.text != w.endText ==> ApplyAsWritten(w, m, e).options == Apply(w.options, m, e)
    ensures e.ResetTrimClicked? && 0 <= m.duration < MsPerDay ==>
              ApplyAsWritten(w, m, e).options == Apply(w.options, m, e)
    ensures e.DragStartTo? && TrimInRange(w.options, m) && m.duration < MsPerDay &&
            DragStart(w.options, e.t).trimStart <= w.options.trimEnd - TextGap ==>
              ApplyAsWritten(w, m, e).options == Apply(w.options, m, e)
    ensures e.DragEndTo? && TrimInRange(w.options, m) && m.duration < MsPerDay &&
            DragEnd(w.options, m, e.t).trimEnd >= w.options.trimStart + TextGap ==>
              ApplyAsWritten(w, m, e).options == Apply(w.options, m, e)
  {
    match e
    case ResetTrimClicked => ResetTrimAsWrittenCharacterised(w.options, m, w.startText, w.endText);
    case DragStartTo(t) =>
      if TrimInRange(w.options, m) && m.duration < MsPerDay {
        DragEchoHarmlessWithWideGap(w.options, m, t, w.startText, w.endText);
      }
    case DragEndTo(t) =>
      if TrimInRange(w.options, m) && m.duration < MsPerDay {
        DragEchoHarmlessWithWideGap(w.options, m, t, w.startText, w.endText);
      }
    case _ =>
  }

  lemma ApplyAsWrittenKeepsInvariant(w: EditorWindow, m: VideoMetadata, path: string, e: EditEvent)
    requires SessionInvariant(w.options, m, path)
    ensures SessionInvariant(ApplyAsWritten(w, m, e).options, m, path)
  {
    var o := w.options;
    match e
    case DragStartTo(t) => DragsAsWrittenKeepRange(o, m, t, w.startText, w.endText);
    case DragEndTo(t) => DragsAsWrittenKeepRange(o, m, t, w.startText, w.endText);
    case TypedStart(_, p) => TrimEditsKeepRange(o, m, 0, p);
    case TypedEnd(_, p) => TrimEditsKeepRange(o, m, 0, p);
    case ResetTrimClicked =>
    case _ => ApplyKeepsInvariant(o, m, path, e);
  }

  /** Both handles as written keep the range inside the video: the echo
      is one more clamp of the same kind. */
  lemma DragsAsWrittenKeepRange(o: EditingOptions, m: VideoMetadata, t: int, shownStart: string, shownEnd: string)
    requires TrimInRange(o, m)
    ensures TrimInRange(DragStartAsWritten(o, t, shownStart), m)
    ensures TrimInRange(DragEndAsWritten(o, m, t, shownEnd), m)
  {
    TrimEditsKeepRange(o, m, t, None);
    DragStartAsWrittenKeepsRange(o, m, t, shownStart);
    DragEndAsWrittenKeepsRange(o, m, t, shownEnd);
  }

  lemma DragStartAsWrittenKeepsRange(o: EditingOptions, m: VideoMetadata, t: int, shown: string)
    requires TrimInRange(DragStart(o, t), m)
    ensures TrimInRange(DragStartAsWritten(o, t, shown), m)
  {
    var s1 := DragStart(o, t);
    var text := FormatHmsFff(s1.trimStart);
    if text != shown {
      EchoKeepsRange(s1, m, text, text);
    }
  }

  lemma DragEndAsWrittenKeepsRange(o: EditingOptions, m: VideoMetadata, t: int, shown: string)
    requires TrimInRange(DragEnd(o, m, t), m)
    ensures TrimInRange(DragEndAsWritten(o, m, t, shown), m)
  {
    var e1 := DragEnd(o, m, t);
    var text := FormatHmsFff(e1.trimEnd);
    if text != shown {
      EchoKeepsRange(e1, m, text, text);
    }
  }

  /** Reading any text back into either box keeps the range inside the
      video. */
  lemma EchoKeepsRange(o: EditingOptions, m: VideoMetadata, startText: string, endText: string)
    requires TrimInRange(o, m)
    ensures TrimInRange(TypeStart(o, ParseHmsFff(startText)), m)
    ensures TrimInRange(TypeEnd(o, m, ParseHmsFff(endText)), m)
  {
    TrimEditsKeepRange(o, m, 0, ParseHmsFff(startText));
    TrimEditsKeepRange(o, m, 0, ParseHmsFff(endText));
  }

  /** The written program keeps the same invariant: however the boxes echo,
      the range stays inside the video and the margins non-negative. */
  lemma {:induction false} WindowEditsKeepInvariant(w: EditorWindow, m: VideoMetadata, path: string, es: seq<EditEvent>)
    requires SessionInvariant(w.options, m, path)
    ensures SessionInvariant(ApplyAllAsWritten(w, m, es).options, m, path)
    decreases |es|
  {
    if es != [] {
      ApplyAsWrittenKeepsInvariant(w, m, path, es[0]);
      WindowEditsKeepInvariant(ApplyAsWritten(w, m, es[0]), m, path, es[1..]);
    }
  }

  /** Every session as written that starts with the written load keeps the
      range inside the video. */
  lemma LoadedWindowSessionInRange(w: EditorWindow, path: string, m: VideoMetadata, es: seq<EditEvent>)
    requires m.duration >= 0
    ensures TrimInRange(ApplyAllAsWritten(LoadWindowAsWritten(w, path, m), m, es).options, m)
  {
    WindowEditsKeepInvariant(LoadWindowAsWritten(w, path, m), m, path, es);
  }

  // ---------------------------------------------------------------------
  // Quality label
  // ---------------------------------------------------------------------

  const QualityLabels: seq<string> :=
    ["Visually Lossless", "High Quality", "Good Quality", "Medium Quality", "Low Quality", "Very Low Quality"]

  /** The largest CRF of each band but the last. */
  const QualityBounds: seq<int> := [15, 18, 23, 28, 35]

  /** `GetQualityDescription`. */
  function QualityDescription(crf: int): (s: string)
    ensures s in QualityLabels
  {
    if crf <= 15 then "Visually Lossless"
    else if crf <= 18 then "High Quality"
    else if crf <= 23 then "Good Quality"
    else if crf <= 28 then "Medium Quality"
    else if crf <= 35 then "Low Quality"
    else "Very Low Quality"
  }

  /** The band of a CRF counted from `i`: the first bound it does not
      exceed, or the last band. */
  function BandFrom(crf: int, i: nat): (k: nat)
    requires i <= |QualityBounds|
    requires i == 0 || crf > QualityBounds[i - 1]
    ensures i <= k <= |QualityBounds|
    ensures k < |QualityBounds| ==> crf <= QualityBounds[k]
    ensures k > 0 ==> crf > QualityBounds[k - 1]
    decreases |QualityBounds| - i
  {
    if i == |QualityBounds| || crf <= QualityBounds[i] then i else BandFrom(crf, i + 1)
  }

  /** The band index of a CRF, from best quality (0) to worst (5). */
  function QualityBand(crf: int): (k: nat)
    ensures k < |QualityLabels|
  {
    BandFrom(crf, 0)
  }

  /** The bounds increase, so a band is pinned down by its two bounds. */
  lemma {:induction false} BandCharacterised(crf: int, k: nat)
    requires k < |QualityLabels|
    ensures QualityBand(crf) == k <==>
            (k == 0 || crf > QualityBounds[k - 1]) && (k == |QualityBounds| || crf <= QualityBounds[k])
  {
    var b := QualityBand(crf);
    assert forall i, j :: 0 <= i < j < |QualityBounds| ==> QualityBounds[i] < QualityBounds[j];
  }

  /** The label is the band's entry in the table. */
  lemma QualityDescriptionByBand(crf: int)
    ensures QualityDescription(crf) == QualityLabels[QualityBand(crf)]
  {
    var k := QualityBand(crf);
    BandCharacterised(crf, k);
  }

  /** A lower CRF never gets a worse label. */
  lemma QualityBandMonotone(a: int, b: int)
    requires a <= b
    ensures QualityBand(a) <= QualityBand(b)
  {
    var ka := QualityBand(a);
    var kb := QualityBand(b);
    BandCharacterised(a, ka);
    BandCharacterised(b, kb);
  }

  // ---------------------------------------------------------------------
  // The Process button
  // ---------------------------------------------------------------------

  const NoChangesMessage: string :=
    "No editing operations specified. Please configure trimming, cropping, or resizing."

  datatype ProcessClick =
    | NoVideo
    | NoChanges(message: string)
    | Started(options: EditingOptions)

  /** `ProcessButton_Click`: nothing without a video, a notice without an
      edit, and otherwise the options with the first free `_edited` output
      path, handed to the processing window. */
  function ClickProcess(o: EditingOptions, video: Option<VideoMetadata>, existing: set<Path>): (c: ProcessClick)
    ensures c.NoVideo? <==> video.None?
    ensures c.NoChanges? <==> video.Some? && !HasAnyEdit(o)
    ensures c.NoChanges? ==> c.message == NoChangesMessage
    ensures c.Started? ==> c.options == o.(outputPath := c.options.outputPath)
  {
    if video.None? then NoVideo
    else if !HasTrimming(o) && !HasCropping(o) && !HasResizing(o) then NoChanges(NoChangesMessage)
    else Started(o.(outputPath := PathText(GetUniqueOutputPath(o, existing))))
  }

  /** A started edit always asks for some edit, writes to an `.mp4` next to
      the input that does not exist yet, and whose name differs from the
      input's in any letter case. */
  lemma StartedEditWritesFreshFile(o: EditingOptions, m: VideoMetadata, existing: set<Path>)
    requires HasAnyEdit(o)
    ensures ClickProcess(o, Some(m), existing).Started?
    ensures var p := GetUniqueOutputPath(o, existing);
            ClickProcess(o, Some(m), existing).options.outputPath == PathText(p) &&
            HasAnyEdit(ClickProcess(o, Some(m), existing).options) &&
            p !in existing && p.dir == DirectoryOf(o.inputPath) && p.ext == Mp4Extension &&
            LowerAscii(FileName(p)) != LowerAscii(FileNameOf(o.inputPath))
  {
    var n := UniqueIndex(OutputBase(o), existing);
    EditedOutputNeverInput(o, n);
  }

  /** As written, Process right after a load from fresh settings only
      shows the notice for a video shorter than a day, or when the end box
      already showed its duration; otherwise the echoed end makes it start
      a trim. */
  lemma FreshLoadAsWrittenHasNothingToDo(o: EditingOptions, path: string, m: VideoMetadata,
                                         shownStart: string, shownEnd: string, existing: set<Path>)
    ensures o.resize == Resize.DefaultResize && m.duration >= 0 ==>
              (ClickProcess(LoadVideoAsWritten(o, path, m, shownStart, shownEnd), Some(m), existing)
                 == NoChanges(NoChangesMessage) <==>
               m.duration < MsPerDay || shownEnd == DurationFormatted(m))
  {
    LoadsDifferOnlyInResizeAndEnd(o, path, m, shownStart, shownEnd);
  }

  /** Right after the intended load, Process only shows the notice. */
  lemma FreshLoadHasNothingToDo(o: EditingOptions, path: string, m: VideoMetadata, existing: set<Path>)
    ensures ClickProcess(LoadVideo(o, path, m), Some(m), existing) == NoChanges(NoChangesMessage)
  {
  }
}
