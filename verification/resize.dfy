/** `ResizeSettings`: a target frame size and whether the height follows the
    width to keep the source's aspect ratio. */
module Resize {
  import opened Basics
  import opened Numbers

  datatype ResizeSettings = ResizeSettings(width: int, height: int, maintainAspectRatio: bool)

  /** A fresh `ResizeSettings`: no size yet, aspect ratio kept. */
  const DefaultResize: ResizeSettings := ResizeSettings(0, 0, true)

  const MaxWidth: int := 7680
  const MaxHeight: int := 4320

  /** `HasResizing`: both dimensions are set. */
  predicate HasResizing(r: ResizeSettings) {
    r.width > 0 && r.height > 0
  }

  /** The height `CalculateHeight` stores for a rounded proportional height
      `k`: the unchecked `(int)` cast of `k`, then `Height += 1` when odd,
      which wraps at `int.MaxValue`. */
  function EvenHeight(k: int, saturating: bool): (h: int)
    ensures InInt32(h)
  {
    var c := CastToInt32(Finite(k), saturating);
    if c % 2 != 0 then Wrap32(c + 1) else c
  }

  /** A rounded height below `int.MaxValue` becomes the nearest even height
      at or above it. Anything else comes out as `int.MinValue`, whichever
      way the runtime casts an out-of-range `double`: a saturated
      `int.MaxValue` is odd and wraps when bumped. */
  lemma EvenHeightCharacterised(k: int, saturating: bool)
    ensures IntMin <= k < IntMax ==> EvenHeight(k, saturating) % 2 == 0 &&
                                     k <= EvenHeight(k, saturating) <= k + 1
    ensures !(IntMin <= k < IntMax) ==> EvenHeight(k, saturating) == IntMin
  {
    if k > IntMax && saturating {
      assert CastToInt32(Finite(k), saturating) == IntMax;
      assert Wrap32(IntMax + 1) == IntMin;
    } else if k == IntMax {
      assert Wrap32(IntMax + 1) == IntMin;
    }
  }

  /** The rounded proportional height stays below `int.MaxValue`, so the
      height `CalculateHeight` stores does not wrap. */
  predicate HeightFits(originalWidth: int, originalHeight: int, newWidth: int)
    requires originalWidth > 0
  {
    IntMin <= RoundHalfEven(newWidth * originalHeight, originalWidth) < IntMax
  }

  /** `CalculateHeight(originalWidth, originalHeight, newWidth)`: when the
      aspect ratio is kept and the source size is known, the height becomes
      the proportional height rounded to the nearest integer (midpoint to
      even), cast to `int`, and bumped up by one if odd. Only the height
      changes; the width property is left as it was. The modern saturating
      cast is used; `CalculateHeightSameOnEveryRuntime` shows the older
      cast gives the same height. */
  function CalculateHeight(r: ResizeSettings, originalWidth: int, originalHeight: int, newWidth: int): (r': ResizeSettings)
    ensures r'.width == r.width && r'.maintainAspectRatio == r.maintainAspectRatio
    ensures !(r.maintainAspectRatio && originalWidth > 0 && originalHeight > 0) ==> r' == r
    ensures r.maintainAspectRatio && originalWidth > 0 && originalHeight > 0 ==>
              InInt32(r'.height) && r'.height % 2 == 0 &&
              var k := RoundHalfEven(newWidth * originalHeight, originalWidth);
              (IntMin <= k < IntMax ==> k <= r'.height <= k + 1) &&
              (!(IntMin <= k < IntMax) ==> r'.height == IntMin)
  {
    if r.maintainAspectRatio && originalWidth > 0 && originalHeight > 0 then
      var k := RoundHalfEven(newWidth * originalHeight, originalWidth);
      EvenHeightCharacterised(k, true);
      r.(height := EvenHeight(k, true))
    else r
  }

  /** The height does not depend on how the runtime casts an out-of-range
      `double` to `int`. */
  lemma CalculateHeightSameOnEveryRuntime(r: ResizeSettings, ow: int, oh: int, nw: int)
    requires r.maintainAspectRatio && ow > 0 && oh > 0
    ensures CalculateHeight(r, ow, oh, nw).height == EvenHeight(RoundHalfEven(nw * oh, ow), false)
  {
    var k := RoundHalfEven(nw * oh, ow);
    EvenHeightCharacterised(k, true);
    EvenHeightCharacterised(k, false);
  }

  /** A width so large that the proportional height passes `int.MaxValue`
      wraps the height to `int.MinValue`: 2000000000 on a 1080x1920 frame
      leaves no resize at all. */
  lemma HugeWidthWrapsHeight()
    ensures CalculateHeight(DefaultResize, 1080, 1920, 2000000000).height == IntMin
    ensures !HasResizing(CalculateHeight(DefaultResize, 1080, 1920, 2000000000).(width := 2000000000))
  {
    var k := RoundHalfEven(2000000000 * 1920, 1080);
    assert 2 * Abs(2000000000 * 1920 - k * 1080) <= 1080;
    assert k > IntMax;
  }

  /** Unless the rounded height reaches `int.MaxValue`, the computed height
      stays within one and a half pixels of the exact proportional height
      `newWidth * originalHeight / originalWidth`. */
  lemma CalculatedHeightNearProportional(r: ResizeSettings, ow: int, oh: int, nw: int)
    requires r.maintainAspectRatio && ow > 0 && oh > 0
    ensures HeightFits(ow, oh, nw) ==>
              2 * Abs(CalculateHeight(r, ow, oh, nw).height * ow - nw * oh) <= 3 * ow
    ensures !HeightFits(ow, oh, nw) ==> CalculateHeight(r, ow, oh, nw).height == IntMin
  {
    var k := RoundHalfEven(nw * oh, ow);
    var h := CalculateHeight(r, ow, oh, nw).height;
    if IntMin <= k < IntMax {
      NearByRounding(nw * oh, ow, k, h);
    }
  }

  /** A height at most one above a rounded quotient `p / d` is within one
      and a half of it. */
  lemma NearByRounding(p: int, d: int, k: int, h: int)
    requires d > 0 && 2 * Abs(p - k * d) <= d && k <= h <= k + 1
    ensures 2 * Abs(h * d - p) <= 3 * d
  {
    if h == k + 1 {
      assert h * d == k * d + d;
    }
  }

  /** A frame whose proportional height is already an even whole number is
      scaled exactly: 1920x1080 to width 1280 gives 720. */
  lemma ExactAspectKept()
    ensures CalculateHeight(DefaultResize, 1920, 1080, 1280).height == 720
  {
    assert 1280 * 1080 == 720 * 1920;
    assert (1280 * 1080) / 1920 == 720 && (1280 * 1080) % 1920 == 0;
    assert RoundHalfEven(1280 * 1080, 1920) == 720;
  }

  /** Rounding a positive quotient gives a positive integer exactly when
      the quotient exceeds one half, and zero otherwise. */
  lemma RoundPositiveIffAboveHalf(p: int, d: int)
    requires p >= 1 && d > 0
    ensures RoundHalfEven(p, d) >= 0
    ensures RoundHalfEven(p, d) >= 1 <==> 2 * p > d
  {
    if p < d {
      assert p / d == 0 && p % d == p;
    } else {
      assert p / d >= 1;
    }
  }

  /** With a positive width and a kept aspect ratio, resizing is switched on
      exactly when the proportional height exceeds half a pixel and its
      rounding stays below `int.MaxValue`; below half a pixel the height
      rounds to zero, above `int.MaxValue` it wraps negative, and either way
      the resize is silently dropped. */
  lemma ResizingIffHeightAboveHalf(r: ResizeSettings, ow: int, oh: int, nw: int)
    requires r.maintainAspectRatio && ow > 0 && oh > 0 && nw > 0
    ensures HasResizing(CalculateHeight(r, ow, oh, nw).(width := nw)) <==>
              2 * (nw * oh) > ow && HeightFits(ow, oh, nw)
  {
    var p := nw * oh;
    assert p >= 1;
    RoundPositiveIffAboveHalf(p, ow);
  }

  /** `SetDimensions`. */
  function SetDimensions(r: ResizeSettings, width: int, height: int): (r': ResizeSettings)
    ensures r'.width == width && r'.height == height
    ensures r'.maintainAspectRatio == r.maintainAspectRatio
  {
    r.(width := width, height := height)
  }

  /** `IsValid`: both dimensions positive and at most 8K (7680x4320). */
  predicate IsValid(r: ResizeSettings) {
    0 < r.width <= MaxWidth && 0 < r.height <= MaxHeight
  }

  /** A valid size always means resizing is on, and resizing is on exactly
      when a size within 8K passes the check. */
  lemma ValidMeansResizing(r: ResizeSettings)
    ensures IsValid(r) ==> HasResizing(r)
    ensures r.width <= MaxWidth && r.height <= MaxHeight ==> (HasResizing(r) <==> IsValid(r))
  {
  }

  /** `Reset`: both dimensions back to zero; whether the aspect ratio is kept
      is left untouched. */
  function Reset(r: ResizeSettings): (r': ResizeSettings)
    ensures !HasResizing(r') && r'.width == 0 && r'.height == 0
    ensures r'.maintainAspectRatio == r.maintainAspectRatio
  {
    r.(width := 0, height := 0)
  }
}
