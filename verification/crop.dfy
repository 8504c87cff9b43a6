/** `CropSettings`: pixels to remove from each edge of the frame. The
    properties are C# `int`s and the arithmetic is unchecked, so sums and
    differences wrap around at 32 bits. */
module Crop {
  import opened Basics

  datatype CropSettings = CropSettings(top: int, right: int, bottom: int, left: int)

  /** A fresh `CropSettings`, and the state `Reset` returns to. */
  const NoCrop: CropSettings := CropSettings(0, 0, 0, 0)

  predicate AllInt32(c: CropSettings) {
    InInt32(c.top) && InInt32(c.right) && InInt32(c.bottom) && InInt32(c.left)
  }

  predicate NonNegative(c: CropSettings) {
    c.top >= 0 && c.right >= 0 && c.bottom >= 0 && c.left >= 0
  }

  /** `HasCropping`: some edge is cut by a positive amount. */
  predicate HasCropping(c: CropSettings) {
    c.top > 0 || c.right > 0 || c.bottom > 0 || c.left > 0
  }

  /** `CalculateWidth`: the original width less the left and right margins,
      in wrapping 32-bit arithmetic. */
  function CalculateWidth(c: CropSettings, originalWidth: int): (w: int)
    ensures InInt32(w)
    ensures InInt32(originalWidth - c.left) && InInt32(originalWidth - c.left - c.right) ==>
              w == originalWidth - c.left - c.right
  {
    Wrap32(Wrap32(originalWidth - c.left) - c.right)
  }

  /** `CalculateHeight`: the original height less the top and bottom margins. */
  function CalculateHeight(c: CropSettings, originalHeight: int): (h: int)
    ensures InInt32(h)
    ensures InInt32(originalHeight - c.top) && InInt32(originalHeight - c.top - c.bottom) ==>
              h == originalHeight - c.top - c.bottom
  {
    Wrap32(Wrap32(originalHeight - c.top) - c.bottom)
  }

  /** `IsValid` as written: the margin sums are computed in wrapping 32-bit
      arithmetic before being compared with the frame size. */
  predicate IsValidAsWritten(c: CropSettings, videoWidth: int, videoHeight: int) {
    c.left >= 0 && c.right >= 0 && c.top >= 0 && c.bottom >= 0 &&
    Wrap32(c.left + c.right) < videoWidth && Wrap32(c.top + c.bottom) < videoHeight
  }

  /** `IsValid` as intended: non-negative margins whose true sums leave at
      least one pixel in each direction. */
  predicate IsValid(c: CropSettings, videoWidth: int, videoHeight: int) {
    NonNegative(c) && c.left + c.right < videoWidth && c.top + c.bottom < videoHeight
  }

  /** A crop that passes the intended check leaves a frame of at least one
      pixel that fits inside the original, and the two checks agree whenever
      neither margin sum overflows. */
  lemma ValidCropFits(c: CropSettings, w: int, h: int)
    requires AllInt32(c) && InInt32(w) && InInt32(h)
    ensures IsValid(c, w, h) ==> 0 < CalculateWidth(c, w) <= w && 0 < CalculateHeight(c, h) <= h
    ensures IsValid(c, w, h) ==> IsValidAsWritten(c, w, h)
    ensures InInt32(c.left + c.right) && InInt32(c.top + c.bottom) ==>
              (IsValid(c, w, h) <==> IsValidAsWritten(c, w, h))
  {
  }

  /** Margins of 1.5 billion pixels on each side of a 1920x1080 frame pass the
      check as written, because their sum wraps to a negative number, and the
      computed width then wraps to more than the frame's width. */
  lemma OverflowPassesValidation()
    ensures var c := CropSettings(0, 1_500_000_000, 0, 1_500_000_000);
            IsValidAsWritten(c, 1920, 1080) && !IsValid(c, 1920, 1080) &&
            CalculateWidth(c, 1920) > 1920
  {
    var c := CropSettings(0, 1_500_000_000, 0, 1_500_000_000);
    assert Wrap32(3_000_000_000) == 3_000_000_000 - TwoTo32;
    assert Wrap32(1920 - 1_500_000_000) == 1920 - 1_500_000_000;
    assert Wrap32(1920 - 3_000_000_000) == 1920 - 3_000_000_000 + TwoTo32;
  }

  /** With non-negative margins that fit the frame, cropping is switched on
      exactly when the output frame is smaller than the input. */
  lemma HasCroppingMeansSmaller(c: CropSettings, w: int, h: int)
    requires AllInt32(c) && InInt32(w) && InInt32(h) && IsValid(c, w, h)
    ensures HasCropping(c) <==> (CalculateWidth(c, w) < w || CalculateHeight(c, h) < h)
  {
  }

  /** `Reset`: all margins back to zero, so nothing is cropped and every
      32-bit frame keeps its size. */
  function Reset(c: CropSettings): (r: CropSettings)
    ensures !HasCropping(r) && NonNegative(r)
    ensures forall w :: InInt32(w) ==> CalculateWidth(r, w) == w && CalculateHeight(r, w) == w
  {
    NoCrop
  }
}
