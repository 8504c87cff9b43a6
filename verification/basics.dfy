/** Small shared vocabulary: an optional value, min/max, and the 32-bit
    signed integer range that C# `int` arithmetic wraps around in. */
module Basics {

  /** A value that may be missing (C# `null` or a failed `TryParse`). */
  datatype Option<+T> = None | Some(value: T)

  /** An exact quotient `num / den`, standing in for a C# `double` ratio. */
  datatype Fraction = Fraction(num: int, den: int)

  const IntMax: int := 0x7FFF_FFFF
  const IntMin: int := -0x8000_0000
  const TwoTo32: int := 0x1_0000_0000

  predicate InInt32(x: int) {
    IntMin <= x <= IntMax
  }

  /** Unchecked C# `int` arithmetic: the mathematical result reduced into
      the 32-bit two's-complement range. */
  function Wrap32(x: int): (r: int)
    ensures InInt32(r)
    ensures (x - r) % TwoTo32 == 0
    ensures InInt32(x) ==> r == x
  {
    var m := (x - IntMin) % TwoTo32;
    m + IntMin
  }

  function Min(a: int, b: int): (r: int)
    ensures r <= a && r <= b
    ensures r == a || r == b
  {
    if a <= b then a else b
  }

  function Max(a: int, b: int): (r: int)
    ensures r >= a && r >= b
    ensures r == a || r == b
  {
    if a >= b then a else b
  }

  function Abs(x: int): (r: nat)
    ensures r == x || r == -x
  {
    if x < 0 then -x else x
  }
}
