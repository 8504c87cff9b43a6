/** Decimal rendering and parsing of integers as the .NET runtime does it
    for the invariant culture: `int.ToString()`, `int.TryParse` with
    `NumberStyles.Integer`, zero padding for custom time formats, and the
    rounding rule of `Math.Round` (midpoint to even). */
module Numbers {
  import opened Basics
  import opened Strings

  function DigitChar(d: nat): (c: char)
    requires d < 10
    ensures IsAsciiDigit(c)
  {
    ('0' as int + d) as char
  }

  function DigitValue(c: char): (d: nat)
    requires IsAsciiDigit(c)
    ensures d < 10 && DigitChar(d) == c
  {
    c as int - '0' as int
  }

  /** The value of a string of decimal digits, most significant first. */
  function DigitsValue(ds: string): nat
    requires AllDigits(ds)
    decreases |ds|
  {
    if |ds| == 0 then 0
    else DigitsValue(ds[..|ds| - 1]) * 10 + DigitValue(ds[|ds| - 1])
  }

  /** One, two or three digits are worth less than 10, 100 or 1000. */
  lemma ShortDigitsValue(ds: string)
    requires AllDigits(ds)
    ensures |ds| <= 1 ==> DigitsValue(ds) < 10
    ensures |ds| <= 2 ==> DigitsValue(ds) < 100
    ensures |ds| <= 3 ==> DigitsValue(ds) < 1000
  {
    if 0 < |ds| <= 3 {
      ShortDigitsValue(ds[..|ds| - 1]);
    }
  }

  lemma DigitsValueSnoc(ds: string, c: char)
    requires AllDigits(ds) && IsAsciiDigit(c)
    ensures AllDigits(ds + [c])
    ensures DigitsValue(ds + [c]) == DigitsValue(ds) * 10 + DigitValue(c)
  {
    assert (ds + [c])[..|ds|] == ds;
  }

  /** Leading zeros do not change the value of a digit string. */
  lemma {:induction false} DigitsValueLeadingZero(ds: string)
    requires AllDigits(ds)
    ensures AllDigits("0" + ds) && DigitsValue("0" + ds) == DigitsValue(ds)
    decreases |ds|
  {
    if |ds| > 0 {
      var init := ds[..|ds| - 1];
      DigitsValueLeadingZero(init);
      assert ("0" + ds)[..|ds|] == "0" + init;
      assert ("0" + ds)[|ds|] == ds[|ds| - 1];
    }
  }

  /** `n.ToString()` for a natural number: the canonical digit string. */
  function NatToString(n: nat): (s: string)
    ensures |s| >= 1 && AllDigits(s)
    ensures DigitsValue(s) == n
    ensures |s| > 1 ==> s[0] != '0'
    decreases n
  {
    if n < 10 then [DigitChar(n)]
    else
      var init := NatToString(n / 10);
      DigitsValueSnoc(init, DigitChar(n % 10));
      init + [DigitChar(n % 10)]
  }

  /** A number printed with at most two digits is below 100. */
  lemma NatToStringValueBound(n: nat)
    requires |NatToString(n)| <= 2
    ensures n < 100
  {
    ShortDigitsValue(NatToString(n));
  }

  /** Distinct numbers render to distinct strings. */
  lemma NatToStringInjective(a: nat, b: nat)
    requires NatToString(a) == NatToString(b)
    ensures a == b
  {
  }

  /** `i.ToString()` for a C# `int`: a minus sign before the magnitude when
      negative. */
  function IntToString(i: int): (s: string)
    ensures |s| >= 1
    ensures i >= 0 ==> s == NatToString(i)
    ensures i < 0 ==> s == "-" + NatToString(-i)
  {
    if i < 0 then "-" + NatToString(-i) else NatToString(i)
  }

  /** The characters `int.TryParse` skips around a number with
      `NumberStyles.Integer`: space and the controls 9 to 13. */
  predicate IsNumberSpace(c: char) {
    c == ' ' || ('\t' <= c <= '\r')
  }

  /** The unsigned, all-digit body of an integer literal. */
  function ParseDigits(body: string): (r: Option<nat>)
    ensures r.Some? <==> |body| > 0 && AllDigits(body)
    ensures r.Some? ==> r.value == DigitsValue(body)
  {
    if |body| > 0 && AllDigits(body) then Some(DigitsValue(body)) else None
  }

  /** `int.TryParse(s, out v)`: optional surrounding white space, an optional
      leading `+` or `-`, at least one ASCII digit, and a value that fits in
      32 bits; anything else fails. */
  function ParseInt32(s: string): (r: Option<int>)
    ensures r.Some? ==> InInt32(r.value)
  {
    var t := TrimEndWith(TrimStartWith(s, IsNumberSpace), IsNumberSpace);
    if |t| == 0 then None
    else
      var negative := t[0] == '-';
      var body := if t[0] == '-' || t[0] == '+' then t[1..] else t;
      match ParseDigits(body)
      case None => None
      case Some(m) =>
        var v: int := if negative then 0 - (m as int) else m;
        if InInt32(v) then Some(v) else None
  }

  /** Rendering then parsing a 32-bit integer gives it back. */
  lemma ParseIntToString(i: int)
    requires InInt32(i)
    ensures ParseInt32(IntToString(i)) == Some(i)
  {
    var s := IntToString(i);
    assert TrimStartWith(s, IsNumberSpace) == s;
    assert TrimEndWith(s, IsNumberSpace) == s;
    if i < 0 {
      assert s[1..] == NatToString(-i);
    }
  }

  /** Distinct integers render to distinct strings. */
  lemma IntToStringInjective(a: int, b: int)
    requires IntToString(a) == IntToString(b)
    ensures a == b
  {
    if a < 0 && b < 0 {
      assert NatToString(-a) == IntToString(a)[1..];
    }
  }

  /** The custom-format specifiers `hh`, `mm`, `fff`: the number rendered
      with leading zeros up to `width` digits. */
  function PadZeros(n: nat, width: nat): (s: string)
    ensures |s| == Max(width, |NatToString(n)|)
    ensures AllDigits(s) && DigitsValue(s) == n
    decreases width
  {
    var digits := NatToString(n);
    if |digits| >= width then digits
    else
      var shorter := PadZeros(n, width - 1);
      DigitsValueLeadingZero(shorter);
      "0" + shorter
  }

  /** `Math.Round(num / den)` with the default midpoint rule: the nearest
      integer, and the even one of the two at an exact midpoint. */
  function RoundHalfEven(num: int, den: int): (r: int)
    requires den > 0
    ensures 2 * Abs(num - r * den) <= den
    ensures 2 * Abs(num - r * den) == den ==> r % 2 == 0
  {
    var q := num / den;
    var rem := num % den;
    assert num - q * den == rem;
    assert num - (q + 1) * den == rem - den;
    if 2 * rem < den then q
    else if 2 * rem > den then q + 1
    else if q % 2 == 0 then q
    else q + 1
  }

  /** An unchecked `(int)` cast of a `double` quotient. A finite quotient is
      already truncated toward zero. Out of range, runtimes differ: since
      .NET 9 the cast saturates (and NaN gives 0); before, x86/x64 gave
      `int.MinValue`. */
  datatype Quotient = Finite(truncated: int) | PositiveInfinity | NotANumber

  function CastToInt32(q: Quotient, saturating: bool): (r: int)
    ensures InInt32(r)
    ensures q.Finite? && InInt32(q.truncated) ==> r == q.truncated
  {
    match q
    case Finite(v) =>
      if InInt32(v) then v
      else if saturating then (if v > 0 then IntMax else IntMin)
      else IntMin
    case PositiveInfinity => if saturating then IntMax else IntMin
    case NotANumber => if saturating then 0 else IntMin
  }

  function Pow1024(k: nat): (p: nat)
    ensures p >= 1
  {
    if k == 0 then 1 else 1024 * Pow1024(k - 1)
  }

  /** Larger exponents give larger powers. */
  lemma {:induction false} Pow1024Monotone(a: nat, b: nat)
    requires a <= b
    ensures Pow1024(a) <= Pow1024(b)
    ensures a < b ==> 1024 * Pow1024(a) <= Pow1024(b)
    decreases b
  {
    if a < b {
      Pow1024Monotone(a, b - 1);
    }
  }
}
