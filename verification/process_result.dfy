/** `ProcessResult`: the outcome of one ffmpeg run as the windows report it,
    its two factory methods, the compression-ratio guard and the unit chosen
    for a file size. Times are milliseconds, sizes byte counts. */
module Results {
  import opened Basics
  import opened Numbers

  datatype ProcessResult = ProcessResult(
    success: bool,
    message: string,
    errorDetails: string,
    outputPath: string,
    processingTime: int,
    inputFileSize: int,
    outputFileSize: int,
    exitCode: int)

  const SuccessMessage: string := "Video optimization completed successfully"
  const CancelledMessage: string := "Operation was cancelled by user"

  /** What any factory-made result satisfies: a success carries no error
      details and exit code 0; a failure names no output and no sizes. */
  predicate WellFormed(r: ProcessResult) {
    && (r.success ==> r.errorDetails == "" && r.exitCode == 0 && r.message == SuccessMessage)
    && (!r.success ==> r.outputPath == "" && r.inputFileSize == 0 && r.outputFileSize == 0 && r.processingTime == 0)
  }

  /** `CreateSuccess`: the given output, time and sizes, copied verbatim. */
  function CreateSuccess(outputPath: string, processingTime: int, inputSize: int, outputSize: int): (r: ProcessResult)
    ensures r.success && WellFormed(r)
    ensures r.outputPath == outputPath && r.processingTime == processingTime
    ensures r.inputFileSize == inputSize && r.outputFileSize == outputSize
  {
    ProcessResult(true, SuccessMessage, "", outputPath, processingTime, inputSize, outputSize, 0)
  }

  /** `CreateError(message, errorDetails, exitCode)`. */
  function CreateError(message: string, errorDetails: string, exitCode: int): (r: ProcessResult)
    ensures !r.success && WellFormed(r)
    ensures r.message == message && r.errorDetails == errorDetails && r.exitCode == exitCode
  {
    ProcessResult(false, message, errorDetails, "", 0, 0, 0, exitCode)
  }

  /** `CreateError(message)` with the defaults: no details, exit code -1. */
  function CreateErrorMessage(message: string): (r: ProcessResult)
    ensures !r.success && WellFormed(r)
    ensures r.message == message && r.errorDetails == "" && r.exitCode == -1
  {
    CreateError(message, "", -1)
  }

  /** Success and failure results can never be confused: they differ in
      the flag, and two results of the same factory are equal exactly when
      their arguments are. */
  lemma FactoriesInjective(o1: string, t1: int, i1: int, s1: int, o2: string, t2: int, i2: int, s2: int,
                           m1: string, d1: string, c1: int, m2: string, d2: string, c2: int)
    ensures CreateSuccess(o1, t1, i1, s1) != CreateError(m1, d1, c1)
    ensures CreateSuccess(o1, t1, i1, s1) == CreateSuccess(o2, t2, i2, s2) <==> (o1, t1, i1, s1) == (o2, t2, i2, s2)
    ensures CreateError(m1, d1, c1) == CreateError(m2, d2, c2) <==> (m1, d1, c1) == (m2, d2, c2)
  {
  }

  /** `GetCompressionRatio`: output size over input size, or zero when the
      input size is zero. */
  function GetCompressionRatio(r: ProcessResult): (f: Fraction)
    ensures f.den != 0
    ensures r.inputFileSize == 0 ==> f.num == 0
    ensures r.inputFileSize != 0 ==> f.num * r.inputFileSize == r.outputFileSize * f.den
  {
    if r.inputFileSize == 0 then Fraction(0, 1) else Fraction(r.outputFileSize, r.inputFileSize)
  }

  /** The units `FormatFileSize` chooses from. */
  const SizeUnits: seq<string> := ["B", "KB", "MB", "GB"]

  /** The loop of `FormatFileSize` from `order` divisions on: divide while
      the value is at least 1024 and a larger unit remains. Dividing a
      double by 1024 is exact, so the test is `bytes >= 1024^(order+1)`. */
  function OrderFrom(bytes: int, order: nat): (n: nat)
    requires order < |SizeUnits|
    requires order == 0 || bytes >= Pow1024(order)
    ensures order <= n < |SizeUnits|
    ensures n == 0 || bytes >= Pow1024(n)
    ensures n == |SizeUnits| - 1 || bytes < Pow1024(n + 1)
    decreases |SizeUnits| - order
  {
    if bytes >= Pow1024(order + 1) && order < |SizeUnits| - 1 then OrderFrom(bytes, order + 1) else order
  }

  /** The unit index of `FormatFileSize`: within the table, and the largest
      power of 1024 not above the size, capped at GB. */
  function SizeOrder(bytes: int): (n: nat)
    ensures n < |SizeUnits|
  {
    OrderFrom(bytes, 0)
  }

  lemma {:induction false} SizeOrderCharacterised(bytes: int, n: nat)
    requires n < |SizeUnits|
    ensures SizeOrder(bytes) == n <==>
            ((n == 0 || bytes >= Pow1024(n)) && (n == |SizeUnits| - 1 || bytes < Pow1024(n + 1)))
  {
    var m := SizeOrder(bytes);
    Pow1024Strict(n, m);
    Pow1024Strict(m, n);
  }

  lemma Pow1024Strict(a: nat, b: nat)
    ensures a < b ==> Pow1024(a + 1) <= Pow1024(b)
  {
    if a < b {
      Pow1024Monotone(a + 1, b);
    }
  }

  function SizeUnit(bytes: int): (u: string)
    ensures u in SizeUnits
  {
    SizeUnits[SizeOrder(bytes)]
  }

  /** Sizes below 1 KiB stay in bytes; 5 GiB and more are shown in GB. */
  lemma SizeUnitExamples()
    ensures SizeUnit(1023) == "B" && SizeUnit(1024) == "KB"
    ensures SizeUnit(5 * 1024 * 1024 * 1024) == "GB"
  {
    assert Pow1024(1) == 1024;
    assert Pow1024(3) == 1024 * 1024 * 1024;
    SizeOrderCharacterised(1023, 0);
    SizeOrderCharacterised(1024, 1);
    SizeOrderCharacterised(5 * 1024 * 1024 * 1024, 3);
  }
}
