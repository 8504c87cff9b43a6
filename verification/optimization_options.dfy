/** `OptimizationOptions`: the settings of the one-click "optimise" run —
    encoder choices and how the output file is named (`<name>.mp4`, or
    `<name>_optimized.mp4` when the input already is an MP4). */
module Optimization {
  import opened Basics
  import opened Strings
  import opened Numbers
  import opened Paths

  datatype OptimizationOptions = OptimizationOptions(
    inputPath: string,
    outputPath: string,
    crfValue: int,
    videoCodec: string,
    audioCodec: string,
    audioBitrate: string,
    preset: string,
    addFastStart: bool,
    overwriteExisting: bool)

  const DefaultOptimization: OptimizationOptions :=
    OptimizationOptions("", "", 18, "libx264", "aac", "128k", "medium", true, false)

  const OptimizedSuffix: string := "_optimized"

  /** The suffix is added exactly when the input's extension is `.mp4` in
      any letter case. */
  function Suffix(inputPath: string): (s: string)
    ensures s == OptimizedSuffix <==> LowerAscii(ExtensionOf(inputPath)) == Mp4Extension
    ensures s == "" || s == OptimizedSuffix
  {
    if LowerAscii(ExtensionOf(inputPath)) == Mp4Extension then OptimizedSuffix else ""
  }

  /** `GetOutputFileName`: the input's directory and name, the suffix, and
      the extension `.mp4`. */
  function OutputBase(o: OptimizationOptions): (p: Path)
    ensures p.dir == DirectoryOf(o.inputPath) && p.ext == Mp4Extension
    ensures p.stem == StemOf(o.inputPath) + Suffix(o.inputPath) && NoSeparator(p.stem)
  {
    assert NoSeparator(OptimizedSuffix) && NoSeparator("");
    NoSeparatorJoin(StemOf(o.inputPath), Suffix(o.inputPath));
    Path(DirectoryOf(o.inputPath), StemOf(o.inputPath) + Suffix(o.inputPath), Mp4Extension)
  }

  /** `GetUniqueOutputPath`: with overwriting on, the base name whether or
      not it exists; otherwise the first free candidate. */
  function GetUniqueOutputPath(o: OptimizationOptions, existing: set<Path>): (p: Path)
    ensures o.overwriteExisting ==> p == OutputBase(o)
    ensures !o.overwriteExisting ==> p !in existing
    ensures !o.overwriteExisting ==> p == Numbered(OutputBase(o), UniqueIndex(OutputBase(o), existing))
    ensures p.dir == DirectoryOf(o.inputPath) && p.ext == Mp4Extension
  {
    if o.overwriteExisting then OutputBase(o) else UniquePath(OutputBase(o), existing)
  }

  /** No candidate of the search names the input file, whatever its letter
      case: an `.mp4` input gets the suffix, any other input keeps its name
      but changes extension. This holds with overwriting on as well. */
  lemma OptimizedOutputNeverInput(o: OptimizationOptions, k: nat)
    ensures LowerAscii(FileName(Numbered(OutputBase(o), k))) != LowerAscii(FileNameOf(o.inputPath))
  {
    var base := OutputBase(o);
    assert base == Path(base.dir, StemOf(o.inputPath) + Suffix(o.inputPath), Mp4Extension);
    var tail := CandidateTail(base.dir, StemOf(o.inputPath), Suffix(o.inputPath), k);
    StemTailNeverInput(o.inputPath, tail);
  }

  /** A candidate's file name is the input's stem followed by `.mp4`, when
      neither a suffix nor a counter is added, or by text starting with `_`. */
  lemma CandidateTail(dir: string, stem: string, suffix: string, k: nat) returns (tail: string)
    requires suffix == "" || suffix == OptimizedSuffix
    ensures FileName(Numbered(Path(dir, stem + suffix, Mp4Extension), k)) == stem + tail
    ensures suffix == "" && k == 0 ==> tail == Mp4Extension
    ensures !(suffix == "" && k == 0) ==> |tail| > 0 && tail[0] == '_'
  {
    var base := Path(dir, stem + suffix, Mp4Extension);
    if k == 0 {
      tail := suffix + Mp4Extension;
      assert FileName(base) == stem + tail;
    } else {
      var counter := "_" + NatToString(k);
      tail := suffix + counter + Mp4Extension;
      assert FileName(Numbered(base, k)) == stem + tail;
    }
  }

  /** The chosen output is the result of the probing loop as written. */
  method ResolveOutputPath(o: OptimizationOptions, existing: set<Path>) returns (p: Path)
    ensures p == GetUniqueOutputPath(o, existing)
  {
    p := ProbeOutputPath(OutputBase(o), existing, o.overwriteExisting);
  }
}
