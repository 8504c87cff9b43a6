/** `EditingOptions`: what the editor window hands to the processing
    window — input, trim range, crop, resize, quality — and how the output
    file is named (`<name>_edited.mp4` next to the input). */
module Editing {
  import opened Basics
  import opened Strings
  import opened Numbers
  import opened Paths
  import Crop
  import Resize

  /** Times are milliseconds. */
  datatype EditingOptions = EditingOptions(
    inputPath: string,
    outputPath: string,
    trimStart: int,
    trimEnd: int,
    duration: int,
    crop: Crop.CropSettings,
    resize: Resize.ResizeSettings,
    crfValue: int)

  /** The default quality: CRF 18. */
  const DefaultCrf: int := 18

  const DefaultEditing: EditingOptions :=
    EditingOptions("", "", 0, 0, 0, Crop.NoCrop, Resize.DefaultResize, DefaultCrf)

  const EditedSuffix: string := "_edited"

  /** `HasTrimming`: the range starts after zero or ends before the end. */
  predicate HasTrimming(o: EditingOptions) {
    o.trimStart > 0 || o.trimEnd < o.duration
  }

  predicate HasCropping(o: EditingOptions) {
    Crop.HasCropping(o.crop)
  }

  predicate HasResizing(o: EditingOptions) {
    Resize.HasResizing(o.resize)
  }

  predicate HasAnyEdit(o: EditingOptions) {
    HasTrimming(o) || HasCropping(o) || HasResizing(o)
  }

  /** Fresh options ask for no edit at all and use CRF 18. */
  lemma DefaultsEditNothing()
    ensures !HasAnyEdit(DefaultEditing) && DefaultEditing.crfValue == 18
  {
  }

  /** A full-length range trims nothing; moving either end inwards does. */
  lemma TrimmingIffRangeShrinks(o: EditingOptions)
    requires 0 <= o.trimStart && o.trimEnd <= o.duration
    ensures HasTrimming(o) <==> (o.trimStart, o.trimEnd) != (0, o.duration)
  {
  }

  /** `GetOutputFileName`: the input's directory and name with `_edited`
      appended and the extension replaced by `.mp4`. */
  function OutputBase(o: EditingOptions): (p: Path)
    ensures p.dir == DirectoryOf(o.inputPath) && p.ext == Mp4Extension
    ensures p.stem == StemOf(o.inputPath) + EditedSuffix && NoSeparator(p.stem)
  {
    assert NoSeparator(EditedSuffix);
    NoSeparatorJoin(StemOf(o.inputPath), EditedSuffix);
    Path(DirectoryOf(o.inputPath), StemOf(o.inputPath) + EditedSuffix, Mp4Extension)
  }

  /** `GetUniqueOutputPath`: the first of `<name>_edited.mp4`,
      `<name>_edited_1.mp4`, `<name>_edited_2.mp4`, ... that does not exist. */
  function GetUniqueOutputPath(o: EditingOptions, existing: set<Path>): (p: Path)
    ensures p !in existing && p.dir == DirectoryOf(o.inputPath) && p.ext == Mp4Extension
    ensures p == OutputBase(o) <==> OutputBase(o) !in existing
    ensures p == Numbered(OutputBase(o), UniqueIndex(OutputBase(o), existing))
  {
    UniquePath(OutputBase(o), existing)
  }

  /** No candidate of the search names the input file, whatever its letter
      case, so editing never overwrites its own source. */
  lemma EditedOutputNeverInput(o: EditingOptions, k: nat)
    ensures LowerAscii(FileName(Numbered(OutputBase(o), k))) != LowerAscii(FileNameOf(o.inputPath))
  {
    var stem := StemOf(o.inputPath);
    var p := Numbered(OutputBase(o), k);
    var tail := FileName(p)[|stem|..];
    assert FileName(p) == stem + tail;
    assert tail[0] == '_';
    StemTailNeverInput(o.inputPath, tail);
  }

  /** The probing loop of `GetUniqueOutputPath`, which tries the candidates
      in order against the file system: it stops at the path the functional
      definition names. */
  method ResolveOutputPath(o: EditingOptions, existing: set<Path>) returns (p: Path)
    ensures p == GetUniqueOutputPath(o, existing)
  {
    p := ProbeOutputPath(OutputBase(o), existing, false);
  }
}
