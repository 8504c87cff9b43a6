/** File paths as the application handles them: `Path.GetDirectoryName`,
    `Path.GetFileNameWithoutExtension`, `Path.GetExtension`, `Path.Combine`,
    and the "append `_1`, `_2`, ... until the name is free" search both
    option classes use to pick an output file. The file system is the set
    of paths that exist. */
module Paths {
  import opened Basics
  import opened Strings
  import opened Numbers

  /** Windows accepts both slashes as directory separators. */
  predicate IsDirSeparator(c: char) {
    c == '\\' || c == '/'
  }

  predicate IsDot(c: char) {
    c == '.'
  }

  predicate NoSeparator(s: string) {
    forall i :: 0 <= i < |s| ==> !IsDirSeparator(s[i])
  }

  /** Joining two names without separators gives a name without one. */
  lemma NoSeparatorJoin(a: string, b: string)
    requires NoSeparator(a) && NoSeparator(b)
    ensures NoSeparator(a + b)
  {
    forall i | 0 <= i < |a + b|
      ensures !IsDirSeparator((a + b)[i])
    {
      if i < |a| { assert (a + b)[i] == a[i]; } else { assert (a + b)[i] == b[i - |a|]; }
    }
  }

  /** A path split into the directory, the name without extension and the
      extension (with its dot, or empty). */
  datatype Path = Path(dir: string, stem: string, ext: string)

  const Mp4Extension: string := ".mp4"

  function FileName(p: Path): string {
    p.stem + p.ext
  }

  /** `Path.Combine(dir, name)` for a relative `name`: a backslash is put
      between the two unless `dir` is empty or already ends in a separator. */
  function Combine(dir: string, name: string): (r: string)
    ensures StartsWith(r, dir) && |r| >= |name| && r[|r| - |name|..] == name
    ensures dir != "" && !IsDirSeparator(dir[|dir| - 1]) ==> |r| == |dir| + |name| + 1 && r[|dir|] == '\\'
    ensures dir == "" || IsDirSeparator(dir[|dir| - 1]) ==> |r| == |dir| + |name|
  {
    if dir == "" then name
    else if IsDirSeparator(dir[|dir| - 1]) then dir + name
    else dir + "\\" + name
  }

  /** The text of a path. */
  function PathText(p: Path): string {
    Combine(p.dir, FileName(p))
  }

  /** Where the file name starts: just after the last separator. */
  function NameStart(s: string): (i: nat)
    ensures i <= |s|
    ensures NoSeparator(s[i..])
    ensures i > 0 ==> IsDirSeparator(s[i - 1])
  {
    match LastIndexWhere(s, IsDirSeparator)
    case None => 0
    case Some(k) => k + 1
  }

  /** `Path.GetFileName`. */
  function FileNameOf(s: string): (r: string)
    ensures NoSeparator(r) && |r| <= |s| && r == s[|s| - |r|..]
  {
    s[NameStart(s)..]
  }

  /** `Path.GetDirectoryName`: the text before the last separator, keeping
      the separator itself when it is the root. */
  function DirectoryOf(s: string): string {
    var i := NameStart(s);
    if i == 0 then ""
    else if i == 1 then s[..1]
    else s[..i - 1]
  }

  /** The position of the last dot in the file name, if any. */
  function LastDot(s: string): Option<nat> {
    LastIndexWhere(FileNameOf(s), IsDot)
  }

  /** `Path.GetExtension`: from the last dot of the file name, or empty when
      there is none or it is the final character. */
  function ExtensionOf(s: string): (r: string)
    ensures r == "" || (|r| >= 2 && r[0] == '.')
    ensures NoSeparator(r) && forall i :: 1 <= i < |r| ==> r[i] != '.'
  {
    var name := FileNameOf(s);
    match LastDot(s)
    case None => ""
    case Some(k) =>
      if k == |name| - 1 then ""
      else
        assert forall i :: 0 <= i < |name[k..]| ==> name[k..][i] == name[k + i];
        name[k..]
  }

  /** `Path.GetFileNameWithoutExtension`: the file name up to its last dot. */
  function StemOf(s: string): (r: string)
    ensures NoSeparator(r)
  {
    var name := FileNameOf(s);
    match LastDot(s)
    case None => name
    case Some(k) =>
      assert forall i :: 0 <= i < k ==> name[..k][i] == name[i];
      name[..k]
  }

  /** The input's file name is its stem followed by its extension, or by a
      lone final dot that `GetExtension` does not report. */
  lemma FileNameParts(s: string)
    ensures FileNameOf(s) == StemOf(s) + ExtensionOf(s)
         || (ExtensionOf(s) == "" && FileNameOf(s) == StemOf(s) + ".")
    ensures LastDot(s).None? ==> FileNameOf(s) == StemOf(s)
    ensures LastDot(s).Some? ==> |StemOf(s)| < |FileNameOf(s)| && FileNameOf(s)[|StemOf(s)|] == '.'
  {
    var name := FileNameOf(s);
    match LastDot(s)
    case None =>
    case Some(k) =>
      assert k < |name| && IsDot(name[k]);
      assert StemOf(s) == name[..k];
      if k == |name| - 1 {
        assert ExtensionOf(s) == "" && name[k..] == ".";
      } else {
        assert ExtensionOf(s) == name[k..];
      }
      assert name == name[..k] + name[k..];
  }

  /** Candidate `k` of the output-name search: the base path itself, then
      `<stem>_<k>.mp4` in the same directory. */
  function Numbered(base: Path, k: nat): (p: Path)
    ensures p.dir == base.dir
  {
    if k == 0 then base
    else Path(base.dir, base.stem + "_" + NatToString(k), Mp4Extension)
  }

  /** Distinct counters give distinct candidates. */
  lemma NumberedInjective(base: Path, i: nat, j: nat)
    requires Numbered(base, i) == Numbered(base, j)
    ensures i == j
  {
    if i > 0 && j > 0 {
      var n := |base.stem| + 1;
      assert NatToString(i) == Numbered(base, i).stem[n..];
      assert NatToString(j) == Numbered(base, j).stem[n..];
      NatToStringInjective(i, j);
    }
  }

  function Candidates(base: Path, n: nat): set<Path> {
    set j: nat | j < n :: Numbered(base, j)
  }

  lemma {:induction false} CandidatesCount(base: Path, n: nat)
    ensures |Candidates(base, n)| == n
  {
    if n > 0 {
      CandidatesCount(base, n - 1);
      CandidatesSnoc(base, n);
      LastCandidateNew(base, n);
    }
  }

  lemma CandidatesSnoc(base: Path, n: nat)
    requires n > 0
    ensures Candidates(base, n) == Candidates(base, n - 1) + {Numbered(base, n - 1)}
  {
    forall p | p in Candidates(base, n)
      ensures p in Candidates(base, n - 1) + {Numbered(base, n - 1)}
    {
      var j: nat :| j < n && p == Numbered(base, j);
      if j < n - 1 {
        assert p in Candidates(base, n - 1);
      }
    }
  }

  lemma LastCandidateNew(base: Path, n: nat)
    requires n > 0
    ensures Numbered(base, n - 1) !in Candidates(base, n - 1)
  {
    if Numbered(base, n - 1) in Candidates(base, n - 1) {
      var j: nat :| j < n - 1 && Numbered(base, j) == Numbered(base, n - 1);
      NumberedInjective(base, j, n - 1);
    }
  }

  lemma SubsetCard<T>(a: set<T>, b: set<T>)
    requires a <= b
    ensures |a| <= |b|
  {
    assert b == a + (b - a);
  }

  /** When the first `n` candidates all exist, there are at least `n` files. */
  lemma CandidatesFit(base: Path, existing: set<Path>, n: nat)
    requires forall j: nat :: j < n ==> Numbered(base, j) in existing
    ensures n <= |existing|
  {
    CandidatesCount(base, n);
    SubsetCard(Candidates(base, n), existing);
  }

  /** The first counter at or after `k` whose candidate does not exist. */
  function FirstFreeFrom(base: Path, existing: set<Path>, k: nat): (n: nat)
    requires forall j: nat :: j < k ==> Numbered(base, j) in existing
    ensures k <= n && Numbered(base, n) !in existing
    ensures forall j: nat :: j < n ==> Numbered(base, j) in existing
    decreases |existing| - k
  {
    if Numbered(base, k) !in existing then k
    else
      CandidatesFit(base, existing, k + 1);
      FirstFreeFrom(base, existing, k + 1)
  }

  function UniqueIndex(base: Path, existing: set<Path>): (n: nat)
    ensures Numbered(base, n) !in existing
    ensures forall j: nat :: j < n ==> Numbered(base, j) in existing
  {
    FirstFreeFrom(base, existing, 0)
  }

  /** `GetUniqueOutputPath` with overwriting off: the first candidate that
      does not exist. It is the base path exactly when that is free, and
      otherwise the base stem with one `_<counter>` appended, never a suffix
      built on an earlier suffix. */
  function UniquePath(base: Path, existing: set<Path>): (r: Path)
    ensures r == Numbered(base, UniqueIndex(base, existing))
    ensures r !in existing && r.dir == base.dir
    ensures r == base <==> base !in existing
    ensures r == base || (r.ext == Mp4Extension && |r.stem| > |base.stem| + 1 &&
                          r.stem[..|base.stem| + 1] == base.stem + "_" &&
                          AllDigits(r.stem[|base.stem| + 1..]))
  {
    var n := UniqueIndex(base, existing);
    if n == 0 then base
    else
      var stem := base.stem + "_" + NatToString(n);
      assert stem[..|base.stem| + 1] == base.stem + "_";
      assert stem[|base.stem| + 1..] == NatToString(n);
      Numbered(base, n)
  }

  /** The search result is characterised by its counter: the one whose
      candidate is free while every earlier candidate is taken. */
  lemma UniqueIndexCharacterised(base: Path, existing: set<Path>, n: nat)
    ensures n == UniqueIndex(base, existing) <==>
            (Numbered(base, n) !in existing && forall j: nat :: j < n ==> Numbered(base, j) in existing)
  {
  }

  /** Once the chosen file is created, the next search moves on to a later
      counter (a second run never reuses the first run's output). */
  lemma CreatingResultAdvances(base: Path, existing: set<Path>)
    ensures UniqueIndex(base, existing + {UniquePath(base, existing)}) > UniqueIndex(base, existing)
  {
    var n := UniqueIndex(base, existing);
    var after := existing + {Numbered(base, n)};
    var m := UniqueIndex(base, after);
    assert Numbered(base, n) in after;
    assert m != n;
  }

  /** Files that are not candidates do not influence the search. */
  lemma UnrelatedFilesIrrelevant(base: Path, existing: set<Path>, others: set<Path>)
    requires forall j: nat :: Numbered(base, j) !in others
    ensures UniquePath(base, existing + others) == UniquePath(base, existing)
  {
    var n := UniqueIndex(base, existing);
    UniqueIndexCharacterised(base, existing + others, n);
  }

  /** The probing loop of `GetUniqueOutputPath`: start from the base path
      and, while the current candidate exists and overwriting is off, try the
      next counter. */
  method ProbeOutputPath(base: Path, existing: set<Path>, overwrite: bool) returns (p: Path)
    ensures overwrite ==> p == base
    ensures !overwrite ==> p == UniquePath(base, existing)
  {
    var counter: nat := 1;
    p := base;
    while p in existing && !overwrite
      invariant counter >= 1 && p == Numbered(base, counter - 1)
      invariant forall j: nat :: j < counter - 1 ==> Numbered(base, j) in existing
      invariant overwrite ==> counter == 1
      decreases |existing| - counter
    {
      CandidatesFit(base, existing, counter);
      p := Numbered(base, counter);
      counter := counter + 1;
    }
    if !overwrite {
      UniqueIndexCharacterised(base, existing, counter - 1);
    }
  }

  /** Splitting the text of an output path gives back its stem and
      extension, which is why the search may work on the parts directly. */
  lemma RederiveParts(p: Path)
    requires NoSeparator(p.stem) && p.ext == Mp4Extension
    ensures StemOf(PathText(p)) == p.stem && ExtensionOf(PathText(p)) == p.ext
  {
    var name := FileName(p);
    FileNameOfText(p);
    Mp4LastDot(p.stem);
    assert name[..|p.stem|] == p.stem;
    assert name[|p.stem|..] == p.ext;
  }

  /** The name part of a path's text is the path's file name. */
  lemma FileNameOfText(p: Path)
    requires NoSeparator(p.stem) && p.ext == Mp4Extension
    ensures FileNameOf(PathText(p)) == FileName(p)
  {
    var s := PathText(p);
    var name := FileName(p);
    var pre := |s| - |name|;
    assert s[pre..] == name;
    assert pre == 0 || IsDirSeparator(s[pre - 1]);
    NoSeparatorJoin(p.stem, p.ext);
    assert forall j :: pre <= j < |s| ==> !IsDirSeparator(s[j]);
  }

  /** The last dot of `<stem>.mp4` is the one before `mp4`. */
  lemma Mp4LastDot(stem: string)
    ensures LastIndexWhere(stem + Mp4Extension, IsDot) == Some(|stem|)
  {
    var name := stem + Mp4Extension;
    var d := |stem|;
    assert name[d] == Mp4Extension[0];
    forall j | d < j < |name|
      ensures !IsDot(name[j])
    {
      assert name[j] == Mp4Extension[j - d];
    }
    LastIndexWhereIs(name, IsDot, d);
  }

  lemma LowerAppend(a: string, b: string)
    ensures LowerAscii(a + b) == LowerAscii(a) + LowerAscii(b)
  {
  }

  /** Two names with the same stem compare equal ignoring case only when
      what follows the stem does. */
  lemma LowerCancelPrefix(stem: string, a: string, b: string)
    requires LowerAscii(stem + a) == LowerAscii(stem + b)
    ensures LowerAscii(a) == LowerAscii(b)
  {
    LowerAppend(stem, a);
    LowerAppend(stem, b);
    assert LowerAscii(a) == LowerAscii(stem + a)[|stem|..];
    assert LowerAscii(b) == LowerAscii(stem + b)[|stem|..];
  }

  /** A tail starting with `_` differs from one starting with a dot, and
      `.mp4` differs from a lone dot and from any other extension. */
  lemma TailsDiffer(stem: string, rest: string, ext: string, tail: string)
    requires |tail| > 0 && (rest == "" || rest == "." || rest == ext)
    requires rest != "" ==> rest[0] == '.'
    requires tail[0] == '_' || (tail == Mp4Extension && LowerAscii(ext) != Mp4Extension)
    ensures LowerAscii(stem + tail) != LowerAscii(stem + rest)
  {
    assert LowerAscii(tail) != LowerAscii(rest) by {
      if rest != "" {
        if tail[0] == '_' {
          assert LowerAscii(tail)[0] != LowerAscii(rest)[0];
        } else {
          assert LowerAscii(tail) == Mp4Extension;
        }
      }
    }
    if LowerAscii(stem + tail) == LowerAscii(stem + rest) {
      LowerCancelPrefix(stem, tail, rest);
    }
  }

  /** An output candidate built as the input's stem followed by a tail that
      starts with `_`, or by `.mp4` when the input's extension is not `.mp4`
      in any letter case, never names the input file, even on a file system
      that ignores ASCII case. */
  lemma StemTailNeverInput(input: string, tail: string)
    requires |tail| > 0
    requires tail[0] == '_' || (tail == Mp4Extension && LowerAscii(ExtensionOf(input)) != Mp4Extension)
    ensures LowerAscii(StemOf(input) + tail) != LowerAscii(FileNameOf(input))
  {
    var name := FileNameOf(input);
    var stem := StemOf(input);
    var ext := ExtensionOf(input);
    FileNameParts(input);
    var rest := name[|stem|..];
    assert name == stem + rest;
    assert rest == "" || rest == "." || rest == ext;
    TailsDiffer(stem, rest, ext, tail);
  }
}
