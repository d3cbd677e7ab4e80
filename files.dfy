/**
 * The chosen files (`chosenFiles`, a list of `pathlib.Path`) and what the window derives from
 * them: the names shown in the list, the text of the "selected files" line, and the file
 * dialog filter offered when more files are added.
 */
module Files {
  import opened Wrappers
  import opened Text
  import opened Seqs

  /**
   * A chosen file: its directory, its name (`Path.name`, the text shown in the list) and its
   * suffix (`Path.suffix`, with the leading dot). Two files may share a name.
   */
  datatype FilePath = FilePath(dir: string, name: string, suffix: string)

  function NameOf(p: FilePath): string {
    p.name
  }

  /** The names of the files, in order. */
  function Names(paths: seq<FilePath>): seq<string> {
    Map(paths, NameOf)
  }

  /** Reordering the files reorders their names. */
  lemma NamesPermutation(a: seq<FilePath>, b: seq<FilePath>)
    requires multiset(a) == multiset(b)
    ensures multiset(Names(a)) == multiset(Names(b))
  {
    MapMultiset(a, b, NameOf);
  }

  /**
   * `list(filter(lambda x: x.name not in names, paths))`: the files whose name is not one
   * of `names`, each kept as often as it occurs, in their order.
   */
  function WithoutNames(paths: seq<FilePath>, names: set<string>): (r: seq<FilePath>)
    ensures |r| <= |paths|
  {
    if paths == [] then []
    else if paths[0].name in names then WithoutNames(paths[1..], names)
    else [paths[0]] + WithoutNames(paths[1..], names)
  }

  /** The files kept are exactly the files whose name is not one of `names`. */
  lemma {:induction false} WithoutNamesMembers(paths: seq<FilePath>, names: set<string>)
    ensures forall p :: p in WithoutNames(paths, names) <==> p in paths && p.name !in names
  {
    if paths != [] {
      WithoutNamesMembers(paths[1..], names);
      assert paths == [paths[0]] + paths[1..];
    }
  }

  /**
   * Filtering drops every copy of a file with one of the names and keeps every copy of the
   * others: duplicates are kept or dropped together.
   */
  lemma {:induction false} WithoutNamesCounts(paths: seq<FilePath>, names: set<string>, p: FilePath)
    ensures multiset(WithoutNames(paths, names))[p] == if p.name in names then 0 else multiset(paths)[p]
  {
    if paths != [] {
      WithoutNamesCounts(paths[1..], names, p);
      assert paths == [paths[0]] + paths[1..];
      WithoutNamesCons(paths[0], paths[1..], names);
    }
  }

  /** Filtering decides on the first file, then goes on with the others. */
  lemma WithoutNamesCons(p: FilePath, rest: seq<FilePath>, names: set<string>)
    ensures WithoutNames([p] + rest, names) ==
            if p.name in names then WithoutNames(rest, names) else [p] + WithoutNames(rest, names)
  {
    assert ([p] + rest)[0] == p && ([p] + rest)[1..] == rest;
  }

  /** Filtering keeps the order: the kept files of `a` come before the kept files of `b`. */
  lemma {:induction false} WithoutNamesConcat(a: seq<FilePath>, b: seq<FilePath>, names: set<string>)
    ensures WithoutNames(a + b, names) == WithoutNames(a, names) + WithoutNames(b, names)
  {
    if a == [] {
      assert a + b == b;
    } else {
      assert (a + b)[1..] == a[1..] + b;
      WithoutNamesConcat(a[1..], b, names);
    }
  }

  const NoFilesText := "No Files Selected"
  const ManyFilesTail := " Files Selected"
  const OneFileHead := "Selected: "

  /** `updateFilesLabel`: the text of the line that tells how many files are chosen. */
  function FilesLabel(paths: seq<FilePath>): string {
    if |paths| == 0 then NoFilesText
    else if |paths| > 1 then Decimal(|paths|) + ManyFilesTail
    else OneFileHead + paths[0].name
  }

  /** What the "selected files" line tells a reader. */
  datatype LabelReading = NoneSelected | CountSelected(count: nat) | OneSelected(name: string)

  /** How a reader takes the "selected files" line; `None` for a text the window never shows. */
  function ReadFilesLabel(text: string): Option<LabelReading> {
    if text == NoFilesText then Some(NoneSelected)
    else if |text| >= |OneFileHead| && text[..|OneFileHead|] == OneFileHead then
      Some(OneSelected(text[|OneFileHead|..]))
    else if |text| > |ManyFilesTail| && text[|text| - |ManyFilesTail|..] == ManyFilesTail
         && forall k :: 0 <= k < |text| - |ManyFilesTail| ==> IsDigit(text[k]) then
      Some(CountSelected(ParseDecimal(text[..|text| - |ManyFilesTail|])))
    else None
  }

  /**
   * The line always tells which case holds: no file, the number of files when there are
   * several, or the name of the file when there is exactly one.
   */
  lemma FilesLabelReadsBack(paths: seq<FilePath>)
    ensures ReadFilesLabel(FilesLabel(paths)) == Some(
      if |paths| == 0 then NoneSelected
      else if |paths| > 1 then CountSelected(|paths|)
      else OneSelected(paths[0].name))
  {
    var text := FilesLabel(paths);
    if |paths| > 1 {
      var digits := Decimal(|paths|);
      assert text[0] == digits[0] && IsDigit(digits[0]);
      assert text != NoFilesText by { assert NoFilesText[0] == 'N'; }
      assert text[..|OneFileHead|] != OneFileHead by { assert OneFileHead[0] == 'S'; }
      assert text[..|text| - |ManyFilesTail|] == digits;
      assert text[|text| - |ManyFilesTail|..] == ManyFilesTail;
      DecimalRoundTrip(|paths|);
    } else if |paths| == 1 {
      assert text != NoFilesText by { assert text[0] == 'S'; }
      assert text[..|OneFileHead|] == OneFileHead;
    }
  }

  /** `IMG_EXTENSIONS`: the suffixes of the image files the program converts. */
  const ImageExtensions: set<string> := {".jpg", ".jpeg", ".png", ".tif"}
  const PdfExtension := ".pdf"

  const ImageFilter := "Image Files (*.png *.jpg *.jpeg *.tif)"
  const PdfFilter := "PDF Files (*.pdf)"
  /** The filter of the dialog that chooses a new set of files. */
  const ChooseFilter := "Image Files (*.png *.jpg *.jpeg *.tif);;PDF Files (*.pdf)"

  /** Whether a file is a PDF file, judged by its lower-cased suffix. */
  predicate IsPdf(suffix: string) {
    Lower(suffix) == PdfExtension
  }

  /** A suffix is a PDF suffix exactly when it is `.pdf` in any mix of upper and lower case. */
  lemma IsPdfExactly(x: string)
    ensures IsPdf(x) <==> |x| == 4 && x[0] == '.' && x[1] in {'p', 'P'} && x[2] in {'d', 'D'} && x[3] in {'f', 'F'}
  {
    if IsPdf(x) {
      assert Lower(x)[0] == '.' && Lower(x)[1] == 'p' && Lower(x)[2] == 'd' && Lower(x)[3] == 'f';
    }
    if |x| == 4 && x[0] == '.' && x[1] in {'p', 'P'} && x[2] in {'d', 'D'} && x[3] in {'f', 'F'} {
      assert Lower(x) == ['.', 'p', 'd', 'f'];
    }
  }

  /** Whether a file is an image, judged by its lower-cased suffix. */
  predicate IsImage(suffix: string) {
    Lower(suffix) in ImageExtensions
  }

  /** A suffix is an image suffix exactly when it is one of the image extensions in any case. */
  lemma IsImageExactly(x: string)
    ensures IsImage(x) <==> exists e :: e in ImageExtensions && SameUpToCase(x, e)
  {
    LowerUpToCase(x, ".jpg");
    LowerUpToCase(x, ".jpeg");
    LowerUpToCase(x, ".png");
    LowerUpToCase(x, ".tif");
  }

  /** Capitals are accepted in image suffixes. */
  lemma ImageSuffixSamples()
    ensures IsImage(".PNG") && IsImage(".Jpeg") && IsImage(".TIF")
  {
    ImageUpToCase(".PNG", ".png");
    ImageUpToCase(".Jpeg", ".jpeg");
    ImageUpToCase(".TIF", ".tif");
  }

  /** Suffixes of other kinds, in whatever case, are not images. */
  lemma NonImageSamples()
    ensures !IsImage(".gif") && !IsImage(".PDF")
  {
    NotImage(".gif", 1);
    NotImage(".PDF", 2);
  }

  /** A suffix that is an image extension up to case is an image suffix. */
  lemma ImageUpToCase(x: string, e: string)
    requires e in ImageExtensions && SameUpToCase(x, e)
    ensures IsImage(x)
  {
    LowerUpToCase(x, e);
  }

  /** A suffix whose `i`-th character lower-cases to one no image extension has there. */
  lemma NotImage(x: string, i: nat)
    requires i < |x| && forall e :: e in ImageExtensions && i < |e| ==> e[i] != LowerChar(x[i])
    ensures !IsImage(x)
  {
    assert Lower(x)[i] == LowerChar(x[i]);
  }

  /**
   * The filter `addItem` passes to the file dialog, decided by the suffix of the first chosen
   * file: the PDF filter, the image filter, or none (and then nothing is added).
   */
  function AddFilter(firstSuffix: string): (r: Option<string>)
    ensures r.Some? <==> IsPdf(firstSuffix) || IsImage(firstSuffix)
    ensures r == Some(PdfFilter) <==> IsPdf(firstSuffix)
    ensures IsImage(firstSuffix) && !IsPdf(firstSuffix) ==> r == Some(ImageFilter)
  {
    if IsPdf(firstSuffix) then Some(PdfFilter)
    else if IsImage(firstSuffix) then Some(ImageFilter)
    else None
  }
}
