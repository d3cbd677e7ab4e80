/**
 * The decisions `makePDF` and `joinPDFs` take before any file is read or written: which
 * precondition fails first, the name of the output file, and which converter runs.
 */
module Conversion {
  import opened Wrappers
  import opened Files

  /** The error dialogs `makePDF` and `joinPDFs` can show before producing output. */
  datatype Failure = NoFilesSelected | NoOutputDir | FileExists | TooFewPdfs

  function Message(f: Failure): string {
    match f
    case NoFilesSelected => "No files were selected!"
    case NoOutputDir => "Output directory were not specified!"
    case FileExists => "File already exists!"
    case TooFewPdfs => "Select more than one PDF file!"
  }

  /** Each failure shows a message of its own. */
  lemma MessagesDistinct(f: Failure, g: Failure)
    requires f != g
    ensures Message(f) != Message(g)
  {
    assert Message(f)[0] != Message(g)[0];
  }

  /** The custom name is used when its box is ticked and the stripped name is not empty. */
  predicate UsesCustomName(hasCustomName: bool, customName: string) {
    hasCustomName && customName != []
  }

  /** The file name given by the user, with the extension `makePDF` adds. */
  function CustomFileName(customName: string): string {
    customName + ".pdf"
  }

  /**
   * The checks of `makePDF`, in the order the program makes them: some file is chosen, then an
   * output directory is set, then a custom name (when it is used) does not name an existing
   * file. `existing` is the set of file names present in the output directory.
   */
  function CheckRequest(fileCount: nat, outputDir: Option<string>, hasCustomName: bool,
                        customName: string, existing: set<string>): (r: Option<Failure>)
    ensures r == Some(NoFilesSelected) <==> fileCount == 0
    ensures r == Some(NoOutputDir) <==> fileCount > 0 && outputDir.None?
    ensures r == Some(FileExists) <==>
              (fileCount > 0 && outputDir.Some? &&
               UsesCustomName(hasCustomName, customName) && CustomFileName(customName) in existing)
    ensures r != Some(TooFewPdfs)
  {
    if fileCount == 0 then Some(NoFilesSelected)
    else if outputDir.None? then Some(NoOutputDir)
    else if UsesCustomName(hasCustomName, customName) && CustomFileName(customName) in existing then Some(FileExists)
    else None
  }

  /** The name of the output file: the custom name, or the default name with a time stamp. */
  function OutputFileName(hasCustomName: bool, customName: string, timestamp: string): (r: string)
    ensures |r| >= 4 && r[|r| - 4..] == ".pdf"
  {
    if UsesCustomName(hasCustomName, customName) then CustomFileName(customName)
    else "pdf-maker-" + timestamp + ".pdf"
  }

  /**
   * A request that passes the checks never writes over an existing file under a custom name;
   * and when no custom name is used, the name does not depend on what was typed.
   */
  lemma OutputFileNameIsFree(fileCount: nat, outputDir: Option<string>, hasCustomName: bool,
                             customName: string, existing: set<string>, timestamp: string)
    requires CheckRequest(fileCount, outputDir, hasCustomName, customName, existing).None?
    ensures UsesCustomName(hasCustomName, customName) ==>
              OutputFileName(hasCustomName, customName, timestamp) !in existing
    ensures !UsesCustomName(hasCustomName, customName) ==>
              OutputFileName(hasCustomName, customName, timestamp) == OutputFileName(false, [], timestamp)
  {
  }

  /** The converter `makePDF` runs, chosen by the suffix of the first file. */
  datatype Converter = ImageConverter | PdfMerger | NoConverter

  function ConverterFor(firstSuffix: string): (r: Converter)
    ensures r == NoConverter <==> !IsImage(firstSuffix) && !IsPdf(firstSuffix)
    ensures r == PdfMerger ==> IsPdf(firstSuffix)
    ensures r == ImageConverter <==> IsImage(firstSuffix)
  {
    if IsImage(firstSuffix) then ImageConverter
    else if IsPdf(firstSuffix) then PdfMerger
    else NoConverter
  }

  /**
   * `makePDF` tests for images first and `addItem` for PDF files first; the two orders agree,
   * so files added later are always of the kind the converter expects, and a first file that
   * is of neither kind lets nothing be added and nothing be converted.
   */
  lemma ConverterMatchesAddFilter(firstSuffix: string)
    ensures ConverterFor(firstSuffix) == ImageConverter <==> AddFilter(firstSuffix) == Some(ImageFilter)
    ensures ConverterFor(firstSuffix) == PdfMerger <==> AddFilter(firstSuffix) == Some(PdfFilter)
    ensures ConverterFor(firstSuffix) == NoConverter <==> AddFilter(firstSuffix) == None
  {
    assert ImageFilter != PdfFilter by { assert ImageFilter[0] != PdfFilter[0]; }
    assert PdfExtension !in ImageExtensions;
  }

  /** The file `makePDF` writes: `outputDir.joinpath(filename)`. */
  datatype SavePath = SavePath(dir: string, fileName: string)

  /** What a call of `makePDF` ends in. */
  datatype Outcome =
    | Failed(message: string)                                 // an error dialog, nothing written
    | ImagesConverted(pages: seq<FilePath>, target: SavePath)  // `imageToPDF`, one page per file
    | PdfsMerged(parts: seq<FilePath>, target: SavePath)       // `joinPDFs`, in this order
    | NoOutput                                                // the first file is of neither kind

  /**
   * The dispatch at the end of `makePDF`, with the count check of `joinPDFs`: images are
   * converted, PDF files are merged when there are at least two of them.
   */
  function Convert(files: seq<FilePath>, target: SavePath): (r: Outcome)
    requires files != []
    ensures r.PdfsMerged? ==> |files| >= 2 && IsPdf(files[0].suffix) && r.parts == files
    ensures r.ImagesConverted? ==> IsImage(files[0].suffix) && r.pages == files
    ensures r.Failed? <==> IsPdf(files[0].suffix) && |files| < 2
    ensures r.Failed? ==> r.message == Message(TooFewPdfs)
    ensures r.NoOutput? <==> ConverterFor(files[0].suffix) == NoConverter
    ensures r.ImagesConverted? || r.PdfsMerged? ==> r.target == target
  {
    match ConverterFor(files[0].suffix)
    case ImageConverter => ImagesConverted(files, target)
    case PdfMerger => if |files| < 2 then Failed(Message(TooFewPdfs)) else PdfsMerged(files, target)
    case NoConverter => NoOutput
  }
}
