# pdf-maker: the ordered file-selection manager, in Dafny

pdf-maker is a small desktop program that turns a set of images into one PDF file, or joins
a set of PDF files into one. Its main window (`PDFMaker` in `main.py`) keeps two parallel
lists: the list widget `filesList`, whose rows show file names and which the user reorders,
and `chosenFiles`, the paths the output is built from. This project models that window's
file-selection logic and proves what it does:

- `moveItem` takes the selected rows out and inserts them again one by one, one row further
  or against the top or bottom edge;
- `orderFiles` rewrites `chosenFiles` into the order of the list by swapping, matching by name;
- `deleteItem` takes rows out and drops every path whose name is a deleted row's text;
- `chooseFilesHandler` replaces both lists; `addItem` appends to both, with the file-dialog
  filter chosen by the first file's suffix;
- `updateFilesLabel` chooses the text of the "selected files" line;
- `makePDF` and `joinPDFs` check their preconditions in order, choose the output file name
  and pick the converter by the first file's suffix.

Modules, one per concern:

| file | module | contents |
|---|---|---|
| `wrappers.dfy` | `Wrappers` | `Option` |
| `text.dfy` | `Text` | Python's `str.strip()`, `str.lower()` (ASCII letters) and `str(n)` |
| `seqs.dfy` | `Seqs` | `map`, `takeItem`/`insertItem` on a list, piece swaps, permutation facts |
| `list_widget.dfy` | `ListWidget` | rows of the list widget (`Item`: widget identity and text), filtering by identity, the sorted row numbers of a selection |
| `files.dfy` | `Files` | paths (`FilePath`: directory, name, suffix), the name filter of `deleteItem`, the label text, the dialog filters |
| `conversion.dfy` | `Conversion` | the precondition checks, output file name and converter dispatch of `makePDF`/`joinPDFs` |
| `app.dfy` | `App` | class `PdfMaker` with the fields `filesList`, `chosenFiles`, `filesLabel`, `convertText`, `optimizeHidden`; its methods and the specifications they are proved against |
| `scenarios.dfy` | `Scenarios` | moves of a contiguous block worked out in closed form, and the scenarios of `tests.py` as verified methods |

How the program's surroundings are represented:

- A widget item (`QListWidgetItem`) is an `Item(id, text)`; `id` stands for the object's
  identity, so two rows with the same file name stay distinguishable. The class keeps a
  counter `nextId` for the next item it creates; `Valid()` says no item is shown twice and
  all were created before.
- The selection passed to `moveItem`/`deleteItem` is the set of selected row numbers.
- The file dialog is a parameter `dialog: string -> seq<FilePath>` that receives the filter
  string. The clock is a parameter `timestamp`, the output directory an `Option<string>`, and
  `Path.exists()` on the output directory is the set `existing` of file names already in it.
- The message boxes are the result value `Outcome` of `MakePdf`: `Failed(message)` for an
  error dialog, or the converter call that would run with its file list and save path.

Two behaviours of the code are kept as written:

- `deleteItem` filters `chosenFiles` by name (main.py:247), so it drops every path whose name
  equals a deleted row's text, including namesakes whose rows were not selected.
  `DeleteDropsNamesakes` exhibits this; `DeleteKeepsAgreement` shows that the list and the
  paths still agree when no two rows show the same name.
- `moveItem` compares only the leading row with the edge (main.py:213), for single-step and
  edge moves alike: a move to the bottom does nothing when the last row is selected, even if
  other selected rows are not at the bottom (`MoveAppliesExactly`).

## Model

| member | source | states |
|---|---|---|
| `App.PdfMaker.MoveItem` | main.py:196-233 | `chosenFiles` is untouched; the rows are a permutation of the old rows; with an empty selection or the leading selected row at the edge nothing moves; otherwise each selected row is one row further (or the selected rows fill the top/bottom rows in their old order) and the unselected rows keep their relative order |
| `App.PdfMaker.Reinsert` | main.py:215-230 | the take-and-insert loop leaves every taken row at its target row, the rows not yet taken in place, and the untaken items in their relative order |
| `App.PdfMaker.constructor` | main.py:55-93 | the window opens with no rows and no paths, the label saying no files are selected, the convert button reading "Convert to PDF" and the size box shown |
| `App.MoveApplies` | main.py:205-214 | the guard of `moveItem`: a selection whose leading row is not at the edge of the move; characterised by `MoveAppliesExactly` |
| `App.Target` | main.py:219-230 | the row at which the `i`-th taken row is inserted: one further, or the `i`-th from the edge; `TargetInRange` shows it is a row of the list |
| `App.TargetInRange` | main.py:219-230 | for the rows `moveItem` takes, every insertion row lies inside the list |
| `App.MoveAppliesExactly` | main.py:205-214 | the move applies exactly when the selection is not empty and the edge row in the direction of the move (last row down, first row up) is not selected, whatever `to_edge` says |
| `App.MovedDetermined` | main.py:215-230 | the specification of a move has exactly one result, so it fixes the new list completely |
| `App.MoveThenOrderAligns` | main.py:337 | moves only permute the rows, so after moves and `orderFiles` each path stands where the list shows its name |
| `App.PdfMaker.OrderFiles` | main.py:406-416 | `chosenFiles` becomes exactly `Reordered` of the row texts and its old value (row by row, the first path from that row on with the row's name is swapped in); hence a permutation of its old value in which each position the list reaches holds a path of that row's name or no later path has it, and a path list already settled is left alone; when names and labels agree as multisets, the names are exactly the labels in order |
| `App.OrderStep` | main.py:412-416 | one round of `orderFiles`: the first path named like row `i` from `i` on swapped into `i`; `StepSettles` states what it achieves |
| `App.OrderFrom` | main.py:411-416 | the rounds from row `i` to the last row, one after another; `OrderFromReconciles` states what they achieve |
| `App.Reordered` | main.py:411-416 | the order `orderFiles` leaves the paths in; `ReorderedReconciles`, `ReconcileAligns` and `ReconcileIdempotent` state its meaning |
| `App.FirstNamed` | main.py:412-416 | the inner search finds the first position from the row on whose path has the row's text as name, or reports that no later path has it |
| `App.StepSettles` | main.py:411-416 | one round keeps the paths as a multiset, settles its row on top of the rows before it, and changes nothing when every row is already settled |
| `App.OrderFromReconciles` | main.py:411-416 | the remaining rounds keep the paths, settle every row, and leave an already settled path list unchanged |
| `App.ReorderedReconciles` | main.py:411-416 | the order `orderFiles` produces is a permutation of the paths, settled at every row, and equal to the input when the input was settled |
| `App.ReconcileAligns` | main.py:411-416 | when labels and path names are the same multiset, a reconciled path list has the labels as its names, position by position |
| `App.ReconcileIdempotent` | main.py:411-416 | ordering the paths a second time by the same list changes nothing, for every list and every path list |
| `Scenarios.NamesakesReordered` | main.py:412-416 | with two paths named `s.png` behind an `x.png` row, the first swap reverses the namesakes and the later rows keep that order |
| `Scenarios.ShortListReordered` | main.py:411-416 | a list shorter than the paths still swaps the first path of its row's name into place: `[c, d, a]` by the list `a` becomes `[a, d, c]` |
| `App.AlignNames` | main.py:411-416 | names that match their label or never show it again, and that agree with the labels as a multiset, are the labels, from any position to the end |
| `App.SwapSettled` | main.py:413-415 | swapping the first matching path into position `i` keeps a permutation and settles position `i` without unsettling earlier ones |
| `App.PdfMaker.DeleteItem` | main.py:235-249 | no selection changes nothing; otherwise the selected rows are removed, every path named like a deleted row is dropped, the others kept in order, and the label recomputed |
| `App.PdfMaker.TakeItems` | main.py:243-246 | the loop takes out exactly the given items' rows and collects exactly their texts |
| `App.DeleteKeepsAgreement` | main.py:241-247 | when no two rows share a name and the list shows the names of the paths, it still does after deleting |
| `App.DeleteDropsNamesakes` | main.py:247 | deleting one of two rows named alike drops both paths, leaving a row with no path behind it |
| `ListWidget.Keep` | main.py:244-246 | taking out the given items never lengthens the list (members in `KeepMembers`, order in `KeepConcat`) |
| `Files.WithoutNames` | main.py:247 | the filter never lengthens the path list (members and counts in the next rows) |
| `Files.WithoutNamesMembers` | main.py:247 | the kept paths are exactly the paths whose name is not a deleted text |
| `Files.WithoutNamesCounts` | main.py:247 | every copy of a path with a deleted name is dropped and every copy of any other path kept |
| `Files.WithoutNamesConcat` | main.py:247 | the filter keeps the order of the paths |
| `App.PdfMaker.ChooseFilesHandler` | main.py:286-301 | both lists are replaced by the picked files, row `k` showing the name of path `k`; the label counts them; the button says "Join PDFs" and the size box is hidden exactly when the first file is a PDF |
| `App.PdfMaker.AddItem` | main.py:251-270 | with no files it is `chooseFilesHandler`; a first file of neither kind changes nothing; otherwise the picked files are appended in order to both lists and the label recomputed; lists that agreed keep agreeing |
| `App.PdfMaker.AppendFiles` | main.py:265-269 | the loop appends every picked path and a new row with its name, in order, with fresh items |
| `App.PdfMaker.UpdateFilesLabel` | main.py:303-313 | the label is the text for the current files |
| `Files.FilesLabel` | main.py:307-312 | the label text for none, several or one file; its meaning is stated by `FilesLabelReadsBack` |
| `Text.Decimal` | main.py:310 | the count is written as a non-empty string of decimal digits without a leading zero |
| `Files.FilesLabelReadsBack` | main.py:307-312 | the label reads back as "no files" for none, the count for several and the file's name for one |
| `Text.DecimalRoundTrip` | main.py:310 | the count written in the label reads back as the count |
| `Conversion.CheckRequest` | main.py:329-336 | no files is reported first, then no output directory, then an existing file under a used custom name; each exactly when its condition holds and the earlier ones do not |
| `Conversion.UsesCustomName` | main.py:335 | the custom name is used when its box is ticked and the stripped name is not empty (also main.py:339); its meaning is stated by `CheckRequest` and `OutputFileNameIsFree` |
| `Conversion.CustomFileName` | main.py:339 | the file name typed by the user with `.pdf` appended (also main.py:335); `OutputFileNameIsFree` shows a passed request never names an existing file with it |
| `Conversion.OutputFileName` | main.py:338-340 | the output file name always ends in `.pdf` |
| `Conversion.OutputFileNameIsFree` | main.py:335-340 | a request that passes the checks never names an existing file with its custom name; without a custom name the typed text does not matter |
| `Conversion.Convert` | main.py:343-347 | images are converted and PDF files merged, in the given order and into the given save path; fewer than two PDF files give the `joinPDFs` error (main.py:395-396); a first file of neither kind produces nothing |
| `Files.IsPdf` | main.py:257 | the suffix test `suffix.lower() == '.pdf'` (also main.py:296, 346); `IsPdfExactly` states which suffixes pass |
| `Files.IsPdfExactly` | main.py:257 | a suffix is a PDF suffix exactly when it is `.pdf` in any mix of upper and lower case, so `.PDF` and `.Pdf` are accepted |
| `Files.IsImage` | main.py:259 | the suffix test `suffix.lower() in IMG_EXTENSIONS` (also main.py:344); `IsImageExactly` states which suffixes pass |
| `Files.IsImageExactly` | main.py:259 | a suffix is an image suffix exactly when it is `.jpg`, `.jpeg`, `.png` or `.tif` in any mix of upper and lower case (also main.py:344) |
| `Files.ImageSuffixSamples` | main.py:259 | `.PNG`, `.Jpeg` and `.TIF` are image suffixes |
| `Files.NonImageSamples` | main.py:344 | `.gif` and `.PDF` are not image suffixes |
| `Files.AddFilter` | main.py:257-264 | `addItem` gets a dialog filter exactly when the first path is a PDF or an image, and the PDF filter exactly when it is a PDF, and the image filter for an image that is not a PDF |
| `Conversion.ConverterFor` | main.py:344-347 | no converter runs exactly when the first path is neither an image nor a PDF; the image converter runs exactly for an image and the merger only for a PDF |
| `Conversion.Message` | main.py:332-336 | the error texts of `makePDF` and `joinPDFs` (main.py:396), one per failure |
| `Conversion.MessagesDistinct` | main.py:332-336 | different failures show different messages |
| `Conversion.ConverterMatchesAddFilter` | main.py:343-347 | the converter's image-then-PDF test and `addItem`'s PDF-then-image test classify every suffix the same way |
| `App.PdfMaker.MakePdf` | main.py:323-348 | a failed check returns its error and leaves the paths untouched; otherwise the paths are put in the order `Reordered` gives for the list and handed to the converter with the chosen file name |
| `Text.Strip` | main.py:330 | the stripped name is the part of the text between leading and trailing white space and neither starts nor ends with white space |
| `Text.Lower` | main.py:257-259 | `str.lower()` keeps the length, leaves no capital letter, and changes exactly the capital letters (ASCII letters only, see Left out); which letter each capital becomes is stated by `LowerUpToCase` |
| `Text.LowerUpToCase` | main.py:257-259 | lower-casing a text gives a given text without capitals exactly when the two are equal up to case, each capital standing for its own lower-case letter |
| `Text.StripIdempotent` | main.py:330 | stripping an already stripped name changes nothing |
| `Text.StripEmpty` | main.py:330 | the stripped name is empty exactly when the text is all white space |
| `ListWidget.SortedRows` | main.py:208-209 | the sorted rows are exactly the selected rows, each once, increasing or (moving down) decreasing |
| `ListWidget.RowOf` | main.py:246 | `row(item)` is the row that shows the item |
| `ListWidget.NewItems` | main.py:294 | new rows show the given texts, in order, with fresh distinct items |
| `ListWidget.KeepMembers` | main.py:246 | the rows left after taking out items are exactly those whose item is not taken |
| `Seqs.Take` | main.py:216 | `takeItem(row)` removes that row, shifts the later rows up and keeps the other items |
| `Seqs.Insert` | main.py:222 | `insertItem(row, x)` puts `x` at `row` and shifts the later rows down |
| `Scenarios.BlockMovedDown` | main.py:219-222 | moving a contiguous block down one row lifts the row below it above the block |
| `Scenarios.BlockMovedUp` | main.py:223-224 | moving a contiguous block up one row drops the row above it below the block |
| `Scenarios.BlockMovedToBottom` | main.py:227-228 | moving a contiguous block to the bottom puts the rows after it before it |
| `Scenarios.BlockMovedToTop` | main.py:229-230 | moving a contiguous block to the top puts the rows before it after it |
| `Scenarios.MovingDownTest` | tests.py:24-30 | rows 2 and 3 moved down give test1, test2, test5, test3, test4, test6, test7 |
| `Scenarios.MovingToBottomTest` | tests.py:32-38 | rows 1 to 4 moved to the bottom give test1, test6, test7, test2 … test5 |
| `Scenarios.MovingUpTest` | tests.py:40-46 | rows 3 and 4 moved up give test1, test2, test4, test5, test3, test6, test7 |
| `Scenarios.MovingToTopTest` | tests.py:48-54 | rows 5 and 6 moved to the top give test6, test7, test1 … test5 |
| `Scenarios.NotMovingUpAtTopTest` | tests.py:56-61 | rows 0 and 1 moved up leave the list as it was |
| `Scenarios.NotMovingDownAtBottomTest` | tests.py:63-68 | rows 5 and 6 moved down leave the list as it was |
| `Scenarios.ChosenFilesOrderTest` | tests.py:70-77 | after the two moves, `orderFiles` gives test3, test4, test5, test2, test6, test7, test1 |
| `Scenarios.AddedItemsTest` | tests.py:79-83 | adding the test images again gives the seven names twice |

## Left out

- Widget construction, layout, style sheets, the animated buttons, tool bar and shortcut
  wiring (main.py:14-187): user interface only.
- The real file dialogs, the output-directory chooser `chooseOutputDir` and the message boxes
  (main.py:272-284, 315-321, 418-434): I/O; dialog results are parameters and messages are
  the `Outcome` value.
- Image loading, resizing, transparency compositing and saving (main.py:361-384), including
  the failure of a single image that aborts `imageToPDF`: calls into the imaging library with
  floating-point arithmetic. `Convert` stops at naming the converter, its inputs and the save
  path.
- PDF merging (main.py:398-402): a call into the PDF library.
- Progress-bar values and `resetProgressBar` (main.py:376, 401, 436-441): floating-point
  arithmetic and display only.
- The time stamp format of `datetime.now()`, the real `Path.exists()` and the testing-mode glob
  of the file dialog: the clock and the file system are parameters (`timestamp`, `existing`,
  `dialog`); the scenarios use a dialog that yields the seven test images in name order.
- The scroll-to-item and re-selection side effects of `moveItem` (main.py:231-233): view only.
- `customNameEnable` (main.py:189-194), which enables the custom-name field while its box is
  ticked: display only; `makePDF` reads the box and the field's text, which are parameters of
  `MakePdf`.
- Text.Lower: lower-cases the ASCII letters only, not the whole of Unicode; suffixes are
  compared with ASCII extensions, so only non-ASCII characters that Python lower-cases to
  ASCII letters (such as the Kelvin sign) could decide differently.
- App.PdfMaker.DeleteItem: the items are taken out in increasing row order rather than in
  the order the widget returns the selected items; the resulting list is the same in every
  order, since items are removed by identity.
- The name and the suffix of a `FilePath` are separate fields, whereas `Path.suffix` is derived
  from `Path.name`; every path the model builds (the scenarios' test images) has a suffix that
  ends its name, but the model does not require it of all paths.
- Conversion.OutputFileName: the default name's time stamp is an opaque string parameter;
  the `%Y-%m-%d %H%M%S%f` format is not modelled.
