/**
 * Moves of a contiguous block of selected rows, worked out from the specification of
 * `moveItem`, and the scenarios of the program's unit tests (`tests.py`) as instances: seven
 * images `test1.png` … `test7.png` are chosen, moved, reordered and added to.
 */
module Scenarios {
  import opened Wrappers
  import opened Text
  import opened Seqs
  import opened ListWidget
  import opened Files
  import opened App

  /** The numbers `a` up to, not including, `b`, in increasing order. */
  function Range(a: nat, b: nat): (r: seq<nat>)
    requires a <= b
    ensures |r| == b - a && forall k :: 0 <= k < |r| ==> r[k] == a + k
  {
    seq(b - a, k requires 0 <= k < b - a => a + k)
  }

  /** The rows `a` up to, not including, `b`. */
  function Block(a: nat, b: nat): set<nat>
    requires a <= b
  {
    set r | r in Range(a, b)
  }

  /** Two strictly increasing sequences with the same elements are the same sequence. */
  lemma {:induction false} IncreasingUnique(x: seq<nat>, y: seq<nat>)
    requires forall i, j :: 0 <= i < j < |x| ==> x[i] < x[j]
    requires forall i, j :: 0 <= i < j < |y| ==> y[i] < y[j]
    requires forall v :: v in x <==> v in y
    ensures x == y
  {
    SameElementsEmpty(x, y);
    if y != [] {
      assert x[0] in y && y[0] in x;
      assert x[0] == y[0];
      forall v
        ensures v in x[1..] <==> v in y[1..]
      {
        assert v in x[1..] <==> v in x && v != x[0];
        assert v in y[1..] <==> v in y && v != y[0];
      }
      IncreasingUnique(x[1..], y[1..]);
      assert x == [x[0]] + x[1..] && y == [y[0]] + y[1..];
    }
  }

  /** Sequences with the same elements are both empty or both not. */
  lemma SameElementsEmpty<T>(x: seq<T>, y: seq<T>)
    requires forall v :: v in x <==> v in y
    ensures x == [] <==> y == []
  {
    if x != [] {
      assert x[0] in y;
    }
    if y != [] {
      assert y[0] in x;
    }
  }

  /** The selected rows of a block, in increasing order, are the block's rows. */
  lemma AscendingBlock(a: nat, b: nat, n: nat)
    requires a <= b <= n
    ensures Ascending(Block(a, b), 0, n) == Range(a, b)
  {
    var asc := Ascending(Block(a, b), 0, n);
    forall v
      ensures v in asc <==> v in Range(a, b)
    {
      if v in asc {
        var k :| 0 <= k < |asc| && asc[k] == v;
        assert v in Block(a, b);
      }
      if v in Range(a, b) {
        assert v in Block(a, b);
      }
    }
    IncreasingUnique(asc, Range(a, b));
  }

  /** With every item in one row, the items of a block are shown in the block's rows only. */
  lemma BlockIds(s: seq<Item>, a: nat, b: nat)
    requires DistinctIds(s) && a <= b <= |s|
    ensures forall q :: 0 <= q < |s| ==> (s[q].id in SelectedIds(s, Block(a, b)) <==> a <= q < b)
  {
    forall q | 0 <= q < |s| && s[q].id in SelectedIds(s, Block(a, b))
      ensures a <= q < b
    {
      var r :| r in Block(a, b) && r < |s| && s[r].id == s[q].id;
    }
    forall q | 0 <= q < |s| && a <= q < b
      ensures s[q].id in SelectedIds(s, Block(a, b))
    {
      assert Range(a, b)[q - a] == q;
      assert q in Block(a, b);
    }
  }

  /** Rows whose items are all filtered away leave nothing. */
  lemma {:induction false} KeepNone(s: seq<Item>, ids: set<nat>)
    requires forall k :: 0 <= k < |s| ==> s[k].id in ids
    ensures Keep(s, ids) == []
  {
    if s != [] {
      KeepNone(s[1..], ids);
    }
  }

  /** Filtering four pieces is filtering each of them. */
  lemma KeepFour(a: seq<Item>, b: seq<Item>, c: seq<Item>, d: seq<Item>, ids: set<nat>)
    ensures Keep(a + b + c + d, ids) == Keep(a, ids) + Keep(b, ids) + Keep(c, ids) + Keep(d, ids)
  {
    KeepConcat(a + b + c, d, ids);
    KeepConcat(a + b, c, ids);
    KeepConcat(a, b, ids);
  }

  /**
   * Swapping two adjacent pieces, one of which is filtered away entirely, does not change
   * what is kept.
   */
  lemma KeepSwapped(s: seq<Item>, i: nat, j: nat, k: nat, ids: set<nat>)
    requires i <= j <= k <= |s|
    requires Keep(s[i..j], ids) == [] || Keep(s[j..k], ids) == []
    ensures Keep(Swapped(s, i, j, k), ids) == Keep(s, ids)
  {
    SwappedGroups(s, i, j, k);
    Cut(s, i, j);
    Cut(s, j, k);
    assert s == s[..i] + s[i..j] + s[j..k] + s[k..];
    KeepPiecesSwapped(s[..i], s[i..j], s[j..k], s[k..], ids);
  }

  /** Swapping the middle pieces `b` and `c` of `a + b + c + d` keeps the same rows when one of them keeps none. */
  lemma KeepPiecesSwapped(a: seq<Item>, b: seq<Item>, c: seq<Item>, d: seq<Item>, ids: set<nat>)
    requires Keep(b, ids) == [] || Keep(c, ids) == []
    ensures Keep(a + c + b + d, ids) == Keep(a + b + c + d, ids)
  {
    KeepFour(a, b, c, d, ids);
    KeepFour(a, c, b, d, ids);
  }

  /** Rows `a` to `b - 1` whose items are all in `ids` leave nothing. */
  lemma KeepNoneSlice(s: seq<Item>, a: nat, b: nat, ids: set<nat>)
    requires a <= b <= |s| && forall q :: a <= q < b ==> s[q].id in ids
    ensures Keep(s[a..b], ids) == []
  {
    var piece := s[a..b];
    assert forall q :: 0 <= q < |piece| ==> piece[q] == s[a + q];
    KeepNone(piece, ids);
  }

  /** The selected rows of a block are rows of the list, and the move applies when the block can move. */
  lemma BlockApplies(n: nat, a: nat, b: nat, down: bool)
    requires a < b <= n
    ensures InRange(Block(a, b), n)
    ensures MoveApplies(n, Block(a, b), down) <==> if down then b < n else 0 < a
  {
    assert a in Block(a, b) by { assert Range(a, b)[0] == a; }
    if b == n {
      assert n - 1 in Block(a, b) by { assert Range(a, b)[n - 1 - a] == n - 1; }
    }
    if a == 0 {
      assert 0 in Block(a, b);
    }
    MoveAppliesExactly(n, Block(a, b), down);
  }

  /** Moving a block of rows past the rows after it keeps the unselected rows in order. */
  lemma BlockKeptForward(s: seq<Item>, a: nat, b: nat, k: nat)
    requires DistinctIds(s) && a <= b <= k <= |s|
    ensures Keep(Swapped(s, a, b, k), SelectedIds(s, Block(a, b))) == Keep(s, SelectedIds(s, Block(a, b)))
  {
    BlockIds(s, a, b);
    KeepNoneSlice(s, a, b, SelectedIds(s, Block(a, b)));
    KeepSwapped(s, a, b, k, SelectedIds(s, Block(a, b)));
  }

  /** Moving a block of rows past the rows before it keeps the unselected rows in order. */
  lemma BlockKeptBackward(s: seq<Item>, i: nat, a: nat, b: nat)
    requires DistinctIds(s) && i <= a <= b <= |s|
    ensures Keep(Swapped(s, i, a, b), SelectedIds(s, Block(a, b))) == Keep(s, SelectedIds(s, Block(a, b)))
  {
    BlockIds(s, a, b);
    KeepNoneSlice(s, a, b, SelectedIds(s, Block(a, b)));
    KeepSwapped(s, i, a, b, SelectedIds(s, Block(a, b)));
  }

  /**
   * The block moved down one row, written out, is a move as specified; `c` is the row after
   * the row below the block.
   */
  lemma DownSpecified(s: seq<Item>, a: nat, b: nat, c: nat)
    requires DistinctIds(s) && a < b && c == b + 1 && c <= |s|
    ensures InRange(Block(a, b), |s|)
    ensures MovedAsSpecified(s, Swapped(s, a, b, c), Block(a, b), true, false)
  {
    BlockApplies(|s|, a, b, true);
    SwappedPermutation(s, a, b, c);
    BlockKeptForward(s, a, b, c);
    BlockStepsDown(s, a, b, c);
  }

  /** Swapped with the row below it, every row of the block moves down by one. */
  lemma BlockStepsDown<T>(s: seq<T>, a: nat, b: nat, c: nat)
    requires a <= b && c == b + 1 && c <= |s|
    ensures forall r :: r in Block(a, b) ==> r + 1 < |s| && Swapped(s, a, b, c)[r + 1] == s[r]
  {
    forall r | r in Block(a, b)
      ensures r + 1 < |s| && Swapped(s, a, b, c)[r + 1] == s[r]
    {
      var m :| 0 <= m < b - a && Range(a, b)[m] == r;
    }
  }

  /** The block moved up one row, written out, is a move as specified. */
  lemma UpSpecified(s: seq<Item>, a: nat, b: nat)
    requires DistinctIds(s) && 0 < a < b <= |s|
    ensures InRange(Block(a, b), |s|)
    ensures MovedAsSpecified(s, Swapped(s, a - 1, a, b), Block(a, b), false, false)
  {
    BlockApplies(|s|, a, b, false);
    SwappedPermutation(s, a - 1, a, b);
    BlockKeptBackward(s, a - 1, a, b);
    BlockStepsUp(s, a, b);
  }

  /** Swapped with the row above it, every row of the block moves up by one. */
  lemma BlockStepsUp<T>(s: seq<T>, a: nat, b: nat)
    requires 0 < a <= b <= |s|
    ensures forall r :: r in Block(a, b) ==> 1 <= r && Swapped(s, a - 1, a, b)[r - 1] == s[r]
  {
    forall r | r in Block(a, b)
      ensures 1 <= r && Swapped(s, a - 1, a, b)[r - 1] == s[r]
    {
      var m :| 0 <= m < b - a && Range(a, b)[m] == r;
    }
  }

  /** The block moved to the bottom, written out, is a move as specified. */
  lemma BottomSpecified(s: seq<Item>, a: nat, b: nat)
    requires DistinctIds(s) && a < b < |s|
    ensures InRange(Block(a, b), |s|)
    ensures MovedAsSpecified(s, Swapped(s, a, b, |s|), Block(a, b), true, true)
  {
    BlockApplies(|s|, a, b, true);
    SwappedPermutation(s, a, b, |s|);
    BlockKeptForward(s, a, b, |s|);
    AscendingBlock(a, b, |s|);
    BlockAtEnd(s, a, b);
  }

  /** Moved to the end, the block fills the last rows. */
  lemma BlockAtEnd<T>(s: seq<T>, a: nat, b: nat)
    requires a <= b <= |s|
    ensures forall m :: 0 <= m < b - a ==> Swapped(s, a, b, |s|)[|s| - (b - a) + m] == s[Range(a, b)[m]]
  {
  }

  /** Moved to the start, the block fills the first rows. */
  lemma BlockAtStart<T>(s: seq<T>, a: nat, b: nat)
    requires a <= b <= |s|
    ensures forall m :: 0 <= m < b - a ==> Swapped(s, 0, a, b)[m] == s[Range(a, b)[m]]
  {
  }

  /** The block moved to the top, written out, is a move as specified. */
  lemma TopSpecified(s: seq<Item>, a: nat, b: nat)
    requires DistinctIds(s) && 0 < a < b <= |s|
    ensures InRange(Block(a, b), |s|)
    ensures MovedAsSpecified(s, Swapped(s, 0, a, b), Block(a, b), false, true)
  {
    BlockApplies(|s|, a, b, false);
    SwappedPermutation(s, 0, a, b);
    BlockKeptBackward(s, 0, a, b);
    AscendingBlock(a, b, |s|);
    BlockAtStart(s, a, b);
  }

  /**
   * Moving the block of rows `a` to `b - 1` down one row lifts row `b` above it; `c` is
   * `b + 1`.
   */
  lemma BlockMovedDown(s: seq<Item>, t: seq<Item>, a: nat, b: nat, c: nat)
    requires DistinctIds(s) && a < b && c == b + 1 && c <= |s|
    requires InRange(Block(a, b), |s|) && MoveResult(s, t, Block(a, b), true, false)
    ensures t == Swapped(s, a, b, c)
  {
    BlockApplies(|s|, a, b, true);
    DownSpecified(s, a, b, c);
    MovedDetermined(s, t, Swapped(s, a, b, c), Block(a, b), true, false);
  }

  /** Moving the block of rows `a` to `b - 1` up one row drops the row above it below it. */
  lemma BlockMovedUp(s: seq<Item>, t: seq<Item>, a: nat, b: nat)
    requires DistinctIds(s) && 0 < a < b <= |s|
    requires InRange(Block(a, b), |s|) && MoveResult(s, t, Block(a, b), false, false)
    ensures t == Swapped(s, a - 1, a, b)
  {
    BlockApplies(|s|, a, b, false);
    UpSpecified(s, a, b);
    MovedDetermined(s, t, Swapped(s, a - 1, a, b), Block(a, b), false, false);
  }

  /** Moving the block of rows `a` to `b - 1` to the bottom puts the rows after it before it. */
  lemma BlockMovedToBottom(s: seq<Item>, t: seq<Item>, a: nat, b: nat)
    requires DistinctIds(s) && a < b < |s|
    requires InRange(Block(a, b), |s|) && MoveResult(s, t, Block(a, b), true, true)
    ensures t == Swapped(s, a, b, |s|)
  {
    BlockApplies(|s|, a, b, true);
    BottomSpecified(s, a, b);
    MovedDetermined(s, t, Swapped(s, a, b, |s|), Block(a, b), true, true);
  }

  /** Moving the block of rows `a` to `b - 1` to the top puts the rows before it after it. */
  lemma BlockMovedToTop(s: seq<Item>, t: seq<Item>, a: nat, b: nat)
    requires DistinctIds(s) && 0 < a < b <= |s|
    requires InRange(Block(a, b), |s|) && MoveResult(s, t, Block(a, b), false, true)
    ensures t == Swapped(s, 0, a, b)
  {
    BlockApplies(|s|, a, b, false);
    TopSpecified(s, a, b);
    MovedDetermined(s, t, Swapped(s, 0, a, b), Block(a, b), false, true);
  }

  /** The folder the program globs in testing mode. */
  const TestDir := "test_files/png"

  const TestNames: seq<string> :=
    ["test1.png", "test2.png", "test3.png", "test4.png", "test5.png", "test6.png", "test7.png"]

  /** The seven test images, in the order the tests expect them. */
  const TestFiles: seq<FilePath> := Map(TestNames, (name: string) => FilePath(TestDir, name, ".png"))

  /** In testing mode the file dialog is skipped: every call yields the test images. */
  function TestDialog(filter: string): (r: seq<FilePath>)
    ensures Names(r) == TestNames
  {
    TestFiles
  }

  /** `chooseFilesHandler()` on a new window, the dialog picking `files`. */
  method ChooseOnNewWindow(files: seq<FilePath>) returns (form: PdfMaker)
    ensures fresh(form) && form.Valid()
    ensures form.chosenFiles == files
    ensures Labels(form.filesList) == Names(files)
  {
    form := new PdfMaker();
    form.ChooseFilesHandler((filter: string) => files);
  }

  /** `chooseFilesHandler()` on a new window shows the test images. */
  method ChooseTestFiles() returns (form: PdfMaker)
    ensures fresh(form) && form.Valid()
    ensures form.chosenFiles == TestFiles
    ensures Labels(form.filesList) == TestNames
  {
    form := ChooseOnNewWindow(TestDialog(ChooseFilter));
  }

  /** tests.py, moving down: rows 2 and 3 go down one row. */
  method MovingDownTest() returns (labels: seq<string>)
    ensures labels == ["test1.png", "test2.png", "test5.png", "test3.png", "test4.png", "test6.png", "test7.png"]
  {
    var form := ChooseTestFiles();
    ghost var s := form.filesList;
    BlockApplies(|s|, 2, 4, true);
    form.MoveItem(Block(2, 4), true, false);
    BlockMovedDown(s, form.filesList, 2, 4, 5);
    SwappedLabels(s, 2, 4, 5);
    labels := Labels(form.filesList);
    SwappedTestNames();
  }

  /** tests.py, moving to the bottom: rows 1 to 4 go to the end. */
  method MovingToBottomTest() returns (labels: seq<string>)
    ensures labels == ["test1.png", "test6.png", "test7.png", "test2.png", "test3.png", "test4.png", "test5.png"]
  {
    var form := ChooseTestFiles();
    ghost var s := form.filesList;
    BlockApplies(|s|, 1, 5, true);
    form.MoveItem(Block(1, 5), true, true);
    BlockMovedToBottom(s, form.filesList, 1, 5);
    SwappedLabels(s, 1, 5, 7);
    labels := Labels(form.filesList);
    SwappedTestNames();
  }

  /** tests.py, moving up: rows 3 and 4 go up one row. */
  method MovingUpTest() returns (labels: seq<string>)
    ensures labels == ["test1.png", "test2.png", "test4.png", "test5.png", "test3.png", "test6.png", "test7.png"]
  {
    var form := ChooseTestFiles();
    ghost var s := form.filesList;
    BlockApplies(|s|, 3, 5, false);
    form.MoveItem(Block(3, 5), false, false);
    BlockMovedUp(s, form.filesList, 3, 5);
    SwappedLabels(s, 2, 3, 5);
    labels := Labels(form.filesList);
    SwappedTestNames();
  }

  /** tests.py, moving to the top: rows 5 and 6 go to the start. */
  method MovingToTopTest() returns (labels: seq<string>)
    ensures labels == ["test6.png", "test7.png", "test1.png", "test2.png", "test3.png", "test4.png", "test5.png"]
  {
    var form := ChooseTestFiles();
    ghost var s := form.filesList;
    BlockApplies(|s|, 5, 7, false);
    form.MoveItem(Block(5, 7), false, true);
    BlockMovedToTop(s, form.filesList, 5, 7);
    SwappedLabels(s, 0, 5, 7);
    labels := Labels(form.filesList);
    SwappedTestNames();
  }

  /** tests.py, rows 0 and 1 moved up: they are at the top already and nothing moves. */
  method NotMovingUpAtTopTest() returns (before: seq<Item>, after: seq<Item>)
    ensures after == before && Labels(after) == TestNames
  {
    var form := ChooseTestFiles();
    before := form.filesList;
    BlockApplies(|before|, 0, 2, false);
    form.MoveItem(Block(0, 2), false, false);
    after := form.filesList;
  }

  /** tests.py, rows 5 and 6 moved down: they are at the bottom already and nothing moves. */
  method NotMovingDownAtBottomTest() returns (before: seq<Item>, after: seq<Item>)
    ensures after == before && Labels(after) == TestNames
  {
    var form := ChooseTestFiles();
    before := form.filesList;
    BlockApplies(|before|, 5, 7, true);
    form.MoveItem(Block(5, 7), true, false);
    after := form.filesList;
  }

  /**
   * tests.py, the order of the chosen files: rows 2 to 4 go up one row, then the first row
   * goes to the bottom, and `orderFiles()` puts the paths in the order shown.
   */
  method ChosenFilesOrderTest() returns (names: seq<string>)
    ensures names == ["test3.png", "test4.png", "test5.png", "test2.png", "test6.png", "test7.png", "test1.png"]
  {
    var form := MoveTestFilesTwice(TestDialog(ChooseFilter));
    form.OrderFiles();
    names := Names(form.chosenFiles);
    SwappedTestNames();
  }

  /** The two moves of the order test, on a new window showing seven files. */
  method MoveTestFilesTwice(files: seq<FilePath>) returns (form: PdfMaker)
    requires |files| == 7
    ensures fresh(form)
    ensures Labels(form.filesList) == Swapped(Swapped(Names(files), 1, 2, 5), 0, 1, 7)
    ensures multiset(Labels(form.filesList)) == multiset(Names(form.chosenFiles))
  {
    form := ChooseOnNewWindow(files);
    ghost var s := form.filesList;
    BlockApplies(|s|, 2, 5, false);
    form.MoveItem(Block(2, 5), false, false);
    ghost var m := form.filesList;
    BlockMovedUp(s, m, 2, 5);
    BlockApplies(|m|, 0, 1, true);
    form.MoveItem(Block(0, 1), true, true);
    BlockMovedToBottom(m, form.filesList, 0, 1);
    TwoMovesLabels(s, m, form.filesList);
    TwoMovesPermute(s, m, form.filesList, form.chosenFiles);
  }

  /** After the two moves of the order test, the rows still show the names of the chosen files. */
  lemma TwoMovesPermute(s: seq<Item>, m: seq<Item>, t: seq<Item>, chosen: seq<FilePath>)
    requires |s| == 7 && m == Swapped(s, 1, 2, 5) && t == Swapped(m, 0, 1, 7)
    requires Labels(s) == Names(chosen)
    ensures multiset(Labels(t)) == multiset(Names(chosen))
  {
    SwappedPermutation(s, 1, 2, 5);
    SwappedPermutation(m, 0, 1, 7);
    LabelsPermutation(s, t);
  }

  /** The labels after the two moves of the order test. */
  lemma TwoMovesLabels(s: seq<Item>, m: seq<Item>, t: seq<Item>)
    requires |s| == 7 && m == Swapped(s, 1, 2, 5) && t == Swapped(m, 0, 1, 7)
    ensures Labels(t) == Swapped(Swapped(Labels(s), 1, 2, 5), 0, 1, 7)
  {
    SwappedLabels(s, 1, 2, 5);
    SwappedLabels(m, 0, 1, 7);
  }

  /** tests.py, adding items: the test images are added again, after themselves. */
  method AddedItemsTest() returns (names: seq<string>)
    ensures names == TestNames + TestNames
  {
    var form := ChooseTestFiles();
    TestFilesAreImages();
    form.AddItem(TestDialog);
    MapConcat(TestFiles, TestFiles, NameOf);
    names := Names(form.chosenFiles);
  }

  /** The test images are images: `addItem` asks for more images. */
  lemma TestFilesAreImages()
    ensures TestFiles != [] && AddFilter(TestFiles[0].suffix) == Some(ImageFilter)
  {
    assert TestFiles[0].suffix == ".png";
    assert Lower(".png") == ".png";
  }

  /** The test names in the orders the tests expect after each move. */
  lemma SwappedTestNames()
    ensures Swapped(TestNames, 2, 4, 5) == ["test1.png", "test2.png", "test5.png", "test3.png", "test4.png", "test6.png", "test7.png"]
    ensures Swapped(TestNames, 1, 5, 7) == ["test1.png", "test6.png", "test7.png", "test2.png", "test3.png", "test4.png", "test5.png"]
    ensures Swapped(TestNames, 2, 3, 5) == ["test1.png", "test2.png", "test4.png", "test5.png", "test3.png", "test6.png", "test7.png"]
    ensures Swapped(TestNames, 0, 5, 7) == ["test6.png", "test7.png", "test1.png", "test2.png", "test3.png", "test4.png", "test5.png"]
    ensures Swapped(Swapped(TestNames, 1, 2, 5), 0, 1, 7) == ["test3.png", "test4.png", "test5.png", "test2.png", "test6.png", "test7.png", "test1.png"]
  {
  }

  /** The labels of a swap are the labels swapped. */
  lemma SwappedLabels(s: seq<Item>, i: nat, j: nat, k: nat)
    requires i <= j <= k <= |s|
    ensures Labels(Swapped(s, i, j, k)) == Swapped(Labels(s), i, j, k)
  {
  }

  /**
   * `orderFiles` takes, for each row, the first file of that name from the row on: with two
   * files named `s.png` and the list showing `x.png` first, the swap that settles the first
   * row also reverses the two namesakes, and the later rows leave them as they are.
   */
  lemma NamesakesReordered()
    ensures var a := FilePath("A", "s.png", ".png");
            var b := FilePath("B", "s.png", ".png");
            var c := FilePath("C", "x.png", ".png");
            Reordered(["x.png", "s.png", "s.png"], [a, b, c]) == [c, b, a]
  {
    var a := FilePath("A", "s.png", ".png");
    var b := FilePath("B", "s.png", ".png");
    var c := FilePath("C", "x.png", ".png");
    var labels := ["x.png", "s.png", "s.png"];
    assert "s.png" != "x.png" by { assert "s.png"[0] != "x.png"[0]; }
    assert FirstNamed([a, b, c], "x.png", 2) == Some(2);
    assert FirstNamed([a, b, c], "x.png", 1) == Some(2);
    assert FirstNamed([a, b, c], "x.png", 0) == Some(2);
    assert OrderStep(labels, [a, b, c], 0) == [c, b, a];
    assert FirstNamed([c, b, a], "s.png", 1) == Some(1);
    assert FirstNamed([c, b, a], "s.png", 2) == Some(2);
  }

  /** A file named after a row is swapped in even when the list is shorter than the files. */
  lemma ShortListReordered()
    ensures var c := FilePath("", "c", ""); var d := FilePath("", "d", ""); var a := FilePath("", "a", "");
            Reordered(["a"], [c, d, a]) == [a, d, c]
  {
    var c := FilePath("", "c", "");
    var d := FilePath("", "d", "");
    var a := FilePath("", "a", "");
    assert "c" != "a" && "d" != "a" by { assert "c"[0] != "a"[0] && "d"[0] != "a"[0]; }
    assert FirstNamed([c, d, a], "a", 2) == Some(2);
    assert FirstNamed([c, d, a], "a", 1) == Some(2);
    assert FirstNamed([c, d, a], "a", 0) == Some(2);
  }
}
