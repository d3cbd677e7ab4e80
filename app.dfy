/**
 * The main window of pdf-maker (`PDFMaker`) as far as it keeps the chosen files: the list
 * widget the user reorders (`filesList`), the list of paths the PDF is built from
 * (`chosenFiles`), the label saying how many files are chosen, the text of the convert
 * button and whether the "optimize size" box is hidden.
 */
module App {
  import opened Wrappers
  import opened Text
  import opened Seqs
  import opened ListWidget
  import opened Files
  import opened Conversion

  const ConvertText := "Convert to PDF"
  const JoinText := "Join PDFs"

  /**
   * The row at which `moveItem` inserts `row`, the `i`-th row it takes out, in a list of
   * `n` rows: one row further, or the `i`-th row from the bottom or top edge.
   */
  function Target(n: nat, down: bool, toEdge: bool, i: nat, row: nat): int {
    if !toEdge then (if down then row + 1 else row - 1)
    else (if down then n - i - 1 else i)
  }

  /**
   * Whether `moveItem` moves anything: some row is selected and the leading selected row (the
   * bottom-most one when moving down, the top-most one when moving up) is not at that edge.
   */
  predicate MoveApplies(n: nat, sel: set<nat>, down: bool) {
    var rows := SortedRows(sel, n, down);
    rows != [] && !(down && rows[0] >= n - 1) && !(!down && rows[0] <= 0)
  }

  /** Every selected row is a row of a list of `n` rows. */
  predicate InRange(sel: set<nat>, n: nat) {
    forall r :: r in sel ==> r < n
  }

  /**
   * `t` is `s` with the selected rows moved as `moveItem` moves them. `t` holds the same items;
   * the unselected items keep their relative order; and each selected item is one row
   * further, or, when moved to the edge, the selected items fill the bottom (or top) rows in
   * the order they had.
   */
  ghost predicate MovedAsSpecified(s: seq<Item>, t: seq<Item>, sel: set<nat>, down: bool, toEdge: bool)
    requires InRange(sel, |s|)
  {
    var n := |s|;
    var asc := Ascending(sel, 0, n);
    var k := |asc|;
    && |t| == n
    && multiset(t) == multiset(s)
    && Keep(t, SelectedIds(s, sel)) == Keep(s, SelectedIds(s, sel))
    && (!toEdge && down ==> forall r :: r in sel ==> r + 1 < n && t[r + 1] == s[r])
    && (!toEdge && !down ==> forall r :: r in sel ==> 1 <= r && t[r - 1] == s[r])
    && (toEdge && down ==> forall m :: 0 <= m < k ==> t[n - k + m] == s[asc[m]])
    && (toEdge && !down ==> forall m :: 0 <= m < k ==> t[m] == s[asc[m]])
  }

  /**
   * What `moveItem` promises: nothing moves unless the move applies, and then the list is
   * moved as specified.
   */
  ghost predicate MoveResult(s: seq<Item>, t: seq<Item>, sel: set<nat>, down: bool, toEdge: bool)
    requires InRange(sel, |s|)
  {
    && (!MoveApplies(|s|, sel, down) ==> t == s)
    && (MoveApplies(|s|, sel, down) ==> MovedAsSpecified(s, t, sel, down, toEdge))
  }

  /**
   * Only the leading row is compared with the edge, and since the selection is sorted that
   * is the same as asking whether the edge row itself is selected.
   */
  lemma MoveAppliesExactly(n: nat, sel: set<nat>, down: bool)
    requires InRange(sel, n)
    ensures MoveApplies(n, sel, down) <==> sel != {} && (if down then n - 1 !in sel else 0 !in sel)
  {
    var rows := SortedRows(sel, n, down);
    if sel != {} {
      var r :| r in sel;
      assert r in rows;
      if down {
        LeadingRowDown(sel, n, rows);
      } else {
        LeadingRowUp(sel, rows);
      }
    }
  }

  /** Sorted from the bottom, the leading row is the last row exactly when that row is selected. */
  lemma LeadingRowDown(sel: set<nat>, n: nat, rows: seq<nat>)
    requires rows != []
    requires forall k :: 0 <= k < |rows| ==> rows[k] in sel && rows[k] < n
    requires forall r :: r in sel && r < n ==> r in rows
    requires forall a, b :: 0 <= a < b < |rows| ==> rows[a] > rows[b]
    ensures rows[0] >= n - 1 <==> n - 1 in sel
  {
    if n - 1 in sel {
      var k :| 0 <= k < |rows| && rows[k] == n - 1;
      assert k == 0 || rows[0] > rows[k];
    }
  }

  /** Sorted from the top, the leading row is the first row exactly when that row is selected. */
  lemma LeadingRowUp(sel: set<nat>, rows: seq<nat>)
    requires rows != []
    requires forall k :: 0 <= k < |rows| ==> rows[k] in sel
    requires 0 in sel ==> 0 in rows
    requires forall a, b :: 0 <= a < b < |rows| ==> rows[a] < rows[b]
    ensures rows[0] <= 0 <==> 0 in sel
  {
    if 0 in sel {
      var k :| 0 <= k < |rows| && rows[k] == 0;
      assert k == 0 || rows[0] < rows[k];
    }
  }

  /** The items taken out by the loop of `moveItem` are the selected ones. */
  lemma RowsCarrySelection(s: seq<Item>, sel: set<nat>, down: bool, rows: seq<nat>, done: set<nat>)
    requires InRange(sel, |s|) && rows == SortedRows(sel, |s|, down)
    requires done == set j | 0 <= j < |rows| :: s[rows[j]].id
    ensures done == SelectedIds(s, sel)
  {
    forall x
      ensures x in done <==> x in SelectedIds(s, sel)
    {
      if x in done {
        var j :| 0 <= j < |rows| && s[rows[j]].id == x;
        assert rows[j] in sel;
      }
      if x in SelectedIds(s, sel) {
        var r :| r in sel && r < |s| && s[r].id == x;
        assert r in rows;
        var j :| 0 <= j < |rows| && rows[j] == r;
      }
    }
  }

  /** Where the loop of `moveItem` puts the `j`-th row it takes: each row, reached as `rows[j]`. */
  predicate Placed(s: seq<Item>, t: seq<Item>, down: bool, toEdge: bool, rows: seq<nat>)
    requires |t| == |s|
    requires forall j :: 0 <= j < |rows| ==> rows[j] < |s|
  {
    forall j :: 0 <= j < |rows| ==>
      0 <= Target(|s|, down, toEdge, j, rows[j]) < |s| &&
      t[Target(|s|, down, toEdge, j, rows[j])] == s[rows[j]]
  }

  /** Each selected row, stepped one row, holds its item. */
  lemma PlacedOneStep(s: seq<Item>, t: seq<Item>, sel: set<nat>, down: bool, rows: seq<nat>)
    requires InRange(sel, |s|) && rows == SortedRows(sel, |s|, down) && |t| == |s|
    requires Placed(s, t, down, false, rows)
    ensures down ==> forall r :: r in sel ==> r + 1 < |s| && t[r + 1] == s[r]
    ensures !down ==> forall r :: r in sel ==> 1 <= r && t[r - 1] == s[r]
  {
    forall r | r in sel
      ensures down ==> r + 1 < |s| && t[r + 1] == s[r]
      ensures !down ==> 1 <= r && t[r - 1] == s[r]
    {
      assert r in rows;
      var j :| 0 <= j < |rows| && rows[j] == r;
      assert Target(|s|, down, false, j, r) == if down then r + 1 else r - 1;
    }
  }

  /** Moved to the bottom, the selected rows fill the last rows, in their old order. */
  lemma PlacedAtBottom(s: seq<Item>, t: seq<Item>, asc: seq<nat>, rows: seq<nat>)
    requires |t| == |s| && |asc| <= |s| && forall k :: 0 <= k < |asc| ==> asc[k] < |s|
    requires rows == Reversed(asc)
    requires Placed(s, t, true, true, rows)
    ensures forall m :: 0 <= m < |asc| ==> t[|s| - |asc| + m] == s[asc[m]]
  {
    forall m | 0 <= m < |asc|
      ensures t[|s| - |asc| + m] == s[asc[m]]
    {
      var j := |asc| - 1 - m;
      assert rows[j] == asc[m];
      assert Target(|s|, true, true, j, rows[j]) == |s| - |asc| + m;
    }
  }

  /** Moved to the top, the selected rows fill the first rows, in their old order. */
  lemma PlacedAtTop(s: seq<Item>, t: seq<Item>, sel: set<nat>, rows: seq<nat>)
    requires InRange(sel, |s|) && rows == SortedRows(sel, |s|, false) && |t| == |s|
    requires Placed(s, t, false, true, rows)
    ensures var asc := Ascending(sel, 0, |s|);
      forall m :: 0 <= m < |asc| ==> t[m] == s[asc[m]]
  {
    var asc := Ascending(sel, 0, |s|);
    assert rows == asc;
    forall m | 0 <= m < |asc|
      ensures t[m] == s[asc[m]]
    {
      assert Target(|s|, false, true, m, rows[m]) == m;
    }
  }

  /** The items shown in the rows `rows`. */
  function RowIds(s: seq<Item>, rows: seq<nat>): set<nat>
    requires forall k :: 0 <= k < |rows| ==> rows[k] < |s|
  {
    set j | 0 <= j < |rows| :: s[rows[j]].id
  }

  /** The rows up to `rows[i]` show the items of the rows before it and the item of `rows[i]`. */
  lemma RowIdsSnoc(s: seq<Item>, rows: seq<nat>, i: nat)
    requires i < |rows| && forall k :: 0 <= k < |rows| ==> rows[k] < |s|
    ensures RowIds(s, rows[..i + 1]) == RowIds(s, rows[..i]) + {s[rows[i]].id}
  {
    assert forall j :: 0 <= j < i ==> rows[..i + 1][j] == rows[..i][j];
    assert rows[..i + 1][i] == rows[i];
  }

  /**
   * The invariant of the loop of `moveItem` after `i` rounds, `s` being the list before the
   * loop: the same items, the rows still to take hold their old items, the rows taken are at
   * their targets, and the items not taken yet keep their relative order.
   */
  predicate LoopKept(s: seq<Item>, t: seq<Item>, down: bool, toEdge: bool, rows: seq<nat>, i: nat) {
    && i <= |rows| && |t| == |s| && (forall k :: 0 <= k < |rows| ==> rows[k] < |s|)
    && multiset(t) == multiset(s)
    && (forall j :: i <= j < |rows| ==> t[rows[j]] == s[rows[j]])
    && Placed(s, t, down, toEdge, rows[..i])
    && Keep(t, RowIds(s, rows[..i])) == Keep(s, RowIds(s, rows[..i]))
  }

  /** One round of the loop of `moveItem` keeps its invariant. */
  lemma MoveRound(s: seq<Item>, before: seq<Item>, after: seq<Item>, down: bool,
                  toEdge: bool, rows: seq<nat>, i: nat)
    requires MoveRows(|s|, down, rows) && i < |rows|
    requires LoopKept(s, before, down, toEdge, rows, i)
    requires 0 <= Target(|s|, down, toEdge, i, rows[i]) < |s|
    requires after == Insert(Take(before, rows[i]), Target(|s|, down, toEdge, i, rows[i]), before[rows[i]])
    ensures LoopKept(s, after, down, toEdge, rows, i + 1)
  {
    var row := rows[i];
    var target := Target(|s|, down, toEdge, i, row);
    var x := before[row];
    var done := RowIds(s, rows[..i]);
    TakeInsertOutside(before, row, target);
    PendingStep(s, before, after, down, toEdge, rows, i);
    PlacedStep(s, before, after, down, toEdge, rows, i);
    KeepTake(before, row, done + {x.id});
    KeepInsert(Take(before, row), target, x, done + {x.id});
    KeepMore(before, done, {x.id});
    KeepMore(s, done, {x.id});
    RowIdsSnoc(s, rows, i);
  }

  /** The state the loop of `moveItem` leaves is the one `MovedAsSpecified` describes. */
  lemma MoveLoopResult(s: seq<Item>, t: seq<Item>, sel: set<nat>, down: bool, toEdge: bool, rows: seq<nat>)
    requires InRange(sel, |s|) && rows == SortedRows(sel, |s|, down)
    requires LoopKept(s, t, down, toEdge, rows, |rows|)
    ensures MovedAsSpecified(s, t, sel, down, toEdge)
  {
    assert rows[..|rows|] == rows;
    var done := RowIds(s, rows);
    RowsCarrySelection(s, sel, down, rows, done);
    var asc := Ascending(sel, 0, |s|);
    if !toEdge {
      PlacedOneStep(s, t, sel, down, rows);
    } else if down {
      PlacedAtBottom(s, t, asc, rows);
    } else {
      PlacedAtTop(s, t, sel, rows);
    }
  }

  /** When the move does not apply, the list as it was is the promised result. */
  lemma StaysPut(s: seq<Item>, sel: set<nat>, down: bool, toEdge: bool)
    requires InRange(sel, |s|) && !MoveApplies(|s|, sel, down)
    ensures MoveResult(s, s, sel, down, toEdge)
  {
  }

  /**
   * A selection that is not empty sorts into rows fit for the loop of `moveItem` unless its
   * leading row is at the edge.
   */
  lemma SelectionSorted(sel: set<nat>, n: nat, down: bool)
    requires InRange(sel, n) && sel != {}
    ensures var rows := SortedRows(sel, n, down);
      && rows != []
      && (!(down && rows[0] >= n - 1) && !(!down && rows[0] <= 0) ==> MoveRows(n, down, rows))
  {
    var r :| r in sel;
    assert r in SortedRows(sel, n, down);
  }

  /**
   * After the loop of `moveItem` the list is moved as `MoveResult` says, and it still shows
   * each item once, all of them created before `bound`.
   */
  lemma MoveFinished(s: seq<Item>, t: seq<Item>, sel: set<nat>, down: bool, toEdge: bool,
                     rows: seq<nat>, bound: nat)
    requires DistinctIds(s) && forall k :: 0 <= k < |s| ==> s[k].id < bound
    requires InRange(sel, |s|) && rows == SortedRows(sel, |s|, down) && rows != []
    requires !(down && rows[0] >= |s| - 1) && !(!down && rows[0] <= 0)
    requires LoopKept(s, t, down, toEdge, rows, |rows|)
    ensures DistinctIds(t) && forall k :: 0 <= k < |t| ==> t[k].id < bound
    ensures multiset(t) == multiset(s)
    ensures MoveResult(s, t, sel, down, toEdge)
  {
    MoveLoopResult(s, t, sel, down, toEdge, rows);
    DistinctPermutation(s, t);
    BelowPermutation(s, t, bound);
  }

  /**
   * What the loop of `moveItem` uses of the sorted rows: they are rows of the list, strictly
   * decreasing when moving down and increasing when moving up, and the leading one can move.
   */
  predicate MoveRows(n: nat, down: bool, rows: seq<nat>) {
    && rows != []
    && (forall k :: 0 <= k < |rows| ==> rows[k] < n)
    && (down ==> forall a, b :: 0 <= a < b < |rows| ==> rows[a] > rows[b])
    && (!down ==> forall a, b :: 0 <= a < b < |rows| ==> rows[a] < rows[b])
    && (down ==> forall k :: 0 <= k < |rows| ==> rows[k] + k < n)
    && (!down ==> forall k :: 0 <= k < |rows| ==> k <= rows[k])
    && !(down && rows[0] >= n - 1)
    && !(!down && rows[0] <= 0)
  }

  /** Each row the loop of `moveItem` inserts is a row of the list it has just taken a row from. */
  lemma TargetInRange(n: nat, down: bool, toEdge: bool, rows: seq<nat>, i: nat)
    requires MoveRows(n, down, rows) && i < |rows|
    ensures 0 <= Target(n, down, toEdge, i, rows[i]) < n
  {
    if i > 0 {
      assert down ==> rows[i] < rows[0];
      assert !down ==> rows[i] > rows[0];
    }
  }

  /** Rows `q` below or above both `row` and `target` hold in `after` what they held in `before`. */
  predicate SameOutside(before: seq<Item>, after: seq<Item>, row: nat, target: nat) {
    forall q :: 0 <= q < |before| && q < |after| && ((q < row && q < target) || (q > row && q > target)) ==>
      after[q] == before[q]
  }

  /** Taking out row `row` and inserting its item at `target` leaves the rows outside both alone. */
  lemma TakeInsertOutside(before: seq<Item>, row: nat, target: nat)
    requires row < |before| && target < |before|
    ensures SameOutside(before, Insert(Take(before, row), target, before[row]), row, target)
  {
  }

  /** The rows not yet taken lie beyond `rows[i]` and its target, so one round leaves them. */
  lemma PendingStep(s: seq<Item>, before: seq<Item>, after: seq<Item>, down: bool,
                    toEdge: bool, rows: seq<nat>, i: nat)
    requires MoveRows(|s|, down, rows) && i < |rows| && |before| == |s| == |after|
    requires forall j :: i <= j < |rows| ==> before[rows[j]] == s[rows[j]]
    requires 0 <= Target(|s|, down, toEdge, i, rows[i])
    requires SameOutside(before, after, rows[i], Target(|s|, down, toEdge, i, rows[i]))
    ensures forall j :: i + 1 <= j < |rows| ==> after[rows[j]] == s[rows[j]]
  {
    forall j | i + 1 <= j < |rows|
      ensures after[rows[j]] == s[rows[j]]
    {
      assert down ==> rows[j] < rows[i];
      assert !down ==> rows[j] > rows[i];
    }
  }

  /** The rows already placed lie beyond `rows[i]` and its target, so one round leaves them. */
  lemma PlacedStep(s: seq<Item>, before: seq<Item>, after: seq<Item>, down: bool,
                   toEdge: bool, rows: seq<nat>, i: nat)
    requires MoveRows(|s|, down, rows) && i < |rows| && |before| == |s| == |after|
    requires before[rows[i]] == s[rows[i]]
    requires Placed(s, before, down, toEdge, rows[..i])
    requires 0 <= Target(|s|, down, toEdge, i, rows[i]) < |s|
    requires after[Target(|s|, down, toEdge, i, rows[i])] == before[rows[i]]
    requires SameOutside(before, after, rows[i], Target(|s|, down, toEdge, i, rows[i]))
    ensures Placed(s, after, down, toEdge, rows[..i + 1])
  {
    var n := |s|;
    forall j | 0 <= j < i + 1
      ensures 0 <= Target(n, down, toEdge, j, rows[j]) < n
      ensures after[Target(n, down, toEdge, j, rows[j])] == s[rows[j]]
    {
      if j < i {
        assert rows[..i][j] == rows[j];
        assert down ==> rows[j] > rows[i];
        assert !down ==> rows[j] < rows[i];
      }
    }
    assert forall j :: 0 <= j < i + 1 ==> rows[..i + 1][j] == rows[j];
  }

  /**
   * The first `i` positions are settled as `orderFiles` settles them: position `k` holds a
   * file named `labels[k]`, or no file from position `k` on has that name.
   */
  predicate SettledUpTo(labels: seq<string>, paths: seq<FilePath>, i: nat) {
    forall k :: 0 <= k < i && k < |labels| && k < |paths| ==>
      paths[k].name == labels[k] || forall m :: k <= m < |paths| ==> paths[m].name != labels[k]
  }

  /**
   * What `orderFiles` promises about reordering `before` into `after` by the list `labels`:
   * `after` holds the same files; every position the list and the files share is settled;
   * and files that are already settled are left in their order.
   */
  predicate Reconciled(labels: seq<string>, before: seq<FilePath>, after: seq<FilePath>) {
    && multiset(after) == multiset(before)
    && SettledUpTo(labels, after, |labels|)
    && (SettledUpTo(labels, before, |labels|) ==> after == before)
  }

  /**
   * The position of the first file from position `j` on named `name`, as the inner loop of
   * `orderFiles` finds it, or `None` when there is none.
   */
  function FirstNamed(paths: seq<FilePath>, name: string, j: nat): (r: Option<nat>)
    ensures r.Some? ==> j <= r.value < |paths| && paths[r.value].name == name
    ensures forall m :: j <= m < |paths| && (r.None? || m < r.value) ==> paths[m].name != name
    decreases |paths| - j
  {
    if j >= |paths| then None
    else if paths[j].name == name then Some(j)
    else FirstNamed(paths, name, j + 1)
  }

  /** One round of `orderFiles`: the first file named `labels[i]` from `i` on swapped into `i`. */
  function OrderStep(labels: seq<string>, paths: seq<FilePath>, i: nat): seq<FilePath>
    requires i < |labels|
  {
    match FirstNamed(paths, labels[i], i)
    case None => paths
    case Some(j) => if i != j then paths[i := paths[j]][j := paths[i]] else paths
  }

  /** The rounds of `orderFiles` for the rows from `i` on, one after another. */
  function OrderFrom(labels: seq<string>, paths: seq<FilePath>, i: nat): seq<FilePath>
    decreases |labels| - i
  {
    if i >= |labels| then paths else OrderFrom(labels, OrderStep(labels, paths, i), i + 1)
  }

  /** The files in the order `orderFiles` leaves them in, for a list showing `labels`. */
  function Reordered(labels: seq<string>, paths: seq<FilePath>): seq<FilePath> {
    OrderFrom(labels, paths, 0)
  }

  /** The search stopped at a file named `labels[i]`: the round swaps it into `i`. */
  lemma FoundStep(labels: seq<string>, c: seq<FilePath>, i: nat, j: nat)
    requires i < |labels| && i <= j < |c| && c[j].name == labels[i]
    requires FirstNamed(c, labels[i], j) == FirstNamed(c, labels[i], i)
    ensures OrderStep(labels, c, i) == if i != j then c[i := c[j]][j := c[i]] else c
  {
    assert FirstNamed(c, labels[i], i) == Some(j);
  }

  /** The search ran past the last file: the round changes nothing. */
  lemma NotFoundStep(labels: seq<string>, c: seq<FilePath>, i: nat, j: nat)
    requires i < |labels| && |c| <= j
    requires FirstNamed(c, labels[i], j) == FirstNamed(c, labels[i], i)
    ensures OrderStep(labels, c, i) == c
  {
  }

  /**
   * One round keeps the files, settles position `i` on top of the positions before it, and
   * changes nothing when every position is already settled.
   */
  lemma StepSettles(labels: seq<string>, paths: seq<FilePath>, i: nat)
    requires i < |labels| && SettledUpTo(labels, paths, i)
    ensures multiset(OrderStep(labels, paths, i)) == multiset(paths)
    ensures SettledUpTo(labels, OrderStep(labels, paths, i), i + 1)
    ensures SettledUpTo(labels, paths, |labels|) ==> OrderStep(labels, paths, i) == paths
  {
    match FirstNamed(paths, labels[i], i)
    case None =>
    case Some(j) =>
      if i != j {
        SwapSettled(labels, paths, OrderStep(labels, paths, i), i, j);
      }
  }

  /** The remaining rounds keep the files, settle every position, and leave settled files be. */
  lemma {:induction false} OrderFromReconciles(labels: seq<string>, paths: seq<FilePath>, i: nat)
    requires SettledUpTo(labels, paths, i)
    ensures Reconciled(labels, paths, OrderFrom(labels, paths, i))
    decreases |labels| - i
  {
    if i < |labels| {
      StepSettles(labels, paths, i);
      OrderFromReconciles(labels, OrderStep(labels, paths, i), i + 1);
    }
  }

  /** The order `orderFiles` produces reconciles the files with the list. */
  lemma ReorderedReconciles(labels: seq<string>, paths: seq<FilePath>)
    ensures Reconciled(labels, paths, Reordered(labels, paths))
  {
    OrderFromReconciles(labels, paths, 0);
  }

  /**
   * When the list shows exactly the names of the files (as a multiset), reconciling puts
   * every file where the list shows its name.
   */
  lemma ReconcileAligns(labels: seq<string>, before: seq<FilePath>, after: seq<FilePath>)
    requires Reconciled(labels, before, after)
    requires multiset(labels) == multiset(Names(before))
    ensures Names(after) == labels
  {
    NamesPermutation(after, before);
    var names := Names(after);
    assert |labels| == |multiset(labels)| == |multiset(names)| == |after|;
    forall i | 0 <= i < |labels|
      ensures names[i] == labels[i] || labels[i] !in names[i..]
    {
      if labels[i] in names[i..] {
        var m :| 0 <= m < |names[i..]| && names[i..][m] == labels[i];
        assert after[i + m].name == labels[i];
      }
    }
    AlignNames(labels, names, 0);
    assert labels[0..] == labels && names[0..] == names;
  }

  /** Ordering the files a second time by the same list changes nothing, whatever the files. */
  lemma ReconcileIdempotent(labels: seq<string>, paths: seq<FilePath>)
    ensures Reordered(labels, Reordered(labels, paths)) == Reordered(labels, paths)
  {
    ReorderedReconciles(labels, paths);
    ReorderedReconciles(labels, Reordered(labels, paths));
  }

  /**
   * From position `k` on, names that either match their label or never show it again, and that
   * agree with the labels as multisets, are the labels themselves.
   */
  lemma {:induction false} AlignNames(labels: seq<string>, names: seq<string>, k: nat)
    requires k <= |names| == |labels|
    requires forall i :: k <= i < |labels| ==> names[i] == labels[i] || labels[i] !in names[i..]
    requires multiset(labels[k..]) == multiset(names[k..])
    ensures names[k..] == labels[k..]
    decreases |names| - k
  {
    if k < |names| {
      assert labels[k..] == [labels[k]] + labels[k + 1..];
      assert names[k..] == [names[k]] + names[k + 1..];
      assert labels[k] in multiset(names[k..]);
      assert names[k] == labels[k];
      assert multiset(labels[k + 1..]) == multiset(labels[k..]) - multiset{labels[k]};
      assert multiset(names[k + 1..]) == multiset(names[k..]) - multiset{names[k]};
      AlignNames(labels, names, k + 1);
    }
  }

  /**
   * Swapping a file named `labels[i]` from position `j` into position `i` settles position
   * `i` and keeps the positions before it settled.
   */
  lemma SwapSettled(labels: seq<string>, c: seq<FilePath>, t: seq<FilePath>, i: nat, j: nat)
    requires i < j < |c| && i < |labels| && c[j].name == labels[i]
    requires SettledUpTo(labels, c, i)
    requires t == c[i := c[j]][j := c[i]]
    ensures multiset(t) == multiset(c)
    ensures SettledUpTo(labels, t, i + 1)
  {
    SwapPermutation(c, i, j);
    forall k, m | 0 <= k < i && k < |labels| && c[k].name != labels[k] && k <= m < |t|
      ensures t[m].name != labels[k]
    {
      assert c[if m == i then j else if m == j then i else m] == t[m];
    }
  }

  /** The texts of a sequence of rows. */
  function TextsIn(items: seq<Item>): set<string> {
    set x | x in items :: x.text
  }

  /** Adding one more row adds its item and its text. */
  lemma InSnoc(items: seq<Item>, k: nat)
    requires k < |items|
    ensures IdsIn(items[..k + 1]) == IdsIn(items[..k]) + {items[k].id}
    ensures TextsIn(items[..k + 1]) == TextsIn(items[..k]) + {items[k].text}
  {
    assert items[..k + 1] == items[..k] + [items[k]];
  }

  /**
   * The items `deleteItem` is given, in the order of their rows: items of the list, no two the
   * same, carrying exactly the selected items and texts.
   */
  lemma SelectionItems(s: seq<Item>, sel: set<nat>, rows: seq<nat>, items: seq<Item>)
    requires DistinctIds(s) && InRange(sel, |s|) && rows == SortedRows(sel, |s|, false)
    requires |items| == |rows| && forall k :: 0 <= k < |rows| ==> items[k] == s[rows[k]]
    ensures DistinctIds(items) && forall k :: 0 <= k < |items| ==> items[k] in s
    ensures IdsIn(items) == SelectedIds(s, sel) && TextsIn(items) == SelectedLabels(s, sel)
  {
    SelectionIds(s, sel, rows, items);
    SelectionTexts(s, sel, rows, items);
  }

  /** The ids of the items `deleteItem` is given are the selected ids. */
  lemma SelectionIds(s: seq<Item>, sel: set<nat>, rows: seq<nat>, items: seq<Item>)
    requires InRange(sel, |s|) && rows == SortedRows(sel, |s|, false)
    requires |items| == |rows| && forall k :: 0 <= k < |rows| ==> items[k] == s[rows[k]]
    ensures IdsIn(items) == SelectedIds(s, sel)
  {
    forall x | x in SelectedIds(s, sel)
      ensures x in IdsIn(items)
    {
      var r :| r in sel && r < |s| && s[r].id == x;
      assert r in rows;
      var k :| 0 <= k < |rows| && rows[k] == r;
      assert items[k].id == x;
    }
    forall x | x in IdsIn(items)
      ensures x in SelectedIds(s, sel)
    {
      var k :| 0 <= k < |items| && items[k].id == x;
      assert rows[k] in sel;
    }
  }

  /** The texts of the items `deleteItem` is given are the selected labels. */
  lemma SelectionTexts(s: seq<Item>, sel: set<nat>, rows: seq<nat>, items: seq<Item>)
    requires InRange(sel, |s|) && rows == SortedRows(sel, |s|, false)
    requires |items| == |rows| && forall k :: 0 <= k < |rows| ==> items[k] == s[rows[k]]
    ensures TextsIn(items) == SelectedLabels(s, sel)
  {
    forall x | x in SelectedLabels(s, sel)
      ensures x in TextsIn(items)
    {
      var r :| r in sel && r < |s| && s[r].text == x;
      assert r in rows;
      var k :| 0 <= k < |rows| && rows[k] == r;
      assert items[k].text == x;
    }
    forall x | x in TextsIn(items)
      ensures x in SelectedLabels(s, sel)
    {
      var k :| 0 <= k < |items| && items[k].text == x;
      assert rows[k] in sel;
    }
  }

  /** In the loop of `deleteItem`, the next item is still shown. */
  lemma StillShown(s: seq<Item>, t: seq<Item>, items: seq<Item>, k: nat)
    requires DistinctIds(items) && k < |items|
    requires forall j :: 0 <= j < |items| ==> items[j] in s
    requires t == Keep(s, IdsIn(items[..k]))
    ensures exists p :: 0 <= p < |t| && t[p].id == items[k].id
  {
    var x := items[k];
    assert x.id !in IdsIn(items[..k]);
    KeepMembers(s, IdsIn(items[..k]));
    assert x in t;
    var q :| 0 <= q < |t| && t[q] == x;
  }

  /** One round of the loop of `deleteItem`: taking out the row of the next item drops it. */
  lemma DeleteRound(s: seq<Item>, t: seq<Item>, items: seq<Item>, k: nat, p: nat)
    requires DistinctIds(s) && k < |items|
    requires t == Keep(s, IdsIn(items[..k]))
    requires p < |t| && t[p].id == items[k].id
    ensures Take(t, p) == Keep(s, IdsIn(items[..k + 1]))
  {
    KeepDistinct(s, IdsIn(items[..k]));
    KeepOne(t, p);
    InSnoc(items, k);
    KeepMore(s, IdsIn(items[..k]), {items[k].id});
  }

  /** Taking rows out of a list keeps every item in one row, and creates no item. */
  lemma KeepBelow(s: seq<Item>, ids: set<nat>, nextId: nat)
    requires DistinctIds(s) && forall k :: 0 <= k < |s| ==> s[k].id < nextId
    ensures DistinctIds(Keep(s, ids))
    ensures forall k :: 0 <= k < |Keep(s, ids)| ==> Keep(s, ids)[k].id < nextId
  {
    KeepDistinct(s, ids);
    var t := Keep(s, ids);
    KeepMembers(s, ids);
    forall k | 0 <= k < |t|
      ensures t[k].id < nextId
    {
      assert t[k] in s;
    }
  }

  /** One more picked file is one more new item, numbered after the others. */
  lemma NewItemsSnoc(paths: seq<FilePath>, k: nat, firstId: nat)
    requires k < |paths|
    ensures NewItems(Names(paths[..k + 1]), firstId) ==
            NewItems(Names(paths[..k]), firstId) + [Item(firstId + k, paths[k].name)]
  {
  }

  /** Items numbered from `firstId` on, appended to items numbered below it, repeat no item. */
  lemma AppendValid(prefix: seq<Item>, added: seq<Item>, firstId: nat, nextId: nat)
    requires DistinctIds(prefix) && forall k :: 0 <= k < |prefix| ==> prefix[k].id < firstId
    requires DistinctIds(added) && forall k :: 0 <= k < |added| ==> firstId <= added[k].id < nextId
    requires firstId <= nextId
    ensures DistinctIds(prefix + added)
    ensures forall k :: 0 <= k < |prefix + added| ==> (prefix + added)[k].id < nextId
  {
  }

  /** The row `MovedAsSpecified` gives the item of the selected row `r`. */
  ghost function Spot(n: nat, sel: set<nat>, down: bool, toEdge: bool, r: nat): int
    requires InRange(sel, n) && r in sel
  {
    if !toEdge then (if down then r + 1 else r - 1)
    else
      var asc := Ascending(sel, 0, n);
      var m :| 0 <= m < |asc| && asc[m] == r;
      if down then n - |asc| + m else m
  }

  /** A list moved as specified holds the item of each selected row at its spot. */
  lemma AtSpots(s: seq<Item>, t: seq<Item>, sel: set<nat>, down: bool, toEdge: bool)
    requires InRange(sel, |s|) && MovedAsSpecified(s, t, sel, down, toEdge)
    ensures forall r :: r in sel ==>
              0 <= Spot(|s|, sel, down, toEdge, r) < |t| && t[Spot(|s|, sel, down, toEdge, r)] == s[r]
  {
    forall r | r in sel
      ensures 0 <= Spot(|s|, sel, down, toEdge, r) < |t| && t[Spot(|s|, sel, down, toEdge, r)] == s[r]
    {
      if toEdge {
        var asc := Ascending(sel, 0, |s|);
        assert r in asc;
      }
    }
  }

  /**
   * Two lists that agree on the rows whose item is in `ids`, and keep the same other rows in
   * the same order, are the same list.
   */
  lemma {:induction false} Determined(t1: seq<Item>, t2: seq<Item>, ids: set<nat>)
    requires |t1| == |t2|
    requires forall q :: 0 <= q < |t1| ==> (t1[q].id in ids <==> t2[q].id in ids)
    requires forall q :: 0 <= q < |t1| && t1[q].id in ids ==> t1[q] == t2[q]
    requires Keep(t1, ids) == Keep(t2, ids)
    ensures t1 == t2
  {
    if t1 != [] {
      KeepRest(t1, t2, ids);
      Determined(t1[1..], t2[1..], ids);
      assert t1 == [t1[0]] + t1[1..] && t2 == [t2[0]] + t2[1..];
    }
  }

  /** The step of `Determined`: lists that keep the same rows keep the same rows after their heads. */
  lemma KeepRest(t1: seq<Item>, t2: seq<Item>, ids: set<nat>)
    requires t1 != [] && t2 != [] && (t1[0].id in ids <==> t2[0].id in ids)
    requires Keep(t1, ids) == Keep(t2, ids)
    ensures t1[0].id !in ids ==> t1[0] == t2[0]
    ensures Keep(t1[1..], ids) == Keep(t2[1..], ids)
  {
    if t1[0].id !in ids {
      assert Keep(t1, ids)[0] == t1[0] && Keep(t2, ids)[0] == t2[0];
      assert Keep(t1[1..], ids) == Keep(t1, ids)[1..];
      assert Keep(t2[1..], ids) == Keep(t2, ids)[1..];
    }
  }

  /** A moved list in which a row holds a selected item: that row is the item's spot. */
  lemma SelectedAtSpot(s: seq<Item>, t: seq<Item>, sel: set<nat>, down: bool, toEdge: bool, q: nat)
    requires DistinctIds(s) && InRange(sel, |s|) && MovedAsSpecified(s, t, sel, down, toEdge)
    requires q < |t| && t[q].id in SelectedIds(s, sel)
    ensures exists r :: r in sel && Spot(|s|, sel, down, toEdge, r) == q && t[q] == s[r]
  {
    AtSpots(s, t, sel, down, toEdge);
    DistinctPermutation(s, t);
    var r :| r in sel && r < |s| && s[r].id == t[q].id;
    var p := Spot(|s|, sel, down, toEdge, r);
    assert t[p].id == t[q].id;
    assert p == q;
  }

  /** The move `MovedAsSpecified` describes has exactly one result. */
  lemma MovedDetermined(s: seq<Item>, t1: seq<Item>, t2: seq<Item>, sel: set<nat>, down: bool, toEdge: bool)
    requires DistinctIds(s) && InRange(sel, |s|)
    requires MovedAsSpecified(s, t1, sel, down, toEdge) && MovedAsSpecified(s, t2, sel, down, toEdge)
    ensures t1 == t2
  {
    var ids := SelectedIds(s, sel);
    AtSpots(s, t1, sel, down, toEdge);
    AtSpots(s, t2, sel, down, toEdge);
    forall q | 0 <= q < |t1| && (t1[q].id in ids || t2[q].id in ids)
      ensures t1[q] == t2[q]
    {
      if t1[q].id in ids {
        SelectedAtSpot(s, t1, sel, down, toEdge, q);
      } else {
        SelectedAtSpot(s, t2, sel, down, toEdge, q);
      }
    }
    Determined(t1, t2, ids);
  }

  /**
   * Moving rows only reorders the list, so when the list showed the names of the files, the
   * reordering `orderFiles` then makes puts each file where the list shows its name.
   */
  lemma MoveThenOrderAligns(s: seq<Item>, t: seq<Item>, before: seq<FilePath>, after: seq<FilePath>)
    requires Labels(s) == Names(before) && multiset(t) == multiset(s)
    requires Reconciled(Labels(t), before, after)
    ensures Names(after) == Labels(t)
  {
    LabelsPermutation(t, s);
    ReconcileAligns(Labels(t), before, after);
  }

  /** No two rows show the same text. */
  predicate DistinctTexts(s: seq<Item>) {
    forall i, j :: 0 <= i < j < |s| ==> s[i].text != s[j].text
  }

  /** Row `k` shows the name of file `k`, and there are as many rows as files. */
  predicate Paired(s: seq<Item>, paths: seq<FilePath>) {
    |s| == |paths| && forall k :: 0 <= k < |s| ==> s[k].text == paths[k].name
  }

  /** Paired rows and files are rows that show the names of the files. */
  lemma PairedLabels(s: seq<Item>, paths: seq<FilePath>)
    ensures Paired(s, paths) <==> Labels(s) == Names(paths)
  {
    if Labels(s) == Names(paths) {
      assert |s| == |Labels(s)| == |Names(paths)| == |paths|;
      assert forall k :: 0 <= k < |s| ==> s[k].text == Labels(s)[k] == Names(paths)[k] == paths[k].name;
    }
  }

  /**
   * Filtering a list and its files in step: when each row is dropped exactly when the file
   * at its position is, the remaining rows show the names of the remaining files.
   */
  lemma {:induction false} FilterInStep(s: seq<Item>, paths: seq<FilePath>, ids: set<nat>, names: set<string>)
    requires Paired(s, paths)
    requires forall k :: 0 <= k < |s| ==> (s[k].id in ids <==> s[k].text in names)
    ensures Paired(Keep(s, ids), WithoutNames(paths, names))
  {
    if s != [] {
      var rest, restPaths := s[1..], paths[1..];
      assert s == [s[0]] + rest && paths == [paths[0]] + restPaths;
      PairedCons(s[0], paths[0], rest, restPaths);
      assert forall k :: 0 <= k < |rest| ==> rest[k] == s[k + 1];
      FilterInStep(rest, restPaths, ids, names);
      if s[0].id !in ids {
        assert Keep(s, ids) == [s[0]] + Keep(rest, ids);
        assert WithoutNames(paths, names) == [paths[0]] + WithoutNames(restPaths, names);
        PairedCons(s[0], paths[0], Keep(rest, ids), WithoutNames(restPaths, names));
      } else {
        assert Keep(s, ids) == Keep(rest, ids);
        assert WithoutNames(paths, names) == WithoutNames(restPaths, names);
      }
    }
  }

  /** Rows and files paired one more at the front. */
  lemma PairedCons(x: Item, p: FilePath, s: seq<Item>, paths: seq<FilePath>)
    ensures Paired([x] + s, [p] + paths) <==> x.text == p.name && Paired(s, paths)
  {
    if x.text == p.name && Paired(s, paths) {
      forall k | 0 <= k < |s| + 1
        ensures ([x] + s)[k].text == ([p] + paths)[k].name
      {
        if k > 0 {
          assert ([x] + s)[k] == s[k - 1] && ([p] + paths)[k] == paths[k - 1];
        }
      }
    }
    if Paired([x] + s, [p] + paths) {
      assert ([x] + s)[0] == x && ([p] + paths)[0] == p;
      forall k | 0 <= k < |s|
        ensures s[k].text == paths[k].name
      {
        assert ([x] + s)[k + 1] == s[k] && ([p] + paths)[k + 1] == paths[k];
      }
    }
  }

  /**
   * When no two rows show the same name, `deleteItem` keeps the list showing the names of the
   * files: exactly the files of the deleted rows are dropped.
   */
  lemma DeleteKeepsAgreement(s: seq<Item>, paths: seq<FilePath>, sel: set<nat>)
    requires Labels(s) == Names(paths) && DistinctIds(s) && DistinctTexts(s) && InRange(sel, |s|)
    ensures Labels(Keep(s, SelectedIds(s, sel))) == Names(WithoutNames(paths, SelectedLabels(s, sel)))
  {
    forall k | 0 <= k < |s|
      ensures s[k].id in SelectedIds(s, sel) <==> s[k].text in SelectedLabels(s, sel)
    {
      if s[k].id in SelectedIds(s, sel) {
        var r :| r in sel && r < |s| && s[r].id == s[k].id;
        assert r == k;
      }
      if s[k].text in SelectedLabels(s, sel) {
        var r :| r in sel && r < |s| && s[r].text == s[k].text;
        assert r == k;
      }
    }
    PairedLabels(s, paths);
    FilterInStep(s, paths, SelectedIds(s, sel), SelectedLabels(s, sel));
    PairedLabels(Keep(s, SelectedIds(s, sel)), WithoutNames(paths, SelectedLabels(s, sel)));
  }

  /**
   * With two rows of the same name, deleting one of them drops both files: the other row
   * stays in the list with no file left behind it.
   */
  lemma DeleteDropsNamesakes()
    ensures var s := [Item(0, "a.png"), Item(1, "a.png")];
            var paths := [FilePath("x", "a.png", ".png"), FilePath("y", "a.png", ".png")];
            && Labels(s) == Names(paths)
            && Keep(s, SelectedIds(s, {0})) == [Item(1, "a.png")]
            && WithoutNames(paths, SelectedLabels(s, {0})) == []
  {
    var s := [Item(0, "a.png"), Item(1, "a.png")];
    var paths := [FilePath("x", "a.png", ".png"), FilePath("y", "a.png", ".png")];
    assert SelectedIds(s, {0}) == {0};
    assert SelectedLabels(s, {0}) == {"a.png"};
    assert Keep(s[1..], {0}) == [Item(1, "a.png")] by {
      assert s[1..][1..] == [];
    }
    assert WithoutNames(paths[1..], {"a.png"}) == [] by {
      assert paths[1..][1..] == [];
    }
  }

  class PdfMaker {
    /** The rows of the list widget, top to bottom. */
    var filesList: seq<Item>
    /** The paths the PDF file is made from, in that order. */
    var chosenFiles: seq<FilePath>
    /** The text of the line edit that shows what is chosen. */
    var filesLabel: string
    /** The text of the convert button. */
    var convertText: string
    /** Whether the "optimize size" check box is hidden. */
    var optimizeHidden: bool
    /** A number no item shown so far carries: the next widget item created gets it. */
    var nextId: nat

    /** Every widget item is shown in one row at most, and each was created before. */
    ghost predicate Valid()
      reads this`filesList, this`nextId
    {
      DistinctIds(filesList) && forall k :: 0 <= k < |filesList| ==> filesList[k].id < nextId
    }

    /** The window as it opens: nothing chosen. */
    constructor ()
      ensures Valid()
      ensures filesList == [] && chosenFiles == []
      ensures filesLabel == NoFilesText && convertText == ConvertText && !optimizeHidden
    {
      filesList := [];
      chosenFiles := [];
      filesLabel := NoFilesText;
      convertText := ConvertText;
      optimizeHidden := false;
      nextId := 0;
    }

    /**
     * `moveItem(items, down_direction, to_edge)` with the items of the rows `sel` selected.
     * Nothing moves when the leading selected row is already at the edge; otherwise the rows
     * are taken out and inserted again one by one, in sorted order.
     */
    method MoveItem(sel: set<nat>, down: bool, toEdge: bool)
      requires Valid() && InRange(sel, |filesList|)
      modifies this`filesList
      ensures Valid()
      ensures multiset(filesList) == multiset(old(filesList))
      ensures MoveResult(old(filesList), filesList, sel, down, toEdge)
      ensures chosenFiles == old(chosenFiles)
    {
      if sel == {} {
        MoveAppliesExactly(|filesList|, sel, down);
        StaysPut(filesList, sel, down, toEdge);
        return;
      }
      var rowCount := |filesList|;
      var rows := SortedRows(sel, rowCount, down);
      SelectionSorted(sel, rowCount, down);
      if (rows[0] >= rowCount - 1 && down) || (rows[0] <= 0 && !down) {
        StaysPut(filesList, sel, down, toEdge);
        return;
      }
      ghost var s := filesList;
      Reinsert(rows, down, toEdge);
      MoveFinished(s, filesList, sel, down, toEdge, rows, nextId);
    }

    /** The loop of `moveItem`: each of `rows` in turn is taken out and inserted at its target. */
    method Reinsert(rows: seq<nat>, down: bool, toEdge: bool)
      requires MoveRows(|filesList|, down, rows)
      modifies this`filesList
      ensures LoopKept(old(filesList), filesList, down, toEdge, rows, |rows|)
    {
      var rowCount := |filesList|;
      ghost var s := filesList;
      for i := 0 to |rows|
        invariant |filesList| == rowCount
        invariant LoopKept(s, filesList, down, toEdge, rows, i)
      {
        var row := rows[i];
        var target := Target(rowCount, down, toEdge, i, row);
        TargetInRange(rowCount, down, toEdge, rows, i);
        var item := filesList[row];
        var moved := Insert(Take(filesList, row), target, item);
        MoveRound(s, filesList, moved, down, toEdge, rows, i);
        filesList := moved;
      }
    }

    /**
     * `orderFiles()`: for each row `i` of the list, the first file from position `i` on whose
     * name is the text of row `i` is swapped into position `i`.
     */
    method OrderFiles()
      modifies this`chosenFiles
      ensures chosenFiles == Reordered(Labels(filesList), old(chosenFiles))
      ensures Reconciled(Labels(filesList), old(chosenFiles), chosenFiles)
      ensures multiset(Labels(filesList)) == multiset(Names(old(chosenFiles))) ==>
                Names(chosenFiles) == Labels(filesList)
    {
      ghost var before := chosenFiles;
      ghost var labels := Labels(filesList);
      for i := 0 to |filesList|
        invariant OrderFrom(labels, chosenFiles, i) == Reordered(labels, before)
      {
        ghost var current := chosenFiles;
        var name := filesList[i].text;
        assert name == labels[i];
        var j := i;
        while j < |chosenFiles|
          invariant i <= j && chosenFiles == current
          invariant FirstNamed(current, name, j) == FirstNamed(current, name, i)
          decreases |chosenFiles| - j
        {
          if name == chosenFiles[j].name {
            FoundStep(labels, current, i, j);
            if i != j {
              chosenFiles := chosenFiles[i := chosenFiles[j]][j := chosenFiles[i]];
            }
            break;
          }
          j := j + 1;
        }
        if j >= |current| {
          NotFoundStep(labels, current, i, j);
        }
      }
      ReorderedReconciles(labels, before);
      if multiset(Labels(filesList)) == multiset(Names(before)) {
        ReconcileAligns(labels, before, chosenFiles);
      }
    }

    /**
     * `deleteItem(items)` with the items of the rows `sel` selected: their rows are taken out
     * of the list, and every file whose name is the text of one of them is dropped.
     */
    method DeleteItem(sel: set<nat>)
      requires Valid() && InRange(sel, |filesList|)
      modifies this`filesList, this`chosenFiles, this`filesLabel
      ensures Valid()
      ensures sel == {} ==> filesList == old(filesList) && chosenFiles == old(chosenFiles) &&
                            filesLabel == old(filesLabel)
      ensures sel != {} ==>
                && filesList == Keep(old(filesList), SelectedIds(old(filesList), sel))
                && chosenFiles == WithoutNames(old(chosenFiles), SelectedLabels(old(filesList), sel))
                && filesLabel == FilesLabel(chosenFiles)
    {
      if sel != {} {
        ghost var s := filesList;
        var rows := SortedRows(sel, |filesList|, false);
        var items := RowItems(filesList, rows);
        SelectionItems(s, sel, rows, items);
        var itemsToDelete := TakeItems(items);
        chosenFiles := WithoutNames(chosenFiles, itemsToDelete);
        UpdateFilesLabel();
      }
    }

    /**
     * The loop of `deleteItem`: each item's text is noted and its row taken out of the list.
     * Returns the texts noted.
     */
    method TakeItems(items: seq<Item>) returns (itemsToDelete: set<string>)
      requires Valid() && DistinctIds(items)
      requires forall j :: 0 <= j < |items| ==> items[j] in filesList
      modifies this`filesList
      ensures Valid()
      ensures filesList == Keep(old(filesList), IdsIn(items))
      ensures itemsToDelete == TextsIn(items)
    {
      ghost var s := filesList;
      assert items[..0] == [];
      assert IdsIn([]) == {} && TextsIn([]) == {};
      KeepAll(s, {});
      itemsToDelete := {};
      for k := 0 to |items|
        invariant filesList == Keep(s, IdsIn(items[..k]))
        invariant itemsToDelete == TextsIn(items[..k])
      {
        var item := items[k];
        itemsToDelete := itemsToDelete + {item.text};
        StillShown(s, filesList, items, k);
        var row := RowOf(filesList, item.id);
        DeleteRound(s, filesList, items, k, row);
        InSnoc(items, k);
        filesList := Take(filesList, row);
      }
      assert items[..|items|] == items;
      KeepBelow(s, IdsIn(items), nextId);
    }

    /** `updateFilesLabel()`: the line edit shows how many files are chosen. */
    method UpdateFilesLabel()
      modifies this`filesLabel
      ensures filesLabel == FilesLabel(chosenFiles)
    {
      filesLabel := FilesLabel(chosenFiles);
    }

    /**
     * The window after `chooseFilesHandler` has shown the files `picked`, the first new item
     * being number `firstId`: the files are chosen and listed by name, the line edit counts
     * them, and the convert button joins PDF files when the first file is one.
     */
    ghost predicate Shows(picked: seq<FilePath>, firstId: nat)
      reads this
    {
      var joins := picked != [] && IsPdf(picked[0].suffix);
      && chosenFiles == picked
      && filesList == NewItems(Names(picked), firstId)
      && nextId == firstId + |picked|
      && filesLabel == FilesLabel(picked)
      && convertText == (if joins then JoinText else ConvertText)
      && optimizeHidden == joins
    }

    /**
     * `chooseFilesHandler()`: the list is cleared and refilled with the files picked in the
     * file dialog, opened with both the image and the PDF filter. `dialog` stands for the
     * dialog: given the filter, it gives the picked paths.
     */
    method ChooseFilesHandler(dialog: string -> seq<FilePath>)
      requires Valid()
      modifies this
      ensures Valid()
      ensures Shows(dialog(ChooseFilter), old(nextId))
      ensures Labels(filesList) == Names(chosenFiles)
    {
      filesList := [];
      var filenames := dialog(ChooseFilter);
      chosenFiles := filenames;
      UpdateFilesLabel();
      filesList := NewItems(Names(chosenFiles), nextId);
      nextId := nextId + |chosenFiles|;
      if chosenFiles != [] && IsPdf(chosenFiles[0].suffix) {
        convertText := JoinText;
        optimizeHidden := true;
      } else {
        convertText := ConvertText;
        optimizeHidden := false;
      }
    }

    /**
     * `addItem()`: with no file chosen it is `chooseFilesHandler`; otherwise the dialog opens
     * with the filter of the kind of the first file, and the files picked are appended to
     * the files and to the list. A first file of neither kind lets nothing be added.
     */
    method AddItem(dialog: string -> seq<FilePath>)
      requires Valid()
      modifies this
      ensures Valid()
      ensures old(chosenFiles) == [] ==> Shows(dialog(ChooseFilter), old(nextId))
      ensures old(chosenFiles) != [] && AddFilter(old(chosenFiles)[0].suffix).None? ==> unchanged(this)
      ensures old(chosenFiles) != [] && AddFilter(old(chosenFiles)[0].suffix).Some? ==>
                var picked := dialog(AddFilter(old(chosenFiles)[0].suffix).value);
                && chosenFiles == old(chosenFiles) + picked
                && filesList == old(filesList) + NewItems(Names(picked), old(nextId))
                && nextId == old(nextId) + |picked|
                && filesLabel == FilesLabel(chosenFiles)
                && convertText == old(convertText) && optimizeHidden == old(optimizeHidden)
      ensures old(chosenFiles) != [] && Labels(old(filesList)) == Names(old(chosenFiles)) ==>
                Labels(filesList) == Names(chosenFiles)
    {
      if chosenFiles == [] {
        ChooseFilesHandler(dialog);
        return;
      }
      var filtr := AddFilter(chosenFiles[0].suffix);
      if filtr.None? {
        return;
      }
      var filenames := dialog(filtr.value);
      ghost var files0, list0, id0 := chosenFiles, filesList, nextId;
      AppendFiles(filenames);
      UpdateFilesLabel();
      MapConcat(list0, NewItems(Names(filenames), id0), TextOf);
      MapConcat(files0, filenames, NameOf);
    }

    /** The loop of `addItem`: each picked file is appended to the files, and its name to the list. */
    method AppendFiles(filenames: seq<FilePath>)
      requires Valid()
      modifies this`chosenFiles, this`filesList, this`nextId
      ensures Valid()
      ensures chosenFiles == old(chosenFiles) + filenames
      ensures filesList == old(filesList) + NewItems(Names(filenames), old(nextId))
      ensures nextId == old(nextId) + |filenames|
    {
      ghost var files0, list0, id0 := chosenFiles, filesList, nextId;
      for k := 0 to |filenames|
        invariant chosenFiles == files0 + filenames[..k]
        invariant filesList == list0 + NewItems(Names(filenames[..k]), id0)
        invariant nextId == id0 + k
        invariant Valid()
      {
        var path := filenames[k];
        NewItemsSnoc(filenames, k, id0);
        chosenFiles := chosenFiles + [path];
        filesList := filesList + [Item(nextId, path.name)];
        nextId := nextId + 1;
        AppendValid(list0, NewItems(Names(filenames[..k + 1]), id0), id0, nextId);
      }
      assert filenames[..|filenames|] == filenames;
    }

    /**
     * `makePDF()`, given whether the custom-name box is ticked, the text typed as custom name,
     * the output directory (if one was chosen), the names of the files already in it and the
     * time stamp of the call. A failed check shows its message and leaves the files as they
     * are; otherwise the files are put in the order of the list and handed to the converter
     * of the first file's kind.
     */
    method MakePdf(hasCustomName: bool, customNameText: string, outputDir: Option<string>,
                   existing: set<string>, timestamp: string) returns (outcome: Outcome)
      modifies this`chosenFiles
      ensures var customName := Strip(customNameText);
              var failure := CheckRequest(|old(chosenFiles)|, outputDir, hasCustomName, customName, existing);
              && (failure.Some? ==> outcome == Failed(Message(failure.value)) && chosenFiles == old(chosenFiles))
              && (failure.None? ==>
                    && chosenFiles == Reordered(Labels(filesList), old(chosenFiles))
                    && chosenFiles != []
                    && outcome == Convert(chosenFiles,
                                          SavePath(outputDir.value, OutputFileName(hasCustomName, customName, timestamp))))
    {
      var customName := Strip(customNameText);
      if chosenFiles == [] {
        return Failed(Message(NoFilesSelected));
      } else if outputDir.None? {
        return Failed(Message(NoOutputDir));
      } else if hasCustomName && customName != [] && CustomFileName(customName) in existing {
        return Failed(Message(FileExists));
      }
      ghost var before := chosenFiles;
      OrderFiles();
      assert |chosenFiles| == |multiset(chosenFiles)| == |multiset(before)| == |before|;
      var filename := OutputFileName(hasCustomName, customName, timestamp);
      var savePath := SavePath(outputDir.value, filename);
      outcome := Convert(chosenFiles, savePath);
    }
  }
}
