/**
 * The display list (a `QListWidget`) as a sequence of rows, and the list operations the
 * file-selection logic is built from: taking a row out, inserting one, keeping the rows whose
 * item is not in a given set, and the sorted row numbers of a selection.
 */
module ListWidget {
  import opened Seqs

  /**
   * One row of the list widget. `id` stands for the identity of the `QListWidgetItem`
   * object shown there and `text` for its text (a file name).
   */
  datatype Item = Item(id: nat, text: string)

  /** No widget item is shown in two rows. */
  predicate DistinctIds(s: seq<Item>) {
    forall i, j :: 0 <= i < j < |s| ==> s[i].id != s[j].id
  }

  function TextOf(x: Item): string {
    x.text
  }

  /** The texts of the rows, top to bottom. */
  function Labels(s: seq<Item>): seq<string> {
    Map(s, TextOf)
  }

  /** Reordering the rows reorders their texts. */
  lemma LabelsPermutation(a: seq<Item>, b: seq<Item>)
    requires multiset(a) == multiset(b)
    ensures multiset(Labels(a)) == multiset(Labels(b))
  {
    MapMultiset(a, b, TextOf);
  }

  /** The rows of `s` whose item is not one of `ids`, in their order in `s`. */
  function Keep(s: seq<Item>, ids: set<nat>): (r: seq<Item>)
    ensures |r| <= |s|
  {
    if s == [] then []
    else if s[0].id in ids then Keep(s[1..], ids)
    else [s[0]] + Keep(s[1..], ids)
  }

  /** The rows kept are exactly the rows whose item is not one of `ids`. */
  lemma {:induction false} KeepMembers(s: seq<Item>, ids: set<nat>)
    ensures forall x :: x in Keep(s, ids) <==> x in s && x.id !in ids
  {
    if s != [] {
      KeepMembers(s[1..], ids);
      assert s == [s[0]] + s[1..];
    }
  }

  /** Keeping rows works piece by piece: the kept rows of `a` come before those of `b`. */
  lemma {:induction false} KeepConcat(a: seq<Item>, b: seq<Item>, ids: set<nat>)
    ensures Keep(a + b, ids) == Keep(a, ids) + Keep(b, ids)
  {
    if a == [] {
      assert a + b == b;
    } else {
      assert (a + b)[1..] == a[1..] + b;
      KeepConcat(a[1..], b, ids);
    }
  }

  /** Filtering by `ids` and then by `more` is filtering by both. */
  lemma {:induction false} KeepMore(s: seq<Item>, ids: set<nat>, more: set<nat>)
    ensures Keep(s, ids + more) == Keep(Keep(s, ids), more)
  {
    if s != [] {
      KeepMore(s[1..], ids, more);
      if s[0].id !in ids {
        assert ([s[0]] + Keep(s[1..], ids))[1..] == Keep(s[1..], ids);
      }
    }
  }

  /** Rows none of whose items is in `ids` are all kept. */
  lemma {:induction false} KeepAll(s: seq<Item>, ids: set<nat>)
    requires forall k :: 0 <= k < |s| ==> s[k].id !in ids
    ensures Keep(s, ids) == s
  {
    if s != [] {
      KeepAll(s[1..], ids);
    }
  }

  /** Keeping a single row gives that row or nothing. */
  lemma KeepSingle(x: Item, ids: set<nat>)
    ensures Keep([x], ids) == if x.id in ids then [] else [x]
  {
    assert [x][1..] == [];
  }

  /** An item that is filtered away can be left out anywhere. */
  lemma KeepSkip(a: seq<Item>, x: Item, b: seq<Item>, ids: set<nat>)
    requires x.id in ids
    ensures Keep(a + [x] + b, ids) == Keep(a + b, ids)
  {
    KeepConcat(a + [x], b, ids);
    KeepConcat(a, [x], ids);
    KeepSingle(x, ids);
    KeepConcat(a, b, ids);
  }

  /** Taking out a row whose item is filtered away does not change what is kept. */
  lemma KeepTake(s: seq<Item>, row: nat, ids: set<nat>)
    requires row < |s| && s[row].id in ids
    ensures Keep(Take(s, row), ids) == Keep(s, ids)
  {
    assert s == s[..row] + [s[row]] + s[row + 1..];
    KeepSkip(s[..row], s[row], s[row + 1..], ids);
  }

  /** Inserting an item that is filtered away does not change what is kept. */
  lemma KeepInsert(s: seq<Item>, row: nat, x: Item, ids: set<nat>)
    requires row <= |s| && x.id in ids
    ensures Keep(Insert(s, row, x), ids) == Keep(s, ids)
  {
    assert s == s[..row] + s[row..];
    KeepSkip(s[..row], x, s[row..], ids);
  }

  /** Keeping rows never puts one item in two rows. */
  lemma {:induction false} KeepDistinct(s: seq<Item>, ids: set<nat>)
    requires DistinctIds(s)
    ensures DistinctIds(Keep(s, ids))
  {
    if s != [] {
      KeepDistinct(s[1..], ids);
      if s[0].id !in ids {
        var rest := Keep(s[1..], ids);
        KeepMembers(s[1..], ids);
        forall k | 0 <= k < |rest|
          ensures rest[k].id != s[0].id
        {
          assert rest[k] in s[1..];
        }
      }
    }
  }

  /** With every item in one row, dropping the item of row `row` is taking out that row. */
  lemma KeepOne(s: seq<Item>, row: nat)
    requires DistinctIds(s) && row < |s|
    ensures Keep(s, {s[row].id}) == Take(s, row)
  {
    var ids := {s[row].id};
    var t := Take(s, row);
    KeepTake(s, row, ids);
    forall k | 0 <= k < |t|
      ensures t[k].id !in ids
    {
      if k < row {
        assert t[k] == s[k];
      } else {
        assert t[k] == s[k + 1];
      }
    }
    KeepAll(t, ids);
  }

  /** A permutation of items all created before `bound` holds only such items. */
  lemma BelowPermutation(s: seq<Item>, t: seq<Item>, bound: nat)
    requires multiset(s) == multiset(t)
    requires forall k :: 0 <= k < |s| ==> s[k].id < bound
    ensures forall k :: 0 <= k < |t| ==> t[k].id < bound
  {
    forall k | 0 <= k < |t|
      ensures t[k].id < bound
    {
      assert t[k] in multiset(s);
    }
  }

  /** A reordering of rows never puts one item in two rows. */
  lemma DistinctPermutation(s: seq<Item>, t: seq<Item>)
    requires DistinctIds(s) && multiset(s) == multiset(t)
    ensures DistinctIds(t)
  {
    forall i, j | 0 <= i < j < |t|
      ensures t[i].id != t[j].id
    {
      if t[i].id == t[j].id {
        DistinctTwice(s, t, i, j);
      }
    }
  }

  /** Two rows of `t` with one item are two rows of `s` with one item. */
  lemma DistinctTwice(s: seq<Item>, t: seq<Item>, i: nat, j: nat)
    requires multiset(s) == multiset(t) && i < j < |t| && t[i].id == t[j].id
    ensures !DistinctIds(s)
  {
    if t[i] == t[j] {
      RepeatedPermutation(s, t, i, j);
    } else {
      assert t[i] in multiset(s) && t[j] in multiset(s);
      var p :| 0 <= p < |s| && s[p] == t[i];
      var q :| 0 <= q < |s| && s[q] == t[j];
      assert p != q;
    }
  }

  /** `row(item)`: the row that shows the item. */
  function RowOf(s: seq<Item>, id: nat): (r: nat)
    requires exists k :: 0 <= k < |s| && s[k].id == id
    ensures r < |s| && s[r].id == id
  {
    if s[0].id == id then 0
    else
      assert forall k :: 1 <= k < |s| ==> s[1..][k - 1] == s[k];
      1 + RowOf(s[1..], id)
  }

  /** Fresh items for the texts `texts`, numbered from `firstId` on (`addItems`). */
  function NewItems(texts: seq<string>, firstId: nat): (r: seq<Item>)
    ensures Labels(r) == texts
    ensures DistinctIds(r)
    ensures forall k :: 0 <= k < |r| ==> firstId <= r[k].id < firstId + |texts|
  {
    seq(|texts|, k requires 0 <= k < |texts| => Item(firstId + k, texts[k]))
  }

  /** The items shown in the selected rows. */
  function SelectedIds(s: seq<Item>, sel: set<nat>): set<nat> {
    set r | r in sel && r < |s| :: s[r].id
  }

  /** The labels shown in the selected rows. */
  function SelectedLabels(s: seq<Item>, sel: set<nat>): set<string> {
    set r | r in sel && r < |s| :: s[r].text
  }

  /** The items shown in the rows `rows`, in that order. */
  function RowItems(s: seq<Item>, rows: seq<nat>): (items: seq<Item>)
    requires forall k :: 0 <= k < |rows| ==> rows[k] < |s|
    ensures |items| == |rows| && forall k :: 0 <= k < |rows| ==> items[k] == s[rows[k]]
  {
    seq(|rows|, k requires 0 <= k < |rows| => s[rows[k]])
  }

  /** The items of a sequence of rows. */
  function IdsIn(items: seq<Item>): set<nat> {
    set x | x in items :: x.id
  }

  /** The rows of `sel` from `lo` up to, not including, `n`, smallest first. */
  function Ascending(sel: set<nat>, lo: nat, n: nat): (rows: seq<nat>)
    requires lo <= n
    decreases n - lo
    ensures |rows| <= n - lo
    ensures forall k :: 0 <= k < |rows| ==> rows[k] in sel && lo + k <= rows[k] && rows[k] + (|rows| - k) <= n
    ensures forall a, b :: 0 <= a < b < |rows| ==> rows[a] < rows[b]
    ensures forall r :: r in sel && lo <= r < n ==> r in rows
  {
    if lo == n then [] else (if lo in sel then [lo] else []) + Ascending(sel, lo + 1, n)
  }

  /** Reversing an ascending run of rows below `n` gives a descending one with the same rows. */
  lemma ReversedAscending(asc: seq<nat>, n: nat)
    requires forall k :: 0 <= k < |asc| ==> asc[k] + (|asc| - k) <= n
    ensures forall k :: 0 <= k < |asc| ==> Reversed(asc)[k] + k < n
    ensures forall r :: r in asc ==> r in Reversed(asc)
  {
    var rows := Reversed(asc);
    forall k | 0 <= k < |asc| ensures rows[k] + k < n {
      assert rows[k] == asc[|asc| - 1 - k];
    }
    forall r | r in asc ensures r in rows {
      var j :| 0 <= j < |asc| && asc[j] == r;
      assert rows[|asc| - 1 - j] == r;
    }
  }

  /**
   * `rows.sort(reverse=down)` on the row numbers of a selection in a list of `n` rows: each
   * selected row once, in increasing order, or in decreasing order when `down`. The bounds
   * on `rows[k]` say that a strictly monotone sequence of rows below `n` leaves room for
   * the rows before it.
   */
  function SortedRows(sel: set<nat>, n: nat, down: bool): (rows: seq<nat>)
    ensures forall k :: 0 <= k < |rows| ==> rows[k] in sel && rows[k] < n
    ensures forall r :: r in sel && r < n ==> r in rows
    ensures down ==> forall a, b :: 0 <= a < b < |rows| ==> rows[a] > rows[b]
    ensures !down ==> forall a, b :: 0 <= a < b < |rows| ==> rows[a] < rows[b]
    ensures down ==> forall k :: 0 <= k < |rows| ==> rows[k] + k < n
    ensures !down ==> forall k :: 0 <= k < |rows| ==> k <= rows[k]
    ensures |rows| <= n
  {
    var asc := Ascending(sel, 0, n);
    if down then ReversedAscending(asc, n); Reversed(asc) else asc
  }
}
