/** Generic operations on sequences used by the list models. */
module Seqs {

  /** `list(map(f, s))`. */
  function Map<T, U>(s: seq<T>, f: T -> U): (r: seq<U>)
    ensures |r| == |s| && forall k :: 0 <= k < |s| ==> r[k] == f(s[k])
  {
    seq(|s|, k requires 0 <= k < |s| => f(s[k]))
  }

  lemma MapConcat<T, U>(a: seq<T>, b: seq<T>, f: T -> U)
    ensures Map(a + b, f) == Map(a, f) + Map(b, f)
  {
  }

  /** Mapping two permutations of each other gives two permutations of each other. */
  lemma {:induction false} MapMultiset<T, U>(a: seq<T>, b: seq<T>, f: T -> U)
    requires multiset(a) == multiset(b)
    ensures multiset(Map(a, f)) == multiset(Map(b, f))
    decreases |a|
  {
    if a != [] {
      var x := a[0];
      assert x in multiset(b);
      var p :| 0 <= p < |b| && b[p] == x;
      var a', b' := Take(a, 0), Take(b, p);
      TakeMatching(a, b, 0, p);
      MapMultiset(a', b', f);
      MapTake(a, 0, f);
      MapTake(b, p, f);
      assert Map(a, f)[0] == f(x) && Map(b, f)[p] == f(x);
    }
  }

  /** Taking one occurrence of an element out of two permutations leaves two permutations. */
  lemma TakeMatching<T>(a: seq<T>, b: seq<T>, i: nat, j: nat)
    requires multiset(a) == multiset(b) && i < |a| && j < |b| && a[i] == b[j]
    ensures multiset(Take(a, i)) == multiset(Take(b, j))
  {
    var x := a[i];
    assert multiset(Take(a, i)) == (multiset(Take(a, i)) + multiset{x}) - multiset{x} == multiset(a) - multiset{x};
    assert multiset(Take(b, j)) == (multiset(Take(b, j)) + multiset{x}) - multiset{x} == multiset(b) - multiset{x};
  }

  /** Mapping after taking out a row is taking the row out after mapping. */
  lemma MapTake<T, U>(s: seq<T>, row: nat, f: T -> U)
    requires row < |s|
    ensures Map(Take(s, row), f) == Take(Map(s, f), row)
  {
  }

  /** Swapping two elements gives a permutation. */
  lemma SwapPermutation<T>(s: seq<T>, i: nat, j: nat)
    requires i < j < |s|
    ensures multiset(s[i := s[j]][j := s[i]]) == multiset(s)
  {
    var t := s[i := s[j]][j := s[i]];
    var a, b, c := s[..i], s[i + 1..j], s[j + 1..];
    assert s == a + [s[i]] + b + [s[j]] + c;
    assert t == a + [s[j]] + b + [s[i]] + c;
    calc {
      multiset(t);
      multiset(a) + multiset{s[j]} + multiset(b) + multiset{s[i]} + multiset(c);
      multiset(a) + multiset{s[i]} + multiset(b) + multiset{s[j]} + multiset(c);
      multiset(s);
    }
  }

  /** `s` with the adjacent pieces `s[i..j]` and `s[j..k]` swapped. */
  function Swapped<T>(s: seq<T>, i: nat, j: nat, k: nat): (r: seq<T>)
    requires i <= j <= k <= |s|
    ensures |r| == |s|
    ensures forall q :: 0 <= q < |s| ==> r[q] == if q < i then s[q]
                                             else if q < i + (k - j) then s[q + j - i]
                                             else if q < k then s[q - (k - j)]
                                             else s[q]
  {
    seq(|s|, q requires 0 <= q < |s| =>
      if q < i then s[q]
      else if q < i + (k - j) then s[q + j - i]
      else if q < k then s[q - (k - j)]
      else s[q])
  }

  /** A sequence is its three pieces cut at `i` and `j`. */
  lemma Cut<T>(s: seq<T>, i: nat, j: nat)
    requires i <= j <= |s|
    ensures s == s[..i] + s[i..j] + s[j..]
    ensures s[..i] + s[i..j] == s[..j]
    ensures s[i..j] + s[j..] == s[i..]
  {
  }

  /** A swap is the four pieces put back together in the new order, grouped either way. */
  lemma SwappedGroups<T>(s: seq<T>, i: nat, j: nat, k: nat)
    requires i <= j <= k <= |s|
    ensures Swapped(s, i, j, k) == (s[..i] + s[j..k]) + s[i..j] + s[k..]
    ensures Swapped(s, i, j, k) == s[..i] + s[j..k] + (s[i..j] + s[k..])
  {
    var r := Swapped(s, i, j, k);
    var c := s[..i] + s[j..k] + s[i..j] + s[k..];
    assert |c| == |r|;
    forall q | 0 <= q < |r|
      ensures r[q] == c[q]
    {
      if q < i {
      } else if q < i + (k - j) {
        assert c[q] == s[j..k][q - i];
      } else if q < k {
        assert c[q] == s[i..j][q - i - (k - j)];
      } else {
        assert c[q] == s[k..][q - k];
      }
    }
  }

  /** Swapping two pieces gives a permutation. */
  lemma SwappedPermutation<T>(s: seq<T>, i: nat, j: nat, k: nat)
    requires i <= j <= k <= |s|
    ensures multiset(Swapped(s, i, j, k)) == multiset(s)
  {
    SwappedGroups(s, i, j, k);
    assert s == s[..i] + s[i..j] + s[j..k] + s[k..];
  }

  /** An element in two places occurs at least twice. */
  lemma CountedTwice<T>(t: seq<T>, i: nat, j: nat)
    requires i < j < |t| && t[i] == t[j]
    ensures multiset(t)[t[i]] >= 2
  {
    var x := t[i];
    var a, b, c := t[..i], t[i + 1..j], t[j + 1..];
    assert t == a + [x] + b + [x] + c;
    assert multiset(t) == multiset(a) + multiset{x} + multiset(b) + multiset{x} + multiset(c);
  }

  /** Leaving out one place removes one occurrence of its element. */
  lemma CountedWithout<T>(s: seq<T>, p: nat)
    requires p < |s|
    ensures multiset(s[..p] + s[p + 1..]) == multiset(s) - multiset{s[p]}
  {
    assert s == s[..p] + [s[p]] + s[p + 1..];
  }

  /** An element twice in one of two permutations is twice in the other. */
  lemma RepeatedPermutation<T>(s: seq<T>, t: seq<T>, i: nat, j: nat)
    requires multiset(s) == multiset(t) && i < j < |t| && t[i] == t[j]
    ensures exists p, q :: 0 <= p < q < |s| && s[p] == t[i] && s[q] == t[i]
  {
    var x := t[i];
    CountedTwice(t, i, j);
    assert x in multiset(s);
    var p :| 0 <= p < |s| && s[p] == x;
    var rest := s[..p] + s[p + 1..];
    CountedWithout(s, p);
    assert multiset(rest)[x] >= 1;
    var q :| 0 <= q < |rest| && rest[q] == x;
    if q < p {
      assert s[q] == x;
    } else {
      assert s[q + 1] == x;
    }
  }

  /** `takeItem(row)` on a list: the list without that row; the rows below it move up by one. */
  function Take<T>(s: seq<T>, row: nat): (r: seq<T>)
    requires row < |s|
    ensures |r| == |s| - 1
    ensures forall q :: 0 <= q < row ==> r[q] == s[q]
    ensures forall q :: row <= q < |r| ==> r[q] == s[q + 1]
    ensures multiset(r) + multiset{s[row]} == multiset(s)
  {
    assert s == s[..row] + [s[row]] + s[row + 1..];
    s[..row] + s[row + 1..]
  }

  /** `insertItem(row, x)` on a list: `x` at `row`; the rows from `row` on move down by one. */
  function Insert<T>(s: seq<T>, row: nat, x: T): (r: seq<T>)
    requires row <= |s|
    ensures |r| == |s| + 1 && r[row] == x
    ensures forall q :: 0 <= q < row ==> r[q] == s[q]
    ensures forall q :: row < q < |r| ==> r[q] == s[q - 1]
    ensures multiset(r) == multiset(s) + multiset{x}
  {
    assert s == s[..row] + s[row..];
    s[..row] + [x] + s[row..]
  }

  function Reversed<T>(s: seq<T>): (r: seq<T>)
    ensures |r| == |s| && forall k :: 0 <= k < |s| ==> r[k] == s[|s| - 1 - k]
  {
    seq(|s|, k requires 0 <= k < |s| => s[|s| - 1 - k])
  }
}
