/** Sequence helpers shared by the aggregation stages: grouping by key,
    distinct values (pandas `nunique`) and sorting (used by the percentile). */
module Seqs {

  datatype Option<T> = None | Some(value: T)

  predicate NoDup<T(==)>(s: seq<T>) {
    forall i, j :: 0 <= i < j < |s| ==> s[i] != s[j]
  }

  /** The positions of `s` that hold `a`, in increasing order: the row index
      of one group of a `groupby` on the key column `s`. */
  function IndicesOf<T(==)>(s: seq<T>, a: T): (r: seq<nat>)
    ensures forall k :: 0 <= k < |r| ==> r[k] < |s| && s[r[k]] == a
    ensures forall j :: j in r <==> 0 <= j < |s| && s[j] == a
    ensures forall k, l :: 0 <= k < l < |r| ==> r[k] < r[l]
    ensures |r| <= |s|
  {
    if s == [] then []
    else
      var r := IndicesOf(s[..|s| - 1], a);
      if s[|s| - 1] == a then r + [|s| - 1] else r
  }

  /** The positions of `s` that hold `a`, as a set. */
  function Positions<T(==)>(s: seq<T>, a: T): set<int> {
    set j | 0 <= j < |s| && s[j] == a
  }

  /** A group has one index per position holding its key. */
  lemma IndicesCount<T>(s: seq<T>, a: T)
    ensures |IndicesOf(s, a)| == |Positions(s, a)|
  {
    var r: seq<int> := IndicesOf(s, a);
    assert NoDup(r);
    NoDupCard(r);
    assert (set x | x in r) == Positions(s, a);
  }

  /** Extending a prefix by one element. */
  lemma PrefixMembership<T>(s: seq<T>, g: int)
    requires 0 <= g < |s|
    ensures forall x :: x in s[..g + 1] <==> x in s[..g] || x == s[g]
  {
    assert s[..g + 1] == s[..g] + [s[g]];
  }

  /** The distinct values of `s`, each kept where it first occurs. */
  function Dedup<T(==,!new)>(s: seq<T>): (r: seq<T>)
    ensures NoDup(r)
    ensures forall x :: x in r <==> x in s
    ensures |r| <= |s|
  {
    if s == [] then []
    else
      var r := Dedup(s[..|s| - 1]);
      assert forall x :: x in s <==> x in s[..|s| - 1] || x == s[|s| - 1];
      if s[|s| - 1] in r then r else r + [s[|s| - 1]]
  }

  /** A duplicate-free sequence has as many elements as its set of values. */
  lemma {:induction false} NoDupCard<T>(s: seq<T>)
    requires NoDup(s)
    ensures |set x | x in s| == |s|
  {
    if s != [] {
      var p := s[..|s| - 1];
      NoDupCard(p);
      assert (set x | x in s) == (set x | x in p) + {s[|s| - 1]};
      assert s[|s| - 1] !in p;
    }
  }

  /** `Dedup` counts distinct values, as pandas `nunique` does. */
  lemma DedupCountsDistinct<T(!new)>(s: seq<T>)
    ensures |Dedup(s)| == |set x | x in s|
  {
    NoDupCard(Dedup(s));
    assert (set x | x in Dedup(s)) == (set x | x in s);
  }

  predicate Sorted(s: seq<int>) {
    forall i, j :: 0 <= i < j < |s| ==> s[i] <= s[j]
  }

  function Insert(x: int, s: seq<int>): (r: seq<int>)
    requires Sorted(s)
    ensures Sorted(r)
    ensures multiset(r) == multiset(s) + multiset{x}
    ensures |r| == |s| + 1 && (r[0] == x || (s != [] && r[0] == s[0]))
  {
    if s == [] || x <= s[0] then [x] + s
    else
      var t := Insert(x, s[1..]);
      assert s == [s[0]] + s[1..];
      assert forall k :: 0 <= k < |t| ==> t[0] <= t[k];
      [s[0]] + t
  }

  /** Ascending sort of integers (numpy sorts before interpolating). */
  function Sort(s: seq<int>): (r: seq<int>)
    ensures Sorted(r)
    ensures multiset(r) == multiset(s) && |r| == |s|
  {
    if s == [] then []
    else
      assert s == [s[0]] + s[1..];
      Insert(s[0], Sort(s[1..]))
  }

  /** A sorted sequence is determined by its multiset of elements. */
  lemma {:induction false} SortedUnique(a: seq<int>, b: seq<int>)
    requires Sorted(a) && Sorted(b) && multiset(a) == multiset(b)
    ensures a == b
    decreases |a|
  {
    if a == [] {
      assert |b| == |multiset(b)| == 0;
    } else {
      var ta, tb := SortedSplit(a, b);
      SortedUnique(ta, tb);
    }
  }

  /** Two sorted sequences with the same elements start alike, and what
      follows is again sorted with the same elements. */
  lemma SortedSplit(a: seq<int>, b: seq<int>) returns (ta: seq<int>, tb: seq<int>)
    requires Sorted(a) && Sorted(b) && multiset(a) == multiset(b) && a != []
    ensures a == [a[0]] + ta && b == [a[0]] + tb && |ta| < |a|
    ensures Sorted(ta) && Sorted(tb) && multiset(ta) == multiset(tb)
  {
    assert b != [] by { assert a[0] in multiset(b); }
    SortedHeadIsLeast(b, a[0]);
    SortedHeadIsLeast(a, b[0]);
    assert a[0] == b[0];
    SortedTail(a);
    SortedTail(b);
    ta, tb := a[1..], b[1..];
    assert multiset(ta) == multiset(a) - multiset{a[0]};
    assert multiset(tb) == multiset(b) - multiset{b[0]};
  }

  lemma SortedTail(s: seq<int>)
    requires Sorted(s) && s != []
    ensures Sorted(s[1..])
    ensures multiset(s[1..]) == multiset(s) - multiset{s[0]}
    ensures s == [s[0]] + s[1..]
  {
    assert s == [s[0]] + s[1..];
  }

  lemma SortedHeadIsLeast(s: seq<int>, x: int)
    requires Sorted(s) && x in multiset(s)
    ensures s[0] <= x
  {
    var j :| 0 <= j < |s| && s[j] == x;
    assert j == 0 || s[0] <= s[j];
  }

  /** Sorting does not depend on the order of its input. */
  lemma SortPermutation(s: seq<int>, t: seq<int>)
    requires multiset(s) == multiset(t)
    ensures Sort(s) == Sort(t)
  {
    SortedUnique(Sort(s), Sort(t));
  }

  /** The first element of a sorted permutation is a lower bound of the input. */
  lemma SortedFirstIsMinimum(s: seq<int>, c: int)
    requires c in s
    ensures |Sort(s)| == |s| && Sort(s)[0] <= c
  {
    var r := Sort(s);
    assert |r| == |multiset(r)| == |multiset(s)| == |s|;
    assert c in multiset(r);
    var j :| 0 <= j < |r| && r[j] == c;
  }

  /** A lower bound of every element bounds every element of the sorted copy. */
  lemma SortedLowerBound(s: seq<int>, c: int, j: int)
    requires forall k :: 0 <= k < |s| ==> c <= s[k]
    requires 0 <= j < |s|
    ensures c <= Sort(s)[j]
  {
    var r := Sort(s);
    assert r[j] in multiset(s);
  }
}
