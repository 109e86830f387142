/** A stand-in for the standard library's `sort` and `sort_by`: insertion of each
    element before the first one it is not `Greater` than. For a consistent
    comparator the result is the sorted permutation, which is unique, so it is
    what any correct sort returns. */
module Sorting {
  import opened Common

  /** `x` inserted before the first element of `s` that `cmp(x, _)` does not put
      after it. */
  function Insert<T>(x: T, s: seq<T>, cmp: (T, T) -> Ordering): (r: seq<T>)
    ensures multiset(r) == multiset(s) + multiset{x}
    ensures |r| == |s| + 1
  {
    if s == [] then [x]
    else if cmp(x, s[0]) == Greater then
      assert s == [s[0]] + s[1..];
      [s[0]] + Insert(x, s[1..], cmp)
    else [x] + s
  }

  /** `sort_by(cmp)`: always a permutation of its input, whatever `cmp` does. */
  function SortBy<T>(s: seq<T>, cmp: (T, T) -> Ordering): (r: seq<T>)
    ensures multiset(r) == multiset(s)
    ensures |r| == |s|
  {
    if s == [] then []
    else
      assert s == [s[0]] + s[1..];
      Insert(s[0], SortBy(s[1..], cmp), cmp)
  }

  predicate Sorted(s: seq<int>)
  {
    forall i, j :: 0 <= i < j < |s| ==> s[i] <= s[j]
  }

  /** `sort()` on integers: `sort_by` with the natural order. */
  function Sort(s: seq<int>): (r: seq<int>)
    ensures Sorted(r) && multiset(r) == multiset(s)
  {
    SortSorted(s);
    SortBy(s, CompareInt)
  }

  lemma {:induction false} InsertSorted(x: int, s: seq<int>)
    requires Sorted(s)
    ensures Sorted(Insert(x, s, CompareInt))
  {
    if s == [] {
    } else if x > s[0] {
      InsertSorted(x, s[1..]);
      var r := Insert(x, s[1..], CompareInt);
      assert r[0] == x || r[0] == s[1];
      SortedCons(s[0], r);
    } else {
      SortedCons(x, s);
    }
  }

  lemma SortedCons(h: int, r: seq<int>)
    requires Sorted(r) && (r == [] || h <= r[0])
    ensures Sorted([h] + r)
  {
  }

  lemma {:induction false} SortSorted(s: seq<int>)
    ensures Sorted(SortBy(s, CompareInt))
  {
    if s != [] {
      SortSorted(s[1..]);
      InsertSorted(s[0], SortBy(s[1..], CompareInt));
    }
  }

  /** The first element of a non-empty sorted sequence is its least element. */
  lemma SortedHead(a: seq<int>, x: int)
    requires Sorted(a) && x in multiset(a)
    ensures a[0] <= x
  {
    assert x in a;
    var i :| 0 <= i < |a| && a[i] == x;
  }

  /** Two sorted sequences with the same elements are equal: sorting has one answer. */
  lemma {:induction false} SortedUnique(a: seq<int>, b: seq<int>)
    requires Sorted(a) && Sorted(b) && multiset(a) == multiset(b)
    ensures a == b
    decreases |a|
  {
    if a != [] {
      HeadsEqual(a, b);
      TailMultiset(a);
      TailMultiset(b);
      SortedTail(a);
      SortedTail(b);
      SortedUnique(a[1..], b[1..]);
      assert a == [a[0]] + a[1..] && b == [b[0]] + b[1..];
    } else {
      assert |multiset(b)| == |b|;
    }
  }

  lemma HeadsEqual(a: seq<int>, b: seq<int>)
    requires Sorted(a) && Sorted(b) && multiset(a) == multiset(b) && a != []
    ensures b != [] && a[0] == b[0]
  {
    assert a[0] in multiset(b);
    SortedHead(b, a[0]);
    SortedHead(a, b[0]);
  }

  lemma TailMultiset(a: seq<int>)
    requires a != []
    ensures multiset(a[1..]) == multiset(a) - multiset{a[0]}
  {
    assert a == [a[0]] + a[1..];
  }

  lemma SortedTail(a: seq<int>)
    requires Sorted(a) && a != []
    ensures Sorted(a[1..])
  {
  }
}
