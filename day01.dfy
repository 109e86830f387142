/** Day 1: two columns of location ids, compared by total distance between the
    sorted columns and by a similarity score. */
module Day01 {
  import opened Common
  import opened Sorting

  /** Entry `i` of every row, in row order (panics in the source on a short row). */
  function Column(input: seq<seq<int>>, i: nat): (c: seq<int>)
    requires forall r :: r in input ==> i < |r|
    ensures |c| == |input|
    ensures forall k :: 0 <= k < |input| ==> c[k] == input[k][i]
  {
    if input == [] then [] else [input[0][i]] + Column(input[1..], i)
  }

  /** `get_col`: column `i`, sorted ascending. */
  function GetCol(input: seq<seq<int>>, i: nat): (col: seq<int>)
    requires forall r :: r in input ==> i < |r|
    ensures Sorted(col)
    ensures multiset(col) == multiset(Column(input, i))
  {
    Sort(Column(input, i))
  }

  /** Any sorted arrangement of the column is the one `get_col` returns. */
  lemma GetColUnique(input: seq<seq<int>>, i: nat, c: seq<int>)
    requires forall r :: r in input ==> i < |r|
    requires Sorted(c) && multiset(c) == multiset(Column(input, i))
    ensures GetCol(input, i) == c
  {
    SortedUnique(GetCol(input, i), c);
  }

  /** `solve1`: the sum of `|x - y|` over the pairs of the two columns, stopping
      at the end of the shorter one. */
  function Solve1(col1: seq<int>, col2: seq<int>): (r: int)
    ensures r >= 0
  {
    if col1 == [] || col2 == [] then 0
    else Abs(col1[0] - col2[0]) + Solve1(col1[1..], col2[1..])
  }

  /** A column is at distance zero from itself. */
  lemma {:induction false} Solve1Same(col: seq<int>)
    ensures Solve1(col, col) == 0
  {
    if col != [] {
      Solve1Same(col[1..]);
    }
  }

  /** The distance is symmetric. */
  lemma {:induction false} Solve1Symmetric(col1: seq<int>, col2: seq<int>)
    ensures Solve1(col1, col2) == Solve1(col2, col1)
  {
    if col1 != [] && col2 != [] {
      Solve1Symmetric(col1[1..], col2[1..]);
    }
  }

  /** Elements beyond the length of the shorter column are ignored. */
  lemma {:induction false} Solve1Truncates(col1: seq<int>, col2: seq<int>, extra: seq<int>)
    requires |col1| <= |col2|
    ensures Solve1(col1, col2 + extra) == Solve1(col1, col2)
  {
    if col1 != [] {
      assert (col2 + extra)[1..] == col2[1..] + extra;
      Solve1Truncates(col1[1..], col2[1..], extra);
    }
  }

  /** The fold of `solve2` that counts how often each value occurs. */
  function Counts(s: seq<int>): (counts: map<int, nat>)
    ensures forall x :: x in counts <==> x in s
    ensures forall x :: x in counts ==> counts[x] == multiset(s)[x]
  {
    if s == [] then map[]
    else
      var init := s[..|s| - 1];
      var x := s[|s| - 1];
      assert s == init + [x];
      var acc := Counts(init);
      if x in acc then acc[x := acc[x] + 1] else acc[x := 1]
  }

  /** `counts.get(x).unwrap_or(0)`. */
  function Lookup(counts: map<int, nat>, x: int): nat
  {
    if x in counts then counts[x] else 0
  }

  function Score(col1: seq<int>, counts: map<int, nat>): int
  {
    if col1 == [] then 0 else col1[0] * Lookup(counts, col1[0]) + Score(col1[1..], counts)
  }

  /** `solve2`: each value of the first column times its count in the second. */
  function Solve2(col1: seq<int>, col2: seq<int>): int
  {
    Score(col1, Counts(col2))
  }

  /** The similarity score is a sum of occurrence counts, weighted by value. */
  function Similarity(col1: seq<int>, col2: seq<int>): int
  {
    if col1 == [] then 0
    else col1[0] * multiset(col2)[col1[0]] + Similarity(col1[1..], col2)
  }

  lemma {:induction false} ScoreIsSimilarity(col1: seq<int>, col2: seq<int>)
    ensures Score(col1, Counts(col2)) == Similarity(col1, col2)
  {
    if col1 != [] {
      ScoreIsSimilarity(col1[1..], col2);
    }
  }

  /** `solve2` equals the sum over the first column of `x` times the number of
      occurrences of `x` in the second column. */
  lemma Solve2Occurrences(col1: seq<int>, col2: seq<int>)
    ensures Solve2(col1, col2) == Similarity(col1, col2)
  {
    ScoreIsSimilarity(col1, col2);
  }

  /** A value missing from the second column adds nothing. */
  lemma Solve2Absent(x: int, col1: seq<int>, col2: seq<int>)
    requires x !in col2
    ensures Solve2([x] + col1, col2) == Solve2(col1, col2)
  {
    assert ([x] + col1)[1..] == col1;
  }
}
