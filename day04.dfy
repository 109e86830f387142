/** Day 4: occurrences of XMAS in a letter grid, in any of the eight directions. */
module Day04 {
  type Direction = (int, int)

  /** The nine offsets of `{-1, 0, 1}²`, row offset first, in the order of the
      two nested ranges. */
  function AllOffsets(): (r: seq<Direction>)
    ensures |r| == 9
  {
    seq(9, k requires 0 <= k < 9 => (k / 3 - 1, k % 3 - 1))
  }

  function RemoveZero(s: seq<Direction>): (r: seq<Direction>)
    ensures forall d :: d in r <==> d in s && d != (0, 0)
    ensures |r| <= |s|
  {
    if s == [] then []
    else (if s[0] != (0, 0) then [s[0]] else []) + RemoveZero(s[1..])
  }

  /** `get_directions`: the eight non-zero offsets. */
  function GetDirections(): (r: seq<Direction>)
    ensures forall d :: d in r <==> d != (0, 0) && Unit(d)
  {
    var all := AllOffsets();
    assert forall d: Direction :: d in all <==> -1 <= d.0 <= 1 && -1 <= d.1 <= 1 by {
      forall d: Direction | -1 <= d.0 <= 1 && -1 <= d.1 <= 1
        ensures d in all
      {
        var k := (d.0 + 1) * 3 + (d.1 + 1);
        assert all[k] == d;
      }
    }
    RemoveZero(all)
  }

  /** There are exactly eight directions, none repeated. */
  lemma DirectionCount()
    ensures |GetDirections()| == 8
    ensures forall i, j :: 0 <= i < j < |GetDirections()| ==> GetDirections()[i] != GetDirections()[j]
  {
    var all := AllOffsets();
    assert all == [(-1, -1), (-1, 0), (-1, 1), (0, -1), (0, 0), (0, 1), (1, -1), (1, 0), (1, 1)];
    assert GetDirections() == [(-1, -1), (-1, 0), (-1, 1), (0, -1), (0, 1), (1, -1), (1, 0), (1, 1)];
  }

  /** What `solve` demands of the grid: a first row, whose length every row
      has at least, so that indexing below `ncols` is in bounds. */
  predicate WellFormed(input: seq<seq<char>>)
  {
    input != [] && forall r :: 0 <= r < |input| ==> |input[r]| >= |input[0]|
  }

  /** The condition of the filter: an `X` at `(r, c)`, the last letter still
      inside the grid, then `M`, `A`, `S` along the direction. The bounds are
      checked before any cell past the first is read; for a unit offset they
      cover the middle two cells as well. */
  predicate Matches(input: seq<seq<char>>, r: int, c: int, d: Direction)
    requires WellFormed(input)
    requires 0 <= r < |input| && 0 <= c < |input[0]| && Unit(d)
  {
    var nrows, ncols := |input|, |input[0]|;
    input[r][c] == 'X'
    && 0 <= r + 3 * d.0 < nrows && 0 <= c + 3 * d.1 < ncols
    && input[r + d.0][c + d.1] == 'M'
    && input[r + 2 * d.0][c + 2 * d.1] == 'A'
    && input[r + 3 * d.0][c + 3 * d.1] == 'S'
  }

  predicate Unit(d: Direction)
  {
    -1 <= d.0 <= 1 && -1 <= d.1 <= 1
  }

  function CountDirections(input: seq<seq<char>>, r: int, c: int, dirs: seq<Direction>): (n: nat)
    requires WellFormed(input)
    requires 0 <= r < |input| && 0 <= c < |input[0]|
    requires forall i :: 0 <= i < |dirs| ==> Unit(dirs[i])
    ensures n <= |dirs|
  {
    if dirs == [] then 0
    else (if Matches(input, r, c, dirs[0]) then 1 else 0) + CountDirections(input, r, c, dirs[1..])
  }

  function CountRow(input: seq<seq<char>>, r: int, c: nat): (n: nat)
    requires WellFormed(input)
    requires 0 <= r < |input| && c <= |input[0]|
    decreases |input[0]| - c
  {
    if c == |input[0]| then 0
    else CountDirections(input, r, c, GetDirections()) + CountRow(input, r, c + 1)
  }

  function CountRows(input: seq<seq<char>>, r: nat): nat
    requires WellFormed(input) && r <= |input|
    decreases |input| - r
  {
    if r == |input| then 0 else CountRow(input, r, 0) + CountRows(input, r + 1)
  }

  /** `solve`: the number of (row, column, direction) triples that spell XMAS. */
  function Solve(input: seq<seq<char>>): nat
    requires WellFormed(input)
  {
    CountRows(input, 0)
  }

  lemma {:induction false} CountRowBound(input: seq<seq<char>>, r: int, c: nat)
    requires WellFormed(input)
    requires 0 <= r < |input| && c <= |input[0]|
    ensures CountRow(input, r, c) <= 8 * (|input[0]| - c)
    decreases |input[0]| - c
  {
    if c < |input[0]| {
      DirectionCount();
      CountRowBound(input, r, c + 1);
    }
  }

  lemma {:induction false} CountRowsBound(input: seq<seq<char>>, r: nat)
    requires WellFormed(input) && r <= |input|
    ensures CountRows(input, r) <= 8 * (|input| - r) * |input[0]|
    decreases |input| - r
  {
    if r < |input| {
      CountRowBound(input, r, 0);
      CountRowsBound(input, r + 1);
      assert 8 * (|input| - r) * |input[0]| == 8 * |input[0]| + 8 * (|input| - (r + 1)) * |input[0]|;
    }
  }

  /** At most one match per cell and direction. */
  lemma SolveBound(input: seq<seq<char>>)
    requires WellFormed(input)
    ensures Solve(input) <= 8 * |input| * |input[0]|
  {
    CountRowsBound(input, 0);
  }

  /** Every match starts on an X. */
  predicate NoX(input: seq<seq<char>>)
    requires WellFormed(input)
  {
    forall r, c :: 0 <= r < |input| && 0 <= c < |input[0]| ==> input[r][c] != 'X'
  }

  lemma {:induction false} NoXDirections(input: seq<seq<char>>, r: int, c: int, dirs: seq<Direction>)
    requires WellFormed(input) && NoX(input)
    requires 0 <= r < |input| && 0 <= c < |input[0]|
    requires forall i :: 0 <= i < |dirs| ==> Unit(dirs[i])
    ensures CountDirections(input, r, c, dirs) == 0
  {
    if dirs != [] {
      NoXDirections(input, r, c, dirs[1..]);
    }
  }

  lemma {:induction false} NoXRow(input: seq<seq<char>>, r: int, c: nat)
    requires WellFormed(input) && NoX(input)
    requires 0 <= r < |input| && c <= |input[0]|
    ensures CountRow(input, r, c) == 0
    decreases |input[0]| - c
  {
    if c < |input[0]| {
      NoXDirections(input, r, c, GetDirections());
      NoXRow(input, r, c + 1);
    }
  }

  lemma {:induction false} NoXRows(input: seq<seq<char>>, r: nat)
    requires WellFormed(input) && NoX(input) && r <= |input|
    ensures CountRows(input, r) == 0
    decreases |input| - r
  {
    if r < |input| {
      NoXRow(input, r, 0);
      NoXRows(input, r + 1);
    }
  }

  /** A grid with no X has no occurrence. */
  lemma NoXNoMatch(input: seq<seq<char>>)
    requires WellFormed(input) && NoX(input)
    ensures Solve(input) == 0
  {
    NoXRows(input, 0);
  }

  lemma {:induction false} FoundInDirections(input: seq<seq<char>>, r: int, c: int, dirs: seq<Direction>, k: nat)
    requires WellFormed(input)
    requires 0 <= r < |input| && 0 <= c < |input[0]|
    requires forall i :: 0 <= i < |dirs| ==> Unit(dirs[i])
    requires k < |dirs| && Matches(input, r, c, dirs[k])
    ensures CountDirections(input, r, c, dirs) >= 1
  {
    if k > 0 {
      FoundInDirections(input, r, c, dirs[1..], k - 1);
    }
  }

  lemma {:induction false} FoundInRow(input: seq<seq<char>>, r: int, c: nat, c0: int, d: Direction)
    requires WellFormed(input)
    requires 0 <= r < |input| && c <= c0 < |input[0]|
    requires d in GetDirections() && Matches(input, r, c0, d)
    ensures CountRow(input, r, c) >= 1
    decreases c0 - c
  {
    if c == c0 {
      var k :| 0 <= k < |GetDirections()| && GetDirections()[k] == d;
      FoundInDirections(input, r, c, GetDirections(), k);
    } else {
      FoundInRow(input, r, c + 1, c0, d);
    }
  }

  lemma {:induction false} FoundInRows(input: seq<seq<char>>, r: nat, r0: int)
    requires WellFormed(input)
    requires r <= r0 < |input| && CountRow(input, r0, 0) >= 1
    ensures CountRows(input, r) >= 1
    decreases r0 - r
  {
    if r < r0 {
      FoundInRows(input, r + 1, r0);
    }
  }

  /** Every occurrence in any of the eight directions is counted. */
  lemma MatchCounted(input: seq<seq<char>>, r: int, c: int, d: Direction)
    requires WellFormed(input)
    requires 0 <= r < |input| && 0 <= c < |input[0]|
    requires d in GetDirections() && Matches(input, r, c, d)
    ensures Solve(input) >= 1
  {
    FoundInRow(input, r, 0, c, d);
    FoundInRows(input, 0, r);
  }

  /** Every cell a match reads lies inside the grid. */
  lemma MatchInBounds(input: seq<seq<char>>, r: int, c: int, d: Direction, k: int)
    requires WellFormed(input)
    requires 0 <= r < |input| && 0 <= c < |input[0]|
    requires Unit(d) && Matches(input, r, c, d) && 0 <= k <= 3
    ensures 0 <= r + k * d.0 < |input| && 0 <= c + k * d.1 < |input[0]|
  {
  }
}
