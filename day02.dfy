/** Day 2: reports are safe when their levels move in one direction by 1 to 3
    at every step; the dampener tolerates one bad level. */
module Day02 {
  import opened Common

  /** The step rule for a rising row. */
  predicate Rising(a: int, b: int) { a < b && b <= a + 3 }

  /** The step rule for a falling row. */
  predicate Falling(a: int, b: int) { a > b && b >= a - 3 }

  predicate AllRising(row: seq<int>)
  {
    forall k :: 0 <= k < |row| - 1 ==> Rising(row[k], row[k + 1])
  }

  predicate AllFalling(row: seq<int>)
  {
    forall k :: 0 <= k < |row| - 1 ==> Falling(row[k], row[k + 1])
  }

  /** `is_safe`: the direction is rising when the last level is at least the
      first, and every adjacent pair must follow that direction's rule. The
      source unwraps `first`/`last`, so the row must not be empty. */
  predicate IsSafe(row: seq<int>)
    requires row != []
  {
    if row[|row| - 1] >= row[0] then AllRising(row) else AllFalling(row)
  }

  lemma {:induction false} RisingGrows(row: seq<int>, j: nat)
    requires AllRising(row) && 0 < j < |row|
    ensures row[0] < row[j]
  {
    if j > 1 {
      RisingGrows(row, j - 1);
    }
  }

  lemma {:induction false} FallingShrinks(row: seq<int>, j: nat)
    requires AllFalling(row) && 0 < j < |row|
    ensures row[0] > row[j]
  {
    if j > 1 {
      FallingShrinks(row, j - 1);
    }
  }

  /** A row is safe exactly when it rises throughout or falls throughout. */
  lemma SafeIffMonotone(row: seq<int>)
    requires row != []
    ensures IsSafe(row) <==> AllRising(row) || AllFalling(row)
  {
    if |row| > 1 {
      if AllFalling(row) {
        FallingShrinks(row, |row| - 1);
      }
      if AllRising(row) {
        RisingGrows(row, |row| - 1);
      }
    }
  }

  /** A single level is a safe report. */
  lemma SingleSafe(x: int)
    ensures IsSafe([x])
  {
  }

  /** A report of two or more levels that ends where it starts is unsafe. */
  lemma FlatUnsafe(row: seq<int>)
    requires |row| >= 2 && row[0] == row[|row| - 1]
    ensures !IsSafe(row)
  {
    if AllRising(row) {
      RisingGrows(row, |row| - 1);
    }
  }

  /** The row with index `i` left out. */
  function Without(row: seq<int>, i: nat): (r: seq<int>)
    requires i < |row|
    ensures |r| == |row| - 1
  {
    row[..i] + row[i + 1..]
  }

  /** `is_dampened_safe`: leaving out some single level gives a safe row. The
      source calls `is_safe` on each shortened row, which panics when a row of
      one level becomes empty, so a row of one level is excluded. */
  predicate IsDampenedSafe(row: seq<int>)
    requires |row| != 1
  {
    exists i :: 0 <= i < |row| && IsSafe(Without(row, i))
  }

  /** The dampener never rejects a row that was already safe. */
  lemma SafeIsDampenedSafe(row: seq<int>)
    requires |row| >= 2 && IsSafe(row)
    ensures IsDampenedSafe(row)
  {
    var n := |row|;
    var w := Without(row, n - 1);
    assert w == row[..n - 1];
    SafeIffMonotone(row);
    SafeIffMonotone(w);
    assert IsSafe(w);
  }

  /** The two safety rules `solve` is called with. */
  datatype Policy = Strict | Dampened

  /** What the source demands of a row before applying a policy to it. */
  predicate Admits(policy: Policy, row: seq<int>)
  {
    match policy
    case Strict => row != []
    case Dampened => |row| != 1
  }

  predicate Accepts(policy: Policy, row: seq<int>)
    requires Admits(policy, row)
  {
    match policy
    case Strict => IsSafe(row)
    case Dampened => IsDampenedSafe(row)
  }

  /** `solve`: the number of rows that the policy accepts. */
  function Solve(input: seq<seq<int>>, policy: Policy): (count: nat)
    requires forall row :: row in input ==> Admits(policy, row)
    ensures count <= |input|
    ensures count == |input| <==> forall row :: row in input ==> Accepts(policy, row)
    ensures count == 0 <==> forall row :: row in input ==> !Accepts(policy, row)
  {
    if input == [] then 0
    else
      assert forall row :: row in input[1..] ==> row in input;
      assert forall row :: row in input ==> row == input[0] || row in input[1..];
      (if Accepts(policy, input[0]) then 1 else 0) + Solve(input[1..], policy)
  }

  /** With rows of two or more levels, the dampener accepts at least as many. */
  lemma {:induction false} DampenedCountsMore(input: seq<seq<int>>)
    requires forall row :: row in input ==> |row| >= 2
    ensures Solve(input, Strict) <= Solve(input, Dampened)
  {
    if input != [] {
      assert forall row :: row in input[1..] ==> row in input;
      if IsSafe(input[0]) {
        SafeIsDampenedSafe(input[0]);
      }
      DampenedCountsMore(input[1..]);
    }
  }
}
