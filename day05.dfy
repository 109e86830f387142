/** Day 5: page ordering rules `(before, after)` and the updates that must obey
    them; invalid updates are reordered by the rules before their middle page
    is taken. */
module Day05 {
  import opened Common
  import opened Sorting

  type Rule = (int, int)

  /** The `page_position` map: each page of the update to the index of its LAST
      occurrence, since later entries of the collected iterator overwrite
      earlier ones. */
  function PagePosition(update: seq<int>): (pos: map<int, nat>)
    ensures forall x :: x in pos <==> x in update
    ensures forall x :: x in pos ==> pos[x] < |update| && update[pos[x]] == x
    ensures forall x, j :: x in pos && pos[x] < j < |update| ==> update[j] != x
  {
    if update == [] then map[]
    else
      var n := |update| - 1;
      var init := update[..n];
      assert update == init + [update[n]];
      PagePosition(init)[update[n] := n]
  }

  /** Whether `rule` is respected, vacuously when either page is absent. */
  predicate Respects(pos: map<int, nat>, rule: Rule)
  {
    rule.0 in pos && rule.1 in pos ==> pos[rule.0] < pos[rule.1]
  }

  /** `valid_ordering`: every rule is respected by the last positions. */
  predicate ValidOrdering(rules: set<Rule>, update: seq<int>)
  {
    var pos := PagePosition(update);
    forall rule :: rule in rules ==> Respects(pos, rule)
  }

  /** For an update without repeated pages, validity means that no rule puts a
      page before one that occurs at or ahead of it. */
  lemma ValidOrderingDistinct(rules: set<Rule>, update: seq<int>)
    requires Distinct(update)
    ensures ValidOrdering(rules, update) <==>
      forall i, j :: 0 <= i <= j < |update| ==> (update[j], update[i]) !in rules
  {
    var pos := PagePosition(update);
    assert forall k :: 0 <= k < |update| ==> pos[update[k]] == k by {
      forall k | 0 <= k < |update|
        ensures pos[update[k]] == k
      {
        assert update[k] in pos;
        assert update[pos[update[k]]] == update[k];
      }
    }
    if ValidOrdering(rules, update) {
      forall i, j | 0 <= i <= j < |update|
        ensures (update[j], update[i]) !in rules
      {
        var rule := (update[j], update[i]);
        assert rule in rules ==> Respects(pos, rule);
      }
    } else {
      var rule :| rule in rules && !Respects(pos, rule);
      var i, j := pos[rule.1], pos[rule.0];
      assert update[j] == rule.0 && update[i] == rule.1;
      assert (update[j], update[i]) in rules;
    }
  }

  /** A rule that does not mention two pages of the update never invalidates it. */
  lemma AbsentPageVacuous(rules: set<Rule>, update: seq<int>, rule: Rule)
    requires rule.0 !in update || rule.1 !in update
    ensures ValidOrdering(rules + {rule}, update) <==> ValidOrdering(rules, update)
  {
  }

  /** Only the last occurrence of a repeated page counts: `[x, y, x]` obeys the
      rule `(y, x)`, although its first `x` is ahead of `y`. */
  lemma LastOccurrenceCounts(x: int, y: int)
    requires x != y
    ensures ValidOrdering({(y, x)}, [x, y, x])
  {
    var pos := PagePosition([x, y, x]);
    assert pos[x] == 2 && pos[y] == 1;
  }

  /** The comparator given to `sort_by`. */
  function Compare(rules: set<Rule>, a: int, b: int): (r: Ordering)
    ensures r == Less <==> (a, b) in rules
    ensures r != Equal
  {
    if (a, b) in rules then Less else Greater
  }

  /** The update reordered by `sort_by` with the rules' comparator, which need
      not be a consistent order, so the result is known only to be a
      permutation. */
  function Reordered(rules: set<Rule>, update: seq<int>): (sorted: seq<int>)
    ensures multiset(sorted) == multiset(update)
    ensures |sorted| == |update|
  {
    SortBy(update, (a, b) => Compare(rules, a, b))
  }

  /** `middle_update`: the page at index `len / 2` of the reordered update.
      Indexing an empty update panics in the source. */
  function MiddleUpdate(rules: set<Rule>, update: seq<int>): (page: int)
    requires update != []
    ensures page in update
    ensures page == Reordered(rules, update)[|update| / 2]
  {
    var sorted := Reordered(rules, update);
    assert sorted[|update| / 2] in multiset(update);
    sorted[|update| / 2]
  }

  /** What one update adds to the two answers. */
  function Contribution(rules: set<Rule>, update: seq<int>): (int, int)
    requires update != []
  {
    if ValidOrdering(rules, update) then (update[|update| / 2], 0)
    else (0, MiddleUpdate(rules, update))
  }

  /** `solve`: the component-wise sum of the contributions. */
  function Solve(rules: set<Rule>, updates: seq<seq<int>>): (int, int)
    requires forall k :: 0 <= k < |updates| ==> updates[k] != []
  {
    if updates == [] then (0, 0)
    else
      var c := Contribution(rules, updates[0]);
      var acc := Solve(rules, updates[1..]);
      (acc.0 + c.0, acc.1 + c.1)
  }

  /** The middle pages of the valid updates. */
  function ValidMiddles(rules: set<Rule>, updates: seq<seq<int>>): seq<int>
    requires forall k :: 0 <= k < |updates| ==> updates[k] != []
  {
    if updates == [] then []
    else
      var u := updates[0];
      (if ValidOrdering(rules, u) then [u[|u| / 2]] else []) + ValidMiddles(rules, updates[1..])
  }

  /** The reordered middle pages of the invalid updates. */
  function FixedMiddles(rules: set<Rule>, updates: seq<seq<int>>): seq<int>
    requires forall k :: 0 <= k < |updates| ==> updates[k] != []
  {
    if updates == [] then []
    else
      var u := updates[0];
      (if ValidOrdering(rules, u) then [] else [MiddleUpdate(rules, u)]) + FixedMiddles(rules, updates[1..])
  }

  /** Each update goes to exactly one side: valid updates give their own middle
      page to the first answer, invalid ones their reordered middle page to the
      second, and the counts of both add up to the number of updates. */
  lemma SolveSplits(rules: set<Rule>, updates: seq<seq<int>>)
    requires forall k :: 0 <= k < |updates| ==> updates[k] != []
    ensures Solve(rules, updates) == (Sum(ValidMiddles(rules, updates)), Sum(FixedMiddles(rules, updates)))
    ensures |ValidMiddles(rules, updates)| + |FixedMiddles(rules, updates)| == |updates|
  {
    SolveFirst(rules, updates);
    SolveSecond(rules, updates);
    SplitCount(rules, updates);
  }

  lemma {:induction false} SolveFirst(rules: set<Rule>, updates: seq<seq<int>>)
    requires forall k :: 0 <= k < |updates| ==> updates[k] != []
    ensures Solve(rules, updates).0 == Sum(ValidMiddles(rules, updates))
  {
    if updates != [] {
      var u := updates[0];
      var rest := updates[1..];
      SolveFirst(rules, rest);
      assert Solve(rules, updates).0 == Solve(rules, rest).0 + Contribution(rules, u).0;
      var head: seq<int> := if ValidOrdering(rules, u) then [u[|u| / 2]] else [];
      assert ValidMiddles(rules, updates) == head + ValidMiddles(rules, rest);
      SumAppend(head, ValidMiddles(rules, rest));
      assert Sum(head) == Contribution(rules, u).0;
    }
  }

  lemma {:induction false} SolveSecond(rules: set<Rule>, updates: seq<seq<int>>)
    requires forall k :: 0 <= k < |updates| ==> updates[k] != []
    ensures Solve(rules, updates).1 == Sum(FixedMiddles(rules, updates))
  {
    if updates != [] {
      var u := updates[0];
      var rest := updates[1..];
      SolveSecond(rules, rest);
      assert Solve(rules, updates).1 == Solve(rules, rest).1 + Contribution(rules, u).1;
      var head: seq<int> := if ValidOrdering(rules, u) then [] else [MiddleUpdate(rules, u)];
      assert FixedMiddles(rules, updates) == head + FixedMiddles(rules, rest);
      SumAppend(head, FixedMiddles(rules, rest));
      assert Sum(head) == Contribution(rules, u).1;
    }
  }

  lemma {:induction false} SplitCount(rules: set<Rule>, updates: seq<seq<int>>)
    requires forall k :: 0 <= k < |updates| ==> updates[k] != []
    ensures |ValidMiddles(rules, updates)| + |FixedMiddles(rules, updates)| == |updates|
  {
    if updates != [] {
      SplitCount(rules, updates[1..]);
    }
  }
}
