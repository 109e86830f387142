/** Day 10: hiking trails on a height map. A trail climbs from height 0 to 9 one
    unit per orthogonal step; a trailhead's score is the number of height-9
    cells it reaches, its rating the number of distinct trails. */
module Day10 {
  import opened Common
  import opened Grid
  import Text

  /** The map of `day10.rs`, with the same `contains` and `neighbors` as the
      shared grid: a map of digit heights. */
  type HeightMap = Map<int>

  /** `Map::from_str`: every character must be a decimal digit and there must be
      at least one line. */
  function FromStr(s: string): (r: Option<HeightMap>)
    ensures var lines := Text.Lines(s);
            r.Some? <==> lines != [] &&
                         forall y, x :: 0 <= y < |lines| && 0 <= x < |lines[y]| ==> Text.IsDigit(lines[y][x])
    ensures r.Some? ==> var lines := Text.Lines(s);
                        && r.value.size == Pos(|lines[0]|, |lines|)
                        && |r.value.data| == |lines|
                        && forall y :: 0 <= y < |lines| ==>
                             |r.value.data[y]| == |lines[y]| &&
                             forall x :: 0 <= x < |lines[y]| ==> 0 <= r.value.data[y][x] <= 9
  {
    Grid.FromStr(s, DigitFromChar)
  }

  /** `map[pos]` where the cell exists. The trail functions only read cells that
      `contains` accepts, which exist on the maps they are given. */
  function Height(m: HeightMap, p: Pos): int
  {
    if m.InBounds(p) then m.Get(p) else -1
  }

  // ------------------------------------------------------------ trailhead_score

  /** `q`, accepted by `contains`, is next to `p` and has height `h`. */
  predicate Climb(m: HeightMap, p: Pos, q: Pos, h: int)
  {
    m.Contains(q) && Adjacent(p, q) && Height(m, q) == h
  }

  /** `flat_map(|pos| map.neighbors(pos))`. */
  function Reach(m: HeightMap, ps: seq<Pos>): (r: seq<Pos>)
    ensures forall q :: q in r <==> m.Contains(q) && exists k :: 0 <= k < |ps| && Adjacent(ps[k], q)
  {
    if ps == [] then []
    else
      var rest := Reach(m, ps[1..]);
      assert forall k :: 0 < k < |ps| ==> ps[1..][k - 1] == ps[k];
      m.Neighbors(ps[0]) + rest
  }

  /** Some position of `ps` climbs to `q` at height `i`. */
  predicate Reached(m: HeightMap, ps: seq<Pos>, q: Pos, i: int)
  {
    exists k :: 0 <= k < |ps| && Climb(m, ps[k], q, i)
  }

  /** One iteration of `trailhead_score`: the distinct neighbours of the current
      positions that have height `i`. */
  function Step(m: HeightMap, ps: seq<Pos>, i: int): (r: seq<Pos>)
    ensures forall q :: q in r <==> Reached(m, ps, q, i)
  {
    var u := Unique(Reach(m, ps));
    var r := Filter(u, q => Height(m, q) == i);
    forall q | q in r
      ensures Height(m, q) == i && q in Reach(m, ps)
    {
      var j :| 0 <= j < |r| && r[j] == q;
    }
    forall q | Height(m, q) == i && q in Reach(m, ps)
      ensures q in r
    {
      var j :| 0 <= j < |Reach(m, ps)| && Reach(m, ps)[j] == q;
      var j' :| 0 <= j' < |u| && u[j'] == q;
    }
    r
  }

  /** The positions after `i` iterations. */
  function Level(m: HeightMap, start: Pos, i: nat): (r: seq<Pos>)
  {
    if i == 0 then [start] else Step(m, Level(m, start, i - 1), i)
  }

  /** `unique()` leaves no position twice. */
  lemma LevelDistinct(m: HeightMap, start: Pos, i: nat)
    ensures Distinct(Level(m, start, i))
  {
    if i > 0 {
      var ps := Level(m, start, i - 1);
      var u := Unique(Reach(m, ps));
      assert Step(m, ps, i) == Filter(u, q => Height(m, q) == i);
    }
  }

  /** `trailhead_score`: `positions` reassigned nine times, then its length. */
  method TrailheadScore(m: HeightMap, start: Pos) returns (score: nat)
    requires m.ContainsIsIndexable()
    ensures score == |Level(m, start, 9)|
  {
    var positions := [start];
    for i := 1 to 10
      invariant positions == Level(m, start, i - 1)
    {
      positions := Step(m, positions, i);
    }
    score := |positions|;
  }

  /** A climb from `path[0]`: each later position is a neighbour of the one
      before it and is one unit higher, the k-th at height k. */
  ghost predicate IsTrail(m: HeightMap, path: seq<Pos>)
  {
    forall j, k :: 0 <= j < k < |path| && k == j + 1 ==> Climb(m, path[j], path[k], k)
  }

  /** Every position after `i` iterations ends a climb of `i` steps from the start ... */
  lemma {:induction false} LevelSound(m: HeightMap, start: Pos, i: nat, q: Pos)
    requires q in Level(m, start, i)
    ensures exists path :: |path| == i + 1 && path[0] == start && path[i] == q && IsTrail(m, path)
    decreases i, 1
  {
    if i > 0 {
      LevelSoundNext(m, start, i - 1, q);
    } else {
      assert IsTrail(m, [start]);
    }
  }

  lemma {:induction false} LevelSoundNext(m: HeightMap, start: Pos, j: nat, q: Pos)
    requires q in Level(m, start, j + 1)
    ensures exists path :: |path| == j + 2 && path[0] == start && path[j + 1] == q && IsTrail(m, path)
    decreases j + 1, 0
  {
    var prev := Level(m, start, j);
    var k :| 0 <= k < |prev| && Climb(m, prev[k], q, j + 1);
    var p := prev[k];
    LevelSound(m, start, j, p);
    var path :| |path| == j + 1 && path[0] == start && path[j] == p && IsTrail(m, path);
    var path' := TrailExtend(m, path, q);
  }

  /** ... and the end of every such climb is one of them. */
  lemma {:induction false} LevelComplete(m: HeightMap, path: seq<Pos>)
    requires |path| >= 1 && IsTrail(m, path)
    ensures path[|path| - 1] in Level(m, path[0], |path| - 1)
  {
    var n := |path| - 1;
    if n > 0 {
      var prefix := path[..n];
      assert IsTrail(m, prefix);
      LevelComplete(m, prefix);
      var prev := Level(m, path[0], n - 1);
      var k :| 0 <= k < |prev| && prev[k] == path[n - 1];
      assert Climb(m, prev[k], path[n], n);
    }
  }

  lemma TrailExtend(m: HeightMap, path: seq<Pos>, q: Pos) returns (path': seq<Pos>)
    requires |path| >= 1 && IsTrail(m, path) && Climb(m, path[|path| - 1], q, |path|)
    ensures path' == path + [q] && IsTrail(m, path')
    ensures |path'| == |path| + 1 && path'[0] == path[0] && path'[|path|] == q
  {
    path' := path + [q];
    forall j, k | 0 <= j < k < |path'| && k == j + 1
      ensures Climb(m, path'[j], path'[k], k)
    {
      if k < |path| {
        assert path'[j] == path[j] && path'[k] == path[k];
      }
    }
  }

  // ----------------------------------------------------------- trailhead_rating

  /** The `HashMap<Pos, u32>` of `trailhead_rating`, as its entries in iteration
      order. */
  type Counts = seq<(Pos, nat)>

  function Keys(c: Counts): (r: seq<Pos>)
    ensures |r| == |c| && forall k :: 0 <= k < |c| ==> r[k] == c[k].0
  {
    if c == [] then [] else [c[0].0] + Keys(c[1..])
  }

  /** The sum of the counts recorded under `q`. */
  function ValueOf(c: Counts, q: Pos): nat
  {
    if c == [] then 0 else (if c[0].0 == q then c[0].1 else 0) + ValueOf(c[1..], q)
  }

  /** `values().sum()`. */
  function Total(c: Counts): nat
  {
    if c == [] then 0 else c[0].1 + Total(c[1..])
  }

  predicate Positive(c: Counts)
  {
    forall k :: 0 <= k < |c| ==> c[k].1 >= 1
  }

  /** `acc.entry(q).and_modify(|c| *c += n).or_insert(n)`. */
  function AddCount(acc: Counts, q: Pos, n: nat): (r: Counts)
    ensures forall x :: ValueOf(r, x) == ValueOf(acc, x) + (if x == q then n else 0)
    ensures Total(r) == Total(acc) + n
    ensures forall x :: x in Keys(r) <==> x in Keys(acc) || x == q
    ensures Positive(acc) && n >= 1 ==> Positive(r)
  {
    if acc == [] then [(q, n)]
    else if acc[0].0 == q then [(q, acc[0].1 + n)] + acc[1..]
    else [acc[0]] + AddCount(acc[1..], q, n)
  }

  /** Adding to a key never introduces a second entry for it. */
  lemma {:induction false} AddCountDistinct(acc: Counts, q: Pos, n: nat)
    requires Distinct(Keys(acc))
    ensures Distinct(Keys(AddCount(acc, q, n)))
  {
    if acc != [] {
      var r := AddCount(acc, q, n);
      assert Keys(acc[1..]) == Keys(acc)[1..];
      if acc[0].0 == q {
        assert Keys(r) == Keys(acc);
      } else {
        var rest := AddCount(acc[1..], q, n);
        AddCountDistinct(acc[1..], q, n);
        assert Keys(r) == [acc[0].0] + Keys(rest);
        assert acc[0].0 !in Keys(acc[1..]);
        assert acc[0].0 !in Keys(rest);
      }
    }
  }

  /** The `fold` of `trailhead_rating`, entry by entry. */
  function Merge(acc: Counts, pairs: Counts): (r: Counts)
    decreases |pairs|
    ensures forall x :: ValueOf(r, x) == ValueOf(acc, x) + ValueOf(pairs, x)
    ensures forall x :: x in Keys(r) <==> x in Keys(acc) || x in Keys(pairs)
    ensures Positive(acc) && Positive(pairs) ==> Positive(r)
  {
    if pairs == [] then acc
    else
      var r := Merge(AddCount(acc, pairs[0].0, pairs[0].1), pairs[1..]);
      assert forall x :: x in Keys(pairs) <==> x == pairs[0].0 || x in Keys(pairs[1..]);
      r
  }

  lemma {:induction false} MergeDistinct(acc: Counts, pairs: Counts)
    requires Distinct(Keys(acc))
    ensures Distinct(Keys(Merge(acc, pairs)))
    decreases |pairs|
  {
    if pairs != [] {
      AddCountDistinct(acc, pairs[0].0, pairs[0].1);
      MergeDistinct(AddCount(acc, pairs[0].0, pairs[0].1), pairs[1..]);
    }
  }

  /** Each position paired with one count. */
  function Tag(ps: seq<Pos>, n: nat): (r: Counts)
    ensures Keys(r) == ps
    ensures n >= 1 ==> Positive(r)
  {
    if ps == [] then [] else [(ps[0], n)] + Tag(ps[1..], n)
  }

  lemma {:induction false} TagValue(ps: seq<Pos>, n: nat, q: Pos)
    requires Distinct(ps)
    ensures ValueOf(Tag(ps, n), q) == if q in ps then n else 0
  {
    if ps != [] {
      TagValue(ps[1..], n, q);
      assert q in ps <==> q == ps[0] || q in ps[1..];
    }
  }

  /** The neighbours of height `i` of one entry's position, each with that entry's
      count: `map(move |neighbor| (*neighbor, count))` then the height filter. */
  function SpreadEntry(m: HeightMap, e: (Pos, nat), i: int): Counts
  {
    Tag(Filter(m.Neighbors(e.0), q => Height(m, q) == i), e.1)
  }

  function Spread(m: HeightMap, counts: Counts, i: int): Counts
  {
    if counts == [] then [] else SpreadEntry(m, counts[0], i) + Spread(m, counts[1..], i)
  }

  /** One iteration of `trailhead_rating`. */
  function RatingStep(m: HeightMap, counts: Counts, i: int): Counts
  {
    Merge([], Spread(m, counts, i))
  }

  /** The counts after `i` iterations, from the start with count 1. */
  function RatingLevel(m: HeightMap, start: Pos, i: nat): Counts
  {
    if i == 0 then [(start, 1)] else RatingStep(m, RatingLevel(m, start, i - 1), i)
  }

  /** `trailhead_rating`: the counts reassigned nine times, then their sum. */
  method TrailheadRating(m: HeightMap, start: Pos) returns (rating: nat)
    requires m.ContainsIsIndexable()
    ensures rating == Total(RatingLevel(m, start, 9))
  {
    var positions := [(start, 1)];
    for i := 1 to 10
      invariant positions == RatingLevel(m, start, i - 1)
    {
      positions := RatingStep(m, positions, i);
    }
    rating := Total(positions);
  }

  /** The counts that flow into `q`: those of the entries `q` neighbours, if `q`
      has height `i`. */
  function Inflow(m: HeightMap, counts: Counts, q: Pos, i: int): nat
  {
    if counts == [] then 0
    else
      (if Climb(m, counts[0].0, q, i) then counts[0].1 else 0)
      + Inflow(m, counts[1..], q, i)
  }

  lemma {:induction false} ValueOfAppend(a: Counts, b: Counts, q: Pos)
    ensures ValueOf(a + b, q) == ValueOf(a, q) + ValueOf(b, q)
  {
    if a == [] {
      assert a + b == b;
    } else {
      assert (a + b)[1..] == a[1..] + b;
      ValueOfAppend(a[1..], b, q);
    }
  }

  lemma {:induction false} SpreadValue(m: HeightMap, counts: Counts, q: Pos, i: int)
    ensures ValueOf(Spread(m, counts, i), q) == Inflow(m, counts, q, i)
  {
    if counts != [] {
      var ns := Filter(m.Neighbors(counts[0].0), p => Height(m, p) == i);
      TagValue(ns, counts[0].1, q);
      ValueOfAppend(SpreadEntry(m, counts[0], i), Spread(m, counts[1..], i), q);
      SpreadValue(m, counts[1..], q, i);
    }
  }

  /** The count at a cell of height `i` is the sum of the counts of the cells of
      the previous level next to it; other cells get nothing. */
  lemma RatingStepValue(m: HeightMap, counts: Counts, q: Pos, i: int)
    ensures ValueOf(RatingStep(m, counts, i), q) == Inflow(m, counts, q, i)
  {
    SpreadValue(m, counts, q, i);
  }

  /** Some entry of `counts` climbs to `q` at height `i`. */
  predicate Fed(m: HeightMap, counts: Counts, q: Pos, i: int)
  {
    exists k :: 0 <= k < |counts| && Climb(m, counts[k].0, q, i)
  }

  lemma NeighborsClimb(m: HeightMap, p: Pos, q: Pos, i: int)
    ensures q in Filter(m.Neighbors(p), x => Height(m, x) == i) <==> Climb(m, p, q, i)
  {
    var ns := m.Neighbors(p);
    var r := Filter(ns, x => Height(m, x) == i);
    if q in r {
      var j :| 0 <= j < |r| && r[j] == q;
      var j' :| 0 <= j' < |ns| && ns[j'] == q;
    }
    if Climb(m, p, q, i) {
      var j :| 0 <= j < |ns| && ns[j] == q;
    }
  }

  lemma {:induction false} SpreadKeys(m: HeightMap, counts: Counts, i: int, q: Pos)
    ensures q in Keys(Spread(m, counts, i)) <==> Fed(m, counts, q, i)
  {
    if counts != [] {
      var here := SpreadEntry(m, counts[0], i);
      var rest := Spread(m, counts[1..], i);
      SpreadKeys(m, counts[1..], i, q);
      NeighborsClimb(m, counts[0].0, q, i);
      KeysAppend(here, rest);
      FedCons(m, counts, q, i);
    }
  }

  lemma KeysAppend(a: Counts, b: Counts)
    ensures Keys(a + b) == Keys(a) + Keys(b)
  {
  }

  lemma FedCons(m: HeightMap, counts: Counts, q: Pos, i: int)
    requires counts != []
    ensures Fed(m, counts, q, i) <==> Climb(m, counts[0].0, q, i) || Fed(m, counts[1..], q, i)
  {
    if Fed(m, counts[1..], q, i) {
      var k :| 0 <= k < |counts| - 1 && Climb(m, counts[1..][k].0, q, i);
      assert Climb(m, counts[k + 1].0, q, i);
    }
    if Fed(m, counts, q, i) && !Climb(m, counts[0].0, q, i) {
      var k :| 0 <= k < |counts| && Climb(m, counts[k].0, q, i);
      assert Climb(m, counts[1..][k - 1].0, q, i);
    }
  }

  /** The first iteration's entries are the positions of the first step when
      the counts held the positions of the step before. */
  lemma StepKeys(m: HeightMap, counts: Counts, ps: seq<Pos>, i: int, q: Pos)
    requires forall x :: x in Keys(counts) <==> x in ps
    ensures q in Keys(RatingStep(m, counts, i)) <==> q in Step(m, ps, i)
  {
    SpreadKeys(m, counts, i, q);
    if Fed(m, counts, q, i) {
      FedReached(m, counts, ps, q, i);
    }
    if Reached(m, ps, q, i) {
      ReachedFed(m, counts, ps, q, i);
    }
  }

  lemma FedReached(m: HeightMap, counts: Counts, ps: seq<Pos>, q: Pos, i: int)
    requires forall x :: x in Keys(counts) <==> x in ps
    requires Fed(m, counts, q, i)
    ensures Reached(m, ps, q, i)
  {
    var k :| 0 <= k < |counts| && Climb(m, counts[k].0, q, i);
    var p := counts[k].0;
    assert Keys(counts)[k] == p;
    assert p in Keys(counts);
    assert p in ps;
    var k' :| 0 <= k' < |ps| && ps[k'] == p;
    assert Climb(m, ps[k'], q, i);
  }

  lemma ReachedFed(m: HeightMap, counts: Counts, ps: seq<Pos>, q: Pos, i: int)
    requires forall x :: x in Keys(counts) <==> x in ps
    requires Reached(m, ps, q, i)
    ensures Fed(m, counts, q, i)
  {
    var k :| 0 <= k < |ps| && Climb(m, ps[k], q, i);
    var p := ps[k];
    var keys := Keys(counts);
    assert p in keys;
    var k' :| 0 <= k' < |keys| && keys[k'] == p;
    assert Climb(m, counts[k'].0, q, i);
  }

  lemma {:induction false} SpreadPositive(m: HeightMap, counts: Counts, i: int)
    requires Positive(counts)
    ensures Positive(Spread(m, counts, i))
  {
    if counts != [] {
      SpreadPositive(m, counts[1..], i);
    }
  }

  /** The rating's entries are exactly the score's positions, each once and each
      with a count of at least one. */
  ghost predicate Matches(counts: Counts, ps: seq<Pos>)
  {
    && (forall x :: x in Keys(counts) <==> x in ps)
    && Distinct(Keys(counts))
    && Positive(counts)
  }

  /** One iteration keeps the entries matched with the positions. */
  lemma RatingStepMatches(m: HeightMap, counts: Counts, ps: seq<Pos>, i: int)
    requires Matches(counts, ps)
    ensures Matches(RatingStep(m, counts, i), Step(m, ps, i))
  {
    SpreadPositive(m, counts, i);
    MergeDistinct([], Spread(m, counts, i));
    forall q
      ensures q in Keys(RatingStep(m, counts, i)) <==> q in Step(m, ps, i)
    {
      StepKeys(m, counts, ps, i, q);
    }
  }

  lemma {:induction false} RatingMatchesLevel(m: HeightMap, start: Pos, i: nat)
    ensures Matches(RatingLevel(m, start, i), Level(m, start, i))
    decreases i, 1
  {
    if i > 0 {
      RatingMatchesNext(m, start, i - 1);
    }
  }

  lemma {:induction false} RatingMatchesNext(m: HeightMap, start: Pos, j: nat)
    ensures Matches(RatingLevel(m, start, j + 1), Level(m, start, j + 1))
    decreases j + 1, 0
  {
    RatingMatchesLevel(m, start, j);
    RatingStepMatches(m, RatingLevel(m, start, j), Level(m, start, j), j + 1);
  }

  lemma {:induction false} TotalAtLeastLength(c: Counts)
    requires Positive(c)
    ensures Total(c) >= |c|
  {
    if c != [] {
      TotalAtLeastLength(c[1..]);
    }
  }

  /** Every position reached after `i` iterations ends at least one climb, so
      there are no more positions than climbs. */
  lemma LevelAtMostRating(m: HeightMap, start: Pos, i: nat)
    ensures |Level(m, start, i)| <= Total(RatingLevel(m, start, i))
  {
    var r := RatingLevel(m, start, i);
    var l := Level(m, start, i);
    RatingMatchesLevel(m, start, i);
    TotalAtLeastLength(r);
    DistinctCardinality(Keys(r));
    LevelDistinct(m, start, i);
    DistinctCardinality(l);
    assert (set x | x in Keys(r)) == (set x | x in l);
  }

  /** Every reached height-9 cell ends at least one trail: the score never
      exceeds the rating. */
  lemma ScoreAtMostRating(m: HeightMap, start: Pos)
    ensures |Level(m, start, 9)| <= Total(RatingLevel(m, start, 9))
  {
    LevelAtMostRating(m, start, 9);
  }

  // ---------------------------------------------------------------------- solve

  /** Row-major positions of the height-0 cells of `row`, from column `x` on. */
  function RowStarts(row: seq<int>, y: int, x: nat): (r: seq<Pos>)
    requires x <= |row|
    ensures forall p :: p in r <==> p.y == y && x <= p.x < |row| && row[p.x] == 0
    decreases |row| - x
  {
    if x == |row| then []
    else (if row[x] == 0 then [Pos(x, y)] else []) + RowStarts(row, y, x + 1)
  }

  function Starts(data: seq<seq<int>>, y: nat): (r: seq<Pos>)
    requires y <= |data|
    ensures forall p :: p in r <==> y <= p.y < |data| && 0 <= p.x < |data[p.y]| && data[p.y][p.x] == 0
    decreases |data| - y
  {
    if y == |data| then [] else RowStarts(data[y], y, 0) + Starts(data, y + 1)
  }

  /** The `start_points` of `solve`: every cell of height 0, whether or not
      `contains` accepts it. */
  function StartPoints(m: HeightMap): (r: seq<Pos>)
    ensures forall p :: p in r <==> m.InBounds(p) && m.Get(p) == 0
  {
    Starts(m.data, 0)
  }

  /** The two `score_fn`s `solve` is called with. */
  datatype Scoring = ByScore | ByRating

  function ScoreOf(m: HeightMap, scoring: Scoring, start: Pos): nat
    requires m.ContainsIsIndexable()
  {
    match scoring
    case ByScore => |Level(m, start, 9)|
    case ByRating => Total(RatingLevel(m, start, 9))
  }

  function SumScores(m: HeightMap, scoring: Scoring, starts: seq<Pos>): nat
    requires m.ContainsIsIndexable()
  {
    if starts == [] then 0 else ScoreOf(m, scoring, starts[0]) + SumScores(m, scoring, starts[1..])
  }

  /** `solve`: the sum of `score_fn` over the trailheads. */
  function Solve(m: HeightMap, scoring: Scoring): nat
    requires m.ContainsIsIndexable()
  {
    SumScores(m, scoring, StartPoints(m))
  }

  lemma {:induction false} SumScoresOrdered(m: HeightMap, starts: seq<Pos>)
    requires m.ContainsIsIndexable()
    ensures SumScores(m, ByScore, starts) <= SumScores(m, ByRating, starts)
  {
    if starts != [] {
      ScoreAtMostRating(m, starts[0]);
      SumScoresOrdered(m, starts[1..]);
    }
  }

  /** The first answer never exceeds the second. */
  lemma SolveOrdered(m: HeightMap)
    requires m.ContainsIsIndexable()
    ensures Solve(m, ByScore) <= Solve(m, ByRating)
  {
    SumScoresOrdered(m, StartPoints(m));
  }
}
