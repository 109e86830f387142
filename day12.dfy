/** Day 12: garden plots. A flood fill collects each region of equal plants; a
    region's price is its area times its border length (part one) or times its
    number of straight sides (part two). */
module Day12 {
  import opened Common
  import opened Grid

  datatype Direction = Up | Down | Left | Right

  /** `get_direction`: the side of `pos` on which `neighbour` lies. Rows grow
      downwards. The source asserts that the two share a row when they do not
      share a column. */
  function GetDirection(pos: Pos, neighbour: Pos): Direction
    requires pos.x == neighbour.x || pos.y == neighbour.y
  {
    if pos.x == neighbour.x then
      if pos.y < neighbour.y then Down else Up
    else if pos.x < neighbour.x then Right else Left
  }

  /** The cell one step from `p` in direction `d`. */
  function Step(p: Pos, d: Direction): Pos
  {
    match d
    case Up => Pos(p.x, p.y - 1)
    case Down => Pos(p.x, p.y + 1)
    case Left => Pos(p.x - 1, p.y)
    case Right => Pos(p.x + 1, p.y)
  }

  /** The direction of a neighbour is the step that reaches it ... */
  lemma GetDirectionOfNeighbour(p: Pos, q: Pos)
    requires Adjacent(p, q)
    ensures Step(p, GetDirection(p, q)) == q
  {
  }

  /** ... and the step in a direction has that direction. */
  lemma GetDirectionOfStep(p: Pos, d: Direction)
    ensures Adjacent(p, Step(p, d)) && GetDirection(p, Step(p, d)) == d
  {
  }

  /** A border segment: a cell and the side of it that faces another plant or the edge. */
  type Border = (Pos, Direction)

  /** `get_neighbouring_border`: the segment `delta` cells further along the same
      side; Up and Down sides run along x, Left and Right sides along y. */
  function GetNeighbouringBorder(b: Border, delta: int): (r: Border)
    ensures r.1 == b.1
  {
    var (pos, dir) := b;
    match dir
    case Up => (Pos(pos.x + delta, pos.y), dir)
    case Down => (Pos(pos.x + delta, pos.y), dir)
    case Left => (Pos(pos.x, pos.y + delta), dir)
    case Right => (Pos(pos.x, pos.y + delta), dir)
  }

  /** Shifts along a side compose by adding, and a shift by zero is no shift. */
  lemma ShiftAdd(b: Border, i: int, j: int)
    ensures GetNeighbouringBorder(GetNeighbouringBorder(b, i), j) == GetNeighbouringBorder(b, i + j)
    ensures GetNeighbouringBorder(b, 0) == b
  {
  }

  /** Distinct shifts give distinct segments. */
  lemma ShiftInjective(b: Border, i: int, j: int)
    requires GetNeighbouringBorder(b, i) == GetNeighbouringBorder(b, j)
    ensures i == j
  {
  }

  /** The first segment of each side: the one whose predecessor along the side is
      not a border. */
  function RunStarts(borders: set<Border>): (r: set<Border>)
    ensures r <= borders
  {
    set b | b in borders && GetNeighbouringBorder(b, -1) !in borders
  }

  /** The segments `lo <= i < hi` cells along the side from `c`. */
  ghost function Segment(c: Border, lo: int, hi: int): set<Border>
  {
    set i | lo <= i < hi :: GetNeighbouringBorder(c, i)
  }

  lemma SegmentGrows(c: Border, lo: int, hi: int)
    requires lo <= hi
    ensures Segment(c, lo, hi + 1) == Segment(c, lo, hi) + {GetNeighbouringBorder(c, hi)}
    ensures Segment(c, lo - 1, hi) == Segment(c, lo, hi) + {GetNeighbouringBorder(c, lo - 1)}
  {
    var b := GetNeighbouringBorder(c, hi);
    assert b in Segment(c, lo, hi + 1);
    var a := GetNeighbouringBorder(c, lo - 1);
    assert a in Segment(c, lo - 1, hi);
  }

  lemma NotInSegment(c: Border, lo: int, hi: int, i: int)
    requires i < lo || hi <= i
    ensures GetNeighbouringBorder(c, i) !in Segment(c, lo, hi)
  {
    forall j | lo <= j < hi ensures GetNeighbouringBorder(c, j) != GetNeighbouringBorder(c, i) {
      if GetNeighbouringBorder(c, j) == GetNeighbouringBorder(c, i) {
        ShiftInjective(c, i, j);
      }
    }
  }

  /** A segment outside a side that ends before a non-border does not follow
      any segment of that side. */
  lemma PredecessorOutside(borders: set<Border>, c: Border, lo: int, k: int, b: Border)
    requires Segment(c, lo, k) <= borders && GetNeighbouringBorder(c, k) !in borders
    requires b in borders - Segment(c, lo, k)
    ensures GetNeighbouringBorder(b, -1) !in Segment(c, lo, k)
  {
    forall j | lo <= j < k ensures GetNeighbouringBorder(c, j) != GetNeighbouringBorder(b, -1) {
      ShiftAdd(c, j, 1);
      ShiftAdd(b, -1, 1);
      assert j + 1 == k || GetNeighbouringBorder(c, j + 1) in Segment(c, lo, k);
    }
  }

  /** Removing a whole side (a run of segments bounded by non-borders at both
      ends) removes exactly one run start. */
  lemma RemoveRun(borders: set<Border>, c: Border, lo: int, k: int)
    requires lo <= 0 < k && Segment(c, lo, k) <= borders
    requires GetNeighbouringBorder(c, k) !in borders && GetNeighbouringBorder(c, lo - 1) !in borders
    ensures |RunStarts(borders - Segment(c, lo, k))| + 1 == |RunStarts(borders)|
    ensures |borders - Segment(c, lo, k)| < |borders|
  {
    var m := -lo;
    var seg := Segment(c, -m, k);
    var rest := borders - seg;
    var s := GetNeighbouringBorder(c, -m);
    assert s in seg;
    ShiftAdd(c, -m, -1);
    assert s in RunStarts(borders);
    forall b | b in rest
      ensures GetNeighbouringBorder(b, -1) in rest <==> GetNeighbouringBorder(b, -1) in borders
    {
      PredecessorOutside(borders, c, -m, k, b);
    }
    forall b | b in seg && b != s
      ensures b !in RunStarts(borders)
    {
      var j :| -m <= j < k && GetNeighbouringBorder(c, j) == b;
      ShiftAdd(c, j, -1);
      assert j != -m;
      assert GetNeighbouringBorder(b, -1) in seg;
    }
    assert RunStarts(rest) == RunStarts(borders) - {s};
    assert GetNeighbouringBorder(c, 0) in seg;
    assert |rest| < |borders| by {
      assert rest < borders;
    }
  }

  /** Taking the next segment of a side out of what remains keeps `remaining`
      equal to the borders less the segments taken so far. */
  lemma TakeForward(before: set<Border>, c: Border, lo: int, hi: int, remaining: set<Border>)
    requires lo <= hi && Segment(c, lo, hi) <= before
    requires remaining == before - Segment(c, lo, hi)
    requires GetNeighbouringBorder(c, hi) in remaining
    ensures Segment(c, lo, hi + 1) <= before
    ensures remaining - {GetNeighbouringBorder(c, hi)} == before - Segment(c, lo, hi + 1)
  {
    SegmentGrows(c, lo, hi);
  }

  lemma TakeBackward(before: set<Border>, c: Border, lo: int, hi: int, remaining: set<Border>)
    requires lo <= hi && Segment(c, lo, hi) <= before
    requires remaining == before - Segment(c, lo, hi)
    requires GetNeighbouringBorder(c, lo - 1) in remaining
    ensures Segment(c, lo - 1, hi) <= before
    ensures remaining - {GetNeighbouringBorder(c, lo - 1)} == before - Segment(c, lo - 1, hi)
  {
    SegmentGrows(c, lo, hi);
  }

  /** The first inner loop of `get_num_sides`: remove the segments from
      `current` forwards along its side, up to the first non-border. */
  method RemoveForward(remaining: set<Border>, current: Border) returns (rest: set<Border>, ghost hi: int)
    requires current in remaining
    ensures hi >= 1 && Segment(current, 0, hi) <= remaining
    ensures rest == remaining - Segment(current, 0, hi)
    ensures GetNeighbouringBorder(current, hi) !in remaining
    ensures rest < remaining && current !in rest
  {
    rest := remaining;
    var i := 0;
    assert Segment(current, 0, 0) == {};
    while GetNeighbouringBorder(current, i) in rest
      invariant 0 <= i && Segment(current, 0, i) <= remaining
      invariant rest == remaining - Segment(current, 0, i)
      decreases |rest|
    {
      TakeForward(remaining, current, 0, i, rest);
      rest := rest - {GetNeighbouringBorder(current, i)};
      i := i + 1;
    }
    ShiftAdd(current, 0, 0);
    NotInSegment(current, 0, i, i);
    hi := i;
    assert current in Segment(current, 0, hi);
  }

  /** The second inner loop: remove the segments before `current` along its
      side, down to the first non-border. */
  method RemoveBackward(remaining: set<Border>, current: Border, ghost hi: int, rest0: set<Border>)
    returns (rest: set<Border>, ghost lo: int)
    requires hi >= 1 && Segment(current, 0, hi) <= remaining
    requires rest0 == remaining - Segment(current, 0, hi)
    ensures lo <= 0 && Segment(current, lo, hi) <= remaining
    ensures rest == remaining - Segment(current, lo, hi)
    ensures GetNeighbouringBorder(current, lo - 1) !in remaining
    ensures rest <= rest0 && GetNeighbouringBorder(current, -1) !in rest
  {
    rest := rest0;
    var j := 1;
    while GetNeighbouringBorder(current, -j) in rest
      invariant 1 <= j && Segment(current, 1 - j, hi) <= remaining
      invariant rest == remaining - Segment(current, 1 - j, hi)
      decreases |rest|
    {
      TakeBackward(remaining, current, 1 - j, hi, rest);
      rest := rest - {GetNeighbouringBorder(current, -j)};
      j := j + 1;
    }
    lo := 1 - j;
    assert GetNeighbouringBorder(current, lo - 1) !in rest;
    NotInSegment(current, lo, hi, lo - 1);
  }

  /** `get_num_sides`: repeatedly take some segment, count a side, and remove the
      segments along that side, forwards from the segment itself and then
      backwards. The count is the number of sides, whatever segment is taken. */
  method GetNumSides(borders: set<Border>) returns (result: nat)
    ensures result == |RunStarts(borders)|
  {
    var remaining := borders;
    result := 0;
    while remaining != {}
      invariant result + |RunStarts(remaining)| == |RunStarts(borders)|
      decreases |remaining|
    {
      var current :| current in remaining;
      result := result + 1;
      var rest, hi := RemoveForward(remaining, current);
      ghost var lo;
      rest, lo := RemoveBackward(remaining, current, hi, rest);
      RemoveRun(remaining, current, lo, hi);
      remaining := rest;
    }
  }

  /** No borders make no sides, and there are never more sides than segments. */
  lemma NumSidesBounds(borders: set<Border>)
    ensures |RunStarts(borders)| <= |borders|
    ensures borders == {} ==> |RunStarts(borders)| == 0
  {
    SubsetCardinality(RunStarts(borders), borders);
  }

  lemma NeighborsInBounds(garden: Map<char>, c: Pos)
    requires garden.ContainsIsIndexable()
    ensures forall q :: q in garden.Neighbors(c) ==> garden.InBounds(q) && Adjacent(c, q)
  {
  }

  /** The neighbours in `ns` with plant `val`, in order: what is pushed. */
  function SameOf(garden: Map<char>, val: char, ns: seq<Pos>): (r: seq<Pos>)
    requires forall q :: q in ns ==> garden.InBounds(q)
  {
    if ns == [] then []
    else
      var q := ns[|ns| - 1];
      SameOf(garden, val, ns[..|ns| - 1]) + if garden.Get(q) == val then [q] else []
  }

  /** What is pushed are exactly the neighbours with plant `val`. */
  lemma {:induction false} SameOfMembers(garden: Map<char>, val: char, ns: seq<Pos>)
    requires forall q :: q in ns ==> garden.InBounds(q)
    ensures forall q :: q in SameOf(garden, val, ns) <==> q in ns && garden.Get(q) == val
  {
    if ns != [] {
      var init := ns[..|ns| - 1];
      assert ns == init + [ns[|ns| - 1]];
      SameOfMembers(garden, val, init);
    }
  }

  /** The number of neighbours in `ns` with another plant. */
  function DiffCount(garden: Map<char>, val: char, ns: seq<Pos>): (n: nat)
    requires forall q :: q in ns ==> garden.InBounds(q)
    ensures n + |SameOf(garden, val, ns)| == |ns|
  {
    if ns == [] then 0
    else
      var q := ns[|ns| - 1];
      DiffCount(garden, val, ns[..|ns| - 1]) + if garden.Get(q) == val then 0 else 1
  }

  /** The border segments of `c` towards the neighbours in `ns` with another plant. */
  function NeighbourBorders(garden: Map<char>, val: char, c: Pos, ns: seq<Pos>): (r: set<Border>)
    requires forall q :: q in ns ==> garden.InBounds(q) && Adjacent(c, q)
  {
    if ns == [] then {}
    else
      var q := ns[|ns| - 1];
      assert q in ns && Adjacent(c, q);
      NeighbourBorders(garden, val, c, ns[..|ns| - 1]) + if garden.Get(q) == val then {} else {(c, GetDirection(c, q))}
  }

  /** A segment lies between `c` and a neighbour with another plant. */
  lemma {:induction false} NeighbourBordersMembers(garden: Map<char>, val: char, c: Pos, ns: seq<Pos>, b: Border)
    requires forall q :: q in ns ==> garden.InBounds(q) && Adjacent(c, q)
    ensures b in NeighbourBorders(garden, val, c, ns) <==>
      b.0 == c && Step(c, b.1) in ns && garden.Get(Step(c, b.1)) != val
  {
    if ns != [] {
      var q := ns[|ns| - 1];
      var init := ns[..|ns| - 1];
      assert ns == init + [q];
      NeighbourBordersMembers(garden, val, c, init, b);
      GetDirectionOfNeighbour(c, q);
      GetDirectionOfStep(c, b.1);
    }
  }

  /** Distinct neighbours give distinct segments, one per neighbour with another plant. */
  lemma {:induction false} NeighbourBordersCount(garden: Map<char>, val: char, c: Pos, ns: seq<Pos>)
    requires forall q :: q in ns ==> garden.InBounds(q) && Adjacent(c, q)
    requires Distinct(ns)
    ensures |NeighbourBorders(garden, val, c, ns)| == DiffCount(garden, val, ns)
  {
    if ns != [] {
      var q := ns[|ns| - 1];
      var init := ns[..|ns| - 1];
      assert ns == init + [q];
      NeighbourBordersCount(garden, val, c, init);
      GetDirectionOfNeighbour(c, q);
      NeighbourBordersMembers(garden, val, c, init, (c, GetDirection(c, q)));
    }
  }

  /** The grid-edge contribution along x: one for a cell in the first or last column. */
  function EdgeCountX(garden: Map<char>, c: Pos): nat
  {
    if c.x == 0 || c.x == garden.size.x - 1 then 1 else 0
  }

  function EdgeCountY(garden: Map<char>, c: Pos): nat
  {
    if c.y == 0 || c.y == garden.size.y - 1 then 1 else 0
  }

  /** The segment recorded for the edge along x: Left in the first column, else
      Right in the last; a one-column map records only Left. */
  function EdgeBordersX(garden: Map<char>, c: Pos): (r: set<Border>)
    ensures |r| == EdgeCountX(garden, c)
  {
    if c.x == 0 then {(c, Left)} else if c.x == garden.size.x - 1 then {(c, Right)} else {}
  }

  function EdgeBordersY(garden: Map<char>, c: Pos): (r: set<Border>)
    ensures |r| == EdgeCountY(garden, c)
  {
    if c.y == 0 then {(c, Up)} else if c.y == garden.size.y - 1 then {(c, Down)} else {}
  }

  /** What one processed cell adds to `border`. */
  function CellBorder(garden: Map<char>, val: char, c: Pos): nat
    requires garden.ContainsIsIndexable()
  {
    NeighborsInBounds(garden, c);
    DiffCount(garden, val, garden.Neighbors(c)) + EdgeCountX(garden, c) + EdgeCountY(garden, c)
  }

  /** What one processed cell adds to `borders`. */
  function CellBorders(garden: Map<char>, val: char, c: Pos): set<Border>
    requires garden.ContainsIsIndexable()
  {
    NeighborsInBounds(garden, c);
    NeighbourBorders(garden, val, c, garden.Neighbors(c)) + EdgeBordersX(garden, c) + EdgeBordersY(garden, c)
  }

  /** Each unit of `border` is one recorded segment, and all segments are the cell's. */
  lemma CellBordersCount(garden: Map<char>, val: char, c: Pos)
    requires garden.ContainsIsIndexable()
    ensures |CellBorders(garden, val, c)| == CellBorder(garden, val, c)
    ensures forall b :: b in CellBorders(garden, val, c) ==> b.0 == c
  {
    NeighborsInBounds(garden, c);
    var ns := garden.Neighbors(c);
    var nb := NeighbourBorders(garden, val, c, ns);
    NeighbourBordersCount(garden, val, c, ns);
    forall b | b in nb ensures b.0 == c && b !in EdgeBordersX(garden, c) && b !in EdgeBordersY(garden, c) {
      NeighbourBordersMembers(garden, val, c, ns, b);
    }
    assert nb !! EdgeBordersX(garden, c);
    assert (nb + EdgeBordersX(garden, c)) !! EdgeBordersY(garden, c);
  }

  /** The `border` total of the cells of a region, in processing order. */
  function RegionBorder(garden: Map<char>, val: char, region: seq<Pos>): nat
    requires garden.ContainsIsIndexable()
  {
    if region == [] then 0
    else RegionBorder(garden, val, region[..|region| - 1]) + CellBorder(garden, val, region[|region| - 1])
  }

  /** The `borders` set of the cells of a region. */
  function RegionBorders(garden: Map<char>, val: char, region: seq<Pos>): set<Border>
    requires garden.ContainsIsIndexable()
  {
    if region == [] then {}
    else RegionBorders(garden, val, region[..|region| - 1]) + CellBorders(garden, val, region[|region| - 1])
  }

  lemma {:induction false} RegionBordersCells(garden: Map<char>, val: char, region: seq<Pos>)
    requires garden.ContainsIsIndexable()
    ensures forall b :: b in RegionBorders(garden, val, region) ==> b.0 in region
  {
    if region != [] {
      var init := region[..|region| - 1];
      RegionBordersCells(garden, val, init);
      CellBordersCount(garden, val, region[|region| - 1]);
    }
  }

  /** Over distinct cells, the part-one border count is the number of distinct
      segments that part two groups into sides. */
  lemma {:induction false} RegionBordersCount(garden: Map<char>, val: char, region: seq<Pos>)
    requires garden.ContainsIsIndexable() && Distinct(region)
    ensures |RegionBorders(garden, val, region)| == RegionBorder(garden, val, region)
  {
    if region != [] {
      var init := region[..|region| - 1];
      var c := region[|region| - 1];
      assert Distinct(init);
      RegionBordersCount(garden, val, init);
      RegionBordersCells(garden, val, init);
      CellBordersCount(garden, val, c);
      assert c !in init;
      assert RegionBorders(garden, val, init) !! CellBorders(garden, val, c);
    }
  }

  /** So a region never has more sides than border segments. */
  lemma SidesAtMostBorder(garden: Map<char>, val: char, region: seq<Pos>)
    requires garden.ContainsIsIndexable() && Distinct(region)
    ensures |RunStarts(RegionBorders(garden, val, region))| <= RegionBorder(garden, val, region)
  {
    RegionBordersCount(garden, val, region);
    NumSidesBounds(RegionBorders(garden, val, region));
  }

  /** A map of processed flags with the shape of `garden`. */
  predicate SameShape(garden: Map<char>, processed: Map<bool>)
  {
    && processed.size == garden.size && |processed.data| == |garden.data|
    && forall y :: 0 <= y < |garden.data| ==> |processed.data[y]| == |garden.data[y]|
  }

  /** Every cell is in the map and has plant `val`. */
  predicate Uniform(garden: Map<char>, val: char, cells: seq<Pos>)
  {
    forall c :: c in cells ==> garden.InBounds(c) && garden.Get(c) == val
  }

  /** The cells not yet processed. */
  ghost function Unprocessed(processed: Map<bool>): set<Pos>
  {
    set y, x | 0 <= y < |processed.data| && 0 <= x < |processed.data[y]| && !processed.data[y][x] :: Pos(x, y)
  }

  lemma MarkProcessed(processed: Map<bool>, c: Pos)
    requires processed.InBounds(c) && !processed.Get(c)
    ensures |Unprocessed(processed.Set(c, true))| < |Unprocessed(processed)|
  {
    var after := processed.Set(c, true);
    var before := Unprocessed(processed);
    assert c == Pos(c.x, c.y);
    assert c in before;
    forall p | p in Unprocessed(after) ensures p in before - {c} {
      assert p == Pos(p.x, p.y);
      assert after.InBounds(p) && !after.Get(p);
    }
    SubsetCardinality(Unprocessed(after), before - {c});
  }

  /** The state of the flood fill between two pops: the stack and the region
      hold plants `val`; `processed` is the initial flags plus the region; the
      start is processed or still on the stack; and every same-plant neighbour
      of a region cell is processed or still on the stack. */
  ghost predicate Filling(garden: Map<char>, val: char, start: Pos, processed0: Map<bool>,
                          processed: Map<bool>, stack: seq<Pos>, region: seq<Pos>)
    requires garden.ContainsIsIndexable() && garden.InBounds(start) && SameShape(garden, processed0)
  {
    && SameShape(garden, processed)
    && Uniform(garden, val, stack)
    && Distinct(region) && Uniform(garden, val, region)
    && (forall c :: c in region ==> !processed0.Get(c))
    && (forall p :: garden.InBounds(p) ==> (processed.Get(p) <==> processed0.Get(p) || p in region))
    && (processed.Get(start) || start in stack)
    && (forall c, q ::
          c in region && q in garden.Neighbors(c) && garden.Get(q) == val ==> processed.Get(q) || q in stack)
  }

  /** Popping a cell that is already processed keeps the fill state. */
  lemma FillSkip(garden: Map<char>, val: char, start: Pos, processed0: Map<bool>,
                 processed: Map<bool>, stack: seq<Pos>, current: Pos, region: seq<Pos>)
    requires garden.ContainsIsIndexable() && garden.InBounds(start) && SameShape(garden, processed0)
    requires Filling(garden, val, start, processed0, processed, stack + [current], region)
    requires garden.InBounds(current) && processed.Get(current)
    ensures Filling(garden, val, start, processed0, processed, stack, region)
  {
    forall q | q in stack + [current] && q != current ensures q in stack {
    }
  }

  /** Processing a popped cell adds it to the region and pushes its same-plant
      neighbours, and keeps the fill state. */
  lemma FillVisit(garden: Map<char>, val: char, start: Pos, processed0: Map<bool>,
                  processed: Map<bool>, stack: seq<Pos>, current: Pos, region: seq<Pos>)
    requires garden.ContainsIsIndexable() && garden.InBounds(start) && SameShape(garden, processed0)
    requires Filling(garden, val, start, processed0, processed, stack + [current], region)
    requires garden.InBounds(current) && !processed.Get(current)
    ensures NeighborsInBoundsFact(garden, current)
    ensures Filling(garden, val, start, processed0, processed.Set(current, true),
                    stack + SameOf(garden, val, garden.Neighbors(current)), region + [current])
  {
    NeighborsInBounds(garden, current);
    var after := processed.Set(current, true);
    var pushed := SameOf(garden, val, garden.Neighbors(current));
    SameOfMembers(garden, val, garden.Neighbors(current));
    var stack' := stack + pushed;
    var region' := region + [current];
    assert current in stack + [current];
    forall p | garden.InBounds(p) ensures after.Get(p) <==> processed0.Get(p) || p in region' {
    }
    forall c, q | c in region' && q in garden.Neighbors(c) && garden.Get(q) == val
      ensures after.Get(q) || q in stack'
    {
      if c == current {
        assert q in pushed;
      } else {
        assert c in region;
        NeighborsInBounds(garden, c);
        assert processed.Get(q) || q in stack + [current];
      }
    }
    assert current !in region;
    assert Distinct(region');
  }

  /** Every cell after the first is a neighbour of an earlier cell, so the
      cells are connected to the first one through neighbours. */
  ghost predicate Grown(garden: Map<char>, region: seq<Pos>)
  {
    forall k :: 0 < k < |region| ==> Reached(garden, region[..k], region[k])
  }

  /** `s` is a neighbour of one of the cells of `region`. */
  ghost predicate Reached(garden: Map<char>, region: seq<Pos>, s: Pos)
  {
    exists j :: 0 <= j < |region| && s in garden.Neighbors(region[j])
  }

  /** The connectivity half of the fill state: the region starts at `start`
      and grows through neighbours; while the region is empty the stack holds
      at most the start, and afterwards every stacked cell is a neighbour of a
      region cell. */
  ghost predicate Growing(garden: Map<char>, start: Pos, stack: seq<Pos>, region: seq<Pos>)
  {
    && (region == [] ==> stack == [] || stack == [start])
    && (region != [] ==> region[0] == start && forall s :: s in stack ==> Reached(garden, region, s))
    && Grown(garden, region)
  }

  lemma ReachedMore(garden: Map<char>, region: seq<Pos>, more: seq<Pos>, s: Pos)
    requires Reached(garden, region, s)
    ensures Reached(garden, region + more, s)
  {
    var j :| 0 <= j < |region| && s in garden.Neighbors(region[j]);
    assert (region + more)[j] == region[j];
  }

  /** Popping a processed cell keeps the connectivity state. */
  lemma GrowSkip(garden: Map<char>, start: Pos, stack: seq<Pos>, current: Pos, region: seq<Pos>)
    requires Growing(garden, start, stack + [current], region)
    ensures Growing(garden, start, stack, region)
  {
    forall s | s in stack ensures s in stack + [current] {
    }
  }

  /** Visiting a popped cell appends it to the region and stacks some of its
      neighbours, and keeps the connectivity state. */
  lemma GrowVisit(garden: Map<char>, start: Pos, stack: seq<Pos>, current: Pos, region: seq<Pos>, pushed: seq<Pos>)
    requires Growing(garden, start, stack + [current], region)
    requires forall q :: q in pushed ==> q in garden.Neighbors(current)
    ensures Growing(garden, start, stack + pushed, region + [current])
  {
    var region' := region + [current];
    var last := |region'| - 1;
    assert region'[last] == current;
    forall k | 0 < k < |region'| ensures Reached(garden, region'[..k], region'[k]) {
      if k < |region| {
        assert region'[..k] == region[..k];
      } else {
        assert region'[..k] == region;
      }
    }
    forall q | q in pushed ensures Reached(garden, region', q) {
    }
    if region == [] {
      assert stack + [current] == [start];
      assert stack == [];
    } else {
      forall s | s in stack ensures Reached(garden, region', s) {
        assert s in stack + [current];
        ReachedMore(garden, region, [current], s);
      }
    }
  }

  /** `path` runs from `start` from neighbour to neighbour over cells of
      `start`'s plant that are all in `free`. */
  ghost predicate FreePath(garden: Map<char>, free: set<Pos>, start: Pos, path: seq<Pos>)
    requires garden.InBounds(start)
  {
    && path != [] && path[0] == start
    && (forall k :: 0 <= k < |path| ==> path[k] in free && garden.InBounds(path[k]) && garden.Get(path[k]) == garden.Get(start))
    && (forall k :: 0 < k < |path| ==> path[k] in garden.Neighbors(path[k - 1]))
  }

  /** `region` is the component of `start` within `free`: it holds the end of
      every free path from `start`, and each of its cells ends one. */
  ghost predicate Component(garden: Map<char>, free: set<Pos>, start: Pos, region: seq<Pos>)
    requires garden.InBounds(start)
  {
    && (forall path: seq<Pos> :: FreePath(garden, free, start, path) ==> path[|path| - 1] in region)
    && (forall c :: c in region ==> exists path: seq<Pos> :: FreePath(garden, free, start, path) && path[|path| - 1] == c)
  }

  lemma UnprocessedMember(processed: Map<bool>, p: Pos)
    ensures p in Unprocessed(processed) <==> processed.InBounds(p) && !processed.Get(p)
  {
    if processed.InBounds(p) && !processed.Get(p) {
      assert p == Pos(p.x, p.y);
    }
  }

  /** A free path from the start ends in the region when the region holds
      the start and every free same-plant neighbour of its cells. */
  lemma {:induction false} FreePathInRegion(garden: Map<char>, free: set<Pos>, start: Pos, region: seq<Pos>, path: seq<Pos>)
    requires garden.ContainsIsIndexable() && garden.InBounds(start) && start in region
    requires forall c, q ::
      c in region && q in garden.Neighbors(c) && q in free && garden.Get(q) == garden.Get(start) ==> q in region
    requires FreePath(garden, free, start, path)
    ensures path[|path| - 1] in region
    decreases |path|
  {
    if |path| > 1 {
      var init := path[..|path| - 1];
      assert FreePath(garden, free, start, init);
      FreePathInRegion(garden, free, start, region, init);
      assert path[|path| - 1] in garden.Neighbors(path[|path| - 2]);
    }
  }

  /** Every cell of a region grown from `start` ends a free path from `start`. */
  lemma {:induction false} GrownHasPath(garden: Map<char>, free: set<Pos>, start: Pos, region: seq<Pos>, k: int)
    requires garden.InBounds(start) && region != [] && region[0] == start && Grown(garden, region)
    requires Uniform(garden, garden.Get(start), region) && forall c :: c in region ==> c in free
    requires 0 <= k < |region|
    ensures exists path: seq<Pos> :: FreePath(garden, free, start, path) && path[|path| - 1] == region[k]
    decreases k
  {
    if k == 0 {
      assert FreePath(garden, free, start, [start]);
    } else {
      assert Reached(garden, region[..k], region[k]);
      var j :| 0 <= j < k && region[k] in garden.Neighbors(region[..k][j]);
      assert region[..k][j] == region[j];
      GrownHasPath(garden, free, start, region, j);
      var path: seq<Pos> :| FreePath(garden, free, start, path) && path[|path| - 1] == region[j];
      assert region[k] in region;
      FreePathAppend(garden, free, start, path, region[k]);
    }
  }

  /** A free path followed by a free same-plant neighbour of its end is a free path. */
  lemma FreePathAppend(garden: Map<char>, free: set<Pos>, start: Pos, path: seq<Pos>, q: Pos)
    requires garden.InBounds(start) && FreePath(garden, free, start, path)
    requires q in free && garden.InBounds(q) && garden.Get(q) == garden.Get(start)
    requires q in garden.Neighbors(path[|path| - 1])
    ensures FreePath(garden, free, start, path + [q]) && (path + [q])[|path|] == q
  {
    var path' := path + [q];
    forall k | 0 < k < |path'| ensures path'[k] in garden.Neighbors(path'[k - 1]) {
      if k < |path| {
        assert path'[k] == path[k] && path'[k - 1] == path[k - 1];
      }
    }
  }

  /** A region grown from `start`, of its plant, inside `free` and holding
      every free same-plant neighbour of its cells is the component of
      `start` within `free`. */
  lemma ClosedGrownIsComponent(garden: Map<char>, free: set<Pos>, start: Pos, region: seq<Pos>)
    requires garden.ContainsIsIndexable() && garden.InBounds(start)
    requires region != [] && region[0] == start && Grown(garden, region)
    requires Uniform(garden, garden.Get(start), region) && forall c :: c in region ==> c in free
    requires forall c, q ::
      c in region && q in garden.Neighbors(c) && q in free && garden.Get(q) == garden.Get(start) ==> q in region
    ensures Component(garden, free, start, region)
  {
    assert start in region;
    forall path: seq<Pos> | FreePath(garden, free, start, path) ensures path[|path| - 1] in region {
      FreePathInRegion(garden, free, start, region, path);
    }
    forall c | c in region
      ensures exists path: seq<Pos> :: FreePath(garden, free, start, path) && path[|path| - 1] == c
    {
      var k :| 0 <= k < |region| && region[k] == c;
      GrownHasPath(garden, free, start, region, k);
    }
  }

  /** What a finished fill from an unprocessed start gives (the contract of
      `ComputePrice`): the region is the component of `start` among the
      cells not processed before. */
  lemma FillIsComponent(garden: Map<char>, start: Pos, processed0: Map<bool>, processed: Map<bool>, region: seq<Pos>)
    requires garden.ContainsIsIndexable() && garden.InBounds(start)
    requires SameShape(garden, processed0) && SameShape(garden, processed)
    requires forall p :: garden.InBounds(p) ==> (processed.Get(p) <==> processed0.Get(p) || p in region)
    requires Uniform(garden, garden.Get(start), region)
    requires forall c :: c in region ==> !processed0.Get(c)
    requires region != [] && region[0] == start && Grown(garden, region)
    requires forall c, q :: c in region && q in garden.Neighbors(c) && garden.Get(q) == garden.Get(start) ==> processed.Get(q)
    ensures Component(garden, Unprocessed(processed0), start, region)
  {
    var free := Unprocessed(processed0);
    forall c | c in region ensures c in free {
      UnprocessedMember(processed0, c);
    }
    forall c, q | c in region && q in garden.Neighbors(c) && q in free && garden.Get(q) == garden.Get(start)
      ensures q in region
    {
      UnprocessedMember(processed0, q);
    }
    ClosedGrownIsComponent(garden, free, start, region);
  }

  predicate NeighborsInBoundsFact(garden: Map<char>, c: Pos)
    requires garden.ContainsIsIndexable()
  {
    forall q :: q in garden.Neighbors(c) ==> garden.InBounds(q) && Adjacent(c, q)
  }

  lemma UnionAssoc(a: set<Border>, b: set<Border>, c: set<Border>, d: set<Border>)
    ensures a + b + c + d == a + (b + c + d)
  {
  }

  lemma AppendAssoc(a: seq<Pos>, b: seq<Pos>, c: seq<Pos>)
    ensures (a + b) + c == a + (b + c)
  {
  }

  /** One more neighbour extends the three accumulators of the neighbour loop. */
  lemma PrefixStep(garden: Map<char>, val: char, c: Pos, ns: seq<Pos>, j: nat)
    requires forall q :: q in ns ==> garden.InBounds(q) && Adjacent(c, q)
    requires j < |ns|
    ensures SameOf(garden, val, ns[..j + 1])
         == SameOf(garden, val, ns[..j]) + if garden.Get(ns[j]) == val then [ns[j]] else []
    ensures DiffCount(garden, val, ns[..j + 1])
         == DiffCount(garden, val, ns[..j]) + if garden.Get(ns[j]) == val then 0 else 1
    ensures NeighbourBorders(garden, val, c, ns[..j + 1])
         == NeighbourBorders(garden, val, c, ns[..j]) + if garden.Get(ns[j]) == val then {} else {(c, GetDirection(c, ns[j]))}
  {
    assert ns[..j + 1][..j] == ns[..j];
    assert ns[j] in ns;
  }

  /** The neighbour loop of the pop loop over the neighbours `ns` of `current`:
      push the same-plant neighbours, count and record the border segments
      towards the others. */
  method VisitNeighbours(garden: Map<char>, val: char, current: Pos, ns: seq<Pos>,
                         stack0: seq<Pos>, border0: nat, borders0: set<Border>)
    returns (stack: seq<Pos>, border: nat, borders: set<Border>)
    requires forall q :: q in ns ==> garden.InBounds(q) && Adjacent(current, q)
    ensures stack == stack0 + SameOf(garden, val, ns)
    ensures border == border0 + DiffCount(garden, val, ns)
    ensures borders == borders0 + NeighbourBorders(garden, val, current, ns)
  {
    stack, border, borders := stack0, border0, borders0;
    for j := 0 to |ns|
      invariant stack == stack0 + SameOf(garden, val, ns[..j])
      invariant border == border0 + DiffCount(garden, val, ns[..j])
      invariant borders == borders0 + NeighbourBorders(garden, val, current, ns[..j])
    {
      var neighbour := ns[j];
      PrefixStep(garden, val, current, ns, j);
      if garden.Get(neighbour) == val {
        AppendAssoc(stack0, SameOf(garden, val, ns[..j]), [neighbour]);
        stack := stack + [neighbour];
      } else {
        border := border + 1;
        borders := borders + {(current, GetDirection(current, neighbour))};
      }
    }
    assert ns[..|ns|] == ns;
  }

  /** The grid-edge part of the pop loop: one border unit for a cell in the
      first or last column and one for a cell in the first or last row. */
  method AddEdges(garden: Map<char>, current: Pos, border0: nat, borders0: set<Border>)
    returns (border: nat, borders: set<Border>)
    ensures border == border0 + EdgeCountX(garden, current) + EdgeCountY(garden, current)
    ensures borders == borders0 + EdgeBordersX(garden, current) + EdgeBordersY(garden, current)
  {
    border, borders := border0, borders0;
    if current.x == 0 || current.x == garden.size.x - 1 {
      border := border + 1;
      if current.x == 0 {
        borders := borders + {(current, Left)};
      } else {
        borders := borders + {(current, Right)};
      }
    }
    assert borders == borders0 + EdgeBordersX(garden, current);
    ghost var mid := borders;
    if current.y == 0 || current.y == garden.size.y - 1 {
      border := border + 1;
      if current.y == 0 {
        borders := borders + {(current, Up)};
      } else {
        borders := borders + {(current, Down)};
      }
    }
    assert borders == mid + EdgeBordersY(garden, current);
  }

  /** The body of the pop loop for a cell not yet processed: the neighbour loop,
      then the grid edges. */
  method VisitCell(garden: Map<char>, val: char, current: Pos, stack0: seq<Pos>, border0: nat, borders0: set<Border>)
    returns (stack: seq<Pos>, border: nat, borders: set<Border>)
    requires garden.ContainsIsIndexable()
    ensures stack == stack0 + SameOf(garden, val, garden.Neighbors(current))
    ensures border == border0 + CellBorder(garden, val, current)
    ensures borders == borders0 + CellBorders(garden, val, current)
  {
    NeighborsInBounds(garden, current);
    stack, border, borders := VisitNeighbours(garden, val, current, garden.Neighbors(current), stack0, border0, borders0);
    ghost var nb := NeighbourBorders(garden, val, current, garden.Neighbors(current));
    border, borders := AddEdges(garden, current, border, borders);
    UnionAssoc(borders0, nb, EdgeBordersX(garden, current), EdgeBordersY(garden, current));
  }

  /** Popping the last element of a non-empty stack. */
  lemma PopLast(s: seq<Pos>)
    requires s != []
    ensures s == s[..|s| - 1] + [s[|s| - 1]] && s[|s| - 1] in s
  {
  }

  /** One pass of the pop loop of `compute_price`: pop the last stacked cell;
      skip it if it is processed, otherwise add it to the region, mark it,
      count and record its border segments and stack its same-plant
      neighbours. Either a cell is newly processed or the stack shrinks. */
  method PopStep(garden: Map<char>, val: char, start: Pos, processed0: Map<bool>,
                 processed: Map<bool>, stack: seq<Pos>, ghost region: seq<Pos>,
                 area: nat, border: nat, borders: set<Border>)
    returns (processed': Map<bool>, stack': seq<Pos>, ghost region': seq<Pos>,
             area': nat, border': nat, borders': set<Border>)
    requires garden.ContainsIsIndexable() && garden.InBounds(start) && SameShape(garden, processed0)
    requires stack != []
    requires Filling(garden, val, start, processed0, processed, stack, region)
    requires Growing(garden, start, stack, region)
    requires area == |region| && border == RegionBorder(garden, val, region)
    requires borders == RegionBorders(garden, val, region)
    ensures Filling(garden, val, start, processed0, processed', stack', region')
    ensures Growing(garden, start, stack', region')
    ensures area' == |region'| && border' == RegionBorder(garden, val, region')
    ensures borders' == RegionBorders(garden, val, region')
    ensures |Unprocessed(processed')| < |Unprocessed(processed)| || (processed' == processed && |stack'| < |stack|)
  {
    PopLast(stack);
    var current := stack[|stack| - 1];
    stack' := stack[..|stack| - 1];
    processed', region', area', border', borders' := processed, region, area, border, borders;
    assert garden.InBounds(current);
    if processed.Get(current) {
      FillSkip(garden, val, start, processed0, processed, stack', current, region);
      GrowSkip(garden, start, stack', current, region);
      return;
    }
    FillVisit(garden, val, start, processed0, processed, stack', current, region);
    SameOfMembers(garden, val, garden.Neighbors(current));
    GrowVisit(garden, start, stack', current, region, SameOf(garden, val, garden.Neighbors(current)));
    area' := area + 1;
    stack', border', borders' := VisitCell(garden, val, current, stack', border, borders);
    MarkProcessed(processed, current);
    processed' := processed.Set(current, true);
    assert (region + [current])[..|region|] == region;
    region' := region + [current];
  }

  /** `compute_price`: a depth-first flood fill from `start` over the neighbours
      with the same plant, skipping cells already processed. It returns the
      area, the border count and the number of sides of the cells it
      processes, in the order `region` gives them. */
  method ComputePrice(garden: Map<char>, start: Pos, processed0: Map<bool>)
    returns (area: nat, border: nat, numSides: nat, processed: Map<bool>, ghost region: seq<Pos>)
    requires garden.ContainsIsIndexable() && garden.InBounds(start) && SameShape(garden, processed0)
    ensures SameShape(garden, processed)
    ensures forall p :: garden.InBounds(p) ==> (processed.Get(p) <==> processed0.Get(p) || p in region)
    ensures Distinct(region) && Uniform(garden, garden.Get(start), region)
    ensures forall c :: c in region ==> !processed0.Get(c)
    ensures !processed0.Get(start) ==> start in region
    ensures region != [] ==> region[0] == start
    ensures processed0.Get(start) ==> region == []
    ensures Grown(garden, region)
    ensures forall c, q :: c in region && q in garden.Neighbors(c) && garden.Get(q) == garden.Get(start) ==> processed.Get(q)
    ensures area == |region|
    ensures border == RegionBorder(garden, garden.Get(start), region)
    ensures numSides == |RunStarts(RegionBorders(garden, garden.Get(start), region))|
  {
    var stack := [start];
    area := 0;
    border := 0;
    var borders: set<Border> := {};
    var val := garden.Get(start);
    processed := processed0;
    region := [];
    while stack != []
      invariant Filling(garden, val, start, processed0, processed, stack, region)
      invariant Growing(garden, start, stack, region)
      invariant area == |region| && border == RegionBorder(garden, val, region)
      invariant borders == RegionBorders(garden, val, region)
      decreases |Unprocessed(processed)|, |stack|
    {
      processed, stack, region, area, border, borders :=
        PopStep(garden, val, start, processed0, processed, stack, region, area, border, borders);
    }
    numSides := GetNumSides(borders);
  }

  /** The cells of the regions, region by region. */
  ghost function Cells(regions: seq<seq<Pos>>): seq<Pos>
  {
    if regions == [] then [] else Cells(regions[..|regions| - 1]) + regions[|regions| - 1]
  }

  /** A region's part-one price: its area times its border count. */
  function RegionPrice(garden: Map<char>, r: seq<Pos>): nat
    requires garden.ContainsIsIndexable() && IsRegion(garden, r)
  {
    var b := RegionBorder(garden, garden.Get(r[0]), r);
    MulMonotone(|r|, 0, b);
    |r| * b
  }

  /** A region's part-two price: its area times its number of sides. */
  function RegionDiscount(garden: Map<char>, r: seq<Pos>): nat
    requires garden.ContainsIsIndexable() && IsRegion(garden, r)
  {
    var n := |RunStarts(RegionBorders(garden, garden.Get(r[0]), r))|;
    MulMonotone(|r|, 0, n);
    |r| * n
  }

  /** The part-one total: each region's area times its border count. */
  ghost function Price(garden: Map<char>, regions: seq<seq<Pos>>): nat
    requires garden.ContainsIsIndexable()
    requires forall i :: 0 <= i < |regions| ==> IsRegion(garden, regions[i])
  {
    if regions == [] then 0
    else
      var r := regions[|regions| - 1];
      Price(garden, regions[..|regions| - 1]) + RegionPrice(garden, r)
  }

  /** The part-two total: each region's area times its number of sides. */
  ghost function DiscountPrice(garden: Map<char>, regions: seq<seq<Pos>>): nat
    requires garden.ContainsIsIndexable()
    requires forall i :: 0 <= i < |regions| ==> IsRegion(garden, regions[i])
  {
    if regions == [] then 0
    else
      var r := regions[|regions| - 1];
      DiscountPrice(garden, regions[..|regions| - 1]) + RegionDiscount(garden, r)
  }

  /** A region: non-empty, without repeats, and of one plant. */
  predicate IsRegion(garden: Map<char>, r: seq<Pos>)
  {
    r != [] && garden.InBounds(r[0]) && Distinct(r) && Uniform(garden, garden.Get(r[0]), r)
  }

  /** The state of the scan in `solve`: the processed cells are exactly the cells
      of the regions found so far, no cell is in two regions, and every
      same-plant neighbour of a cell of region `i` is in region `i` or an
      earlier one. */
  ghost predicate Scan(garden: Map<char>, processed: Map<bool>, regions: seq<seq<Pos>>)
    requires garden.ContainsIsIndexable()
  {
    && SameShape(garden, processed)
    && (forall p :: garden.InBounds(p) ==> (processed.Get(p) <==> p in Cells(regions)))
    && Distinct(Cells(regions))
    && (forall i :: 0 <= i < |regions| ==> IsRegion(garden, regions[i]))
    && ClosedSoFar(garden, regions)
    && (forall i :: 0 <= i < |regions| ==> Grown(garden, regions[i]))
  }

  /** The cells of the map that are not among `done`. */
  ghost function Free(garden: Map<char>, done: seq<Pos>): set<Pos>
  {
    set y, x | 0 <= y < |garden.data| && 0 <= x < |garden.data[y]| && Pos(x, y) !in done :: Pos(x, y)
  }

  /** Each region `i` is the component of its first cell among the cells of
      no earlier region. */
  ghost predicate Components(garden: Map<char>, regions: seq<seq<Pos>>)
  {
    forall i :: 0 <= i < |regions| ==>
      IsRegion(garden, regions[i]) && Component(garden, Free(garden, Cells(regions[..i])), regions[i][0], regions[i])
  }

  /** Every same-plant neighbour of a cell of region `i` is in region `i` or an
      earlier one. */
  ghost predicate ClosedSoFar(garden: Map<char>, regions: seq<seq<Pos>>)
    requires garden.ContainsIsIndexable()
  {
    forall i, c, q ::
      (0 <= i < |regions| && c in regions[i] && garden.InBounds(c) && q in garden.Neighbors(c) &&
       garden.InBounds(q) && garden.Get(q) == garden.Get(c)) ==> q in Cells(regions[..i + 1])
  }

  lemma DistinctAppend(a: seq<Pos>, b: seq<Pos>)
    requires Distinct(a) && Distinct(b) && forall x :: x in b ==> x !in a
    ensures Distinct(a + b)
  {
    forall i, j | 0 <= i < j < |a + b| ensures (a + b)[i] != (a + b)[j] {
      if i < |a| && j >= |a| {
        assert (a + b)[j] in b;
      }
    }
  }

  /** The scan starts with nothing processed and no regions. */
  lemma ScanStart(garden: Map<char>, processed: Map<bool>)
    requires garden.ContainsIsIndexable() && SameShape(garden, processed)
    requires forall p :: garden.InBounds(p) ==> !processed.Get(p)
    ensures Scan(garden, processed, [])
  {
  }

  lemma CellsAppend(regions: seq<seq<Pos>>, region: seq<Pos>)
    ensures Cells(regions + [region]) == Cells(regions) + region
  {
    assert (regions + [region])[..|regions|] == regions;
  }

  lemma PrefixAppend(regions: seq<seq<Pos>>, region: seq<Pos>, i: int)
    requires 0 <= i < |regions|
    ensures (regions + [region])[..i + 1] == regions[..i + 1]
  {
  }

  /** The closure property survives appending a region that is closed up to
      what was processed before it. */
  lemma ClosedStep(garden: Map<char>, val: char, regions: seq<seq<Pos>>, region: seq<Pos>,
                   processed: Map<bool>, processed': Map<bool>)
    requires garden.ContainsIsIndexable() && ClosedSoFar(garden, regions)
    requires SameShape(garden, processed) && SameShape(garden, processed')
    requires forall p :: garden.InBounds(p) ==> (processed.Get(p) <==> p in Cells(regions))
    requires forall p :: garden.InBounds(p) ==> (processed'.Get(p) <==> processed.Get(p) || p in region)
    requires Uniform(garden, val, region)
    requires forall c, q :: c in region && q in garden.Neighbors(c) && garden.Get(q) == val ==> processed'.Get(q)
    ensures ClosedSoFar(garden, regions + [region])
  {
    var regions' := regions + [region];
    CellsAppend(regions, region);
    forall i, c, q |
      0 <= i < |regions'| && c in regions'[i] && garden.InBounds(c) && q in garden.Neighbors(c) &&
      garden.InBounds(q) && garden.Get(q) == garden.Get(c)
      ensures q in Cells(regions'[..i + 1])
    {
      if i < |regions| {
        PrefixAppend(regions, region, i);
      } else {
        assert regions'[..i + 1] == regions';
      }
    }
  }

  /** A flood fill from an unprocessed cell adds one region and keeps the scan state. */
  lemma ScanStep(garden: Map<char>, processed: Map<bool>, regions: seq<seq<Pos>>, start: Pos,
                 processed': Map<bool>, region: seq<Pos>)
    requires garden.ContainsIsIndexable() && Scan(garden, processed, regions)
    requires garden.InBounds(start) && !processed.Get(start)
    requires SameShape(garden, processed')
    requires forall p :: garden.InBounds(p) ==> (processed'.Get(p) <==> processed.Get(p) || p in region)
    requires Distinct(region) && Uniform(garden, garden.Get(start), region)
    requires forall c :: c in region ==> !processed.Get(c)
    requires start in region && region[0] == start && Grown(garden, region)
    requires forall c, q :: c in region && q in garden.Neighbors(c) && garden.Get(q) == garden.Get(start) ==> processed'.Get(q)
    ensures Scan(garden, processed', regions + [region])
  {
    CellsAppend(regions, region);
    forall x | x in region ensures x !in Cells(regions) {
    }
    DistinctAppend(Cells(regions), region);
    assert IsRegion(garden, region);
    ClosedStep(garden, garden.Get(start), regions, region, processed, processed');
    GrownAppend(garden, regions, region);
  }

  lemma GrownAppend(garden: Map<char>, regions: seq<seq<Pos>>, region: seq<Pos>)
    requires (forall i :: 0 <= i < |regions| ==> Grown(garden, regions[i])) && Grown(garden, region)
    ensures forall i :: 0 <= i < |regions + [region]| ==> Grown(garden, (regions + [region])[i])
  {
    forall i | 0 <= i < |regions + [region]| ensures Grown(garden, (regions + [region])[i]) {
      if i < |regions| {
        assert (regions + [region])[i] == regions[i];
      }
    }
  }

  /** Appending a region adds its price to both totals. */
  lemma PriceAppend(garden: Map<char>, regions: seq<seq<Pos>>, r: seq<Pos>)
    requires garden.ContainsIsIndexable()
    requires forall i :: 0 <= i < |regions| ==> IsRegion(garden, regions[i])
    requires IsRegion(garden, r)
    ensures Price(garden, regions + [r]) == Price(garden, regions) + RegionPrice(garden, r)
    ensures DiscountPrice(garden, regions + [r]) == DiscountPrice(garden, regions) + RegionDiscount(garden, r)
  {
    assert (regions + [r])[..|regions|] == regions;
  }

  /** Every cell before `(x, y)` in row-major order is processed. */
  ghost predicate ScannedUpTo(garden: Map<char>, processed: Map<bool>, y: int, x: int)
    requires SameShape(garden, processed)
  {
    forall p :: garden.InBounds(p) && (p.y < y || (p.y == y && p.x < x)) ==> processed.Get(p)
  }

  /** Processing `(x, y)` without unprocessing anything moves the scan on by one cell. */
  lemma ScannedNext(garden: Map<char>, before: Map<bool>, after: Map<bool>, y: int, x: int)
    requires SameShape(garden, before) && SameShape(garden, after)
    requires ScannedUpTo(garden, before, y, x)
    requires forall p :: garden.InBounds(p) && before.Get(p) ==> after.Get(p)
    requires garden.InBounds(Pos(x, y)) && after.Get(Pos(x, y))
    ensures ScannedUpTo(garden, after, y, x + 1)
  {
  }

  /** A finished row moves the scan to the start of the next. */
  lemma ScannedRow(garden: Map<char>, processed: Map<bool>, y: int)
    requires garden.ContainsIsIndexable() && SameShape(garden, processed)
    requires ScannedUpTo(garden, processed, y, garden.size.x)
    ensures ScannedUpTo(garden, processed, y + 1, 0)
  {
  }

  /** The scan state together with the two running totals. */
  ghost predicate Totals(garden: Map<char>, processed: Map<bool>, regions: seq<seq<Pos>>, result1: nat, result2: nat)
    requires garden.ContainsIsIndexable()
  {
    Scan(garden, processed, regions) && result1 == Price(garden, regions) && result2 == DiscountPrice(garden, regions)
  }

  /** The body of the scan in `solve` for the cell `pos`: skip it if processed,
      otherwise flood-fill its region and add the region's prices. */
  method ScanCell(garden: Map<char>, pos: Pos, processed0: Map<bool>, ghost regions0: seq<seq<Pos>>,
                  result10: nat, result20: nat)
    returns (processed: Map<bool>, ghost regions: seq<seq<Pos>>, result1: nat, result2: nat)
    requires garden.ContainsIsIndexable() && garden.InBounds(pos)
    requires Totals(garden, processed0, regions0, result10, result20)
    ensures Totals(garden, processed, regions, result1, result2)
    ensures SameShape(garden, processed) && processed.Get(pos)
    ensures forall p :: garden.InBounds(p) && processed0.Get(p) ==> processed.Get(p)
  {
    processed, regions, result1, result2 := processed0, regions0, result10, result20;
    if processed.Get(pos) {
      return;
    }
    var area, numBorders, numSides;
    ghost var region;
    area, numBorders, numSides, processed, region := ComputePrice(garden, pos, processed0);
    ScanStep(garden, processed0, regions0, pos, processed, region);
    PriceAppend(garden, regions0, region);
    assert area * numBorders == RegionPrice(garden, region);
    assert area * numSides == RegionDiscount(garden, region);
    result1 := result1 + area * numBorders;
    result2 := result2 + area * numSides;
    regions := regions0 + [region];
  }

  /** `solve`: scan the map row by row; every cell not yet processed starts a
      flood fill whose region's prices are added to the totals. The regions
      cover the map, are disjoint and each of one plant, and every same-plant
      neighbour of a region's cell is in that region or an earlier one. */
  method Solve(garden: Map<char>) returns (result1: nat, result2: nat, ghost regions: seq<seq<Pos>>)
    requires garden.ContainsIsIndexable()
    ensures forall p :: garden.InBounds(p) ==> p in Cells(regions)
    ensures forall i :: 0 <= i < |regions| ==> IsRegion(garden, regions[i])
    ensures Distinct(Cells(regions))
    ensures ClosedSoFar(garden, regions)
    ensures forall i :: 0 <= i < |regions| ==> Grown(garden, regions[i])
    ensures Components(garden, regions)
    ensures result1 == Price(garden, regions)
    ensures result2 == DiscountPrice(garden, regions)
    ensures result2 <= result1
  {
    var processed := Map(garden.size, seq(garden.size.y, _ => seq(garden.size.x, _ => false)));
    result1, result2 := 0, 0;
    regions := [];
    ScanStart(garden, processed);
    for y := 0 to garden.size.y
      invariant Totals(garden, processed, regions, result1, result2)
      invariant ScannedUpTo(garden, processed, y, 0)
    {
      for x := 0 to garden.size.x
        invariant Totals(garden, processed, regions, result1, result2)
        invariant ScannedUpTo(garden, processed, y, x)
      {
        ghost var before := processed;
        processed, regions, result1, result2 := ScanCell(garden, Pos(x, y), processed, regions, result1, result2);
        ScannedNext(garden, before, processed, y, x);
      }
      ScannedRow(garden, processed, y);
    }
    ScannedRow(garden, processed, garden.size.y - 1);
    DiscountAtMostPrice(garden, regions);
    RegionsAreComponents(garden, regions);
  }

  lemma MulMonotone(n: nat, a: nat, b: nat)
    requires a <= b
    ensures n * a <= n * b
  {
  }

  /** A region's part-two price never exceeds its part-one price. */
  lemma RegionDiscountAtMost(garden: Map<char>, r: seq<Pos>)
    requires garden.ContainsIsIndexable() && IsRegion(garden, r)
    ensures RegionDiscount(garden, r) <= RegionPrice(garden, r)
  {
    var val := garden.Get(r[0]);
    SidesAtMostBorder(garden, val, r);
    MulMonotone(|r|, |RunStarts(RegionBorders(garden, val, r))|, RegionBorder(garden, val, r));
  }

  /** The part-two total never exceeds the part-one total. */
  lemma {:induction false} DiscountAtMostPrice(garden: Map<char>, regions: seq<seq<Pos>>)
    requires garden.ContainsIsIndexable()
    requires forall i :: 0 <= i < |regions| ==> IsRegion(garden, regions[i])
    ensures DiscountPrice(garden, regions) <= Price(garden, regions)
  {
    if regions != [] {
      var init := regions[..|regions| - 1];
      var r := regions[|regions| - 1];
      DiscountAtMostPrice(garden, init);
      RegionDiscountAtMost(garden, r);
    }
  }

  /** A cell is in `Cells(rs)` exactly when it is in one of the regions. */
  lemma {:induction false} CellsMember(rs: seq<seq<Pos>>, x: Pos)
    ensures x in Cells(rs) <==> exists j :: 0 <= j < |rs| && x in rs[j]
  {
    if rs != [] {
      var init := rs[..|rs| - 1];
      CellsMember(init, x);
      if x in Cells(rs) && x !in rs[|rs| - 1] {
        var j :| 0 <= j < |init| && x in init[j];
        assert x in rs[j];
      }
    }
  }

  /** A cell of the first `n` regions is in one of them. */
  lemma CellsPrefixMember(rs: seq<seq<Pos>>, n: int, x: Pos)
    requires 0 <= n <= |rs| && x in Cells(rs[..n])
    ensures exists j :: 0 <= j < n && x in rs[j]
  {
    CellsMember(rs[..n], x);
    var j :| 0 <= j < n && x in rs[..n][j];
    assert rs[..n][j] == rs[j];
  }

  /** The two halves of a sequence without repeats are without repeats and
      share no element. */
  lemma DistinctSplit(a: seq<Pos>, b: seq<Pos>)
    requires Distinct(a + b)
    ensures Distinct(a) && Distinct(b)
    ensures forall x :: x in a ==> x !in b
  {
    forall i, k | 0 <= i < |a| && 0 <= k < |b| ensures a[i] != b[k] {
      assert (a + b)[i] == a[i] && (a + b)[|a| + k] == b[k];
    }
    forall i, j | 0 <= i < j < |a| ensures a[i] != a[j] {
      assert (a + b)[i] == a[i] && (a + b)[j] == a[j];
    }
    forall i, j | 0 <= i < j < |b| ensures b[i] != b[j] {
      assert (a + b)[|a| + i] == b[i] && (a + b)[|a| + j] == b[j];
    }
  }

  /** Without repeats in `Cells(rs)`, no cell is in two regions. */
  lemma {:induction false} CellsDisjoint(rs: seq<seq<Pos>>, a: int, b: int, x: Pos)
    requires Distinct(Cells(rs)) && 0 <= a < b < |rs| && x in rs[a]
    ensures x !in rs[b]
  {
    var init := rs[..|rs| - 1];
    DistinctSplit(Cells(init), rs[|rs| - 1]);
    if b == |rs| - 1 {
      CellsMember(init, x);
      assert x in init[a];
    } else {
      CellsDisjoint(init, a, b, x);
    }
  }

  /** On a square map `neighbors` is symmetric between cells of the map. */
  lemma NeighborsSymmetric(garden: Map<char>, c: Pos, q: Pos)
    requires garden.ContainsIsIndexable() && garden.size.x == garden.size.y
    requires garden.InBounds(c) && q in garden.Neighbors(c)
    ensures c in garden.Neighbors(q)
  {
  }

  /** On a square map the regions that `solve` finds are closed: every
      same-plant neighbour of a region's cell is in the same region. */
  lemma RegionsClosed(garden: Map<char>, regions: seq<seq<Pos>>)
    requires garden.ContainsIsIndexable() && garden.size.x == garden.size.y
    requires forall i :: 0 <= i < |regions| ==> IsRegion(garden, regions[i])
    requires Distinct(Cells(regions)) && ClosedSoFar(garden, regions)
    ensures forall i, c, q ::
      (0 <= i < |regions| && c in regions[i] && garden.InBounds(c) && q in garden.Neighbors(c) &&
       garden.InBounds(q) && garden.Get(q) == garden.Get(c)) ==> q in regions[i]
  {
    forall i, c, q |
      0 <= i < |regions| && c in regions[i] && garden.InBounds(c) && q in garden.Neighbors(c) &&
      garden.InBounds(q) && garden.Get(q) == garden.Get(c)
      ensures q in regions[i]
    {
      SameRegion(garden, regions, i, c, q);
    }
  }

  /** The regions of a finished scan, each grown from its first cell and
      closed up to the earlier regions, are the components of their first
      cells among the cells of no earlier region. */
  lemma RegionsAreComponents(garden: Map<char>, regions: seq<seq<Pos>>)
    requires garden.ContainsIsIndexable()
    requires forall i :: 0 <= i < |regions| ==> IsRegion(garden, regions[i])
    requires Distinct(Cells(regions)) && ClosedSoFar(garden, regions)
    requires forall i :: 0 <= i < |regions| ==> Grown(garden, regions[i])
    ensures Components(garden, regions)
  {
    forall i | 0 <= i < |regions|
      ensures IsRegion(garden, regions[i]) && Component(garden, Free(garden, Cells(regions[..i])), regions[i][0], regions[i])
    {
      assert IsRegion(garden, regions[i]);
      RegionInFree(garden, regions, i);
      RegionClosedInFree(garden, regions, i);
      ClosedGrownIsComponent(garden, Free(garden, Cells(regions[..i])), regions[i][0], regions[i]);
    }
  }

  /** The cells of region `i` are free of the earlier regions. */
  lemma RegionInFree(garden: Map<char>, regions: seq<seq<Pos>>, i: int)
    requires Distinct(Cells(regions)) && 0 <= i < |regions|
    requires forall c :: c in regions[i] ==> garden.InBounds(c)
    ensures forall c :: c in regions[i] ==> c in Free(garden, Cells(regions[..i]))
  {
    forall c | c in regions[i] ensures c in Free(garden, Cells(regions[..i])) {
      if i > 0 {
        NotInEarlier(regions, i - 1, i, c);
        assert regions[..i - 1 + 1] == regions[..i];
      }
      FreeMember(garden, Cells(regions[..i]), c);
    }
  }

  lemma FreeMember(garden: Map<char>, done: seq<Pos>, p: Pos)
    ensures p in Free(garden, done) <==> garden.InBounds(p) && p !in done
  {
    if garden.InBounds(p) && p !in done {
      assert p == Pos(p.x, p.y);
    }
  }

  /** A free same-plant neighbour of a cell of region `i` is in region `i`. */
  lemma RegionClosedInFree(garden: Map<char>, regions: seq<seq<Pos>>, i: int)
    requires garden.ContainsIsIndexable() && ClosedSoFar(garden, regions)
    requires 0 <= i < |regions| && IsRegion(garden, regions[i])
    ensures forall c, q ::
      (c in regions[i] && q in garden.Neighbors(c) && q in Free(garden, Cells(regions[..i])) &&
       garden.Get(q) == garden.Get(regions[i][0])) ==> q in regions[i]
  {
    var r := regions[i];
    CellsAppend(regions[..i], r);
    assert regions[..i + 1] == regions[..i] + [r];
    forall c, q | c in r && q in garden.Neighbors(c) && q in Free(garden, Cells(regions[..i])) && garden.Get(q) == garden.Get(r[0])
      ensures q in r
    {
      assert q in Cells(regions[..i + 1]);
    }
  }

  /** A cell of region `i` is in none of the regions before it. */
  lemma NotInEarlier(regions: seq<seq<Pos>>, j: int, i: int, c: Pos)
    requires Distinct(Cells(regions)) && 0 <= j < i < |regions| && c in regions[i]
    ensures c !in Cells(regions[..j + 1])
  {
    if c in Cells(regions[..j + 1]) {
      CellsPrefixMember(regions, j + 1, c);
      var k :| 0 <= k <= j && c in regions[k];
      CellsDisjoint(regions, k, i, c);
    }
  }

  lemma SameRegion(garden: Map<char>, regions: seq<seq<Pos>>, i: int, c: Pos, q: Pos)
    requires garden.ContainsIsIndexable() && garden.size.x == garden.size.y
    requires forall i :: 0 <= i < |regions| ==> IsRegion(garden, regions[i])
    requires Distinct(Cells(regions)) && ClosedSoFar(garden, regions)
    requires 0 <= i < |regions| && c in regions[i] && q in garden.Neighbors(c)
    requires garden.InBounds(c) && garden.InBounds(q) && garden.Get(q) == garden.Get(c)
    ensures q in regions[i]
  {
    assert q in Cells(regions[..i + 1]);
    CellsPrefixMember(regions, i + 1, q);
    var j :| 0 <= j <= i && q in regions[j];
    if j < i {
      NeighborsSymmetric(garden, c, q);
      NotInEarlier(regions, j, i, c);
    }
  }
}
