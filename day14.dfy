/** Day 14: robots moving with constant velocity on a wrapping grid; the safety
    factor is the product of the robot counts in the four quadrants. */
module Day14 {
  import opened Common
  import opened Grid

  datatype Robot = Robot(position: Pos, velocity: Pos)

  /** `get_quadrant`: none on the middle column or row; otherwise 1 for the
      right half plus 2 for the lower half. */
  function GetQuadrant(pos: Pos, size: Pos): (q: Option<nat>)
    ensures q.None? <==> pos.x == DivTrunc(size.x, 2) || pos.y == DivTrunc(size.y, 2)
    ensures q.Some? ==> q.value < 4
    ensures q.Some? ==> (q.value % 2 == 1 <==> pos.x > DivTrunc(size.x, 2))
    ensures q.Some? ==> (q.value >= 2 <==> pos.y > DivTrunc(size.y, 2))
  {
    var halfWidth := DivTrunc(size.x, 2);
    var halfHeight := DivTrunc(size.y, 2);
    if pos.x == halfWidth || pos.y == halfHeight then None
    else
      var xq := if pos.x > halfWidth then 1 else 0;
      var yq := if pos.y > halfHeight then 2 else 0;
      Some(xq + yq)
  }

  /** The time `solve` looks ahead. */
  const Seconds: int := 100

  /** Where a robot is after the given seconds, wrapped onto the grid. */
  function Final(robot: Robot, size: Pos): (p: Pos)
    requires size.x != 0 && size.y != 0
  {
    Rem(Add(robot.position, Mul(robot.velocity, Seconds)), size)
  }

  /** On a grid of positive size the wrapped position is a cell of the grid. */
  lemma FinalInGrid(robot: Robot, size: Pos)
    requires size.x > 0 && size.y > 0
    ensures 0 <= Final(robot, size).x < size.x && 0 <= Final(robot, size).y < size.y
  {
  }

  /** The fold of `solve`: one counter per quadrant, each robot adding one to
      the counter of its quadrant, if any. */
  function Tally(positions: seq<Pos>, size: Pos): (counts: seq<nat>)
    ensures |counts| == 4
  {
    if positions == [] then [0, 0, 0, 0]
    else
      var counts := Tally(positions[1..], size);
      match GetQuadrant(positions[0], size)
      case None => counts
      case Some(q) => counts[q := counts[q] + 1]
  }

  predicate InQuadrant(size: Pos, q: nat, p: Pos)
  {
    GetQuadrant(p, size) == Some(q)
  }

  predicate OnMiddle(size: Pos, p: Pos)
  {
    GetQuadrant(p, size).None?
  }

  /** Each counter is the number of robots in its quadrant. */
  lemma {:induction false} TallyCounts(positions: seq<Pos>, size: Pos, q: nat)
    requires q < 4
    ensures Tally(positions, size)[q] == CountIf(positions, p => InQuadrant(size, q, p))
  {
    if positions != [] {
      TallyCounts(positions[1..], size, q);
    }
  }

  /** Robots on a middle line go into no counter: the counters add up to the
      number of robots off the middle lines. */
  lemma {:induction false} TallyTotal(positions: seq<Pos>, size: Pos)
    ensures var t := Tally(positions, size);
      t[0] + t[1] + t[2] + t[3] + CountIf(positions, p => OnMiddle(size, p)) == |positions|
  {
    if positions != [] {
      TallyTotal(positions[1..], size);
    }
  }

  function Product(counts: seq<nat>): nat
  {
    if counts == [] then 1 else counts[0] * Product(counts[1..])
  }

  /** `solve`: the product of the quadrant counts of the robots' final positions.
      A zero dimension would make the wrap-around panic. */
  function Solve(robots: seq<Robot>, size: Pos): nat
    requires size.x != 0 && size.y != 0
  {
    Product(Tally(Finals(robots, size), size))
  }

  function Finals(robots: seq<Robot>, size: Pos): (r: seq<Pos>)
    requires size.x != 0 && size.y != 0
    ensures |r| == |robots| && forall k :: 0 <= k < |robots| ==> r[k] == Final(robots[k], size)
  {
    if robots == [] then [] else [Final(robots[0], size)] + Finals(robots[1..], size)
  }

  lemma ProductZero(a: nat, b: nat, c: nat, d: nat)
    ensures Product([a, b, c, d]) == 0 <==> a == 0 || b == 0 || c == 0 || d == 0
  {
    assert [a, b, c, d][1..] == [b, c, d] && [b, c, d][1..] == [c, d] && [c, d][1..] == [d];
    assert [d][1..] == [];
    assert Product([d]) == d;
    assert Product([c, d]) == c * d;
    assert Product([b, c, d]) == b * (c * d);
    assert Product([a, b, c, d]) == a * (b * (c * d));
    NonZeroProduct(c, d);
    NonZeroProduct(b, c * d);
    NonZeroProduct(a, b * (c * d));
  }

  lemma NonZeroProduct(a: nat, b: nat)
    ensures a * b == 0 <==> a == 0 || b == 0
  {
    if a > 0 && b > 0 {
      MulGrows(b, a);
    }
  }

  /** The number of robots that end in quadrant `q`. */
  function QuadrantCount(robots: seq<Robot>, size: Pos, q: nat): nat
    requires size.x != 0 && size.y != 0
  {
    CountIf(Finals(robots, size), p => InQuadrant(size, q, p))
  }

  /** The factor is zero exactly when some quadrant holds no robot. */
  lemma SolveZero(robots: seq<Robot>, size: Pos)
    requires size.x != 0 && size.y != 0
    ensures Solve(robots, size) == 0 <==>
      exists q :: 0 <= q < 4 && QuadrantCount(robots, size, q) == 0
  {
    var t := Tally(Finals(robots, size), size);
    assert t == [t[0], t[1], t[2], t[3]];
    ProductZero(t[0], t[1], t[2], t[3]);
    forall q | 0 <= q < 4
      ensures t[q] == QuadrantCount(robots, size, q)
    {
      TallyCounts(Finals(robots, size), size, q);
    }
  }
}
