/** Day 15: a robot in a walled warehouse pushes rows of boxes. A move succeeds
    when the run of boxes in front of the robot ends at a floor cell; the first
    box of the run then jumps to that floor cell, and the robot steps forward. */
module Day15 {
  import opened Common
  import opened Grid

  datatype Tile = Wall | Floor | Box

  datatype Direction = Left | Right | Up | Down

  /** `Tile::from_char`: `#`, `.` or `@` (the robot stands on floor), `O`. */
  function TileFromChar(c: char): (r: Option<Tile>)
    ensures r.Some? <==> c in "#.@O"
    ensures r == Some(Wall) <==> c == '#'
    ensures r == Some(Box) <==> c == 'O'
  {
    match c
    case '#' => Some(Wall)
    case '.' => Some(Floor)
    case '@' => Some(Floor)
    case 'O' => Some(Box)
    case _ => None
  }

  /** `Direction::from_char`: the four arrows. */
  function DirectionFromChar(c: char): (r: Option<Direction>)
    ensures r.Some? <==> c in "<^>v"
  {
    match c
    case '<' => Some(Left)
    case '^' => Some(Up)
    case '>' => Some(Right)
    case 'v' => Some(Down)
    case _ => None
  }

  /** Each direction has exactly one character. */
  lemma DirectionFromCharInjective(c: char, c': char)
    requires DirectionFromChar(c).Some? && DirectionFromChar(c) == DirectionFromChar(c')
    ensures c == c'
  {
  }

  /** `k` steps from `p` in direction `d`; rows grow downwards. */
  function Ray(p: Pos, d: Direction, k: int): Pos
  {
    match d
    case Left => Pos(p.x - k, p.y)
    case Right => Pos(p.x + k, p.y)
    case Up => Pos(p.x, p.y - k)
    case Down => Pos(p.x, p.y + k)
  }

  /** `Direction::move_`: one step. */
  function Move(d: Direction, p: Pos): (q: Pos)
    ensures q == Ray(p, d, 1)
  {
    match d
    case Left => Pos(p.x - 1, p.y)
    case Right => Pos(p.x + 1, p.y)
    case Up => Pos(p.x, p.y - 1)
    case Down => Pos(p.x, p.y + 1)
  }

  /** A step reaches one of the four orthogonal neighbours. */
  lemma MoveAdjacent(d: Direction, p: Pos)
    ensures Adjacent(p, Move(d, p))
  {
  }

  /** Steps along a ray add up. */
  lemma RayStep(p: Pos, d: Direction, k: int)
    ensures Ray(Move(d, p), d, k) == Ray(p, d, k + 1)
    ensures Move(d, Ray(p, d, k)) == Ray(p, d, k + 1)
    ensures Ray(p, d, 0) == p
  {
  }

  /** A rectangular map whose outer ring is wall, so that a step from any
      cell that is not a wall stays on the map (the source indexes without a
      bounds check). */
  ghost predicate Walled(m: Map<Tile>)
  {
    && m.Rectangular()
    && forall p :: m.InBounds(p) && m.Get(p) != Wall ==> 0 < p.x < m.size.x - 1 && 0 < p.y < m.size.y - 1
  }

  lemma MoveInBounds(m: Map<Tile>, p: Pos, d: Direction)
    requires Walled(m) && m.InBounds(p) && m.Get(p) != Wall
    ensures m.InBounds(Move(d, p))
  {
  }

  /** How far the map extends from `p` in direction `d`. */
  function Room(m: Map<Tile>, p: Pos, d: Direction): int
  {
    match d
    case Left => p.x
    case Right => m.size.x - p.x
    case Up => p.y
    case Down => m.size.y - p.y
  }

  /** The first cell at or after `q` along direction `d` that is not a box. */
  function RunEnd(m: Map<Tile>, q: Pos, d: Direction): (e: Pos)
    requires Walled(m) && m.InBounds(q)
    ensures m.InBounds(e) && m.Get(e) != Box
    decreases Room(m, q, d)
  {
    if m.Get(q) == Box then
      MoveInBounds(m, q, d);
      RunEnd(m, Move(d, q), d)
    else q
  }

  /** The run end lies on the ray from `q`, after boxes only ... */
  lemma {:induction false} RunEndOnRay(m: Map<Tile>, q: Pos, d: Direction) returns (k: nat)
    requires Walled(m) && m.InBounds(q)
    ensures RunEnd(m, q, d) == Ray(q, d, k)
    ensures forall j :: 0 <= j < k ==> m.InBounds(Ray(q, d, j)) && m.Get(Ray(q, d, j)) == Box
    decreases Room(m, q, d)
  {
    if m.Get(q) == Box {
      MoveInBounds(m, q, d);
      var k' := RunEndOnRay(m, Move(d, q), d);
      k := k' + 1;
      RayStep(q, d, k');
      forall j | 0 <= j < k ensures m.InBounds(Ray(q, d, j)) && m.Get(Ray(q, d, j)) == Box {
        if j > 0 {
          RayStep(q, d, j - 1);
        }
      }
    } else {
      k := 0;
    }
  }

  /** ... and it is the first non-box cell on that ray. */
  lemma {:induction false} RunEndIsFirst(m: Map<Tile>, q: Pos, d: Direction, k: nat)
    requires Walled(m)
    requires forall j :: 0 <= j <= k ==> m.InBounds(Ray(q, d, j))
    requires forall j :: 0 <= j < k ==> m.Get(Ray(q, d, j)) == Box
    requires m.Get(Ray(q, d, k)) != Box
    ensures m.InBounds(q) && RunEnd(m, q, d) == Ray(q, d, k)
    decreases k
  {
    RayStep(q, d, 0);
    if k > 0 {
      assert m.Get(q) == Box;
      forall j | 0 <= j <= k - 1 ensures m.InBounds(Ray(Move(d, q), d, j)) {
        RayStep(q, d, j);
      }
      forall j | 0 <= j < k - 1 ensures m.Get(Ray(Move(d, q), d, j)) == Box {
        RayStep(q, d, j);
      }
      RayStep(q, d, k - 1);
      RunEndIsFirst(m, Move(d, q), d, k - 1);
    }
  }

  /** What `can_move` decides: the robot's cell is not a wall and the run of
      boxes in front of it ends at a floor cell. */
  predicate CanMoveSpec(m: Map<Tile>, pos: Pos, d: Direction)
    requires Walled(m) && m.InBounds(pos)
  {
    m.Get(pos) != Wall && (MoveInBounds(m, pos, d); m.Get(RunEnd(m, Move(d, pos), d)) == Floor)
  }

  /** Cells `1 .. k-1` along the ray are boxes and cell `k` is floor. */
  ghost predicate FloorAfterBoxes(m: Map<Tile>, pos: Pos, d: Direction, k: int)
  {
    && 1 <= k
    && (forall j :: 1 <= j < k ==> m.InBounds(Ray(pos, d, j)) && m.Get(Ray(pos, d, j)) == Box)
    && m.InBounds(Ray(pos, d, k)) && m.Get(Ray(pos, d, k)) == Floor
  }

  /** A possible move has a floor cell after boxes only on its ray ... */
  lemma CanMoveWitness(m: Map<Tile>, pos: Pos, d: Direction) returns (k: int)
    requires Walled(m) && m.InBounds(pos) && CanMoveSpec(m, pos, d)
    ensures FloorAfterBoxes(m, pos, d, k)
  {
    MoveInBounds(m, pos, d);
    var n := Move(d, pos);
    var k' := RunEndOnRay(m, n, d);
    RayStep(pos, d, k');
    forall j | 1 <= j < k' + 1 ensures m.InBounds(Ray(pos, d, j)) && m.Get(Ray(pos, d, j)) == Box {
      RayStep(pos, d, j - 1);
    }
    k := k' + 1;
  }

  /** ... and such a floor cell makes the move possible. */
  lemma CanMoveFromWitness(m: Map<Tile>, pos: Pos, d: Direction, k: int)
    requires Walled(m) && m.InBounds(pos) && m.Get(pos) != Wall && FloorAfterBoxes(m, pos, d, k)
    ensures CanMoveSpec(m, pos, d)
  {
    MoveInBounds(m, pos, d);
    var n := Move(d, pos);
    forall j | 0 <= j <= k - 1 ensures m.InBounds(Ray(n, d, j)) {
      RayStep(pos, d, j);
    }
    forall j | 0 <= j < k - 1 ensures m.Get(Ray(n, d, j)) == Box {
      RayStep(pos, d, j);
    }
    RayStep(pos, d, k - 1);
    RunEndIsFirst(m, n, d, k - 1);
  }

  /** `can_move` holds exactly when the ray from `pos` meets a floor cell after
      boxes only. */
  lemma CanMoveRay(m: Map<Tile>, pos: Pos, d: Direction)
    requires Walled(m) && m.InBounds(pos)
    ensures CanMoveSpec(m, pos, d) <==> (m.Get(pos) != Wall && exists k :: FloorAfterBoxes(m, pos, d, k))
  {
    if CanMoveSpec(m, pos, d) {
      var k := CanMoveWitness(m, pos, d);
    }
    if m.Get(pos) != Wall && exists k :: FloorAfterBoxes(m, pos, d, k) {
      var k :| FloorAfterBoxes(m, pos, d, k);
      CanMoveFromWitness(m, pos, d, k);
    }
  }

  /** The run of boxes from `current` ends where the run in front of `pos` does. */
  predicate SameRun(m: Map<Tile>, pos: Pos, d: Direction, current: Pos)
    requires Walled(m) && m.InBounds(pos) && m.Get(pos) != Wall && m.InBounds(current)
  {
    MoveInBounds(m, pos, d);
    RunEnd(m, current, d) == RunEnd(m, Move(d, pos), d)
  }

  /** A box continues the run; any other cell ends it. */
  lemma RunEndStep(m: Map<Tile>, q: Pos, d: Direction)
    requires Walled(m) && m.InBounds(q)
    ensures m.Get(q) == Box ==> m.InBounds(Move(d, q)) && RunEnd(m, q, d) == RunEnd(m, Move(d, q), d)
    ensures m.Get(q) != Box ==> RunEnd(m, q, d) == q
  {
  }

  /** `can_move`: walk from `pos` while the cell is not a wall; a floor cell
      reached by a step means the move is possible. */
  method CanMove(m: Map<Tile>, pos: Pos, d: Direction) returns (b: bool)
    requires Walled(m) && m.InBounds(pos)
    ensures b == CanMoveSpec(m, pos, d)
  {
    var current := pos;
    while m.Get(current) != Wall
      invariant m.InBounds(current)
      invariant current == pos || (m.Get(current) != Floor && m.Get(pos) != Wall && SameRun(m, pos, d, current))
      decreases Room(m, current, d)
    {
      ghost var prev := current;
      RunEndStep(m, prev, d);
      MoveInBounds(m, current, d);
      current := Move(d, current);
      RunEndStep(m, current, d);
      if m.Get(current) == Floor {
        return true;
      }
    }
    RunEndStep(m, current, d);
    return false;
  }

  /** The move: the robot steps forward; if a run of boxes was in front of it,
      the first box goes to the floor cell at the run's end. */
  function MoveSpec(m: Map<Tile>, pos: Pos, d: Direction): (r: (Map<Tile>, Pos))
    requires Walled(m) && m.InBounds(pos) && CanMoveSpec(m, pos, d)
  {
    MoveInBounds(m, pos, d);
    var n := Move(d, pos);
    if m.Get(n) == Floor then (m, n)
    else
      var e := RunEnd(m, n, d);
      (m.Set(e, Box).Set(n, Floor), n)
  }

  /** `move_`: called only when `can_move` holds. */
  method MoveRobot(m: Map<Tile>, pos: Pos, d: Direction) returns (m': Map<Tile>, pos': Pos)
    requires Walled(m) && m.InBounds(pos) && CanMoveSpec(m, pos, d)
    ensures (m', pos') == MoveSpec(m, pos, d)
  {
    MoveInBounds(m, pos, d);
    var current := Move(d, pos);
    if m.Get(current) == Floor {
      return m, current;
    }
    while m.Get(current) == Box
      invariant m.InBounds(current) && RunEnd(m, current, d) == RunEnd(m, Move(d, pos), d)
      decreases Room(m, current, d)
    {
      MoveInBounds(m, current, d);
      current := Move(d, current);
    }
    m' := m.Set(current, Box);
    m' := m'.Set(Move(d, pos), Floor);
    pos' := Move(d, pos);
  }

  /** The box cells of a map. */
  ghost function Boxes(m: Map<Tile>): set<Pos>
  {
    set y, x | 0 <= y < |m.data| && 0 <= x < |m.data[y]| && m.data[y][x] == Box :: Pos(x, y)
  }

  lemma BoxesMember(m: Map<Tile>, p: Pos)
    ensures p in Boxes(m) <==> m.InBounds(p) && m.Get(p) == Box
  {
    if m.InBounds(p) && m.Get(p) == Box {
      assert p == Pos(p.x, p.y);
    }
  }

  /** Writing a tile adds its cell to the box set or removes it. */
  lemma BoxesSet(m: Map<Tile>, p: Pos, t: Tile)
    requires m.InBounds(p)
    ensures Boxes(m.Set(p, t)) == if t == Box then Boxes(m) + {p} else Boxes(m) - {p}
  {
    var m' := m.Set(p, t);
    forall q ensures q in Boxes(m') <==> q in (if t == Box then Boxes(m) + {p} else Boxes(m) - {p}) {
      BoxesMember(m, q);
      BoxesMember(m', q);
    }
  }

  /** A move steps the robot once along `d` onto a floor cell and keeps the
      warehouse walled. */
  lemma MoveShape(m: Map<Tile>, pos: Pos, d: Direction)
    requires Walled(m) && m.InBounds(pos) && CanMoveSpec(m, pos, d)
    ensures var r := MoveSpec(m, pos, d);
      && r.1 == Move(d, pos)
      && Walled(r.0) && r.0.size == m.size && r.0.InBounds(r.1) && r.0.Get(r.1) == Floor
  {
    MoveInBounds(m, pos, d);
    var n := Move(d, pos);
    var e := RunEnd(m, n, d);
    var m' := MoveSpec(m, pos, d).0;
    forall q | m'.InBounds(q) && m'.Get(q) != Wall ensures 0 < q.x < m.size.x - 1 && 0 < q.y < m.size.y - 1 {
      assert m.InBounds(q);
      assert m.Get(q) != Wall;
    }
  }

  /** A move changes at most the cell the robot enters and the run's end, and
      it neither adds nor removes walls. */
  lemma MoveFrame(m: Map<Tile>, pos: Pos, d: Direction)
    requires Walled(m) && m.InBounds(pos) && CanMoveSpec(m, pos, d)
    ensures var n := Move(d, pos);
      var e := RunEnd(m, n, d);
      var m' := MoveSpec(m, pos, d).0;
      && (forall q :: m.InBounds(q) && q != n && q != e ==> m'.InBounds(q) && m'.Get(q) == m.Get(q))
      && (forall q :: m.InBounds(q) ==> m'.InBounds(q) && (m'.Get(q) == Wall <==> m.Get(q) == Wall))
  {
    MoveInBounds(m, pos, d);
  }

  /** Pushing a run moves its first box to the run's end: the box set loses
      the entered cell and gains the end cell, and its size is kept. */
  lemma MoveBoxes(m: Map<Tile>, pos: Pos, d: Direction)
    requires Walled(m) && m.InBounds(pos) && CanMoveSpec(m, pos, d)
    ensures var n := Move(d, pos);
      var e := RunEnd(m, n, d);
      var m' := MoveSpec(m, pos, d).0;
      && (m.Get(n) == Box ==> n in Boxes(m) && e !in Boxes(m) && Boxes(m') == Boxes(m) - {n} + {e})
      && (m.Get(n) != Box ==> m' == m)
      && |Boxes(m')| == |Boxes(m)|
  {
    MoveInBounds(m, pos, d);
    var n := Move(d, pos);
    var e := RunEnd(m, n, d);
    var m' := MoveSpec(m, pos, d).0;
    if m.Get(n) == Box {
      BoxesSet(m, e, Box);
      BoxesSet(m.Set(e, Box), n, Floor);
      BoxesMember(m, n);
      BoxesMember(m, e);
    }
  }

  /** One instruction of `solve`: move if `can_move` allows it, else stay. */
  function Instruction(m: Map<Tile>, pos: Pos, d: Direction): (r: (Map<Tile>, Pos))
    requires Walled(m) && m.InBounds(pos) && m.Get(pos) != Wall
    ensures Walled(r.0) && r.0.size == m.size && r.0.InBounds(r.1) && r.0.Get(r.1) != Wall
    ensures !CanMoveSpec(m, pos, d) ==> r == (m, pos)
    ensures |Boxes(r.0)| == |Boxes(m)|
  {
    if CanMoveSpec(m, pos, d) then
      MoveShape(m, pos, d);
      MoveBoxes(m, pos, d);
      MoveSpec(m, pos, d)
    else (m, pos)
  }

  /** The map and robot position after the instructions `ds`, in order. */
  function Simulate(m: Map<Tile>, pos: Pos, ds: seq<Direction>): (r: (Map<Tile>, Pos))
    requires Walled(m) && m.InBounds(pos) && m.Get(pos) != Wall
    ensures Walled(r.0) && r.0.size == m.size && r.0.InBounds(r.1) && r.0.Get(r.1) != Wall
  {
    if ds == [] then (m, pos)
    else
      var (m', pos') := Simulate(m, pos, ds[..|ds| - 1]);
      Instruction(m', pos', ds[|ds| - 1])
  }

  /** The number of boxes never changes. */
  lemma {:induction false} SimulateKeepsBoxes(m: Map<Tile>, pos: Pos, ds: seq<Direction>)
    requires Walled(m) && m.InBounds(pos) && m.Get(pos) != Wall
    ensures |Boxes(Simulate(m, pos, ds).0)| == |Boxes(m)|
  {
    if ds != [] {
      SimulateKeepsBoxes(m, pos, ds[..|ds| - 1]);
    }
  }

  /** The GPS value of a cell: `100 * y + x` for a box, else nothing. */
  function CellScore(y: int, x: int, t: Tile): int
  {
    if t == Box then 100 * y + x else 0
  }

  /** The sum over the first `|row|` cells of row `y`. */
  function RowScore(row: seq<Tile>, y: int): int
  {
    if row == [] then 0 else RowScore(row[..|row| - 1], y) + CellScore(y, |row| - 1, row[|row| - 1])
  }

  function RowsScore(data: seq<seq<Tile>>): int
  {
    if data == [] then 0 else RowsScore(data[..|data| - 1]) + RowScore(data[|data| - 1], |data| - 1)
  }

  /** `score`: the sum of the GPS values over all rows, read from `data`. */
  function Score(m: Map<Tile>): int
  {
    RowsScore(m.data)
  }

  /** Rewriting one cell of a row changes its sum by that cell's difference. */
  lemma {:induction false} RowScoreSet(row: seq<Tile>, y: int, x: int, t: Tile)
    requires 0 <= x < |row|
    ensures RowScore(row[x := t], y) == RowScore(row, y) - CellScore(y, x, row[x]) + CellScore(y, x, t)
  {
    var n := |row| - 1;
    if x < n {
      assert row[x := t][..n] == row[..n][x := t];
      RowScoreSet(row[..n], y, x, t);
    } else {
      assert row[x := t][..n] == row[..n];
    }
  }

  lemma {:induction false} RowsScoreSet(data: seq<seq<Tile>>, p: Pos, t: Tile)
    requires 0 <= p.y < |data| && 0 <= p.x < |data[p.y]|
    ensures RowsScore(data[p.y := data[p.y][p.x := t]])
         == RowsScore(data) - CellScore(p.y, p.x, data[p.y][p.x]) + CellScore(p.y, p.x, t)
  {
    var n := |data| - 1;
    var data' := data[p.y := data[p.y][p.x := t]];
    if p.y < n {
      assert data'[..n] == data[..n][p.y := data[..n][p.y][p.x := t]];
      RowsScoreSet(data[..n], p, t);
    } else {
      assert data'[..n] == data[..n];
      RowScoreSet(data[n], n, p.x, t);
    }
  }

  /** Writing one cell changes the score by that cell's difference. */
  lemma ScoreSet(m: Map<Tile>, p: Pos, t: Tile)
    requires m.InBounds(p)
    ensures Score(m.Set(p, t)) == Score(m) - CellScore(p.y, p.x, m.Get(p)) + CellScore(p.y, p.x, t)
  {
    RowsScoreSet(m.data, p, t);
  }

  /** A push moves one box from the cell the robot enters to the run's end, and
      the score changes by exactly the difference of their GPS values. */
  lemma MoveScore(m: Map<Tile>, pos: Pos, d: Direction)
    requires Walled(m) && m.InBounds(pos) && CanMoveSpec(m, pos, d)
    ensures
      var n := Move(d, pos);
      var e := RunEnd(m, n, d);
      Score(MoveSpec(m, pos, d).0) == if m.Get(n) == Box then Score(m) - (100 * n.y + n.x) + (100 * e.y + e.x) else Score(m)
  {
    MoveInBounds(m, pos, d);
    var n := Move(d, pos);
    if m.Get(n) == Box {
      var e := RunEnd(m, n, d);
      assert e != n;
      ScoreSet(m, e, Box);
      ScoreSet(m.Set(e, Box), n, Floor);
    }
  }

  lemma SimulateStep(m: Map<Tile>, pos: Pos, ds: seq<Direction>, i: nat)
    requires Walled(m) && m.InBounds(pos) && m.Get(pos) != Wall && i < |ds|
    ensures var (m', pos') := Simulate(m, pos, ds[..i]);
      Simulate(m, pos, ds[..i + 1]) == Instruction(m', pos', ds[i])
  {
    assert ds[..i + 1][..i] == ds[..i];
  }

  /** `solve`: carry out every instruction, then score the map. */
  method Solve(m: Map<Tile>, pos: Pos, directions: seq<Direction>) returns (result: int)
    requires Walled(m) && m.InBounds(pos) && m.Get(pos) != Wall
    ensures result == Score(Simulate(m, pos, directions).0)
  {
    var map', pos' := m, pos;
    for i := 0 to |directions|
      invariant (map', pos') == Simulate(m, pos, directions[..i])
    {
      SimulateStep(m, pos, directions, i);
      var d := directions[i];
      var ok := CanMove(map', pos', d);
      if ok {
        map', pos' := MoveRobot(map', pos', d);
      }
    }
    assert directions[..|directions|] == directions;
    result := Score(map');
  }
}
