/** Day 6: a guard walks a grid, stepping forward and turning clockwise before
    obstacles, until it leaves the grid; part two counts the cells where one
    extra obstacle traps the guard in a loop. Positions are (row, column). */
module Day06 {
  import opened Common
  import Text

  datatype Direction = Up | Right | Left | Down

  /** The clockwise turn. */
  function Next(d: Direction): Direction
  {
    match d
    case Up => Right
    case Right => Down
    case Down => Left
    case Left => Up
  }

  /** `d` turned clockwise `t` times. */
  function Turn(d: Direction, t: nat): Direction
  {
    if t == 0 then d else Next(Turn(d, t - 1))
  }

  /** The opposite direction: two clockwise turns. */
  function Opposite(d: Direction): Direction
  {
    Next(Next(d))
  }

  /** Four turns come back to the start, and fewer never do. */
  lemma NextCycle(d: Direction)
    ensures Next(Next(Next(Next(d)))) == d
    ensures Next(d) != d && Next(Next(d)) != d && Next(Next(Next(d))) != d
  {
  }

  type Pos = (int, int)

  /** `move_`: one step; Up decreases the row and Left the column. */
  function Move(p: Pos, d: Direction): (q: Pos)
  {
    match d
    case Up => (p.0 - 1, p.1)
    case Right => (p.0, p.1 + 1)
    case Down => (p.0 + 1, p.1)
    case Left => (p.0, p.1 - 1)
  }

  /** A step reaches one of the four orthogonal neighbours. */
  lemma MoveAdjacent(p: Pos, d: Direction)
    ensures var q := Move(p, d); Abs(q.0 - p.0) + Abs(q.1 - p.1) == 1
  {
  }

  /** A step back in the opposite direction undoes a step. */
  lemma MoveBack(p: Pos, d: Direction)
    ensures Move(Move(p, d), Opposite(d)) == p
  {
  }

  datatype Tile = Empty | Obstacle

  datatype State = State(pos: Pos, direction: Direction)

  datatype Input = Input(tiles: seq<seq<Tile>>, start: Pos, size: Pos)

  /** `contains`: inside the rows and columns `size` counts. */
  predicate Contains(input: Input, p: Pos)
  {
    0 <= p.0 < input.size.0 && 0 <= p.1 < input.size.1
  }

  /** `size` describes the map: it counts the rows, and every row is at least
      as long as `size.1`, so every position it contains can be indexed. */
  predicate Indexable(input: Input)
  {
    && |input.tiles| == input.size.0
    && forall r :: 0 <= r < |input.tiles| ==> |input.tiles[r]| >= input.size.1
  }

  /** The map can be indexed where `size` says and the guard starts on an empty cell of it. */
  predicate WellFormed(input: Input)
  {
    Indexable(input) && Contains(input, input.start) && At(input, input.start) == Empty
  }

  /** `index`: the tile at a position of the map. */
  function At(input: Input, p: Pos): Tile
    requires Indexable(input) && Contains(input, p)
  {
    input.tiles[p.0][p.1]
  }

  /** The guard may step from `p` along `d`: the cell ahead is off the grid or empty. */
  predicate Free(input: Input, p: Pos, d: Direction)
    requires Indexable(input)
  {
    var q := Move(p, d);
    !Contains(input, q) || At(input, q) == Empty
  }

  /** The first of the four clockwise turns of `d`, starting with `d` itself,
      along which the guard may step from `p`. */
  function FirstFree(input: Input, p: Pos, d: Direction): Option<Direction>
    requires Indexable(input)
  {
    if Free(input, p, d) then Some(d)
    else if Free(input, p, Next(d)) then Some(Next(d))
    else if Free(input, p, Next(Next(d))) then Some(Next(Next(d)))
    else if Free(input, p, Next(Next(Next(d)))) then Some(Next(Next(Next(d))))
    else None
  }

  /** What `next_state` computes from `s`. The source turns forever when all four
      directions are blocked; that case is `None` here. */
  function NextStateOf(input: Input, s: State): Option<State>
    requires Indexable(input)
  {
    match FirstFree(input, s.pos, s.direction)
    case None => None
    case Some(d) => Some(State(Move(s.pos, d), d))
  }

  /** After `t` blocked turns, the next free turn is what `FirstFree` finds. */
  lemma FirstFreeAfter(input: Input, p: Pos, d: Direction, t: nat)
    requires Indexable(input) && t < 4
    requires forall u :: 0 <= u < t ==> !Free(input, p, Turn(d, u))
    ensures Free(input, p, Turn(d, t)) ==> FirstFree(input, p, d) == Some(Turn(d, t))
    ensures t == 3 && !Free(input, p, Turn(d, t)) ==> FirstFree(input, p, d).None?
  {
    assert Turn(d, 1) == Next(d) && Turn(d, 2) == Next(Next(d)) && Turn(d, 3) == Next(Next(Next(d)));
    if t > 0 { assert !Free(input, p, Turn(d, 0)); }
    if t > 1 { assert !Free(input, p, Turn(d, 1)); }
    if t > 2 { assert !Free(input, p, Turn(d, 2)); }
  }

  /** `next_state`: turn clockwise until the cell ahead is free, then step onto it. */
  method NextState(input: Input, s: State) returns (r: Option<State>)
    requires Indexable(input)
    ensures r == NextStateOf(input, s)
  {
    var direction := s.direction;
    var turns := 0;
    while turns < 4
      invariant 0 <= turns <= 4 && direction == Turn(s.direction, turns)
      invariant forall u :: 0 <= u < turns ==> !Free(input, s.pos, Turn(s.direction, u))
      decreases 4 - turns
    {
      FirstFreeAfter(input, s.pos, s.direction, turns);
      var nextPos := Move(s.pos, direction);
      if !Contains(input, nextPos) || At(input, nextPos) == Empty {
        return Some(State(nextPos, direction));
      }
      direction := Next(direction);
      turns := turns + 1;
    }
    return None;
  }

  /** `next_state` keeps the direction when the cell ahead is free and otherwise
      turns clockwise, past blocked cells only, to the first free direction; the
      new position is one step along it and is off the grid or empty. It fails to
      return only when all four directions are blocked. */
  lemma NextStateSpec(input: Input, s: State)
    requires Indexable(input)
    ensures match NextStateOf(input, s)
      case Some(s') =>
        && s'.pos == Move(s.pos, s'.direction)
        && (!Contains(input, s'.pos) || At(input, s'.pos) == Empty)
        && (Free(input, s.pos, s.direction) ==> s'.direction == s.direction)
        && (exists t :: 0 <= t < 4 && s'.direction == Turn(s.direction, t)
              && forall u :: 0 <= u < t ==> !Free(input, s.pos, Turn(s.direction, u)))
      case None =>
        forall u :: 0 <= u < 4 ==> !Free(input, s.pos, Turn(s.direction, u))
  {
    var d := s.direction;
    assert Turn(d, 0) == d && Turn(d, 1) == Next(d) && Turn(d, 2) == Next(Next(d)) && Turn(d, 3) == Next(Next(Next(d)));
    forall u | 0 <= u < 4 ensures Turn(d, u) in {d, Next(d), Next(Next(d)), Next(Next(Next(d)))} {
    }
  }

  /** A guard that can step back the way it came is never boxed in. */
  lemma BackIsFree(input: Input, s: State)
    requires Indexable(input) && Free(input, s.pos, Opposite(s.direction))
    ensures NextStateOf(input, s).Some?
  {
  }

  /** After a step from an empty cell, the cell behind the guard is that cell. */
  lemma StepLeavesFreeBehind(input: Input, s: State, s': State)
    requires Indexable(input) && Contains(input, s.pos) && At(input, s.pos) == Empty
    requires NextStateOf(input, s) == Some(s')
    ensures Free(input, s'.pos, Opposite(s'.direction))
    ensures Contains(input, s'.pos) ==> At(input, s'.pos) == Empty
  {
    NextStateSpec(input, s);
    MoveBack(s.pos, s'.direction);
  }

  /** The guard's state after `n` calls of `next_state` from the start facing up. */
  ghost function Walk(input: Input, n: nat): Option<State>
    requires Indexable(input)
  {
    if n == 0 then Some(State(input.start, Up)) else Advance(input, Walk(input, n - 1))
  }

  /** One more call of `next_state`, once the guard has a state. */
  function Advance(input: Input, o: Option<State>): Option<State>
    requires Indexable(input)
  {
    match o
    case None => None
    case Some(s) => NextStateOf(input, s)
  }

  /** The walk has a state at step `n`, and it is on the grid. */
  ghost predicate OnGrid(input: Input, n: nat)
    requires Indexable(input)
  {
    Walk(input, n).Some? && Contains(input, Walk(input, n).value.pos)
  }

  /** The guard never leaves the grid. */
  ghost predicate Trapped(input: Input)
    requires Indexable(input)
  {
    forall n: nat :: OnGrid(input, n)
  }

  /** The guard can take its first step. */
  predicate CanStart(input: Input)
    requires Indexable(input)
  {
    NextStateOf(input, State(input.start, Up)).Some?
  }

  /** Equal states are followed by equal walks. */
  lemma {:induction false} WalkShift(input: Input, a: nat, b: nat, t: nat)
    requires Indexable(input) && Walk(input, a) == Walk(input, b)
    ensures Walk(input, a + t) == Walk(input, b + t)
    decreases t
  {
    if t > 0 {
      WalkNext(input, a);
      WalkNext(input, b);
      WalkShift(input, a + 1, b + 1, t - 1);
    }
  }

  lemma WalkNext(input: Input, n: nat)
    requires Indexable(input)
    ensures Walk(input, n + 1) == Advance(input, Walk(input, n))
  {
  }

  /** A state on the grid that repeats while the guard is on the grid traps it. */
  lemma RepeatTraps(input: Input, i: nat, j: nat)
    requires Indexable(input) && i < j && Walk(input, i) == Walk(input, j)
    requires forall t: nat :: t < j ==> OnGrid(input, t)
    ensures Trapped(input)
  {
    forall n: nat ensures OnGrid(input, n) {
      Periodic(input, i, j, n);
    }
  }

  lemma {:induction false} Periodic(input: Input, i: nat, j: nat, n: nat)
    requires Indexable(input) && i < j && Walk(input, i) == Walk(input, j)
    requires forall t: nat :: t < j ==> OnGrid(input, t)
    ensures OnGrid(input, n)
    decreases n
  {
    if n >= j {
      var m := i + (n - j);
      assert Walk(input, m) == Walk(input, n) by {
        WalkShift(input, i, j, n - j);
        assert j + (n - j) == n;
      }
      Periodic(input, i, j, m);
      OnGridShift(input, m, n);
    }
  }

  lemma OnGridShift(input: Input, a: nat, b: nat)
    requires Indexable(input) && Walk(input, a) == Walk(input, b) && OnGrid(input, a)
    ensures OnGrid(input, b)
  {
  }

  /** The states on the rows and columns of the grid. */
  ghost function GridStates(input: Input): set<State>
  {
    set r, c, d | 0 <= r < input.size.0 && 0 <= c < input.size.1 && d in {Up, Right, Down, Left} :: State((r, c), d)
  }

  /** The states `seen` holds after `k` steps of `has_loop`. */
  ghost function SeenStates(input: Input, k: nat): set<State>
    requires Indexable(input)
  {
    if k == 0 then {}
    else
      SeenStates(input, k - 1) + (if Walk(input, k).Some? then {Walk(input, k).value} else {})
  }

  /** The step at which a seen state was reached. */
  lemma {:induction false} SeenStatesIndex(input: Input, k: nat, s: State) returns (i: nat)
    requires Indexable(input) && s in SeenStates(input, k)
    ensures 1 <= i <= k && Walk(input, i) == Some(s)
  {
    assert k > 0;
    if s in SeenStates(input, k - 1) {
      i := SeenStatesIndex(input, k - 1, s);
    } else {
      i := k;
    }
  }

  /** Every state reached in the first `k` steps is seen. */
  lemma {:induction false} SeenStatesContain(input: Input, k: nat, i: nat)
    requires Indexable(input) && 1 <= i <= k && Walk(input, i).Some?
    ensures Walk(input, i).value in SeenStates(input, k)
  {
    if i < k {
      SeenStatesContain(input, k - 1, i);
    }
  }

  /** `seen` holds exactly the states of the first `k` steps. */
  lemma SeenStatesMembers(input: Input, k: nat, s: State)
    requires Indexable(input)
    ensures s in SeenStates(input, k) <==> exists i :: 1 <= i <= k && Walk(input, i) == Some(s)
  {
    if s in SeenStates(input, k) {
      var i := SeenStatesIndex(input, k, s);
    }
    if exists i :: 1 <= i <= k && Walk(input, i) == Some(s) {
      var i :| 1 <= i <= k && Walk(input, i) == Some(s);
      SeenStatesContain(input, k, i);
    }
  }

  /** The guard is in `state` after `k` steps, was on the grid at every step
      before, stands on an empty cell when it is on the grid, and after its
      first step the cell behind it is free. */
  ghost predicate Walking(input: Input, k: nat, state: State)
    requires Indexable(input)
  {
    && Walk(input, k) == Some(state)
    && (forall i: nat :: i < k ==> OnGrid(input, i))
    && (Contains(input, state.pos) ==> At(input, state.pos) == Empty)
    && (k == 0 || Free(input, state.pos, Opposite(state.direction)))
  }

  lemma WalkingStarts(input: Input)
    requires WellFormed(input)
    ensures Walking(input, 0, State(input.start, Up))
  {
  }

  /** From a state on the grid the guard can always take its next step. */
  lemma WalkingStep(input: Input, k: nat, state: State) returns (s: State)
    requires WellFormed(input) && CanStart(input)
    requires Walking(input, k, state) && Contains(input, state.pos)
    ensures NextStateOf(input, state) == Some(s)
    ensures Walk(input, k + 1) == Some(s)
    ensures Walking(input, k + 1, s)
  {
    if k > 0 {
      BackIsFree(input, state);
    }
    s := NextStateOf(input, state).value;
    StepLeavesFreeBehind(input, state, s);
    assert Walk(input, k + 1) == Advance(input, Walk(input, k));
    assert OnGrid(input, k);
  }

  /** `has_loop`: follows the guard, remembering the states it has been in on the
      grid since its first step, and reports whether a state repeats before the
      guard leaves. The answer is exactly whether the guard is trapped. */
  method HasLoop(input: Input) returns (looped: bool)
    requires WellFormed(input) && CanStart(input)
    ensures looped <==> Trapped(input)
  {
    var state := State(input.start, Up);
    var seen: set<State> := {};
    ghost var k: nat := 0;
    WalkingStarts(input);
    while true
      invariant Walking(input, k, state) && Contains(input, state.pos)
      invariant seen == SeenStates(input, k)
      invariant seen <= GridStates(input) && |seen| <= |GridStates(input)|
      decreases |GridStates(input)| - |seen|
    {
      ghost var s' := WalkingStep(input, k, state);
      var next := NextState(input, state);
      var s := next.value;
      assert s == s';
      if s in seen {
        RepeatFound(input, k, s);
        return true;
      }
      if !Contains(input, s.pos) {
        assert !OnGrid(input, k + 1);
        return false;
      }
      GrowSeen(input, seen, s);
      SeenStatesStep(input, k, s);
      state := s;
      k := k + 1;
      seen := seen + {state};
    }
  }

  /** Adding a new state on the grid keeps `seen` within the grid states. */
  lemma GrowSeen(input: Input, seen: set<State>, s: State)
    requires seen <= GridStates(input) && Contains(input, s.pos) && s !in seen
    ensures seen + {s} <= GridStates(input)
    ensures |seen + {s}| == |seen| + 1 <= |GridStates(input)|
  {
    assert s.direction.Up? || s.direction.Right? || s.direction.Down? || s.direction.Left?;
    assert s == State((s.pos.0, s.pos.1), s.direction);
    assert s in GridStates(input);
    SubsetCardinality(seen + {s}, GridStates(input));
  }

  /** A state seen before traps the guard. */
  lemma RepeatFound(input: Input, k: nat, s: State)
    requires Indexable(input) && Walking(input, k + 1, s) && s in SeenStates(input, k)
    ensures Trapped(input)
  {
    var i := SeenStatesIndex(input, k, s);
    WalkingOnGrid(input, k + 1, s);
    RepeatTraps(input, i, k + 1);
  }

  lemma WalkingOnGrid(input: Input, k: nat, s: State)
    requires Indexable(input) && Walking(input, k, s)
    ensures Walk(input, k) == Some(s) && forall t: nat :: t < k ==> OnGrid(input, t)
  {
  }

  lemma SeenStatesStep(input: Input, k: nat, s: State)
    requires Indexable(input) && Walk(input, k + 1) == Some(s)
    ensures SeenStates(input, k + 1) == SeenStates(input, k) + {s}
  {
  }

  /** The positions `seen` holds after `k` steps of `get_positions`. */
  ghost function Visited(input: Input, k: nat): set<Pos>
    requires Indexable(input)
  {
    if k == 0 then {}
    else
      Visited(input, k - 1) + (if Walk(input, k).Some? then {Walk(input, k).value.pos} else {})
  }

  lemma VisitedStep(input: Input, k: nat, s: State)
    requires Indexable(input) && Walk(input, k + 1) == Some(s)
    ensures Visited(input, k + 1) == Visited(input, k) + {s.pos}
  {
  }

  /** The step at which a stored position was reached. */
  lemma {:induction false} VisitedIndex(input: Input, k: nat, p: Pos) returns (i: nat)
    requires Indexable(input) && p in Visited(input, k)
    ensures 1 <= i <= k && Walk(input, i).Some? && Walk(input, i).value.pos == p
  {
    assert k > 0;
    if p in Visited(input, k - 1) {
      i := VisitedIndex(input, k - 1, p);
    } else {
      i := k;
    }
  }

  /** Every position reached in the first `k` steps is stored. */
  lemma {:induction false} VisitedContains(input: Input, k: nat, i: nat)
    requires Indexable(input) && 1 <= i <= k && Walk(input, i).Some?
    ensures Walk(input, i).value.pos in Visited(input, k)
  {
    if i < k {
      VisitedContains(input, k - 1, i);
    }
  }

  /** `seen` holds exactly the positions of the first `k` steps. */
  lemma VisitedMembers(input: Input, k: nat, p: Pos)
    requires Indexable(input)
    ensures p in Visited(input, k) <==> exists i :: 1 <= i <= k && Walk(input, i).Some? && Walk(input, i).value.pos == p
  {
    if p in Visited(input, k) {
      var i := VisitedIndex(input, k, p);
    }
    if exists i :: 1 <= i <= k && Walk(input, i).Some? && Walk(input, i).value.pos == p {
      var i :| 1 <= i <= k && Walk(input, i).Some? && Walk(input, i).value.pos == p;
      VisitedContains(input, k, i);
    }
  }

  /** Positions stored while the guard is on the grid are on the grid. */
  lemma {:induction false} VisitedOnGrid(input: Input, k: nat)
    requires Indexable(input)
    requires forall i: nat :: i <= k ==> OnGrid(input, i)
    ensures forall p :: p in Visited(input, k) ==> Contains(input, p)
  {
    if k > 0 {
      VisitedOnGrid(input, k - 1);
      assert OnGrid(input, k);
    }
  }

  /** Every stored position on the grid is empty, because `next_state` steps only
      onto empty cells or off the grid. So what `get_positions` returns meets the
      first requirement of `solve2`. */
  lemma {:induction false} VisitedEmpty(input: Input, k: nat)
    requires Indexable(input)
    ensures forall p :: p in Visited(input, k) && Contains(input, p) ==> At(input, p) == Empty
  {
    if k > 0 {
      VisitedEmpty(input, k - 1);
      if Walk(input, k).Some? {
        assert Walk(input, k - 1).Some?;
        NextStateSpec(input, Walk(input, k - 1).value);
      }
    }
  }

  /** Step `n` is the first at which the guard is off the grid. */
  ghost predicate LeavesAt(input: Input, n: nat)
    requires Indexable(input)
  {
    Walk(input, n).Some? && !Contains(input, Walk(input, n).value.pos)
    && forall i: nat :: i < n ==> OnGrid(input, i)
  }

  /** `get_positions`: the position after every step until the guard is off the
      grid, that last position included. It runs forever on a trapped guard. */
  method GetPositions(input: Input) returns (positions: set<Pos>)
    requires WellFormed(input) && CanStart(input) && !Trapped(input)
    ensures exists n: nat :: n >= 1 && LeavesAt(input, n) && positions == Visited(input, n)
  {
    ghost var exit: nat :| !OnGrid(input, exit);
    var state := State(input.start, Up);
    var seen: set<Pos> := {};
    ghost var k: nat := 0;
    WalkingStarts(input);
    while Contains(input, state.pos)
      invariant Walking(input, k, state)
      invariant seen == Visited(input, k)
      invariant k <= exit
      decreases exit - k
    {
      assert k < exit by {
        assert OnGrid(input, k);
      }
      ghost var s' := WalkingStep(input, k, state);
      var next := NextState(input, state);
      VisitedStep(input, k, s');
      state := next.value;
      k := k + 1;
      seen := seen + {state.pos};
    }
    assert k >= 1;
    assert LeavesAt(input, k);
    return seen;
  }

  /** Of the positions `get_positions` stores, exactly one is off the grid: the
      last one. The start is stored only when the guard comes back to it. */
  lemma VisitedShape(input: Input, n: nat)
    requires Indexable(input) && n >= 1 && LeavesAt(input, n)
    ensures Walk(input, n).value.pos in Visited(input, n)
    ensures forall p :: p in Visited(input, n) && !Contains(input, p) ==> p == Walk(input, n).value.pos
    ensures input.start in Visited(input, n) <==>
      exists i :: 1 <= i <= n && Walk(input, i).Some? && Walk(input, i).value.pos == input.start
  {
    VisitedMembers(input, n, input.start);
    VisitedLast(input, n);
  }

  lemma VisitedLast(input: Input, n: nat)
    requires Indexable(input) && n >= 1 && LeavesAt(input, n)
    ensures Walk(input, n).value.pos in Visited(input, n)
    ensures forall p :: p in Visited(input, n) && !Contains(input, p) ==> p == Walk(input, n).value.pos
  {
    VisitedOnGrid(input, n - 1);
    VisitedStep(input, n - 1, Walk(input, n).value);
  }

  /** The map with an obstacle placed at `p`. */
  function WithObstacle(input: Input, p: Pos): (r: Input)
    requires Indexable(input) && Contains(input, p)
    ensures Indexable(r) && r.start == input.start && r.size == input.size
    ensures forall q :: Contains(input, q) ==> At(r, q) == if q == p then Obstacle else At(input, q)
  {
    input.(tiles := input.tiles[p.0 := input.tiles[p.0][p.1 := Obstacle]])
  }

  /** The positions `solve2` tries: not the start and on the grid. */
  predicate Candidate(input: Input, p: Pos)
  {
    p != input.start && Contains(input, p)
  }

  /** The candidates among `ps` at which an extra obstacle traps the guard. */
  ghost function Trapping(input: Input, ps: set<Pos>): set<Pos>
    requires Indexable(input)
  {
    set p | p in ps && Candidate(input, p) && Trapped(WithObstacle(input, p))
  }

  /** `solve2`: for every stored position other than the start and on the grid,
      put an obstacle there in a copy of the map, run `has_loop`, and restore the
      cell to empty; count the positions that trap the guard. The cells tried
      must be empty, as those from `get_positions` are, for the restoration to
      give back the map; and the guard must not be boxed in by the new obstacle
      before its first step, for `has_loop` to return. */
  method Solve2(input: Input, positions: set<Pos>) returns (count: nat)
    requires WellFormed(input)
    requires forall p :: p in positions && Contains(input, p) ==> At(input, p) == Empty
    requires forall p :: p in positions && Candidate(input, p) ==> CanStart(WithObstacle(input, p))
    ensures count == |Trapping(input, positions)|
  {
    var changed := input;
    var remaining := positions;
    count := 0;
    while remaining != {}
      invariant remaining <= positions
      invariant changed == input
      invariant count == |Trapping(input, positions - remaining)|
      decreases |remaining|
    {
      var p :| p in remaining;
      var trapped := false;
      if p != input.start && Contains(input, p) {
        changed := changed.(tiles := changed.tiles[p.0 := changed.tiles[p.0][p.1 := Obstacle]]);
        assert changed == WithObstacle(input, p);
        trapped := HasLoop(changed);
        changed := changed.(tiles := changed.tiles[p.0 := changed.tiles[p.0][p.1 := Empty]]);
        Restore(input, p);
      }
      TrappingAdd(input, positions, remaining, p);
      if trapped {
        count := count + 1;
      }
      remaining := remaining - {p};
    }
    assert positions - remaining == positions;
  }

  /** Writing `Empty` back over the obstacle gives back the map, when the cell
      was empty to begin with. */
  lemma Restore(input: Input, p: Pos)
    requires Indexable(input) && Contains(input, p) && At(input, p) == Empty
    ensures var changed := WithObstacle(input, p);
      changed.(tiles := changed.tiles[p.0 := changed.tiles[p.0][p.1 := Empty]]) == input
  {
    var changed := WithObstacle(input, p);
    assert changed.tiles[p.0][p.1 := Empty] == input.tiles[p.0];
    assert changed.tiles[p.0 := changed.tiles[p.0][p.1 := Empty]] == input.tiles;
  }

  lemma TrappingAdd(input: Input, positions: set<Pos>, remaining: set<Pos>, p: Pos)
    requires Indexable(input) && p in remaining && remaining <= positions
    ensures |Trapping(input, positions - (remaining - {p}))| == |Trapping(input, positions - remaining)|
      + if Candidate(input, p) && Trapped(WithObstacle(input, p)) then 1 else 0
  {
    var done := positions - remaining;
    assert positions - (remaining - {p}) == done + {p};
    if Candidate(input, p) && Trapped(WithObstacle(input, p)) {
      assert Trapping(input, done + {p}) == Trapping(input, done) + {p};
    } else {
      assert Trapping(input, done + {p}) == Trapping(input, done);
    }
  }

  /** Only candidates count, and at most all of them. */
  lemma Solve2Bound(input: Input, positions: set<Pos>)
    requires Indexable(input)
    ensures Trapping(input, positions) <= positions
    ensures input.start !in Trapping(input, positions)
    ensures forall p :: p in Trapping(input, positions) ==> Contains(input, p)
  {
  }

  /** The tile of a map character; the start `^` is an empty cell. Other
      characters are unreachable in the source. */
  function TileOf(c: char): (r: Option<Tile>)
    ensures r.Some? <==> c in ".#^"
    ensures r == Some(Obstacle) <==> c == '#'
  {
    match c
    case '.' => Some(Empty)
    case '#' => Some(Obstacle)
    case '^' => Some(Empty)
    case _ => None
  }

  function ParseRow(line: string): (r: Option<seq<Tile>>)
    ensures r.Some? <==> forall k :: 0 <= k < |line| ==> TileOf(line[k]).Some?
    ensures r.Some? ==> (|r.value| == |line|
      && forall k :: 0 <= k < |line| ==> Some(r.value[k]) == TileOf(line[k]))
  {
    if line == [] then Some([])
    else match (TileOf(line[0]), ParseRow(line[1..]))
      case (Some(t), Some(rest)) => Some([t] + rest)
      case _ => None
  }

  function ParseRows(lines: seq<string>): (r: Option<seq<seq<Tile>>>)
    ensures r.Some? <==> forall i :: 0 <= i < |lines| ==> ParseRow(lines[i]).Some?
    ensures r.Some? ==> (|r.value| == |lines|
      && forall i :: 0 <= i < |lines| ==> Some(r.value[i]) == ParseRow(lines[i]))
  {
    if lines == [] then Some([])
    else match (ParseRow(lines[0]), ParseRows(lines[1..]))
      case (Some(row), Some(rest)) => Some([row] + rest)
      case _ => None
  }

  /** The last column of `line` holding `^`. */
  function LastCaretIn(line: string): (r: Option<nat>)
    ensures r.Some? ==> (r.value < |line| && line[r.value] == '^'
      && forall k :: r.value < k < |line| ==> line[k] != '^')
    ensures r.None? ==> forall k :: 0 <= k < |line| ==> line[k] != '^'
  {
    if line == [] then None
    else if line[|line| - 1] == '^' then Some(|line| - 1)
    else LastCaretIn(line[..|line| - 1])
  }

  /** `^` at row `r` and column `c`. */
  predicate CaretAt(lines: seq<string>, r: int, c: int)
  {
    0 <= r < |lines| && 0 <= c < |lines[r]| && lines[r][c] == '^'
  }

  /** The last `^` in reading order, which is the `start` the parser keeps. */
  function LastCaret(lines: seq<string>): (r: Option<Pos>)
    ensures r.Some? ==> (CaretAt(lines, r.value.0, r.value.1)
      && forall i, k :: CaretAt(lines, i, k) ==> i < r.value.0 || (i == r.value.0 && k <= r.value.1))
    ensures r.None? ==> forall i, k :: !CaretAt(lines, i, k)
  {
    if lines == [] then None
    else match LastCaretIn(lines[|lines| - 1])
      case Some(c) => Some((|lines| - 1, c as int))
      case None =>
        var r := LastCaret(lines[..|lines| - 1]);
        assert forall i, k :: CaretAt(lines, i, k) ==> i < |lines| - 1 && CaretAt(lines[..|lines| - 1], i, k);
        r
  }

  /** `from_str`: `.` is empty, `#` an obstacle and `^` the empty start cell. The
      source panics on any other character, on an empty input and without a `^`;
      those are `None`. With several `^` the last one in reading order is the start. */
  function FromStr(s: string): (r: Option<Input>)
    ensures var lines := Text.Lines(s);
      r.Some? <==> (lines != [] && (forall i, k :: 0 <= i < |lines| && 0 <= k < |lines[i]| ==> lines[i][k] in ".#^")
        && exists i, k :: CaretAt(lines, i, k))
    ensures var lines := Text.Lines(s);
      r.Some? ==>
        && r.value.size == (|lines|, |lines[0]|)
        && |r.value.tiles| == |lines|
        && (forall i :: 0 <= i < |lines| ==> |r.value.tiles[i]| == |lines[i]|)
        && (forall i, k :: 0 <= i < |lines| && 0 <= k < |lines[i]| ==>
              (r.value.tiles[i][k] == Obstacle <==> lines[i][k] == '#'))
        && CaretAt(lines, r.value.start.0, r.value.start.1)
        && forall i, k :: CaretAt(lines, i, k) ==> i < r.value.start.0 || (i == r.value.start.0 && k <= r.value.start.1)
  {
    var lines := Text.Lines(s);
    match ParseRows(lines)
    case None =>
      ParseRowsFails(lines);
      None
    case Some(tiles) =>
      ParseRowsSucceeds(lines);
      if tiles == [] then None
      else match LastCaret(lines)
        case None => None
        case Some(start) =>
          ParseRowsTiles(lines, tiles);
          Some(Input(tiles, start, (|tiles|, |tiles[0]|)))
  }

  lemma ParseRowsFails(lines: seq<string>)
    requires ParseRows(lines).None?
    ensures exists i, k :: 0 <= i < |lines| && 0 <= k < |lines[i]| && lines[i][k] !in ".#^"
  {
    var i :| 0 <= i < |lines| && ParseRow(lines[i]).None?;
    var k :| 0 <= k < |lines[i]| && TileOf(lines[i][k]).None?;
  }

  lemma ParseRowsSucceeds(lines: seq<string>)
    requires ParseRows(lines).Some?
    ensures forall i, k :: 0 <= i < |lines| && 0 <= k < |lines[i]| ==> lines[i][k] in ".#^"
  {
    forall i, k | 0 <= i < |lines| && 0 <= k < |lines[i]| ensures lines[i][k] in ".#^" {
      assert ParseRow(lines[i]).Some?;
      assert TileOf(lines[i][k]).Some?;
    }
  }

  lemma ParseRowsTiles(lines: seq<string>, tiles: seq<seq<Tile>>)
    requires ParseRows(lines) == Some(tiles)
    ensures |tiles| == |lines| && forall i :: 0 <= i < |lines| ==> |tiles[i]| == |lines[i]|
    ensures forall i, k :: 0 <= i < |lines| && 0 <= k < |lines[i]| ==> (tiles[i][k] == Obstacle <==> lines[i][k] == '#')
  {
    forall i, k | 0 <= i < |lines| && 0 <= k < |lines[i]| ensures (tiles[i][k] == Obstacle <==> lines[i][k] == '#') {
      assert Some(tiles[i]) == ParseRow(lines[i]);
      assert Some(tiles[i][k]) == TileOf(lines[i][k]);
    }
  }
}
