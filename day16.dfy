/** src/bin/day16.rs: the cheapest way through a maze for a reindeer that starts
    at `S` facing right. A step straight ahead costs 1, a step that turns a quarter
    costs 1001. `solve` runs a Dijkstra search over (cell, facing) states on a
    binary heap; stale heap entries are thrown away lazily. A backward pass over the
    settled scores then counts the cells that lie on tied cheapest routes. */
module Day16 {
  import opened Common
  import opened Grid
  import Text

  datatype Tile = Floor | Wall

  /** `Tile::from_char`: the start and end cells are floor. */
  function TileFromChar(c: char): (r: Option<Tile>)
    ensures r == Some(Floor) <==> c == '.' || c == 'S' || c == 'E'
    ensures r == Some(Wall) <==> c == '#'
    ensures r.None? <==> c != '.' && c != 'S' && c != 'E' && c != '#'
  {
    match c
    case '.' => Some(Floor)
    case 'S' => Some(Floor)
    case 'E' => Some(Floor)
    case '#' => Some(Wall)
    case _ => None
  }

  datatype Direction = Up | Down | Left | Right

  /** `Direction::neighbours`: the two directions a turn can face. */
  function Neighbours(d: Direction): seq<Direction>
  {
    match d
    case Up | Down => [Left, Right]
    case Left | Right => [Up, Down]
  }

  /** `Direction::invert`. */
  function Invert(d: Direction): Direction
  {
    match d
    case Up => Down
    case Down => Up
    case Left => Right
    case Right => Left
  }

  /** `Direction::move_`: `y` grows downwards. */
  function Move(d: Direction, p: Pos): Pos
  {
    match d
    case Left => Pos(p.x - 1, p.y)
    case Right => Pos(p.x + 1, p.y)
    case Up => Pos(p.x, p.y - 1)
    case Down => Pos(p.x, p.y + 1)
  }

  predicate Horizontal(d: Direction)
  {
    d == Left || d == Right
  }

  /** The reference notion of a quarter turn: one direction is horizontal, the other is not. */
  predicate Perpendicular(d: Direction, e: Direction)
  {
    Horizontal(d) != Horizontal(e)
  }

  /** `neighbours` lists exactly the two perpendicular directions, never `d` or its inverse. */
  lemma NeighboursPerpendicular(d: Direction)
    ensures |Neighbours(d)| == 2 && Neighbours(d)[0] != Neighbours(d)[1]
    ensures forall e :: e in Neighbours(d) <==> Perpendicular(d, e)
    ensures d !in Neighbours(d) && Invert(d) !in Neighbours(d)
  {
  }

  /** Turning is symmetric: `e` is a turn from `d` exactly when `d` is a turn from `e`. */
  lemma NeighboursSymmetric(d: Direction, e: Direction)
    ensures e in Neighbours(d) <==> d in Neighbours(e)
  {
    NeighboursPerpendicular(d);
    NeighboursPerpendicular(e);
  }

  /** `invert` is an involution without fixed points that keeps the axis. */
  lemma InvertInvolution(d: Direction)
    ensures Invert(Invert(d)) == d && Invert(d) != d && !Perpendicular(d, Invert(d))
  {
  }

  /** Moving along the inverted direction undoes a move. */
  lemma MoveBack(d: Direction, p: Pos)
    ensures Move(Invert(d), Move(d, p)) == p && Move(d, Move(Invert(d), p)) == p
  {
  }

  datatype State = State(pos: Pos, direction: Direction)

  datatype ScoredState = ScoredState(state: State, score: int)

  /** `Ord for ScoredState`: the scores compared the other way round, so that the
      greatest entry of the max-heap is one with the lowest score. */
  function Cmp(a: ScoredState, b: ScoredState): (r: Ordering)
    ensures r == Greater <==> a.score < b.score
    ensures r == Less <==> b.score < a.score
    ensures r == Equal <==> a.score == b.score
  {
    CompareInt(b.score, a.score)
  }

  /** The entry `BinaryHeap::peek` and `pop` return: one that no entry exceeds under
      `Cmp`. The heap is kept as a sequence; among equals the model takes the first. */
  function TopIndex(h: seq<ScoredState>): (i: nat)
    requires h != []
    ensures i < |h| && forall j :: 0 <= j < |h| ==> Cmp(h[i], h[j]) != Less
  {
    if |h| == 1 then 0
    else
      var k := TopIndex(h[..|h| - 1]);
      if Cmp(h[|h| - 1], h[k]) == Greater then |h| - 1 else k
  }

  /** With the reversed order the heap pops an entry of minimum score. */
  lemma TopIsMinimum(h: seq<ScoredState>)
    requires h != []
    ensures forall e :: e in h ==> h[TopIndex(h)].score <= e.score
  {
    var i := TopIndex(h);
    forall e | e in h
      ensures h[i].score <= e.score
    {
      var j :| 0 <= j < |h| && h[j] == e;
      assert Cmp(h[i], h[j]) != Less;
    }
  }

  /** The heap without the entry at `i`. */
  function RemoveAt(h: seq<ScoredState>, i: nat): seq<ScoredState>
    requires i < |h|
  {
    h[..i] + h[i + 1..]
  }

  /** Removing an entry takes exactly that entry out of the multiset of entries. */
  lemma RemoveAtMembers(h: seq<ScoredState>, i: nat)
    requires i < |h|
    ensures multiset(RemoveAt(h, i)) + multiset{h[i]} == multiset(h)
    ensures forall e :: e in RemoveAt(h, i) ==> e in h
    ensures forall e :: e in h && e != h[i] ==> e in RemoveAt(h, i)
  {
    assert h == h[..i] + [h[i]] + h[i + 1..];
  }

  /** The cell at `p` exists and is floor. */
  predicate Open(m: Map<Tile>, p: Pos)
  {
    m.InBounds(p) && m.Get(p) == Floor
  }

  /** The maze is walled: every cell next to a floor cell can be indexed, so the
      unchecked `map[&next]` of `solve` never panics. */
  ghost predicate Walled(m: Map<Tile>)
  {
    forall p, d :: Open(m, p) ==> m.InBounds(Move(d, p))
  }

  /** One move of the reindeer from `s` to `t`: straight ahead, or a quarter turn
      together with a step, onto a floor cell. */
  predicate Legal(m: Map<Tile>, s: State, t: State)
  {
    && Open(m, t.pos)
    && t.pos == Move(t.direction, s.pos)
    && (t.direction == s.direction || t.direction in Neighbours(s.direction))
  }

  function StepCost(s: State, t: State): int
  {
    if t.direction == s.direction then 1 else 1001
  }

  /** `b` is `a` followed by one legal move, scored at its cost. */
  predicate Step(m: Map<Tile>, a: ScoredState, b: ScoredState)
  {
    Legal(m, a.state, b.state) && b.score == a.score + StepCost(a.state, b.state)
  }

  /** A walk of the reindeer from the start, facing right. */
  ghost predicate IsWalk(m: Map<Tile>, start: Pos, w: seq<State>)
  {
    && |w| > 0
    && w[0] == State(start, Right)
    && forall k :: 0 <= k < |w| - 1 ==> Legal(m, w[k], w[k + 1])
  }

  /** The sum of the move costs along a walk. */
  function Cost(w: seq<State>): int
  {
    if |w| <= 1 then 0 else Cost(w[..|w| - 1]) + StepCost(w[|w| - 2], w[|w| - 1])
  }

  /** Some walk ends in `e.state` and costs exactly `e.score`. */
  ghost predicate Reaches(m: Map<Tile>, start: Pos, e: ScoredState)
  {
    exists w :: IsWalk(m, start, w) && w[|w| - 1] == e.state && Cost(w) == e.score
  }

  /** `c` is the least cost of a walk ending in `s`. */
  ghost predicate Cheapest(m: Map<Tile>, start: Pos, s: State, c: int)
  {
    Reaches(m, start, ScoredState(s, c)) &&
    forall w :: IsWalk(m, start, w) && w[|w| - 1] == s ==> c <= Cost(w)
  }

  /** Every recorded score is the least cost of its state. */
  ghost predicate Settled(m: Map<Tile>, start: Pos, scores: map<State, int>)
  {
    forall s :: s in scores ==> Cheapest(m, start, s, scores[s])
  }

  /** No walk reaches the end cell. */
  ghost predicate Unreachable(m: Map<Tile>, start: Pos, end: Pos)
  {
    forall w: seq<State> :: IsWalk(m, start, w) ==> w[|w| - 1].pos != end
  }

  /** `arrival` is the only recorded state on the end cell, and no walk reaches the
      end cell for less than its score. */
  ghost predicate Arrival(m: Map<Tile>, start: Pos, end: Pos, scores: map<State, int>, arrival: State)
  {
    && arrival in scores && arrival.pos == end
    && (forall s :: s in scores && s.pos == end ==> s == arrival)
    && forall w: seq<State> :: IsWalk(m, start, w) && w[|w| - 1].pos == end ==> scores[arrival] <= Cost(w)
  }

  /** `c` is the least cost of a walk from the start to the end cell, in any facing. */
  ghost predicate LeastToEnd(m: Map<Tile>, start: Pos, end: Pos, c: int)
  {
    && (exists w: seq<State> :: IsWalk(m, start, w) && w[|w| - 1].pos == end && Cost(w) == c)
    && forall w: seq<State> :: IsWalk(m, start, w) && w[|w| - 1].pos == end ==> c <= Cost(w)
  }

  /** The score of the arrival is the least cost of reaching the end cell. */
  lemma ArrivalIsLeast(m: Map<Tile>, start: Pos, end: Pos, scores: map<State, int>, arrival: State)
    requires Settled(m, start, scores) && Arrival(m, start, end, scores, arrival)
    ensures LeastToEnd(m, start, end, scores[arrival])
  {
    assert Cheapest(m, start, arrival, scores[arrival]);
    var w: seq<State> :| IsWalk(m, start, w) && w[|w| - 1] == arrival && Cost(w) == scores[arrival];
    assert w[|w| - 1].pos == end;
  }

  lemma {:induction false} CostNonNegative(w: seq<State>)
    ensures Cost(w) >= 0
    decreases |w|
  {
    if |w| > 1 {
      CostNonNegative(w[..|w| - 1]);
    }
  }

  /** The start state is recorded at score 0, whatever the maze. */
  lemma StartScoresZero(m: Map<Tile>, start: Pos, scores: map<State, int>)
    requires Settled(m, start, scores) && State(start, Right) in scores
    ensures scores[State(start, Right)] == 0
  {
    var s := State(start, Right);
    assert Cheapest(m, start, s, scores[s]);
    var w :| IsWalk(m, start, w) && w[|w| - 1] == s && Cost(w) == scores[s];
    CostNonNegative(w);
    assert IsWalk(m, start, [s]) && Cost([s]) == 0;
  }

  /** A walk to `a` followed by the move to `b` is a walk to `b`. */
  lemma Extend(m: Map<Tile>, start: Pos, a: ScoredState, b: ScoredState)
    requires Reaches(m, start, a) && Step(m, a, b)
    ensures Reaches(m, start, b)
  {
    var w :| IsWalk(m, start, w) && w[|w| - 1] == a.state && Cost(w) == a.score;
    var w' := w + [b.state];
    assert w'[..|w'| - 1] == w;
    forall k | 0 <= k < |w'| - 1
      ensures Legal(m, w'[k], w'[k + 1])
    {
      if k < |w| - 1 {
        assert w'[k] == w[k] && w'[k + 1] == w[k + 1];
      }
    }
    assert IsWalk(m, start, w') && Cost(w') == b.score;
  }

  function Initial(start: Pos): ScoredState
  {
    ScoredState(State(start, Right), 0)
  }

  /** Entry straight ahead of `a`. */
  function Forward(a: ScoredState): ScoredState
  {
    ScoredState(State(Move(a.state.direction, a.state.pos), a.state.direction), a.score + 1)
  }

  /** Entry after turning from `a` to face `d` and stepping. */
  function Turn(a: ScoredState, d: Direction): ScoredState
  {
    ScoredState(State(Move(d, a.state.pos), d), a.score + 1001)
  }

  /** The entries `solve` considers from `a`, in its order: ahead, then each turn. */
  function Candidates(a: ScoredState): seq<ScoredState>
  {
    var n := Neighbours(a.state.direction);
    [Forward(a), Turn(a, n[0]), Turn(a, n[1])]
  }

  /** Every candidate costs more than the entry it comes from. */
  lemma CandidatesCostMore(a: ScoredState, e: ScoredState)
    requires e in Candidates(a)
    ensures e.score > a.score
  {
  }

  /** The candidates are exactly the moves: a candidate on floor is a step, and every
      step is a candidate. */
  lemma StepIsCandidate(m: Map<Tile>, a: ScoredState, b: ScoredState)
    ensures Step(m, a, b) <==> b in Candidates(a) && Open(m, b.state.pos)
  {
    NeighboursPerpendicular(a.state.direction);
  }

  /** The entries `solve` pushes from `a`, in order: each candidate on floor with an
      unsettled state. */
  function Pushes(m: Map<Tile>, seen: map<State, int>, a: ScoredState): seq<ScoredState>
  {
    var n := Neighbours(a.state.direction);
    Keep(m, seen, Forward(a)) + Keep(m, seen, Turn(a, n[0])) + Keep(m, seen, Turn(a, n[1]))
  }

  /** `e` alone when `solve` pushes it, else nothing. */
  function Keep(m: Map<Tile>, seen: map<State, int>, e: ScoredState): seq<ScoredState>
  {
    if Open(m, e.state.pos) && e.state !in seen then [e] else []
  }

  /** The pushes are exactly the candidates on floor with an unsettled state. */
  lemma PushesMembers(m: Map<Tile>, seen: map<State, int>, a: ScoredState)
    ensures forall e :: e in Pushes(m, seen, a) <==> e in Candidates(a) && Open(m, e.state.pos) && e.state !in seen
  {
  }

  /** `b` is accounted for: its state is settled at no more than its score, or it waits
      in the heap. */
  ghost predicate Covered(seen: map<State, int>, heap: seq<ScoredState>, b: ScoredState)
  {
    (b.state in seen && seen[b.state] <= b.score) || b in heap
  }

  /** Every move out of a settled state is accounted for. */
  ghost predicate Frontier(m: Map<Tile>, seen: map<State, int>, heap: seq<ScoredState>)
  {
    forall s, b :: s in seen && Step(m, ScoredState(s, seen[s]), b) ==> Covered(seen, heap, b)
  }

  /** What holds of the search between two pops. */
  ghost predicate Searching(m: Map<Tile>, start: Pos, end: Pos, seen: map<State, int>, heap: seq<ScoredState>)
  {
    && (forall e :: e in heap ==> Open(m, e.state.pos) && Reaches(m, start, e))
    && (forall s :: s in seen ==> Open(m, s.pos) && s.pos != end && Reaches(m, start, ScoredState(s, seen[s])))
    && (forall s, e :: s in seen && e in heap ==> seen[s] <= e.score)
    && Frontier(m, seen, heap)
    && Covered(seen, heap, Initial(start))
    && (seen == map[] ==> heap == [Initial(start)])
    && (seen != map[] ==> State(start, Right) in seen)
  }

  lemma SearchStarts(m: Map<Tile>, start: Pos, end: Pos)
    requires Open(m, start)
    ensures Searching(m, start, end, map[], [Initial(start)])
  {
    var w := [State(start, Right)];
    assert IsWalk(m, start, w) && Cost(w) == 0;
  }

  /** Settling `top` keeps a covered entry covered. */
  lemma CoveredAfterSettle(seen: map<State, int>, heap: seq<ScoredState>, i: nat,
                           pushed: seq<ScoredState>, b: ScoredState)
    requires i < |heap| && heap[i].state !in seen && Covered(seen, heap, b)
    ensures Covered(seen[heap[i].state := heap[i].score], RemoveAt(heap, i) + pushed, b)
  {
    RemoveAtMembers(heap, i);
  }

  /** Popping the top entry, settling its state and pushing its unsettled successors
      keeps the search invariant. */
  lemma SettleStep(m: Map<Tile>, start: Pos, end: Pos, seen: map<State, int>, heap: seq<ScoredState>, i: nat)
    requires Searching(m, start, end, seen, heap) && heap != [] && i == TopIndex(heap)
    requires heap[i].state !in seen && heap[i].state.pos != end
    ensures var top := heap[i];
            var seen' := seen[top.state := top.score];
            Searching(m, start, end, seen', RemoveAt(heap, i) + Pushes(m, seen', top))
  {
    var top := heap[i];
    var seen' := seen[top.state := top.score];
    var pushed := Pushes(m, seen', top);
    TopIsMinimum(heap);
    HeapAfterSettle(m, start, seen, heap, i);
    FrontierAfterSettle(m, seen, heap, i);
    CoveredAfterSettle(seen, heap, i, pushed, Initial(start));
  }

  /** After settling `top`, the heap holds floor states reached at their scores, and no
      settled score exceeds a score in the heap. */
  lemma HeapAfterSettle(m: Map<Tile>, start: Pos, seen: map<State, int>, heap: seq<ScoredState>, i: nat)
    requires i < |heap| && i == TopIndex(heap)
    requires forall e :: e in heap ==> Open(m, e.state.pos) && Reaches(m, start, e)
    requires forall s, e :: s in seen && e in heap ==> seen[s] <= e.score
    ensures var top := heap[i];
            var seen' := seen[top.state := top.score];
            var heap' := RemoveAt(heap, i) + Pushes(m, seen', top);
            && (forall e :: e in heap' ==> Open(m, e.state.pos) && Reaches(m, start, e))
            && (forall s, e :: s in seen' && e in heap' ==> seen'[s] <= e.score)
  {
    var top := heap[i];
    var seen' := seen[top.state := top.score];
    var rest := RemoveAt(heap, i);
    var pushed := Pushes(m, seen', top);
    var heap' := rest + pushed;
    RemoveAtMembers(heap, i);
    TopIsMinimum(heap);
    PushesMembers(m, seen', top);
    forall e: ScoredState | e in heap'
      ensures Open(m, e.state.pos) && Reaches(m, start, e)
    {
      if e in pushed {
        StepIsCandidate(m, top, e);
        Extend(m, start, top, e);
      }
    }
    forall s: State, e: ScoredState | s in seen' && e in heap'
      ensures seen'[s] <= e.score
    {
      assert seen'[s] <= top.score;
      if e in pushed {
        CandidatesCostMore(top, e);
      } else {
        assert e in heap;
      }
    }
  }

  /** Settling `top` keeps every move out of a settled state accounted for; the moves
      out of `top` itself are the pushed candidates. */
  lemma FrontierAfterSettle(m: Map<Tile>, seen: map<State, int>, heap: seq<ScoredState>, i: nat)
    requires Frontier(m, seen, heap) && i < |heap| && heap[i].state !in seen
    requires forall s :: s in seen ==> seen[s] <= heap[i].score
    ensures var top := heap[i];
            var seen' := seen[top.state := top.score];
            Frontier(m, seen', RemoveAt(heap, i) + Pushes(m, seen', top))
  {
    var top := heap[i];
    var seen' := seen[top.state := top.score];
    var pushed := Pushes(m, seen', top);
    PushesMembers(m, seen', top);
    forall s, b | s in seen' && Step(m, ScoredState(s, seen'[s]), b)
      ensures Covered(seen', RemoveAt(heap, i) + pushed, b)
    {
      if s == top.state {
        StepIsCandidate(m, top, b);
      } else {
        assert seen'[s] == seen[s];
        assert Covered(seen, heap, b);
        CoveredAfterSettle(seen, heap, i, pushed, b);
      }
    }
  }

  /** Dropping an entry whose state is already settled keeps the search invariant. */
  lemma DiscardStale(m: Map<Tile>, start: Pos, end: Pos, seen: map<State, int>, heap: seq<ScoredState>, i: nat)
    requires Searching(m, start, end, seen, heap) && i < |heap| && heap[i].state in seen
    ensures Searching(m, start, end, seen, RemoveAt(heap, i))
  {
    RemoveAtMembers(heap, i);
    var heap' := RemoveAt(heap, i);
    forall s, b | s in seen && Step(m, ScoredState(s, seen[s]), b)
      ensures Covered(seen, heap', b)
    {
      assert Covered(seen, heap, b);
    }
  }

  /** Along any walk, each state is settled at no more than its cost so far, or the
      cost so far is at least every score in the heap. */
  lemma {:induction false} PrefixBound(m: Map<Tile>, start: Pos, seen: map<State, int>, heap: seq<ScoredState>,
                                       lo: int, w: seq<State>, k: nat)
    requires Frontier(m, seen, heap) && Covered(seen, heap, Initial(start))
    requires forall e :: e in heap ==> lo <= e.score
    requires IsWalk(m, start, w) && k < |w|
    ensures (w[k] in seen && seen[w[k]] <= Cost(w[..k + 1])) || lo <= Cost(w[..k + 1])
  {
    if k == 0 {
      assert Cost(w[..1]) == 0;
    } else {
      PrefixBound(m, start, seen, heap, lo, w, k - 1);
      var c := Cost(w[..k]);
      assert w[..k + 1][..k] == w[..k];
      assert Cost(w[..k + 1]) == c + StepCost(w[k - 1], w[k]);
      assert Legal(m, w[k - 1], w[k]);
      if w[k - 1] in seen && seen[w[k - 1]] <= c {
        var a := ScoredState(w[k - 1], seen[w[k - 1]]);
        var b := ScoredState(w[k], seen[w[k - 1]] + StepCost(w[k - 1], w[k]));
        assert Step(m, a, b);
        assert Covered(seen, heap, b);
        if b !in heap {
          assert w[k] in seen && seen[w[k]] <= b.score;
        }
      }
    }
  }

  /** When `top` is popped, every walk to an unsettled state costs at least its score,
      and every settled score is the least cost of its state. */
  lemma PoppedIsCheapest(m: Map<Tile>, start: Pos, end: Pos, seen: map<State, int>, heap: seq<ScoredState>)
    requires Searching(m, start, end, seen, heap) && heap != []
    ensures forall w :: IsWalk(m, start, w) && w[|w| - 1] !in seen ==> heap[TopIndex(heap)].score <= Cost(w)
    ensures Settled(m, start, seen)
  {
    var top := heap[TopIndex(heap)];
    TopIsMinimum(heap);
    forall w | IsWalk(m, start, w)
      ensures w[|w| - 1] !in seen ==> top.score <= Cost(w)
      ensures w[|w| - 1] in seen ==> seen[w[|w| - 1]] <= Cost(w)
    {
      PrefixBound(m, start, seen, heap, top.score, w, |w| - 1);
      assert w[..|w|] == w;
    }
  }

  /** Once the heap is empty, every walk ends in a settled state, at no less than its score. */
  lemma ExhaustedIsClosed(m: Map<Tile>, start: Pos, end: Pos, seen: map<State, int>)
    requires Searching(m, start, end, seen, [])
    ensures Unreachable(m, start, end) && Settled(m, start, seen)
  {
    forall w | IsWalk(m, start, w)
      ensures w[|w| - 1] in seen && seen[w[|w| - 1]] <= Cost(w)
    {
      PrefixBound(m, start, seen, [], Cost(w) + 1, w, |w| - 1);
      assert w[..|w|] == w;
    }
  }

  /** Popping `top` on the end cell: the extended map is settled, `top` is the arrival,
      and every score in it is at most the arrival's. */
  lemma Arrive(m: Map<Tile>, start: Pos, end: Pos, seen: map<State, int>, heap: seq<ScoredState>)
    requires Searching(m, start, end, seen, heap) && heap != []
    requires heap[TopIndex(heap)].state !in seen && heap[TopIndex(heap)].state.pos == end
    ensures var top := heap[TopIndex(heap)];
            var seen' := seen[top.state := top.score];
            && Settled(m, start, seen') && State(start, Right) in seen'
            && Arrival(m, start, end, seen', top.state)
            && forall s :: s in seen' ==> seen'[s] <= top.score
  {
    var top := heap[TopIndex(heap)];
    var seen' := seen[top.state := top.score];
    PoppedIsCheapest(m, start, end, seen, heap);
    forall s | s in seen'
      ensures Cheapest(m, start, s, seen'[s])
    {
      if s != top.state {
        assert Cheapest(m, start, s, seen[s]);
      }
    }
  }

  /** The predecessor relation of the backward pass: `u` lies one move back from `t`
      and its score is `t`'s less the cost of that move. */
  predicate Pred(scores: map<State, int>, t: State, u: State)
  {
    && t in scores && u in scores
    && u.pos == Move(Invert(t.direction), t.pos)
    && ((u.direction in Neighbours(t.direction) && scores[u] == scores[t] - 1001) ||
        (u.direction == t.direction && scores[u] == scores[t] - 1))
  }

  /** On a floor cell, the backward relation is exactly a forward move read backwards. */
  lemma PredIsStepBack(m: Map<Tile>, scores: map<State, int>, t: State, u: State)
    requires t in scores && u in scores && Open(m, t.pos)
    ensures Pred(scores, t, u) <==> Step(m, ScoredState(u, scores[u]), ScoredState(t, scores[t]))
  {
    MoveBack(t.direction, u.pos);
    MoveBack(t.direction, t.pos);
    NeighboursSymmetric(t.direction, u.direction);
    NeighboursPerpendicular(t.direction);
  }

  /** The facings of the end cell the backward pass starts from, when recorded, are in `marks`. */
  predicate Seeded(scores: map<State, int>, end: Pos, marks: set<State>)
  {
    (State(end, Up) in scores ==> State(end, Up) in marks) &&
    (State(end, Right) in scores ==> State(end, Right) in marks)
  }

  /** `marks` contains every predecessor of its members. */
  ghost predicate Closed(scores: map<State, int>, marks: set<State>)
  {
    forall t, u :: t in marks && Pred(scores, t, u) ==> u in marks
  }

  /** `marks` is the least set of recorded states that holds the seeds and is closed
      under predecessors. */
  ghost predicate BestMarks(scores: map<State, int>, end: Pos, marks: set<State>)
  {
    && marks <= scores.Keys && Seeded(scores, end, marks) && Closed(scores, marks)
    && forall others :: Seeded(scores, end, others) && Closed(scores, others) ==> marks <= others
  }

  /** Every recorded state lies on a floor cell: a walk ends on the start or
      after a legal move. */
  lemma RecordedOpen(m: Map<Tile>, start: Pos, scores: map<State, int>, s: State)
    requires Open(m, start) && Settled(m, start, scores) && s in scores
    ensures Open(m, s.pos)
  {
    assert Cheapest(m, start, s, scores[s]);
    var w: seq<State> :| IsWalk(m, start, w) && w[|w| - 1] == s && Cost(w) == scores[s];
    if |w| > 1 {
      assert Legal(m, w[|w| - 2], w[|w| - 1]);
    }
  }

  /** A walk followed by one legal move is a walk, and costs that move more. */
  lemma WalkAppend(m: Map<Tile>, start: Pos, w: seq<State>, t: State)
    requires IsWalk(m, start, w) && Legal(m, w[|w| - 1], t)
    ensures IsWalk(m, start, w + [t]) && Cost(w + [t]) == Cost(w) + StepCost(w[|w| - 1], t)
  {
    var w' := w + [t];
    assert w'[..|w'| - 1] == w;
    forall k | 0 <= k < |w'| - 1
      ensures Legal(m, w'[k], w'[k + 1])
    {
      if k < |w| - 1 {
        assert w'[k] == w[k] && w'[k + 1] == w[k + 1];
      }
    }
  }

  /** `v` is a chain of recorded states, each one legal move before the next, whose
      scores differ by the cost of that move. */
  ghost predicate ScoredChain(m: Map<Tile>, scores: map<State, int>, v: seq<State>)
  {
    && |v| > 0 && (forall k :: 0 <= k < |v| ==> v[k] in scores)
    && forall k :: 0 <= k < |v| - 1 ==> Step(m, ScoredState(v[k], scores[v[k]]), ScoredState(v[k + 1], scores[v[k + 1]]))
  }

  /** Some scored chain leads from `u` to `a`. */
  ghost predicate LeadsTo(m: Map<Tile>, scores: map<State, int>, u: State, a: State)
  {
    exists v: seq<State> :: ScoredChain(m, scores, v) && v[0] == u && v[|v| - 1] == a
  }

  /** `u` lies on a walk from the start to the end cell that costs `c`. */
  ghost predicate OnWalkToEnd(m: Map<Tile>, start: Pos, end: Pos, c: int, u: State)
  {
    exists w: seq<State> :: IsWalk(m, start, w) && w[|w| - 1].pos == end && Cost(w) == c && u in w
  }

  /** A walk to the head of a scored chain at its score, followed along the chain,
      is a walk to the chain's last state at that state's score, and keeps every
      state of the first walk. */
  lemma {:induction false} FollowChain(m: Map<Tile>, start: Pos, scores: map<State, int>, w: seq<State>, v: seq<State>)
    returns (w': seq<State>)
    requires ScoredChain(m, scores, v)
    requires IsWalk(m, start, w) && w[|w| - 1] == v[0] && Cost(w) == scores[v[0]]
    ensures IsWalk(m, start, w') && w'[|w'| - 1] == v[|v| - 1] && Cost(w') == scores[v[|v| - 1]]
    ensures forall x :: x in w ==> x in w'
    decreases |v|
  {
    if |v| == 1 {
      w' := w;
    } else {
      assert Step(m, ScoredState(v[0], scores[v[0]]), ScoredState(v[1], scores[v[1]]));
      WalkAppend(m, start, w, v[1]);
      var rest := v[1..];
      assert ScoredChain(m, scores, rest) by {
        forall k | 0 <= k < |rest| - 1
          ensures Step(m, ScoredState(rest[k], scores[rest[k]]), ScoredState(rest[k + 1], scores[rest[k + 1]]))
        {
          assert rest[k] == v[k + 1] && rest[k + 1] == v[k + 2];
        }
      }
      w' := FollowChain(m, start, scores, w + [v[1]], rest);
    }
  }

  /** The recorded states that lead to the arrival hold the seeds and are closed
      under predecessors. */
  lemma LeadersSeededClosed(m: Map<Tile>, start: Pos, end: Pos, scores: map<State, int>, arrival: State,
                            leaders: set<State>)
    requires Open(m, start) && Settled(m, start, scores) && Arrival(m, start, end, scores, arrival)
    requires leaders == set u | u in scores && LeadsTo(m, scores, u, arrival)
    ensures Seeded(scores, end, leaders) && Closed(scores, leaders)
  {
    assert ScoredChain(m, scores, [arrival]);
    assert arrival in leaders;
    forall t, u | t in leaders && Pred(scores, t, u) ensures u in leaders {
      LeaderPred(m, start, scores, arrival, t, u);
    }
  }

  /** A predecessor of a state that leads to `a` leads to `a` too. */
  lemma LeaderPred(m: Map<Tile>, start: Pos, scores: map<State, int>, a: State, t: State, u: State)
    requires Open(m, start) && Settled(m, start, scores)
    requires LeadsTo(m, scores, t, a) && Pred(scores, t, u)
    ensures LeadsTo(m, scores, u, a)
  {
    var v: seq<State> :| ScoredChain(m, scores, v) && v[0] == t && v[|v| - 1] == a;
    RecordedOpen(m, start, scores, t);
    PredIsStepBack(m, scores, t, u);
    var v' := [u] + v;
    assert ScoredChain(m, scores, v') by {
      forall k | 0 < k < |v'| - 1
        ensures Step(m, ScoredState(v'[k], scores[v'[k]]), ScoredState(v'[k + 1], scores[v'[k + 1]]))
      {
        assert v'[k] == v[k - 1] && v'[k + 1] == v[k];
      }
    }
    assert v'[|v'| - 1] == a;
  }

  /** Every state the backward pass marks lies on a walk from the start to the end
      cell that costs the arrival's score, which `ArrivalIsLeast` shows is least. */
  lemma MarksOnLeastWalks(m: Map<Tile>, start: Pos, end: Pos, scores: map<State, int>, arrival: State,
                          marks: set<State>)
    requires Open(m, start) && Settled(m, start, scores) && Arrival(m, start, end, scores, arrival)
    requires BestMarks(scores, end, marks)
    ensures forall u :: u in marks ==> OnWalkToEnd(m, start, end, scores[arrival], u)
  {
    var leaders := set u | u in scores && LeadsTo(m, scores, u, arrival);
    LeadersSeededClosed(m, start, end, scores, arrival, leaders);
    assert marks <= leaders;
    forall u | u in marks ensures OnWalkToEnd(m, start, end, scores[arrival], u) {
      assert u in leaders;
      var v: seq<State> :| ScoredChain(m, scores, v) && v[0] == u && v[|v| - 1] == arrival;
      assert Cheapest(m, start, u, scores[u]);
      var w: seq<State> :| IsWalk(m, start, w) && w[|w| - 1] == u && Cost(w) == scores[u];
      var w' := FollowChain(m, start, scores, w, v);
      assert u in w;
    }
  }

  /** The cells of a set of states. */
  function Positions(marks: set<State>): set<Pos>
  {
    set s | s in marks :: s.pos
  }

  /** The number of recorded states with a lower score. */
  function Rank(scores: map<State, int>, s: State): nat
  {
    if s in scores then |Below(scores, s)| else 0
  }

  /** The recorded states with a lower score than `s`. */
  function Below(scores: map<State, int>, s: State): set<State>
    requires s in scores
  {
    set v | v in scores && scores[v] < scores[s]
  }

  /** The termination measure of the backward pass: each stacked state weighs 4 to
      the power of its rank. */
  function Weight(scores: map<State, int>, stack: seq<State>): nat
  {
    if stack == [] then 0
    else Weight(scores, stack[..|stack| - 1]) + Pow(4, Rank(scores, stack[|stack| - 1]))
  }

  /** A predecessor has a lower score, so a lower rank. */
  lemma PredRankDecreases(scores: map<State, int>, t: State, u: State)
    requires Pred(scores, t, u)
    ensures Rank(scores, u) < Rank(scores, t)
  {
    var below, above := Below(scores, u), Below(scores, t);
    assert below <= above;
    assert u in above - below;
    assert above == below + (above - below);
  }

  /** A predecessor weighs at most a quarter of its successor. */
  lemma PredWeighsLess(scores: map<State, int>, t: State, u: State)
    requires Pred(scores, t, u)
    ensures 4 * Pow(4, Rank(scores, u)) <= Pow(4, Rank(scores, t))
  {
    PredRankDecreases(scores, t, u);
    PowMonotone(4, Rank(scores, u) + 1, Rank(scores, t));
  }

  /** What holds of the backward pass between two pops: every state seen or stacked is
      recorded, every seed is seen or stacked, every predecessor of a seen state is seen
      or stacked, and every seed-holding closed set contains what is seen and stacked. */
  ghost predicate Marking(scores: map<State, int>, end: Pos, seen: set<State>, stack: seq<State>)
  {
    && seen <= scores.Keys && (forall s :: s in stack ==> s in scores)
    && (forall d :: d in [Up, Right] && State(end, d) in scores ==> State(end, d) in seen || State(end, d) in stack)
    && (forall t, u :: t in seen && Pred(scores, t, u) ==> u in seen || u in stack)
    && forall others :: Seeded(scores, end, others) && Closed(scores, others) ==>
         seen <= others && forall s :: s in stack ==> s in others
  }

  /** `compute_best_path_tiles`: from the end states facing up or right, follow the
      predecessors on a stack and count the cells of the states reached. The source
      asserts that some seed exists; the model answers `None` there. */
  method BestPathTiles(scores: map<State, int>, end: Pos) returns (r: Option<int>, ghost marks: set<State>)
    ensures r.None? <==> State(end, Up) !in scores && State(end, Right) !in scores
    ensures r.Some? ==> BestMarks(scores, end, marks) && r.value == |Positions(marks)| && r.value >= 1
  {
    var seen: set<State> := {};
    var stack: seq<State> := [];
    if State(end, Up) in scores {
      stack := stack + [State(end, Up)];
    }
    if State(end, Right) in scores {
      stack := stack + [State(end, Right)];
    }
    if stack == [] {
      return None, {};
    }
    MarkingStarts(scores, end, stack);
    while stack != []
      invariant Marking(scores, end, seen, stack)
      invariant seen != {} || stack != []
      decreases Weight(scores, stack)
    {
      var t := stack[|stack| - 1];
      ghost var seen0, stack0 := seen, stack;
      stack := stack[..|stack| - 1];
      seen := seen + {t};
      stack := PushPredecessors(scores, t, stack);
      BackStep(scores, end, seen0, stack0, stack);
      assert stack0[..|stack0| - 1] + [t] == stack0;
    }
    MarkingDone(scores, end, seen);
    marks := seen;
    var cells := set s | s in seen :: s.pos;
    r := Some(|cells|);
    var s0 :| s0 in seen;
    assert s0.pos in cells;
  }

  /** The inner loop of `compute_best_path_tiles`: the three states one move back from
      `t`, facing each turn of `t`'s direction and then `t`'s own, each pushed when its
      recorded score is `t`'s less 1001, 1001 and 1. */
  method PushPredecessors(scores: map<State, int>, t: State, stack: seq<State>) returns (stack': seq<State>)
    requires t in scores
    ensures |stack| <= |stack'| && stack'[..|stack|] == stack
    ensures forall j :: |stack| <= j < |stack'| ==> Pred(scores, t, stack'[j])
    ensures forall u :: Pred(scores, t, u) ==> u in stack'
    ensures Weight(scores, stack') < Weight(scores, stack) + Pow(4, Rank(scores, t))
  {
    stack' := stack;
    var back := Move(Invert(t.direction), t.pos);
    var directions := Neighbours(t.direction) + [t.direction];
    var diffs := [1001, 1001, 1];
    ghost var budget := 0;
    ghost var weight := Pow(4, Rank(scores, t));
    for k := 0 to 3
      invariant |stack| <= |stack'| && stack'[..|stack|] == stack
      invariant forall j :: |stack| <= j < |stack'| ==> Pred(scores, t, stack'[j])
      invariant forall j :: 0 <= j < k ==> Tried(scores, t, State(back, directions[j]), diffs[j], stack')
      invariant 4 * Weight(scores, stack') <= 4 * Weight(scores, stack) + budget
      invariant (k == 0 ==> budget == 0) && (k <= 1 ==> budget <= weight) && (k <= 2 ==> budget <= weight + weight)
      invariant budget <= weight + weight + weight
    {
      var u := State(back, directions[k]);
      if u in scores && scores[u] == scores[t] - diffs[k] {
        assert Pred(scores, t, u);
        PushWeighs(scores, stack', t, u);
        assert (stack' + [u])[..|stack|] == stack'[..|stack|];
        stack' := stack' + [u];
        budget := budget + weight;
      }
    }
    PredsAreCandidates(scores, t, back, directions, diffs, stack');
    PowPositive(4, Rank(scores, t));
  }

  /** The stacked seeds start the backward invariant. */
  lemma MarkingStarts(scores: map<State, int>, end: Pos, stack: seq<State>)
    requires forall s :: s in stack <==> s in scores && (s == State(end, Up) || s == State(end, Right))
    ensures Marking(scores, end, {}, stack)
  {
  }

  /** With the stack empty, the seen states are the least closed seeded set. */
  lemma MarkingDone(scores: map<State, int>, end: Pos, seen: set<State>)
    requires Marking(scores, end, seen, [])
    ensures BestMarks(scores, end, seen)
  {
  }

  /** Pushing a predecessor adds at most a quarter of its successor's weight. */
  lemma PushWeighs(scores: map<State, int>, stack: seq<State>, t: State, u: State)
    requires Pred(scores, t, u)
    ensures 4 * Weight(scores, stack + [u]) <= 4 * Weight(scores, stack) + Pow(4, Rank(scores, t))
  {
    assert (stack + [u])[..|stack|] == stack;
    PredWeighsLess(scores, t, u);
  }

  /** Popping `t`, marking it and stacking its predecessors keeps the backward invariant. */
  lemma BackStep(scores: map<State, int>, end: Pos, seen: set<State>, stack: seq<State>, stack': seq<State>)
    requires Marking(scores, end, seen, stack) && stack != []
    requires var rest := stack[..|stack| - 1];
             && |rest| <= |stack'| && stack'[..|rest|] == rest
             && (forall j :: |rest| <= j < |stack'| ==> Pred(scores, stack[|stack| - 1], stack'[j]))
             && forall u :: Pred(scores, stack[|stack| - 1], u) ==> u in stack'
    ensures Marking(scores, end, seen + {stack[|stack| - 1]}, stack')
  {
    var t := stack[|stack| - 1];
    var rest := stack[..|stack| - 1];
    assert stack == rest + [t];
    StackKept(rest, stack');
    forall s | s in stack'
      ensures s in scores && forall others :: Seeded(scores, end, others) && Closed(scores, others) ==> s in others
    {
      var j :| 0 <= j < |stack'| && stack'[j] == s;
      if j < |rest| {
        assert s == rest[j] && s in stack;
      } else {
        assert Pred(scores, t, s);
      }
    }
  }

  /** If `u` is a predecessor of `t` at distance `diff`, it was pushed. */
  predicate Tried(scores: map<State, int>, t: State, u: State, diff: int, stack: seq<State>)
    requires t in scores
  {
    u in scores && scores[u] == scores[t] - diff ==> u in stack
  }

  /** Every predecessor of `t` is one of the three states the backward pass tries, so
      it was pushed. */
  lemma PredsAreCandidates(scores: map<State, int>, t: State, back: Pos, directions: seq<Direction>,
                           diffs: seq<int>, stack: seq<State>)
    requires t in scores && back == Move(Invert(t.direction), t.pos)
    requires directions == Neighbours(t.direction) + [t.direction] && diffs == [1001, 1001, 1]
    requires forall j :: 0 <= j < 3 ==> Tried(scores, t, State(back, directions[j]), diffs[j], stack)
    ensures forall u :: Pred(scores, t, u) ==> u in stack
  {
    forall u | Pred(scores, t, u)
      ensures u in stack
    {
      NeighboursPerpendicular(t.direction);
      if u.direction == t.direction {
        assert Tried(scores, t, State(back, directions[2]), diffs[2], stack);
      } else if u.direction == directions[0] {
        assert Tried(scores, t, State(back, directions[0]), diffs[0], stack);
      } else {
        assert Tried(scores, t, State(back, directions[1]), diffs[1], stack);
      }
    }
  }

  /** Members of the old stack other than its top stay on the new stack. */
  lemma StackKept(rest: seq<State>, stack: seq<State>)
    requires |rest| <= |stack| && stack[..|rest|] == rest
    ensures forall s :: s in rest ==> s in stack
  {
    forall s | s in rest
      ensures s in stack
    {
      var j :| 0 <= j < |rest| && rest[j] == s;
      assert stack[j] == s;
    }
  }

  /** `solve`: Dijkstra over (cell, facing) states from the start facing right. It
      returns the cost of the first state popped on the end cell and the number of
      cells on tied cheapest routes into that state. The source panics when the heap
      runs empty and when the backward pass finds no seed; the model answers `None`.
      The ghost results are the settled scores, the arrival state and the marked states. */
  method Solve(m: Map<Tile>, start: Pos, end: Pos)
    returns (r: Option<(int, int)>, ghost scores: map<State, int>, ghost arrival: State, ghost marks: set<State>)
    requires Walled(m) && Open(m, start)
    ensures State(start, Right) in scores && Settled(m, start, scores)
    ensures r.Some? ==> Arrival(m, start, end, scores, arrival) && arrival.direction in [Up, Right]
    ensures r.Some? ==> r.value.0 == scores[arrival] && forall s :: s in scores ==> scores[s] <= r.value.0
    ensures r.Some? ==> BestMarks(scores, end, marks) && r.value.1 == |Positions(marks)| && r.value.1 >= 1
    ensures r.Some? ==> LeastToEnd(m, start, end, r.value.0) && r.value.1 >= 1
    ensures r.Some? ==> forall u :: u in marks ==> OnWalkToEnd(m, start, end, r.value.0, u)
    ensures r.None? ==> Unreachable(m, start, end) ||
                        (Arrival(m, start, end, scores, arrival) && arrival.direction !in [Up, Right])
  {
    var heap := [Initial(start)];
    var seen: map<State, int> := map[];
    SearchStarts(m, start, end);
    while heap != []
      invariant Searching(m, start, end, seen, heap)
      invariant heap != [] ==> heap[TopIndex(heap)].state !in seen
      decreases |GridStates(m) - seen.Keys|
    {
      ghost var seen0, heap0 := seen, heap;
      var i := TopIndex(heap);
      var top := heap[i];
      heap := RemoveAt(heap, i);
      seen := seen[top.state := top.score];
      SettledShrinks(m, seen0, top);
      if top.state.pos == end {
        Arrive(m, start, end, seen0, heap0);
        var tiles;
        tiles, marks := BestPathTiles(seen, end);
        scores, arrival := seen, top.state;
        ArrivalFacing(scores, end, arrival);
        if tiles.None? {
          return None, scores, arrival, marks;
        }
        ArrivalIsLeast(m, start, end, scores, arrival);
        MarksOnLeastWalks(m, start, end, scores, arrival, marks);
        return Some((top.score, tiles.value)), scores, arrival, marks;
      }
      heap := PushSuccessors(m, seen, top, heap);
      SettleStep(m, start, end, seen0, heap0, i);
      heap := DiscardSettled(m, start, end, seen, heap);
      if heap == [] {
        ExhaustedIsClosed(m, start, end, seen);
        return None, seen, State(end, Up), {};
      }
    }
    ExhaustedIsClosed(m, start, end, seen);
    return None, seen, State(end, Up), {};
  }

  /** The pushes of one round of `solve`: the state straight ahead at 1 more, then each
      turn of the direction at 1001 more, when the cell is floor and the state is not
      settled. */
  method PushSuccessors(m: Map<Tile>, seen: map<State, int>, top: ScoredState, heap: seq<ScoredState>)
    returns (heap': seq<ScoredState>)
    requires Walled(m) && Open(m, top.state.pos)
    ensures heap' == heap + Pushes(m, seen, top)
  {
    heap' := heap;
    var ahead := Forward(top);
    if m.Get(ahead.state.pos) == Floor && ahead.state !in seen {
      heap' := heap' + [ahead];
    }
    // The source loops over the two turns of `neighbours`; the loop is unrolled.
    var turns := Neighbours(top.state.direction);
    var left := Turn(top, turns[0]);
    if m.Get(left.state.pos) == Floor && left.state !in seen {
      heap' := heap' + [left];
    }
    var right := Turn(top, turns[1]);
    if m.Get(right.state.pos) == Floor && right.state !in seen {
      heap' := heap' + [right];
    }
  }

  /** The loop that ends a round of `solve`: pop while the top entry's state is settled.
      The source's `peek` panics once the heap is empty; the caller answers `None` there. */
  method DiscardSettled(ghost m: Map<Tile>, ghost start: Pos, ghost end: Pos, seen: map<State, int>,
                        heap: seq<ScoredState>) returns (heap': seq<ScoredState>)
    requires Searching(m, start, end, seen, heap)
    ensures Searching(m, start, end, seen, heap')
    ensures heap' != [] ==> heap'[TopIndex(heap')].state !in seen
    ensures multiset(heap') <= multiset(heap)
  {
    heap' := heap;
    while heap' != [] && heap'[TopIndex(heap')].state in seen
      invariant Searching(m, start, end, seen, heap')
      invariant multiset(heap') <= multiset(heap)
      decreases |heap'|
    {
      DiscardStale(m, start, end, seen, heap', TopIndex(heap'));
      RemoveAtMembers(heap', TopIndex(heap'));
      heap' := RemoveAt(heap', TopIndex(heap'));
    }
  }

  /** With a single recorded state on the end cell, the backward pass has a seed exactly
      when that state faces up or right. */
  lemma ArrivalFacing(scores: map<State, int>, end: Pos, arrival: State)
    requires arrival in scores && arrival.pos == end
    requires forall s :: s in scores && s.pos == end ==> s == arrival
    ensures (State(end, Up) in scores || State(end, Right) in scores) <==> arrival.direction in [Up, Right]
  {
    assert arrival == State(end, arrival.direction);
  }

  /** The states of the maze: finitely many. */
  ghost function GridStates(m: Map<Tile>): set<State>
  {
    set y, x, d | 0 <= y < |m.data| && 0 <= x < |m.data[y]| && d in [Up, Down, Left, Right] :: State(Pos(x, y), d)
  }

  /** Settling a new state takes one more state of the maze out of the unsettled ones. */
  lemma SettledShrinks(m: Map<Tile>, seen: map<State, int>, top: ScoredState)
    requires Open(m, top.state.pos) && top.state !in seen
    ensures |GridStates(m) - seen[top.state := top.score].Keys| < |GridStates(m) - seen.Keys|
  {
    var s := top.state;
    InGrid(m, s);
    var before := GridStates(m) - seen.Keys;
    var after := GridStates(m) - seen[s := top.score].Keys;
    assert before == after + {s};
  }

  lemma InGrid(m: Map<Tile>, s: State)
    requires m.InBounds(s.pos)
    ensures s in GridStates(m)
  {
    var y, x, d := s.pos.y, s.pos.x, s.direction;
    assert d in [Up, Down, Left, Right] by {
      match d
      case Up =>
      case Down =>
      case Left =>
      case Right =>
    }
    assert s == State(Pos(x, y), d);
  }

  /** The cell `p` of the text holds `c`. */
  predicate CharAt(lines: seq<string>, p: Pos, c: char)
  {
    0 <= p.y < |lines| && 0 <= p.x < |lines[p.y]| && lines[p.y][p.x] == c
  }

  /** `q` comes after `p` in reading order. */
  predicate After(q: Pos, p: Pos)
  {
    q.y > p.y || (q.y == p.y && q.x > p.x)
  }

  /** `q` is read before the scan reaches column `x` of row `y`. */
  predicate ReadBefore(q: Pos, y: int, x: int)
  {
    q.y < y || (q.y == y && q.x < x)
  }

  /** `found` is the last cell holding `c` among those read before (`y`, `x`), or
      `None` when none of them holds `c`. */
  ghost predicate ScannedFor(lines: seq<string>, c: char, found: Option<Pos>, y: int, x: int)
  {
    match found
    case None => forall q :: CharAt(lines, q, c) ==> !ReadBefore(q, y, x)
    case Some(p) =>
      && CharAt(lines, p, c) && ReadBefore(p, y, x)
      && forall q :: CharAt(lines, q, c) && ReadBefore(q, y, x) ==> !After(q, p)
  }

  /** Some cell of the text holds `c`. */
  ghost predicate HasMark(lines: seq<string>, c: char)
  {
    exists q :: CharAt(lines, q, c)
  }

  /** The last cell, in reading order, that holds `c`. */
  ghost predicate LastOf(lines: seq<string>, c: char, p: Pos)
  {
    CharAt(lines, p, c) && forall q :: CharAt(lines, q, c) ==> !After(q, p)
  }

  /** The scan of `parse_input`: every line, every character, remembering where `S`
      and `E` were last seen. */
  method FindMarks(lines: seq<string>) returns (start: Option<Pos>, end: Option<Pos>)
    ensures start.None? <==> !HasMark(lines, 'S')
    ensures start.Some? ==> LastOf(lines, 'S', start.value)
    ensures end.None? <==> !HasMark(lines, 'E')
    ensures end.Some? ==> LastOf(lines, 'E', end.value)
  {
    start, end := None, None;
    var y := 0;
    while y < |lines|
      invariant 0 <= y <= |lines|
      invariant ScannedFor(lines, 'S', start, y, 0) && ScannedFor(lines, 'E', end, y, 0)
    {
      var x := 0;
      while x < |lines[y]|
        invariant 0 <= x <= |lines[y]|
        invariant ScannedFor(lines, 'S', start, y, x) && ScannedFor(lines, 'E', end, y, x)
      {
        ScanCell(lines, 'S', start, y, x);
        ScanCell(lines, 'E', end, y, x);
        if lines[y][x] == 'S' {
          start := Some(Pos(x, y));
        } else if lines[y][x] == 'E' {
          end := Some(Pos(x, y));
        }
        x := x + 1;
      }
      NextRow(lines, 'S', start, y);
      NextRow(lines, 'E', end, y);
      y := y + 1;
    }
    Finished(lines, 'S', start);
    Finished(lines, 'E', end);
  }

  /** Reading one more cell records it when it holds `c`. */
  lemma ScanCell(lines: seq<string>, c: char, found: Option<Pos>, y: int, x: int)
    requires 0 <= y < |lines| && 0 <= x < |lines[y]| && ScannedFor(lines, c, found, y, x)
    ensures ScannedFor(lines, c, if lines[y][x] == c then Some(Pos(x, y)) else found, y, x + 1)
  {
    if lines[y][x] != c {
      forall q | CharAt(lines, q, c) && ReadBefore(q, y, x + 1)
        ensures ReadBefore(q, y, x)
      {
        assert q != Pos(x, y);
      }
    }
  }

  /** Reading a whole row is reading up to the start of the next. */
  lemma NextRow(lines: seq<string>, c: char, found: Option<Pos>, y: int)
    requires 0 <= y < |lines| && ScannedFor(lines, c, found, y, |lines[y]|)
    ensures ScannedFor(lines, c, found, y + 1, 0)
  {
  }

  lemma Finished(lines: seq<string>, c: char, found: Option<Pos>)
    requires ScannedFor(lines, c, found, |lines|, 0)
    ensures found.None? <==> !HasMark(lines, c)
    ensures found.Some? ==> LastOf(lines, c, found.value)
  {
    if found.Some? {
      assert CharAt(lines, found.value, c);
    }
  }

  /** `parse_input`: the map, then the last `S` and the last `E`. A map that does not
      parse and a missing marker both make the source fail; the model answers `None`. */
  method ParseInput(s: string) returns (r: Option<(Map<Tile>, Pos, Pos)>)
    ensures r.Some? <==> FromStr(s, TileFromChar).Some? && HasMark(Text.Lines(s), 'S') && HasMark(Text.Lines(s), 'E')
    ensures r.Some? ==> var lines := Text.Lines(s);
                        && r.value.0 == FromStr(s, TileFromChar).value
                        && LastOf(lines, 'S', r.value.1) && LastOf(lines, 'E', r.value.2)
  {
    var parsed := FromStr(s, TileFromChar);
    if parsed.None? {
      return None;
    }
    var start, end := FindMarks(Text.Lines(s));
    if start.None? || end.None? {
      return None;
    }
    return Some((parsed.value, start.value, end.value));
  }

  /** A marker's cell parses to floor, so the start `parse_input` finds is one `solve` accepts. */
  lemma MarkIsOpen(s: string, m: Map<Tile>, p: Pos, c: char)
    requires FromStr(s, TileFromChar) == Some(m) && CharAt(Text.Lines(s), p, c) && (c == 'S' || c == 'E')
    ensures Open(m, p)
  {
  }
}
