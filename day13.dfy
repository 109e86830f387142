/** Day 13: claw machines. Pressing button A costs 3 tokens and button B costs 1;
    the cheapest press counts below 100 that reach the prize are sought. */
module Day13 {
  import opened Common

  /** A button's displacement of the claw, or the prize position. */
  datatype Vector = Vector(x: int, y: int)

  /** One machine: the two buttons and the prize. */
  datatype Config = Config(buttonA: Vector, buttonB: Vector, prize: Vector)

  /** The bound of both press ranges. */
  const Presses: nat := 100

  /** `a` presses of A and `b` of B land exactly on the prize. */
  predicate Solves(config: Config, a: int, b: int)
  {
    a * config.buttonA.x + b * config.buttonB.x == config.prize.x
    && a * config.buttonA.y + b * config.buttonB.y == config.prize.y
  }

  predicate InRange(a: int, b: int)
  {
    0 <= a < Presses && 0 <= b < Presses
  }

  function Cost(a: int, b: int): int { 3 * a + b }

  function MinOption(x: Option<int>, y: Option<int>): (r: Option<int>)
    ensures r.None? <==> x.None? && y.None?
    ensures r.Some? ==> (r == x || r == y)
    ensures r.Some? && x.Some? ==> r.value <= x.value
    ensures r.Some? && y.Some? ==> r.value <= y.value
  {
    if x.None? then y
    else if y.None? then x
    else if x.value <= y.value then x
    else y
  }

  /** The least cost over the presses `(a, b')` with `b <= b' < 100`. */
  function RowBest(config: Config, a: int, b: nat): Option<int>
    decreases Presses - b
  {
    if b >= Presses then None
    else MinOption(if Solves(config, a, b) then Some(Cost(a, b)) else None, RowBest(config, a, b + 1))
  }

  /** The least cost over the presses `(a', b)` with `a <= a' < 100`: the
      `flat_map` over `a` of the `filter_map` over `b`, reduced with `min`. */
  function Best(config: Config, a: nat): Option<int>
    decreases Presses - a
  {
    if a >= Presses then None else MinOption(RowBest(config, a, 0), Best(config, a + 1))
  }

  /** `solve_brute_force`: the least cost, or 0 when nothing in range solves. */
  function SolveBruteForce(config: Config): int
  {
    match Best(config, 0)
    case None => 0
    case Some(v) => v
  }

  lemma {:induction false} RowBestSound(config: Config, a: int, b: nat)
    requires RowBest(config, a, b).Some?
    ensures exists b' :: b <= b' < Presses && Solves(config, a, b') && RowBest(config, a, b).value == Cost(a, b')
    decreases Presses - b
  {
    if !(Solves(config, a, b) && RowBest(config, a, b).value == Cost(a, b)) {
      RowBestSound(config, a, b + 1);
    }
  }

  lemma {:induction false} RowBestLeast(config: Config, a: int, b: nat, b': int)
    requires b <= b' < Presses && Solves(config, a, b')
    ensures RowBest(config, a, b).Some? && RowBest(config, a, b).value <= Cost(a, b')
    decreases Presses - b
  {
    if b < b' {
      RowBestLeast(config, a, b + 1, b');
    }
  }

  lemma {:induction false} BestSound(config: Config, a: nat)
    requires Best(config, a).Some?
    ensures exists a', b' :: a <= a' && InRange(a', b') && Solves(config, a', b') && Best(config, a).value == Cost(a', b')
    decreases Presses - a
  {
    if RowBest(config, a, 0).Some? && Best(config, a).value == RowBest(config, a, 0).value {
      RowBestSound(config, a, 0);
    } else {
      BestSound(config, a + 1);
      var a', b' :| a + 1 <= a' && InRange(a', b') && Solves(config, a', b') && Best(config, a + 1).value == Cost(a', b');
    }
  }

  lemma {:induction false} BestLeast(config: Config, a: nat, a': int, v: int)
    requires a <= a' < Presses && RowBest(config, a', 0).Some? && RowBest(config, a', 0).value <= v
    ensures Best(config, a).Some? && Best(config, a).value <= v
    decreases Presses - a
  {
    BestBelow(config, a);
    if a < a' {
      BestLeast(config, a + 1, a', v);
    }
  }

  /** One step of `Best`: bounded by its row and by the rows after it. */
  lemma BestBelow(config: Config, a: nat)
    requires a < Presses
    ensures RowBest(config, a, 0).Some? ==> Best(config, a).Some? && Best(config, a).value <= RowBest(config, a, 0).value
    ensures Best(config, a + 1).Some? ==> Best(config, a).Some? && Best(config, a).value <= Best(config, a + 1).value
  {
  }

  /** With no solution in range the answer is 0. */
  lemma NoSolutionZero(config: Config)
    requires forall a, b :: InRange(a, b) ==> !Solves(config, a, b)
    ensures SolveBruteForce(config) == 0
  {
    if Best(config, 0).Some? {
      BestSound(config, 0);
    }
  }

  /** Otherwise the answer is the cost of some solution in range, and no
      solution in range is cheaper. */
  lemma SolutionMinimal(config: Config, a: int, b: int)
    requires InRange(a, b) && Solves(config, a, b)
    ensures SolveBruteForce(config) <= Cost(a, b)
    ensures exists a', b' :: InRange(a', b') && Solves(config, a', b') && SolveBruteForce(config) == Cost(a', b')
  {
    RowBestLeast(config, a, 0, b);
    BestLeast(config, 0, a, Cost(a, b));
    BestSound(config, 0);
  }

  /** The answer never exceeds the cost of 99 presses of each button. */
  lemma SolveBound(config: Config)
    ensures 0 <= SolveBruteForce(config) <= 3 * 99 + 99
  {
    if Best(config, 0).Some? {
      BestSound(config, 0);
    }
  }
}
