/** Day 8: antennas of the same frequency create antinodes on the line through
    them, either at the two points twice as far (the simple model) or at every
    grid point of the line (the resonant model). */
module Day08 {
  import opened Common
  import Text
  import opened Grid

  function Sub(p: Pos, q: Pos): Pos
  {
    Pos(p.x - q.x, p.y - q.y)
  }

  /** `impl Div<i32> for Pos`: truncating division of each coordinate. */
  function DivPos(p: Pos, k: int): Pos
    requires k != 0
  {
    Pos(DivTrunc(p.x, k), DivTrunc(p.y, k))
  }

  /** Truncating division by an exact divisor loses nothing. */
  lemma DivTruncExact(a: int, k: int)
    requires k != 0 && Abs(a) % Abs(k) == 0
    ensures DivTrunc(a, k) * k == a
  {
    var n, d := Abs(a), Abs(k);
    DivMod(n, d);
    var q := n / d;
    assert q * d == n;
    if k < 0 {
      assert -q * k == q * d;
    } else {
      assert -q * k == -(q * d);
    }
  }

  /** Dividing a difference by a common divisor of its coordinates, as `get_resonant`
      does with their gcd, is exact: scaling the quotient back gives the difference. */
  lemma DivPosExact(p: Pos, k: int)
    requires k != 0 && Abs(p.x) % Abs(k) == 0 && Abs(p.y) % Abs(k) == 0
    ensures Mul(DivPos(p, k), k) == p
  {
    DivTruncExact(p.x, k);
    DivTruncExact(p.y, k);
  }

  /** A grid size and, for each frequency, its antenna positions. */
  datatype AntennaMap = AntennaMap(size: Pos, antennas: map<char, seq<Pos>>)

  /** `contains`: like the shared grid, this one tests `x` against `size.y`. */
  predicate Contains(m: AntennaMap, p: Pos)
  {
    0 <= p.x < m.size.y && 0 <= p.y < m.size.y
  }

  // ---------------------------------------------------------------- gcd

  /** `d` divides `n`; only zero is divisible by zero. */
  predicate Divides(d: nat, n: nat)
  {
    if d == 0 then n == 0 else n % d == 0
  }

  /** Euclid's algorithm on non-negative numbers. */
  function GcdOf(a: nat, b: nat): nat
    decreases b
  {
    if b == 0 then a else GcdOf(b, a % b)
  }

  /** The remainder is determined by any quotient-remainder decomposition. */
  lemma ModUnique(n: int, d: nat, q: int, r: int)
    requires d > 0 && n == d * q + r && 0 <= r < d
    ensures n % d == r && n / d == q
  {
    var q', r' := n / d, n % d;
    assert n == d * q' + r';
    assert d * (q - q') == r' - r;
    if q > q' {
      MulGrows(d, q - q');
    } else if q < q' {
      MulGrows(d, q' - q);
    }
  }

  /** A multiple of `d` plus `c` times another multiple of `d` is a multiple of `d`. */
  lemma CombineMultiples(d: nat, x: int, y: int, c: int)
    requires d > 0 && x % d == 0 && y % d == 0
    ensures (x + c * y) % d == 0
  {
    var kx, ky := x / d, y / d;
    assert x == d * kx && y == d * ky;
    assert c * y == d * (c * ky) by {
      MulAssociates(c, d, ky);
      MulAssociates(d, c, ky);
    }
    assert x + c * y == d * (kx + c * ky);
    ModUnique(x + c * y, d, kx + c * ky, 0);
  }

  /** The result of Euclid's algorithm divides both arguments. */
  lemma {:induction false} GcdDivides(a: nat, b: nat)
    ensures Divides(GcdOf(a, b), a) && Divides(GcdOf(a, b), b)
    decreases b
  {
    if b > 0 {
      GcdDivides(b, a % b);
      var g := GcdOf(a, b);
      assert g > 0;
      assert a == a % b + (a / b) * b;
      CombineMultiples(g, a % b, b, a / b);
    }
  }

  /** Every common divisor divides the result, so it is the greatest one. */
  lemma {:induction false} GcdGreatest(a: nat, b: nat, d: nat)
    requires d > 0 && a % d == 0 && b % d == 0
    ensures GcdOf(a, b) % d == 0
    decreases b
  {
    if b > 0 {
      assert a % b == a + (-(a / b)) * b;
      CombineMultiples(d, a, b, -(a / b));
      GcdGreatest(b, a % b, d);
    }
  }

  /** The gcd is zero only for two zeros, and never exceeds a non-zero argument. */
  lemma GcdBounds(a: nat, b: nat)
    ensures GcdOf(a, b) == 0 <==> a == 0 && b == 0
    ensures a > 0 ==> GcdOf(a, b) <= a
    ensures b > 0 ==> GcdOf(a, b) <= b
  {
    GcdDivides(a, b);
    var g := GcdOf(a, b);
    if g > 0 {
      DivisorBound(g, a);
      DivisorBound(g, b);
    }
  }

  lemma DivisorBound(g: nat, n: nat)
    requires g > 0 && n % g == 0
    ensures n == 0 || g <= n
  {
    var k := n / g;
    assert n == g * k;
    if n > 0 {
      assert k >= 1;
      MulGrows(g, k);
    }
  }

  lemma GcdZero(a: int)
    ensures GcdOf(Abs(a), 0) == Abs(a)
  {
  }

  /** `gcd`: the loop of Euclid's algorithm on the absolute values. */
  method Gcd(a0: int, b0: int) returns (g: int)
    ensures g == GcdOf(Abs(a0), Abs(b0))
  {
    var a: nat, b: nat := Abs(a0), Abs(b0);
    while b != 0
      invariant GcdOf(a, b) == GcdOf(Abs(a0), Abs(b0))
      decreases b
    {
      var temp := b;
      b := a % b;
      a := temp;
    }
    g := a;
  }

  /** `gcd` returns a non-negative common divisor of `|a|` and `|b|` that every
      other common divisor divides. */
  lemma GcdSpec(a: int, b: int, d: nat)
    ensures GcdOf(Abs(a), Abs(b)) >= 0
    ensures Divides(GcdOf(Abs(a), Abs(b)), Abs(a)) && Divides(GcdOf(Abs(a), Abs(b)), Abs(b))
    ensures d > 0 && Abs(a) % d == 0 && Abs(b) % d == 0 ==> GcdOf(Abs(a), Abs(b)) % d == 0
  {
    GcdDivides(Abs(a), Abs(b));
    if d > 0 && Abs(a) % d == 0 && Abs(b) % d == 0 {
      GcdGreatest(Abs(a), Abs(b), d);
    }
  }

  // -------------------------------------------------------------- pairs

  /** `combinations(2)`: every `(s[i], s[j])` with `i < j`, in index order. */
  function Pairs<T>(s: seq<T>): seq<(T, T)>
  {
    if s == [] then []
    else seq(|s| - 1, k requires 0 <= k < |s| - 1 => (s[0], s[k + 1])) + Pairs(s[1..])
  }

  /** Every pair comes from two positions of `s`, the first one earlier. */
  lemma {:induction false} PairsSound<T>(s: seq<T>, pair: (T, T))
    requires pair in Pairs(s)
    ensures exists i, j :: 0 <= i < j < |s| && pair == (s[i], s[j])
  {
    var here := seq(|s| - 1, k requires 0 <= k < |s| - 1 => (s[0], s[k + 1]));
    if pair in here {
      var k :| 0 <= k < |here| && here[k] == pair;
      assert pair == (s[0], s[k + 1]);
    } else {
      PairsSound(s[1..], pair);
      var i, j :| 0 <= i < j < |s| - 1 && pair == (s[1..][i], s[1..][j]);
      assert pair == (s[i + 1], s[j + 1]);
    }
  }

  /** Every two positions of `s`, the first one earlier, form a pair. */
  lemma {:induction false} PairsComplete<T>(s: seq<T>, i: nat, j: nat)
    requires i < j < |s|
    ensures (s[i], s[j]) in Pairs(s)
  {
    var here := seq(|s| - 1, k requires 0 <= k < |s| - 1 => (s[0], s[k + 1]));
    if i == 0 {
      assert here[j - 1] == (s[i], s[j]);
    } else {
      PairsComplete(s[1..], i - 1, j - 1);
      assert (s[1..][i - 1], s[1..][j - 1]) == (s[i], s[j]);
    }
  }

  lemma PairDistinct(s: seq<Pos>, pair: (Pos, Pos))
    requires Distinct(s) && pair in Pairs(s)
    ensures pair.0 != pair.1
  {
    PairsSound(s, pair);
  }

  // ------------------------------------------------------------ antinodes

  /** The two simple antinodes of a pair: beyond each antenna by their distance. */
  function Candidates(pair: (Pos, Pos)): seq<Pos>
  {
    var diff := Sub(pair.1, pair.0);
    [Sub(pair.0, diff), Add(pair.1, diff)]
  }

  function AllCandidates(pairs: seq<(Pos, Pos)>): seq<Pos>
  {
    if pairs == [] then [] else Candidates(pairs[0]) + AllCandidates(pairs[1..])
  }

  lemma {:induction false} AllCandidatesSound(pairs: seq<(Pos, Pos)>, a: Pos)
    requires a in AllCandidates(pairs)
    ensures exists k :: 0 <= k < |pairs| && a in Candidates(pairs[k])
  {
    if a !in Candidates(pairs[0]) {
      AllCandidatesSound(pairs[1..], a);
      var k :| 0 <= k < |pairs| - 1 && a in Candidates(pairs[1..][k]);
      assert pairs[1..][k] == pairs[k + 1];
    }
  }

  lemma {:induction false} AllCandidatesComplete(pairs: seq<(Pos, Pos)>, k: nat, a: Pos)
    requires k < |pairs| && a in Candidates(pairs[k])
    ensures a in AllCandidates(pairs)
  {
    if k > 0 {
      assert pairs[1..][k - 1] == pairs[k];
      AllCandidatesComplete(pairs[1..], k - 1, a);
    }
  }

  /** `get_antinodes`: the simple antinodes of every pair, kept when inside the map. */
  function GetAntinodes(positions: seq<Pos>, m: AntennaMap): (r: seq<Pos>)
    ensures forall a :: a in r ==> Contains(m, a)
  {
    var r := Filter(AllCandidates(Pairs(positions)), p => Contains(m, p));
    assert forall a :: a in r ==> Contains(m, a) by {
      forall a | a in r
        ensures Contains(m, a)
      {
        var k :| 0 <= k < |r| && r[k] == a;
      }
    }
    r
  }

  /** Each simple antinode is `p1 - (p2 - p1)` or `p2 + (p2 - p1)` for two
      antennas `p1` before `p2`. */
  lemma GetAntinodesSound(positions: seq<Pos>, m: AntennaMap, a: Pos)
    requires a in GetAntinodes(positions, m)
    ensures exists i, j :: 0 <= i < j < |positions| && a in Candidates((positions[i], positions[j]))
  {
    var pairs := Pairs(positions);
    var all := AllCandidates(pairs);
    FilterMember(all, p => Contains(m, p), a);
    AllCandidatesSound(pairs, a);
    var k :| 0 <= k < |pairs| && a in Candidates(pairs[k]);
    PairsSound(positions, pairs[k]);
  }

  /** ... and each of those two points that is inside the map is one. */
  lemma GetAntinodesComplete(positions: seq<Pos>, m: AntennaMap, i: nat, j: nat, a: Pos)
    requires i < j < |positions| && a in Candidates((positions[i], positions[j])) && Contains(m, a)
    ensures a in GetAntinodes(positions, m)
  {
    var pairs := Pairs(positions);
    PairsComplete(positions, i, j);
    var k :| 0 <= k < |pairs| && pairs[k] == (positions[i], positions[j]);
    AllCandidatesComplete(pairs, k, a);
    FilterKeeps(AllCandidates(pairs), p => Contains(m, p), a);
  }

  lemma FilterKeeps<T>(s: seq<T>, keep: T -> bool, x: T)
    requires x in s && keep(x)
    ensures x in Filter(s, keep)
  {
    var k :| 0 <= k < |s| && s[k] == x;
  }

  lemma FilterMember<T>(s: seq<T>, keep: T -> bool, x: T)
    requires x in Filter(s, keep)
    ensures x in s && keep(x)
  {
    var r := Filter(s, keep);
    var k :| 0 <= k < |r| && r[k] == x;
  }

  /** How far a walk from `p` along a non-zero `step` can still stay inside the
      map: the distance to the edge it is heading for. */
  function Room(m: AntennaMap, p: Pos, step: Pos): int
  {
    if step.x > 0 then m.size.y - p.x
    else if step.x < 0 then p.x + 1
    else if step.y > 0 then m.size.y - p.y
    else p.y + 1
  }

  /** The points `p + k*step`, k = 0, 1, 2, ..., for as long as they are inside
      the map: `(0..).map(..).take_while(contains)`. */
  function Walk(m: AntennaMap, p: Pos, step: Pos): (r: seq<Pos>)
    requires step != Pos(0, 0)
    ensures forall k :: 0 <= k < |r| ==> r[k] == Add(p, Mul(step, k)) && Contains(m, r[k])
    ensures !Contains(m, Add(p, Mul(step, |r|)))
    decreases if Contains(m, p) then Room(m, p, step) else 0
  {
    if !Contains(m, p) then
      assert Add(p, Mul(step, 0)) == p;
      []
    else
      var q := Add(p, step);
      var rest := Walk(m, q, step);
      forall k | 0 <= k <= |rest|
        ensures Add(q, Mul(step, k)) == Add(p, Mul(step, k + 1))
      {
        assert step.x * (k + 1) == step.x * k + step.x;
        assert step.y * (k + 1) == step.y * k + step.y;
      }
      assert Add(p, Mul(step, 0)) == p;
      [p] + rest
  }

  /** The reduced direction of a pair: their difference divided by the gcd of
      its coordinates. */
  function Direction(p1: Pos, p2: Pos): (step: Pos)
    requires p1 != p2
    ensures step != Pos(0, 0)
  {
    var diff := Sub(p2, p1);
    var g := GcdOf(Abs(diff.x), Abs(diff.y));
    GcdBounds(Abs(diff.x), Abs(diff.y));
    assert g > 0;
    var step := DivPos(diff, g);
    assert diff.x != 0 ==> Abs(diff.x) / g >= 1;
    assert diff.y != 0 ==> Abs(diff.y) / g >= 1;
    step
  }

  /** The reduced direction scaled back by the gcd is the pair's difference, so the
      second antenna lies on the line the resonant walk follows. */
  lemma DirectionScales(p1: Pos, p2: Pos)
    requires p1 != p2
    ensures Mul(Direction(p1, p2), GcdOf(Abs(p2.x - p1.x), Abs(p2.y - p1.y))) == Sub(p2, p1)
  {
    var diff := Sub(p2, p1);
    GcdBounds(Abs(diff.x), Abs(diff.y));
    GcdDivides(Abs(diff.x), Abs(diff.y));
    DivPosExact(diff, GcdOf(Abs(diff.x), Abs(diff.y)));
  }

  function Neg(p: Pos): Pos
  {
    Pos(-p.x, -p.y)
  }

  /** The resonant antinodes of one pair: the walk from `p1` along the reduced
      direction, chained with the walk from `p1` minus that direction against it. */
  function Resonant(m: AntennaMap, pair: (Pos, Pos)): seq<Pos>
    requires pair.0 != pair.1
  {
    var step := Direction(pair.0, pair.1);
    Walk(m, pair.0, step) + Walk(m, Sub(pair.0, step), Neg(step))
  }

  lemma BackStep(p: Pos, step: Pos, k: int)
    ensures Add(Sub(p, step), Mul(Neg(step), k)) == Add(p, Mul(step, -(k + 1)))
  {
    assert step.x * (-(k + 1)) == -step.x + (-step.x) * k;
    assert step.y * (-(k + 1)) == -step.y + (-step.y) * k;
  }

  /** Every resonant antinode of a pair lies on its line through `p1` at a whole
      multiple of the reduced direction, and inside the map. */
  lemma ResonantOnLine(m: AntennaMap, pair: (Pos, Pos), a: Pos)
    requires pair.0 != pair.1 && a in Resonant(m, pair)
    ensures Contains(m, a)
    ensures exists k: int :: a == Add(pair.0, Mul(Direction(pair.0, pair.1), k))
  {
    var step := Direction(pair.0, pair.1);
    var fwd := Walk(m, pair.0, step);
    var back := Walk(m, Sub(pair.0, step), Neg(step));
    if a in fwd {
      var k :| 0 <= k < |fwd| && fwd[k] == a;
      assert a == Add(pair.0, Mul(step, k));
    } else {
      var k :| 0 <= k < |back| && back[k] == a;
      BackStep(pair.0, step, k);
      assert a == Add(pair.0, Mul(step, -(k + 1)));
    }
  }

  /** `p1` itself is a resonant antinode whenever it is inside the map. */
  lemma ResonantIncludesAntenna(m: AntennaMap, pair: (Pos, Pos))
    requires pair.0 != pair.1 && Contains(m, pair.0)
    ensures pair.0 in Resonant(m, pair)
  {
    var step := Direction(pair.0, pair.1);
    var fwd := Walk(m, pair.0, step);
    assert fwd[0] == Add(pair.0, Mul(step, 0)) == pair.0;
  }

  function AllResonant(m: AntennaMap, pairs: seq<(Pos, Pos)>): seq<Pos>
    requires forall k :: 0 <= k < |pairs| ==> pairs[k].0 != pairs[k].1
  {
    if pairs == [] then [] else Resonant(m, pairs[0]) + AllResonant(m, pairs[1..])
  }

  lemma {:induction false} AllResonantSound(m: AntennaMap, pairs: seq<(Pos, Pos)>, a: Pos)
    requires forall k :: 0 <= k < |pairs| ==> pairs[k].0 != pairs[k].1
    requires a in AllResonant(m, pairs)
    ensures exists k :: 0 <= k < |pairs| && a in Resonant(m, pairs[k])
  {
    if a !in Resonant(m, pairs[0]) {
      AllResonantSound(m, pairs[1..], a);
      var k :| 0 <= k < |pairs| - 1 && a in Resonant(m, pairs[1..][k]);
      assert pairs[1..][k] == pairs[k + 1];
    }
  }

  lemma {:induction false} AllResonantComplete(m: AntennaMap, pairs: seq<(Pos, Pos)>, k: nat, a: Pos)
    requires forall k :: 0 <= k < |pairs| ==> pairs[k].0 != pairs[k].1
    requires k < |pairs| && a in Resonant(m, pairs[k])
    ensures a in AllResonant(m, pairs)
  {
    if k > 0 {
      assert pairs[1..][k - 1] == pairs[k];
      AllResonantComplete(m, pairs[1..], k - 1, a);
    }
  }

  /** `get_resonant_antinodes`. Antennas of a frequency sit on distinct cells, so
      no pair has a zero difference, whose gcd would make the division panic. */
  function GetResonantAntinodes(positions: seq<Pos>, m: AntennaMap): (r: seq<Pos>)
    requires Distinct(positions)
    ensures forall a :: a in r ==> Contains(m, a)
  {
    var pairs := Pairs(positions);
    assert forall k :: 0 <= k < |pairs| ==> pairs[k].0 != pairs[k].1 by {
      forall k | 0 <= k < |pairs|
        ensures pairs[k].0 != pairs[k].1
      {
        PairDistinct(positions, pairs[k]);
      }
    }
    var r := Filter(AllResonant(m, pairs), p => Contains(m, p));
    assert forall a :: a in r ==> Contains(m, a) by {
      forall a | a in r
        ensures Contains(m, a)
      {
        var k :| 0 <= k < |r| && r[k] == a;
      }
    }
    r
  }

  /** Each resonant antinode is on the line of two antennas `p1` before `p2`, at
      a whole multiple of their reduced direction from `p1`. */
  lemma GetResonantSound(positions: seq<Pos>, m: AntennaMap, a: Pos)
    requires Distinct(positions) && a in GetResonantAntinodes(positions, m)
    ensures exists i, j :: 0 <= i < j < |positions| && a in Resonant(m, (positions[i], positions[j]))
  {
    var pairs := Pairs(positions);
    forall k | 0 <= k < |pairs|
      ensures pairs[k].0 != pairs[k].1
    {
      PairDistinct(positions, pairs[k]);
    }
    FilterMember(AllResonant(m, pairs), p => Contains(m, p), a);
    AllResonantSound(m, pairs, a);
    var k :| 0 <= k < |pairs| && a in Resonant(m, pairs[k]);
    PairsSound(positions, pairs[k]);
  }

  /** Every point of every pair's line walk is a resonant antinode; in
      particular each antenna in the map that has a partner is one. */
  lemma GetResonantComplete(positions: seq<Pos>, m: AntennaMap, i: nat, j: nat, a: Pos)
    requires Distinct(positions) && i < j < |positions|
    requires a in Resonant(m, (positions[i], positions[j]))
    ensures a in GetResonantAntinodes(positions, m)
  {
    var pairs := Pairs(positions);
    forall k | 0 <= k < |pairs|
      ensures pairs[k].0 != pairs[k].1
    {
      PairDistinct(positions, pairs[k]);
    }
    PairsComplete(positions, i, j);
    var k :| 0 <= k < |pairs| && pairs[k] == (positions[i], positions[j]);
    AllResonantComplete(m, pairs, k, a);
    ResonantOnLine(m, pairs[k], a);
    FilterKeeps(AllResonant(m, pairs), p => Contains(m, p), a);
  }

  // ----------------------------------------------------------------- solve

  /** The two antinode models `solve` is called with. */
  datatype Model = Simple | Resonance

  /** Every frequency's antennas are on distinct cells. */
  predicate WellFormed(m: AntennaMap)
  {
    forall ch :: ch in m.antennas ==> Distinct(m.antennas[ch])
  }

  function Antinodes(model: Model, positions: seq<Pos>, m: AntennaMap): seq<Pos>
    requires Distinct(positions)
  {
    match model
    case Simple => GetAntinodes(positions, m)
    case Resonance => GetResonantAntinodes(positions, m)
  }

  /** Every antinode of every frequency, duplicates merged. */
  function AllAntinodes(m: AntennaMap, model: Model): set<Pos>
    requires WellFormed(m)
  {
    set ch, a | ch in m.antennas && a in Antinodes(model, m.antennas[ch], m) :: a
  }

  /** `solve`: the number of distinct antinode positions over all frequencies, as
      `unique().count()` gives it. */
  function Solve(m: AntennaMap, model: Model): nat
    requires WellFormed(m)
  {
    |AllAntinodes(m, model)|
  }

  /** Every counted antinode lies inside the map. */
  lemma AntinodesInside(m: AntennaMap, model: Model, a: Pos)
    requires WellFormed(m) && a in AllAntinodes(m, model)
    ensures Contains(m, a)
  {
  }

  /** A frequency's antinode counts even when another frequency has it too, and
      the count is one position per distinct antinode. */
  lemma AntinodeCounted(m: AntennaMap, model: Model, ch: char, a: Pos)
    requires WellFormed(m) && ch in m.antennas && a in Antinodes(model, m.antennas[ch], m)
    ensures a in AllAntinodes(m, model) && Solve(m, model) >= 1
  {
  }

  // -------------------------------------------------------------- from_str

  /** Row-major order of positions. */
  predicate Before(p: Pos, q: Pos)
  {
    p.y < q.y || (p.y == q.y && p.x < q.x)
  }

  predicate Increasing(s: seq<Pos>)
  {
    forall i, j :: 0 <= i < j < |s| ==> Before(s[i], s[j])
  }

  /** The antennas of row `y` from column `x` on, with their positions. */
  function RowCells(line: string, y: int, x: nat): (r: seq<(Pos, char)>)
    requires x <= |line|
    ensures forall k :: 0 <= k < |r| ==>
      r[k].0.y == y && x <= r[k].0.x < |line| && r[k].1 != '.' && line[r[k].0.x] == r[k].1
    ensures forall i, j :: 0 <= i < j < |r| ==> r[i].0.x < r[j].0.x
    ensures forall x' :: x <= x' < |line| && line[x'] != '.' ==> (Pos(x', y), line[x']) in r
    decreases |line| - x
  {
    if x == |line| then []
    else
      var rest := RowCells(line, y, x + 1);
      if line[x] == '.' then rest else [(Pos(x, y), line[x])] + rest
  }

  /** The antennas of rows `y` and after, row by row. */
  function Cells(lines: seq<string>, y: nat): (r: seq<(Pos, char)>)
    requires y <= |lines|
    ensures forall k :: 0 <= k < |r| ==>
      y <= r[k].0.y < |lines| && 0 <= r[k].0.x < |lines[r[k].0.y]| &&
      r[k].1 != '.' && lines[r[k].0.y][r[k].0.x] == r[k].1
    ensures forall i, j :: 0 <= i < j < |r| ==> Before(r[i].0, r[j].0)
    ensures forall y', x' :: y <= y' < |lines| && 0 <= x' < |lines[y']| && lines[y'][x'] != '.' ==>
      (Pos(x', y'), lines[y'][x']) in r
    decreases |lines| - y
  {
    if y == |lines| then []
    else
      var row := RowCells(lines[y], y, 0);
      var rest := Cells(lines, y + 1);
      var r := row + rest;
      assert forall i, j :: 0 <= i < |row| <= j < |r| ==> Before(r[i].0, r[j].0);
      r
  }

  /** The positions of the cells whose char is `ch`, in order. */
  function PositionsOf(cells: seq<(Pos, char)>, ch: char): (r: seq<Pos>)
    ensures forall p :: p in r <==> (p, ch) in cells
  {
    if cells == [] then []
    else
      var n := |cells| - 1;
      assert cells == cells[..n] + [cells[n]];
      PositionsOf(cells[..n], ch) + (if cells[n].1 == ch then [cells[n].0] else [])
  }

  lemma {:induction false} PositionsOfIncreasing(cells: seq<(Pos, char)>, ch: char)
    requires forall i, j :: 0 <= i < j < |cells| ==> Before(cells[i].0, cells[j].0)
    ensures Increasing(PositionsOf(cells, ch))
  {
    if cells != [] {
      var n := |cells| - 1;
      PositionsOfIncreasing(cells[..n], ch);
      var init := PositionsOf(cells[..n], ch);
      forall p | p in init
        ensures Before(p, cells[n].0)
      {
        assert (p, ch) in cells[..n];
      }
    }
  }

  lemma IncreasingDistinct(s: seq<Pos>)
    requires Increasing(s)
    ensures Distinct(s)
  {
  }

  lemma PositionsFirst(cells: seq<(Pos, char)>, ch: char)
    ensures PositionsOf(cells, ch) == [] || (PositionsOf(cells, ch)[0], ch) in cells
  {
  }

  /** The fold of `from_str`: each antenna appended to the list of its char. */
  function Group(cells: seq<(Pos, char)>): (antennas: map<char, seq<Pos>>)
    ensures forall ch :: ch in antennas <==> exists p :: (p, ch) in cells
    ensures forall ch :: ch in antennas ==> antennas[ch] == PositionsOf(cells, ch)
  {
    if cells == [] then map[]
    else
      var n := |cells| - 1;
      var (pos, ch) := cells[n];
      var init := cells[..n];
      var acc := Group(init);
      assert cells == init + [cells[n]];
      assert forall c :: c != ch ==> PositionsOf(cells, c) == PositionsOf(init, c);
      assert PositionsOf(cells, ch) == PositionsOf(init, ch) + [pos];
      if ch in acc then acc[ch := acc[ch] + [pos]]
      else
        PositionsFirst(init, ch);
        acc[ch := [pos]]
  }

  /** `Map::from_str`: the size is the first line's length by the number of
      lines; the antennas come grouped by char. The source reads the first line,
      so the input must have one. */
  function FromStr(input: string): (m: AntennaMap)
    requires input != []
    ensures var lines := Text.Lines(input);
      m.size == Pos(|lines[0]|, |lines|)
      && (forall ch :: ch in m.antennas ==> ch != '.')
      && (forall ch, p :: ch in m.antennas && p in m.antennas[ch] ==>
            0 <= p.y < |lines| && 0 <= p.x < |lines[p.y]| && lines[p.y][p.x] == ch)
      && (forall y, x :: 0 <= y < |lines| && 0 <= x < |lines[y]| && lines[y][x] != '.' ==>
            lines[y][x] in m.antennas && Pos(x, y) in m.antennas[lines[y][x]])
    ensures WellFormed(m)
  {
    var lines := Text.Lines(input);
    var cells := Cells(lines, 0);
    var antennas := Group(cells);
    forall ch | ch in antennas
      ensures Distinct(antennas[ch])
    {
      PositionsOfIncreasing(cells, ch);
      IncreasingDistinct(antennas[ch]);
    }
    AntennaMap(Pos(|lines[0]|, |lines|), antennas)
  }
}
