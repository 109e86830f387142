/** Small definitions shared by several puzzle solutions: an optional value,
    Rust's three-way `Ordering`, powers, sums and the first-occurrence
    de-duplication of itertools' `unique`. */
module Common {

  datatype Option<T> = None | Some(value: T)

  /** Rust's `std::cmp::Ordering`. */
  datatype Ordering = Less | Equal | Greater

  /** `a.cmp(&b)` on integers. */
  function CompareInt(a: int, b: int): (r: Ordering)
    ensures r == Less <==> a < b
    ensures r == Equal <==> a == b
    ensures r == Greater <==> a > b
  {
    if a < b then Less else if a == b then Equal else Greater
  }

  function Pow(base: nat, e: nat): nat
  {
    if e == 0 then 1 else base * Pow(base, e - 1)
  }

  function Pow10(e: nat): nat { Pow(10, e) }

  function Pow2(e: nat): nat { Pow(2, e) }

  lemma {:induction false} PowPositive(base: nat, e: nat)
    requires base > 0
    ensures Pow(base, e) > 0
  {
    if e > 0 {
      PowPositive(base, e - 1);
    }
  }

  lemma {:induction false} PowAdd(base: nat, i: nat, j: nat)
    ensures Pow(base, i + j) == Pow(base, i) * Pow(base, j)
  {
    if i > 0 {
      PowAdd(base, i - 1, j);
      MulAssociates(base, Pow(base, i - 1), Pow(base, j));
    }
  }

  lemma {:induction false} PowMonotone(base: nat, i: nat, j: nat)
    requires base > 0 && i <= j
    ensures Pow(base, i) <= Pow(base, j)
  {
    if i < j {
      PowMonotone(base, i, j - 1);
      MulGrows(Pow(base, j - 1), base);
    }
  }

  /** Euclidean division and remainder by a positive divisor. */
  lemma DivMod(n: nat, m: nat)
    requires m > 0
    ensures (n / m) * m + n % m == n && 0 <= n % m < m && n / m >= 0
  {
  }

  lemma MulAssociates(a: int, b: int, c: int)
    ensures a * (b * c) == (a * b) * c
  {
  }

  lemma MulGrows(n: nat, k: nat)
    requires k >= 1
    ensures k * n >= n
  {
  }

  function Abs(x: int): nat
  {
    if x < 0 then -x else x
  }

  /** Integer division as Rust's `/` computes it, truncating toward zero. */
  function DivTrunc(a: int, b: int): (q: int)
    requires b != 0
    ensures Abs(q) == Abs(a) / Abs(b)
    ensures q != 0 ==> (q > 0 <==> (a > 0) == (b > 0))
  {
    var n, d := Abs(a), Abs(b);
    DivMod(n, d);
    var q := n / d;
    if (a >= 0) == (b > 0) then q else -q
  }

  function Sum(s: seq<int>): int
  {
    if s == [] then 0 else s[0] + Sum(s[1..])
  }

  lemma {:induction false} SumAppend(s: seq<int>, t: seq<int>)
    ensures Sum(s + t) == Sum(s) + Sum(t)
  {
    if s == [] {
      assert s + t == t;
    } else {
      assert (s + t)[1..] == s[1..] + t;
      SumAppend(s[1..], t);
    }
  }

  /** The number of elements of `s` that satisfy `p`. */
  function CountIf<T>(s: seq<T>, p: T -> bool): (n: nat)
    ensures n <= |s|
  {
    if s == [] then 0 else (if p(s[0]) then 1 else 0) + CountIf(s[1..], p)
  }

  predicate Distinct<T(==)>(s: seq<T>)
  {
    forall i, j :: 0 <= i < j < |s| ==> s[i] != s[j]
  }

  /** itertools' `unique()`: keeps the first occurrence of every element, in order. */
  function Unique<T(==)>(s: seq<T>): (r: seq<T>)
    ensures Distinct(r)
    ensures forall i :: 0 <= i < |r| ==> r[i] in s
    ensures forall i :: 0 <= i < |s| ==> s[i] in r
    ensures |r| <= |s|
  {
    UniqueFrom(s, {})
  }

  /** `s` with its duplicates and the elements of `seen` removed, first occurrences kept. */
  function UniqueFrom<T(==)>(s: seq<T>, seen: set<T>): (r: seq<T>)
    ensures Distinct(r)
    ensures forall i :: 0 <= i < |r| ==> r[i] in s && r[i] !in seen
    ensures forall i :: 0 <= i < |s| ==> s[i] in seen || s[i] in r
    ensures |r| <= |s|
  {
    if s == [] then []
    else if s[0] in seen then UniqueFrom(s[1..], seen)
    else [s[0]] + UniqueFrom(s[1..], seen + {s[0]})
  }

  /** A sequence without repeats has as many elements as its set. */
  lemma {:induction false} DistinctCardinality<T>(s: seq<T>)
    requires Distinct(s)
    ensures |set x | x in s| == |s|
  {
    if s != [] {
      DistinctCardinality(s[1..]);
      assert (set x | x in s) == (set x | x in s[1..]) + {s[0]};
      assert s[0] !in (set x | x in s[1..]);
    }
  }

  lemma UniqueCardinality<T>(s: seq<T>)
    ensures |Unique(s)| == |set x | x in s|
  {
    var u := Unique(s);
    DistinctCardinality(u);
    assert (set x | x in u) == (set x | x in s);
  }

  /** A subset has at most as many elements. */
  lemma {:induction false} SubsetCardinality<T>(a: set<T>, b: set<T>)
    requires a <= b
    ensures |a| <= |b|
    decreases |a|
  {
    if a != {} {
      var x :| x in a;
      SubsetCardinality(a - {x}, b - {x});
    }
  }
}
