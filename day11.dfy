/** src/bin/day11.rs: stones engraved with numbers change on every blink; `solve`
    keeps a count per distinct number instead of the list of stones. The counts
    map is a multiset here: the count of `n` is its multiplicity, and the sum of
    the counts is the multiset's size. Integers are unbounded. */
module Day11 {
  import opened Common
  import Digits

  /** `split_number`: for an even number of digits `d`, the first and the last `d/2`
      digits. Zero has no digits, so it splits into (0, 0); `blink` never asks. */
  function SplitNumber(n: nat): (r: Option<(nat, nat)>)
    ensures var d := Digits.DigitCount(n);
            && (r.Some? <==> d % 2 == 0)
            && (r.Some? ==> var mask := Pow10(d / 2);
                            r.value.0 * mask + r.value.1 == n && r.value.1 < mask)
  {
    var digits := Digits.DigitCount(n);
    if digits % 2 == 0 then
      var mask := Pow10(digits / 2);
      PowPositive(10, digits / 2);
      DivMod(n, mask);
      Some((n / mask, n % mask))
    else None
  }

  lemma SplitZero()
    ensures SplitNumber(0) == Some((0, 0))
  {
    assert Pow10(0) == 1;
  }

  /** For a non-zero number with `d` digits, `d` even, both halves have at most `d/2`
      digits and the first has exactly `d/2`. */
  lemma SplitHalves(n: nat)
    requires n > 0 && Digits.DigitCount(n) % 2 == 0
    ensures var (a, b) := SplitNumber(n).value;
            var h := Digits.DigitCount(n) / 2;
            Digits.DigitCount(a) == h && Digits.DigitCount(b) <= h
  {
    var d := Digits.DigitCount(n);
    var h := d / 2;
    var (a, b) := SplitNumber(n).value;
    var lo, mask := Pow10(h - 1), Pow10(h);
    assert Pow10(d) == mask * mask by { PowAdd(10, h, h); }
    assert Pow10(d - 1) == lo * mask by { PowAdd(10, h - 1, h); }
    PowPositive(10, h);
    HalfBounds(n, a, b, lo, mask);
    Digits.DigitCountUnique(a, h);
    DigitCountBelow(b, h);
  }

  /** A number below `10^h` has at most `h` digits. */
  lemma DigitCountBelow(b: nat, h: nat)
    requires b < Pow10(h)
    ensures Digits.DigitCount(b) <= h
  {
    if b > 0 {
      var e := Digits.DigitCount(b);
      if e > h {
        PowMonotone(10, h, e - 1);
      }
    }
  }

  /** The arithmetic behind `SplitHalves`: with `lo * mask <= n < mask * mask`, the
      quotient by `mask` lies in `[lo, mask)`. */
  lemma HalfBounds(n: nat, a: nat, b: nat, lo: nat, mask: nat)
    requires mask > 0 && a * mask + b == n && b < mask
    requires lo * mask <= n < mask * mask
    ensures lo <= a < mask
  {
    if a >= mask {
      MulMonotone(mask, a, mask);
    }
    if a < lo {
      MulMonotone(a + 1, lo, mask);
    }
  }

  lemma MulMonotone(x: int, y: int, k: nat)
    requires x <= y
    ensures x * k <= y * k
  {
  }

  /** `blink`: 0 becomes 1, a number with an even count of digits becomes its two
      halves, any other number is multiplied by 2024. */
  function Blink(n: nat): (r: seq<nat>)
    ensures 1 <= |r| <= 2
  {
    if n == 0 then [1]
    else match SplitNumber(n)
      case Some((a, b)) => [a, b]
      case None => [n * 2024]
  }

  /** A blink replaces a stone by one or two stones, and only a number with an even
      count of digits splits, into halves whose digits read back as the number. */
  lemma BlinkShape(n: nat)
    ensures |Blink(n)| == 2 <==> n > 0 && Digits.DigitCount(n) % 2 == 0
    ensures |Blink(n)| == 2 ==> Blink(n)[0] * Pow10(Digits.DigitCount(n) / 2) + Blink(n)[1] == n
    ensures |Blink(n)| == 1 ==> Blink(n)[0] == if n == 0 then 1 else n * 2024
  {
  }

  /** The blink of every stone of a row, in order (`flat_map`). */
  function FlatMap<T>(s: seq<T>, f: T -> seq<T>): seq<T>
  {
    if s == [] then [] else f(s[0]) + FlatMap(s[1..], f)
  }

  lemma {:induction false} FlatMapAppend<T>(a: seq<T>, b: seq<T>, f: T -> seq<T>)
    ensures FlatMap(a + b, f) == FlatMap(a, f) + FlatMap(b, f)
  {
    if a == [] {
      assert a + b == b;
    } else {
      assert (a + b)[1..] == a[1..] + b;
      FlatMapAppend(a[1..], b, f);
    }
  }

  /** Removing the element at `j` removes its image from the flat map's multiset. */
  lemma FlatMapSplit<T>(b: seq<T>, j: nat, f: T -> seq<T>)
    requires j < |b|
    ensures multiset(FlatMap(b, f)) == multiset(f(b[j])) + multiset(FlatMap(b[..j] + b[j + 1..], f))
  {
    var p, x, q := b[..j], b[j], b[j + 1..];
    SplitAround(b, j);
    FlatMapAround(p, x, q, f);
    MultisetConcat3(FlatMap(p, f), f(x), FlatMap(q, f));
  }

  lemma SplitAround<T>(b: seq<T>, j: nat)
    requires j < |b|
    ensures b == b[..j] + [b[j]] + b[j + 1..]
  {
  }

  lemma MultisetConcat3<T>(a: seq<T>, b: seq<T>, c: seq<T>)
    ensures multiset(a + b + c) == multiset(b) + multiset(a + c)
  {
  }

  lemma FlatMapAround<T>(p: seq<T>, x: T, q: seq<T>, f: T -> seq<T>)
    ensures FlatMap(p + [x] + q, f) == FlatMap(p, f) + f(x) + FlatMap(q, f)
    ensures FlatMap(p + q, f) == FlatMap(p, f) + FlatMap(q, f)
  {
    assert FlatMap([x], f) == f(x) by {
      assert [x][1..] == [];
      assert f(x) + [] == f(x);
    }
    FlatMapAppend(p + [x], q, f);
    FlatMapAppend(p, [x], f);
    FlatMapAppend(p, q, f);
  }

  lemma RemoveOne<T>(a: seq<T>, b: seq<T>, j: nat)
    requires a != [] && j < |b| && b[j] == a[0] && multiset(a) == multiset(b)
    ensures multiset(a[1..]) == multiset(b[..j] + b[j + 1..])
  {
    var p, x, q := b[..j], b[j], b[j + 1..];
    assert b == p + [x] + q;
    assert a == [x] + a[1..];
    assert multiset(a[1..]) == multiset(a) - multiset{x};
    assert multiset(p + q) == multiset(b) - multiset{x};
  }

  /** A flat map's multiset depends only on the multiset it maps, not on the order. */
  lemma {:induction false} FlatMapPermutation<T>(a: seq<T>, b: seq<T>, f: T -> seq<T>)
    requires multiset(a) == multiset(b)
    ensures multiset(FlatMap(a, f)) == multiset(FlatMap(b, f))
    decreases |a|
  {
    if a != [] {
      var x := a[0];
      assert x in multiset(b);
      var j :| 0 <= j < |b| && b[j] == x;
      RemoveOne(a, b, j);
      FlatMapPermutation(a[1..], b[..j] + b[j + 1..], f);
      FlatMapSplit(b, j, f);
    }
  }

  lemma {:induction false} FlatMapLength<T>(s: seq<T>, f: T -> seq<T>)
    requires forall x :: 1 <= |f(x)| <= 2
    ensures |s| <= |FlatMap(s, f)| <= 2 * |s|
  {
    if s != [] {
      FlatMapLength(s[1..], f);
    }
  }

  /** `s` with every element counted `c` times. */
  function Scale<T>(s: seq<T>, c: nat): multiset<T>
  {
    if s == [] then multiset{}
    else
      var m := Scale(s[..|s| - 1], c);
      var x := s[|s| - 1];
      m[x := m[x] + c]
  }

  lemma {:induction false} ScaleSucc<T>(s: seq<T>, c: nat)
    ensures Scale(s, c + 1) == Scale(s, c) + multiset(s)
  {
    if s != [] {
      var p := s[..|s| - 1];
      ScaleSucc(p, c);
      assert s == p + [s[|s| - 1]];
    }
  }

  lemma {:induction false} ScaleZero<T>(s: seq<T>)
    ensures Scale(s, 0) == multiset{}
  {
    if s != [] {
      ScaleZero(s[..|s| - 1]);
    }
  }

  function Repeat<T>(x: T, c: nat): (r: seq<T>)
    ensures |r| == c && forall i :: 0 <= i < c ==> r[i] == x
  {
    if c == 0 then [] else [x] + Repeat(x, c - 1)
  }

  lemma {:induction false} RepeatMultiset<T>(x: T, c: nat)
    ensures multiset(Repeat(x, c)) == multiset{}[x := c]
  {
    if c > 0 {
      RepeatMultiset(x, c - 1);
      assert Repeat(x, c) == [x] + Repeat(x, c - 1);
    }
  }

  /** `c` copies of `x` map to `c` copies of `f(x)`. */
  lemma {:induction false} FlatMapRepeat<T>(x: T, c: nat, f: T -> seq<T>)
    ensures multiset(FlatMap(Repeat(x, c), f)) == Scale(f(x), c)
  {
    if c == 0 {
      ScaleZero(f(x));
    } else {
      FlatMapRepeat(x, c - 1, f);
      assert Repeat(x, c)[1..] == Repeat(x, c - 1);
      ScaleSucc(f(x), c - 1);
    }
  }

  /** One blink of a whole row of stones. */
  function BlinkAll(s: seq<nat>): (r: seq<nat>)
    ensures |s| <= |r| <= 2 * |s|
  {
    FlatMapLength(s, Blink);
    FlatMap(s, Blink)
  }

  /** The stones after `k` blinks. */
  function Evolve(s: seq<nat>, k: nat): seq<nat>
    decreases k
  {
    if k == 0 then s else Evolve(BlinkAll(s), k - 1)
  }

  lemma {:induction false} EvolveLast(s: seq<nat>, k: nat)
    ensures Evolve(s, k + 1) == BlinkAll(Evolve(s, k))
    decreases k
  {
    if k > 0 {
      EvolveLast(BlinkAll(s), k - 1);
    }
  }

  lemma {:induction false} DistinctMultiset(u: seq<nat>)
    requires Distinct(u)
    ensures multiset(u) == multiset(set x | x in u)
  {
    if u != [] {
      var t := u[1..];
      DistinctMultiset(t);
      assert u == [u[0]] + t;
      assert (set x | x in u) == {u[0]} + (set x | x in t);
      assert u[0] !in t;
    }
  }

  /** One round of `solve`'s loop: every distinct number blinks, and each stone it
      becomes is added with the number's count. */
  method BlinkRound(numbers: multiset<nat>, ghost stones: seq<nat>) returns (next: multiset<nat>)
    requires multiset(stones) == numbers
    ensures next == multiset(BlinkAll(stones))
  {
    next := multiset{};
    var pending := numbers;
    ghost var done: seq<nat> := [];
    while pending != multiset{}
      invariant multiset(done) + pending == numbers
      invariant forall m :: m in pending ==> pending[m] == numbers[m]
      invariant next == multiset(BlinkAll(done))
      decreases |pending|
    {
      var n :| n in pending;
      var count := numbers[n];
      next := AddBlinks(next, n, count);
      FlatMapRepeat(n, count, Blink);
      FlatMapAppend(done, Repeat(n, count), Blink);
      RepeatMultiset(n, count);
      done := done + Repeat(n, count);
      pending := pending[n := 0];
    }
    FlatMapPermutation(done, stones, Blink);
  }

  /** The inner fold: `acc.entry(m).and_modify(|e| *e += count).or_insert(count)`
      for every stone `m` of `blink(n)`. */
  method AddBlinks(acc: multiset<nat>, n: nat, count: nat) returns (next: multiset<nat>)
    ensures next == acc + Scale(Blink(n), count)
  {
    next := acc;
    var stones := Blink(n);
    for j := 0 to |stones|
      invariant next == acc + Scale(stones[..j], count)
    {
      assert stones[..j + 1][..j] == stones[..j];
      next := next[stones[j] := next[stones[j]] + count];
    }
    assert stones[..|stones|] == stones;
  }

  /** `solve`: one count per distinct input (later duplicates overwrite the count 1
      with 1), then `num_iterations` rounds of blinking, and the sum of the counts. */
  method Solve(input: seq<nat>, iterations: nat) returns (total: nat)
    ensures total == |Evolve(Unique(input), iterations)|
  {
    var numbers: multiset<nat> := multiset(set n | n in input);
    assert (set n | n in input) == (set n | n in Unique(input));
    DistinctMultiset(Unique(input));
    for i := 0 to iterations
      invariant numbers == multiset(Evolve(Unique(input), i))
    {
      EvolveLast(Unique(input), i);
      numbers := BlinkRound(numbers, Evolve(Unique(input), i));
    }
    total := |numbers|;
  }

  /** With no blinks the answer is the number of distinct inputs. */
  lemma NoBlinks(input: seq<nat>)
    ensures |Evolve(Unique(input), 0)| == |set n: nat | n in input|
  {
    UniqueCardinality<nat>(input);
    assert Evolve(Unique(input), 0) == Unique(input);
    assert (set n: nat | n in input) == (set x | x in input);
  }

  /** Every blink keeps every stone and at most doubles their number. */
  lemma {:induction false} BlinkGrowth(s: seq<nat>, k: nat)
    ensures |s| <= |Evolve(s, k)| <= Pow2(k) * |s|
    decreases k
  {
    if k > 0 {
      var t := BlinkAll(s);
      BlinkGrowth(t, k - 1);
      DoubleBound(|t|, |s|, Pow2(k - 1));
    }
  }

  lemma DoubleBound(t: nat, s: nat, p: nat)
    requires t <= 2 * s
    ensures p * t <= (2 * p) * s
  {
    MulMonotone(t, 2 * s, p);
  }
}
