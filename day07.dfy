/** src/bin/day07.rs: an equation is a test value and a list of numbers; it is
    solvable when the numbers, combined left to right by operators from a given
    list and starting from 0, can reach the test value. Values above the test
    value are dropped as soon as they appear. Integers are unbounded. */
module Day07 {
  import opened Common
  import Text
  import Digits

  datatype Equation = Equation(test: nat, numbers: seq<nat>)

  /** The operators `main` passes to `solvable`: `u64::add`, `u64::mul` and
      `concatenate`. */
  datatype Op = Plus | Times | Concat

  /** `concatenate`: `a * 10^num_digits(b) + b`. */
  function Concatenate(a: nat, b: nat): nat
  {
    a * Pow10(Digits.DigitCount(b)) + b
  }

  /** Because zero has no digits, concatenating 0 leaves `a` unchanged ... */
  lemma ConcatenateZero(a: nat)
    ensures Concatenate(a, 0) == a
  {
    assert Pow10(0) == 1;
  }

  /** ... and for any other `b` it is the value of the decimal digits of `a`
      followed by those of `b`. */
  lemma ConcatenateDigits(a: nat, b: nat)
    requires b > 0
    ensures Text.DigitsValue(Text.ShowNat(a) + Text.ShowNat(b)) == Concatenate(a, b)
  {
    var y := Text.ShowNat(b);
    DigitsValueAppend(Text.ShowNat(a), y);
    ShowNatLength(b);
  }

  lemma {:induction false} ShowNatLength(n: nat)
    requires n > 0
    ensures |Text.ShowNat(n)| == Digits.DigitCount(n)
    decreases n
  {
    if n >= 10 {
      ShowNatLength(n / 10);
    }
  }

  /** The value of two digit strings side by side. */
  lemma {:induction false} DigitsValueAppend(x: string, y: string)
    requires forall i :: 0 <= i < |x| ==> Text.IsDigit(x[i])
    requires forall i :: 0 <= i < |y| ==> Text.IsDigit(y[i])
    ensures Text.DigitsValue(x + y) == Text.DigitsValue(x) * Pow10(|y|) + Text.DigitsValue(y)
    decreases |y|
  {
    if y == [] {
      assert x + y == x;
    } else {
      var y' := y[..|y| - 1];
      assert (x + y)[..|x + y| - 1] == x + y';
      DigitsValueAppend(x, y');
      var vx, vy' := Text.DigitsValue(x), Text.DigitsValue(y');
      var d := Text.DigitOf(y[|y| - 1]);
      assert (x + y)[|x + y| - 1] == y[|y| - 1];
      assert Text.DigitsValue(x + y) == Text.DigitsValue(x + y') * 10 + d;
      assert Text.DigitsValue(y) == vy' * 10 + d;
      assert Pow10(|y|) == 10 * Pow10(|y'|);
      ShiftDigit(vx, Pow10(|y'|), vy', d);
    }
  }

  lemma ShiftDigit(vx: int, p: int, vy: int, d: int)
    ensures (vx * p + vy) * 10 + d == vx * (10 * p) + (vy * 10 + d)
  {
  }

  function Apply(op: Op, a: nat, b: nat): nat
  {
    match op
      case Plus => a + b
      case Times => a * b
      case Concat => Concatenate(a, b)
  }

  /** One step of `solvable`'s fold: every `op(acc_el, n)` that does not exceed `test`. */
  function Advance(acc: set<nat>, ops: seq<Op>, n: nat, test: nat): (r: set<nat>)
    ensures forall v :: v in r ==> v <= test
  {
    set a, o | a in acc && o in ops && Apply(o, a, n) <= test :: Apply(o, a, n)
  }

  /** The set `solvable`'s fold ends with, starting from {0}. */
  function Reachable(numbers: seq<nat>, ops: seq<Op>, test: nat): set<nat>
    decreases |numbers|
  {
    if numbers == [] then {0}
    else Advance(Reachable(numbers[..|numbers| - 1], ops, test), ops, numbers[|numbers| - 1], test)
  }

  /** Every value the fold keeps is at most `test`. */
  lemma ReachableBounded(numbers: seq<nat>, ops: seq<Op>, test: nat, v: nat)
    requires v in Reachable(numbers, ops, test)
    ensures v <= test
  {
  }

  /** The left-to-right value of `numbers` combined by `choices`, seeded with 0. */
  function Evaluate(numbers: seq<nat>, choices: seq<Op>): nat
    requires |choices| == |numbers|
    decreases |numbers|
  {
    if numbers == [] then 0
    else
      var k := |numbers| - 1;
      Apply(choices[k], Evaluate(numbers[..k], choices[..k]), numbers[k])
  }

  /** `choices` picks an operator from `ops` for every number, and no intermediate
      value exceeds `test`. */
  predicate Admissible(numbers: seq<nat>, choices: seq<Op>, ops: seq<Op>, test: nat)
    decreases |numbers|
  {
    && |choices| == |numbers|
    && (numbers != [] ==>
          var k := |numbers| - 1;
          && Admissible(numbers[..k], choices[..k], ops, test)
          && choices[k] in ops
          && Evaluate(numbers, choices) <= test)
  }

  /** Every value the fold keeps comes from an admissible choice of operators ... */
  lemma {:induction false} ReachableSound(numbers: seq<nat>, ops: seq<Op>, test: nat, v: nat)
    requires v in Reachable(numbers, ops, test)
    ensures exists choices :: Admissible(numbers, choices, ops, test) && Evaluate(numbers, choices) == v
    decreases |numbers|
  {
    if numbers == [] {
      assert Admissible(numbers, [], ops, test) && Evaluate(numbers, []) == v;
    } else {
      var k := |numbers| - 1;
      var prefix := numbers[..k];
      var n := numbers[k];
      var a, o :| a in Reachable(prefix, ops, test) && o in ops && Apply(o, a, n) <= test && Apply(o, a, n) == v;
      ReachableSound(prefix, ops, test, a);
      var cs :| Admissible(prefix, cs, ops, test) && Evaluate(prefix, cs) == a;
      var choices := cs + [o];
      assert choices[..k] == cs;
      assert Evaluate(numbers, choices) == v;
      assert Admissible(numbers, choices, ops, test);
    }
  }

  /** ... and every admissible choice of operators ends at a value the fold keeps. */
  lemma {:induction false} ReachableComplete(numbers: seq<nat>, choices: seq<Op>, ops: seq<Op>, test: nat)
    requires Admissible(numbers, choices, ops, test)
    ensures Evaluate(numbers, choices) in Reachable(numbers, ops, test)
    decreases |numbers|
  {
    if numbers != [] {
      var k := |numbers| - 1;
      ReachableComplete(numbers[..k], choices[..k], ops, test);
      var a := Evaluate(numbers[..k], choices[..k]);
      assert Apply(choices[k], a, numbers[k]) == Evaluate(numbers, choices);
    }
  }

  /** With no numbers the fold keeps {0}: the equation is solvable iff its test is 0. */
  lemma NoNumbers(ops: seq<Op>, test: nat)
    ensures test in Reachable([], ops, test) <==> test == 0
  {
  }

  lemma AdvanceUnion(a: set<nat>, b: set<nat>, ops: seq<Op>, n: nat, test: nat)
    ensures Advance(a + b, ops, n, test) == Advance(a, ops, n, test) + Advance(b, ops, n, test)
  {
  }

  lemma AdvanceOneMore(x: nat, ops: seq<Op>, j: nat, n: nat, test: nat)
    requires j < |ops|
    ensures var v := Apply(ops[j], x, n);
            Advance({x}, ops[..j + 1], n, test)
              == Advance({x}, ops[..j], n, test) + (if v <= test then {v} else {})
  {
    var v := Apply(ops[j], x, n);
    assert ops[..j + 1] == ops[..j] + [ops[j]];
    if v <= test {
      assert v in Advance({x}, ops[..j + 1], n, test);
    }
  }

  /** The body of `solvable`'s fold: `op(acc_el, n)` for every kept value and every
      operator, keeping the results that do not exceed `test`. */
  method AdvanceAll(acc: set<nat>, ops: seq<Op>, n: nat, test: nat) returns (ret: set<nat>)
    ensures ret == Advance(acc, ops, n, test)
  {
    ret := {};
    var pending := acc;
    while pending != {}
      invariant pending <= acc
      invariant ret == Advance(acc - pending, ops, n, test)
      decreases |pending|
    {
      var accEl :| accEl in pending;
      ghost var done := ret;
      for j := 0 to |ops|
        invariant ret == done + Advance({accEl}, ops[..j], n, test)
      {
        AdvanceOneMore(accEl, ops, j, n, test);
        var newVal := Apply(ops[j], accEl, n);
        if newVal <= test {
          ret := ret + {newVal};
        }
      }
      assert ops[..|ops|] == ops;
      AdvanceUnion(acc - pending, {accEl}, ops, n, test);
      assert (acc - pending) + {accEl} == acc - (pending - {accEl});
      pending := pending - {accEl};
    }
    assert acc - pending == acc;
  }

  /** `Equation::solvable`: the fold over the numbers, starting from {0}, then
      whether the test value was kept. */
  method Solvable(e: Equation, ops: seq<Op>) returns (b: bool)
    ensures b <==> e.test in Reachable(e.numbers, ops, e.test)
    ensures b <==> exists choices :: Admissible(e.numbers, choices, ops, e.test) && Evaluate(e.numbers, choices) == e.test
  {
    var acc: set<nat> := {0};
    for i := 0 to |e.numbers|
      invariant acc == Reachable(e.numbers[..i], ops, e.test)
    {
      assert e.numbers[..i + 1][..i] == e.numbers[..i];
      acc := AdvanceAll(acc, ops, e.numbers[i], e.test);
    }
    assert e.numbers[..|e.numbers|] == e.numbers;
    b := e.test in acc;
    if b {
      ReachableSound(e.numbers, ops, e.test, e.test);
    }
    if exists choices :: Admissible(e.numbers, choices, ops, e.test) && Evaluate(e.numbers, choices) == e.test {
      var choices :| Admissible(e.numbers, choices, ops, e.test) && Evaluate(e.numbers, choices) == e.test;
      ReachableComplete(e.numbers, choices, ops, e.test);
    }
  }

  /** Parses every piece as a `u64`, failing on the first that does not parse. */
  function ParseAll(pieces: seq<string>): (r: Option<seq<nat>>)
    ensures r.Some? <==> forall i :: 0 <= i < |pieces| ==> Text.ParseU64(pieces[i]).Some?
    ensures r.Some? ==> |r.value| == |pieces| &&
                        forall i :: 0 <= i < |pieces| ==> r.value[i] == Text.ParseU64(pieces[i]).value
  {
    if pieces == [] then Some([])
    else match Text.ParseU64(pieces[0])
      case None => None
      case Some(v) =>
        match ParseAll(pieces[1..])
          case None => None
          case Some(rest) => Some([v] + rest)
  }

  /** `Equation::from_str`: `<test>: <n> <n> ...`; `None` where the source's
      `unwrap`s panic. */
  function FromStr(s: string): Option<Equation>
  {
    match Text.SplitOnce(s, ':', ' ')
      case None => None
      case Some((testStr, numbersStr)) =>
        match Text.ParseU64(testStr)
          case None => None
          case Some(test) =>
            match ParseAll(Text.Split(numbersStr, ' '))
              case None => None
              case Some(numbers) => Some(Equation(test, numbers))
  }

  /** An equation written out as the puzzle input writes it. */
  function Show(e: Equation): string
    requires e.numbers != []
  {
    Text.ShowNat(e.test) + [':', ' '] + Text.Join(ShowAll(e.numbers), ' ')
  }

  function ShowAll(ns: seq<nat>): (r: seq<string>)
    ensures |r| == |ns| && forall i :: 0 <= i < |ns| ==> r[i] == Text.ShowNat(ns[i])
  {
    if ns == [] then [] else [Text.ShowNat(ns[0])] + ShowAll(ns[1..])
  }

  /** Parsing an equation written out gives it back, for 64-bit values. */
  lemma FromStrShow(e: Equation)
    requires e.numbers != []
    requires e.test < Text.U64Limit && forall i :: 0 <= i < |e.numbers| ==> e.numbers[i] < Text.U64Limit
    ensures FromStr(Show(e)) == Some(e)
  {
    var t := Text.ShowNat(e.test);
    var pieces := ShowAll(e.numbers);
    var rest := Text.Join(pieces, ' ');
    var s := Show(e);
    assert ':' !in t by {
      assert forall k :: 0 <= k < |t| ==> Text.IsDigit(t[k]);
    }
    Text.SplitOnceAfter(t, ':', ' ', rest);
    Text.ParseShow(e.test);
    forall i | 0 <= i < |pieces|
      ensures ' ' !in pieces[i]
    {
      assert forall k :: 0 <= k < |pieces[i]| ==> Text.IsDigit(pieces[i][k]);
    }
    Text.SplitJoin(pieces, ' ');
    forall i | 0 <= i < |pieces|
      ensures Text.ParseU64(pieces[i]) == Some(e.numbers[i])
    {
      Text.ParseShow(e.numbers[i]);
    }
    var parsed := ParseAll(pieces).value;
    assert parsed == e.numbers;
  }
}
