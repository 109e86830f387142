/** src/bin/day17.rs: a three-register machine with eight opcodes. Each
    instruction is an opcode and an operand; `solve` runs the program until the
    instruction pointer leaves it. Registers are unbounded and non-negative;
    a `panic!` or an out-of-range index of the source is a `Fault`. */
module Day17 {
  import opened Common

  datatype Instruction = Adv | Bxl | Bst | Jnz | Bxc | Out | Bdv | Cdv

  /** The opcode of an instruction: its position in `get_instruction`'s match. */
  function Opcode(i: Instruction): int
  {
    match i
      case Adv => 0 case Bxl => 1 case Bst => 2 case Jnz => 3
      case Bxc => 4 case Out => 5 case Bdv => 6 case Cdv => 7
  }

  /** `get_instruction`: opcodes 0 to 7, anything else panics. */
  function GetInstruction(opcode: int): (r: Option<Instruction>)
    ensures r.Some? <==> 0 <= opcode <= 7
    ensures r.Some? ==> Opcode(r.value) == opcode
  {
    match opcode
      case 0 => Some(Adv) case 1 => Some(Bxl) case 2 => Some(Bst) case 3 => Some(Jnz)
      case 4 => Some(Bxc) case 5 => Some(Out) case 6 => Some(Bdv) case 7 => Some(Cdv)
      case _ => None
  }

  /** Decoding an instruction's opcode gives the instruction back. */
  lemma GetInstructionOfOpcode(i: Instruction)
    ensures GetInstruction(Opcode(i)) == Some(i)
  {
  }

  /** The value of a `State`: the three registers, the instruction pointer and
      the output list. */
  datatype Registers = Registers(a: int, b: int, c: int, ip: int, output: seq<int>)
  {
    predicate Valid() { a >= 0 && b >= 0 && c >= 0 }
  }

  /** `combo`: operands 0 to 3 stand for themselves, 4, 5 and 6 for registers a, b
      and c; any other operand panics. */
  function Combo(operand: int, r: Registers): (v: Option<int>)
    ensures v.Some? <==> 0 <= operand <= 6
    ensures 0 <= operand <= 3 ==> v == Some(operand)
    ensures operand == 4 ==> v == Some(r.a)
    ensures operand == 5 ==> v == Some(r.b)
    ensures operand == 6 ==> v == Some(r.c)
  {
    if 0 <= operand <= 3 then Some(operand)
    else if operand == 4 then Some(r.a)
    else if operand == 5 then Some(r.b)
    else if operand == 6 then Some(r.c)
    else None
  }

  /** `a >> k` on a two's-complement integer: division by 2^k rounded down. */
  function Shr(a: int, k: nat): int
  {
    PowPositive(2, k);
    a / Pow2(k)
  }

  /** Bitwise exclusive or (`^`) of two non-negative integers. */
  function Xor(x: nat, y: nat): nat
    decreases x + y
  {
    if x == 0 && y == 0 then 0
    else 2 * Xor(x / 2, y / 2) + (if x % 2 == y % 2 then 0 else 1)
  }

  /** Xor-ing twice with the same value gives the value back, so `bxl` undoes itself. */
  lemma {:induction false} XorTwice(x: nat, y: nat)
    ensures Xor(Xor(x, y), y) == x
    decreases x + y
  {
    if x == 0 && y == 0 {
    } else {
      var z := Xor(x, y);
      XorTwice(x / 2, y / 2);
      assert z / 2 == Xor(x / 2, y / 2) && z % 2 == (if x % 2 == y % 2 then 0 else 1);
    }
  }

  lemma ShrNonNegative(a: int, k: nat)
    requires a >= 0
    ensures 0 <= Shr(a, k) <= a
  {
    PowPositive(2, k);
    DivBounds(a, Pow2(k));
  }

  lemma DivBounds(a: int, p: int)
    requires a >= 0 && p > 0
    ensures 0 <= a / p <= a
  {
    var q := a / p;
    assert a == q * p + a % p;
    MulAtLeast(q, p);
  }

  lemma MulAtLeast(q: int, p: int)
    requires q >= 0 && p >= 1
    ensures q * p >= q
  {
  }

  /** What one opcode function does to the registers, before `solve` adds 2 to the
      instruction pointer; `None` where it panics (a combo operand outside 0..6). */
  function Effect(i: Instruction, operand: int, r: Registers): Option<Registers>
    requires r.Valid() && operand >= 0
  {
    match i
      case Adv => (match Combo(operand, r) case None => None case Some(k) => Some(r.(a := Shr(r.a, k))))
      case Bxl => Some(r.(b := Xor(r.b, operand)))
      case Bst => (match Combo(operand, r) case None => None case Some(k) => Some(r.(b := k % 8)))
      case Jnz => Some(if r.a != 0 then r.(ip := operand - 2) else r)
      case Bxc => Some(r.(b := Xor(r.b, r.c)))
      case Out => (match Combo(operand, r) case None => None case Some(k) => Some(r.(output := r.output + [k % 8])))
      case Bdv => (match Combo(operand, r) case None => None case Some(k) => Some(r.(b := Shr(r.a, k))))
      case Cdv => (match Combo(operand, r) case None => None case Some(k) => Some(r.(c := Shr(r.a, k))))
  }

  predicate UsesCombo(i: Instruction)
  {
    i == Adv || i == Bst || i == Out || i == Bdv || i == Cdv
  }

  /** An opcode function panics exactly when it reads a combo operand outside 0..6;
      otherwise registers stay non-negative, only `out` writes the output (one value
      in 0..7), only `jnz` touches the instruction pointer, and the three shifts store
      `a >> combo` in their own register and nowhere else. */
  lemma EffectProperties(i: Instruction, operand: int, r: Registers)
    requires r.Valid() && operand >= 0
    ensures Effect(i, operand, r).None? <==> UsesCombo(i) && operand > 6
    ensures Effect(i, operand, r).Some? ==>
      var s := Effect(i, operand, r).value;
      && s.Valid()
      && (i != Out ==> s.output == r.output)
      && (i == Out ==> |s.output| == |r.output| + 1 && s.output[..|r.output|] == r.output
                       && 0 <= s.output[|r.output|] < 8)
      && (i != Jnz ==> s.ip == r.ip)
      && (i == Bst ==> 0 <= s.b < 8)
      && (i == Adv ==> s == r.(a := Shr(r.a, Combo(operand, r).value)))
      && (i == Bdv ==> s == r.(b := Shr(r.a, Combo(operand, r).value)))
      && (i == Cdv ==> s == r.(c := Shr(r.a, Combo(operand, r).value)))
  {
    if Effect(i, operand, r).Some? && UsesCombo(i) {
      var k := Combo(operand, r).value;
      assert k >= 0;
      ShrNonNegative(r.a, k);
    }
  }

  /** One pass of `solve`'s loop body: fetch `program[ip]` and `program[ip + 1]`,
      run the opcode function, add 2 to the instruction pointer. */
  function Step(program: seq<int>, r: Registers): (s: Option<Registers>)
    requires r.Valid() && 0 <= r.ip < |program|
    requires forall k :: 0 <= k < |program| ==> program[k] >= 0
    ensures s.Some? ==> s.value.Valid()
  {
    if r.ip + 1 >= |program| then None
    else match GetInstruction(program[r.ip])
      case None => None
      case Some(i) =>
        EffectProperties(i, program[r.ip + 1], r);
        match Effect(i, program[r.ip + 1], r)
          case None => None
          case Some(s) => Some(s.(ip := s.ip + 2))
  }

  /** `jnz` jumps to its operand when `a` is not zero; every other step, and `jnz`
      when `a` is zero, moves on by exactly 2. */
  lemma StepInstructionPointer(program: seq<int>, r: Registers)
    requires r.Valid() && 0 <= r.ip < |program|
    requires forall k :: 0 <= k < |program| ==> program[k] >= 0
    requires Step(program, r).Some?
    ensures var s := Step(program, r).value;
            if program[r.ip] == 3 && r.a != 0 then s.ip == program[r.ip + 1] else s.ip == r.ip + 2
  {
    var i := GetInstruction(program[r.ip]).value;
    EffectProperties(i, program[r.ip + 1], r);
  }

  datatype Outcome = Halted(final: Registers) | Fault(at: Registers) | OutOfFuel(at: Registers)
  {
    function Regs(): Registers
    {
      match this
        case Halted(r) => r case Fault(r) => r case OutOfFuel(r) => r
    }
  }

  /** `solve` run for at most `fuel` instructions. */
  function Run(program: seq<int>, r: Registers, fuel: nat): (o: Outcome)
    requires r.Valid()
    requires forall k :: 0 <= k < |program| ==> program[k] >= 0
    ensures o.Regs().Valid()
    decreases fuel
  {
    if !(0 <= r.ip < |program|) then Halted(r)
    else if fuel == 0 then OutOfFuel(r)
    else match Step(program, r)
      case None => Fault(r)
      case Some(s) => Run(program, s, fuel - 1)
  }

  /** The machine halts only with the instruction pointer outside the program, and
      the output it has then only ever grew from the initial output. */
  lemma {:induction false} RunHaltsOutside(program: seq<int>, r: Registers, fuel: nat)
    requires r.Valid()
    requires forall k :: 0 <= k < |program| ==> program[k] >= 0
    ensures Run(program, r, fuel).Halted? ==> !(0 <= Run(program, r, fuel).final.ip < |program|)
    ensures var o := Run(program, r, fuel).Regs().output;
            |r.output| <= |o| && o[..|r.output|] == r.output
    decreases fuel
  {
    if 0 <= r.ip < |program| && fuel > 0 {
      match Step(program, r)
        case None =>
        case Some(s) =>
          var i := GetInstruction(program[r.ip]).value;
          EffectProperties(i, program[r.ip + 1], r);
          RunHaltsOutside(program, s, fuel - 1);
          var o := Run(program, s, fuel - 1).Regs().output;
          assert o[..|r.output|] == o[..|s.output|][..|r.output|];
    }
  }

  lemma StepOf(program: seq<int>, r: Registers, i: Instruction, s: Registers)
    requires r.Valid() && 0 <= r.ip && r.ip + 1 < |program|
    requires forall k :: 0 <= k < |program| ==> program[k] >= 0
    requires GetInstruction(program[r.ip]) == Some(i)
    requires Effect(i, program[r.ip + 1], r) == Some(s)
    ensures Step(program, r) == Some(s.(ip := s.ip + 2))
  {
  }

  lemma RunStep(program: seq<int>, r: Registers, fuel: nat)
    requires r.Valid() && 0 <= r.ip < |program| && fuel > 0
    requires forall k :: 0 <= k < |program| ==> program[k] >= 0
    requires Step(program, r).Some?
    ensures Run(program, r, fuel) == Run(program, Step(program, r).value, fuel - 1)
  {
  }

  /** Giving a halting run more fuel does not change its result. */
  lemma {:induction false} RunMoreFuel(program: seq<int>, r: Registers, fuel: nat, more: nat)
    requires r.Valid()
    requires forall k :: 0 <= k < |program| ==> program[k] >= 0
    requires Run(program, r, fuel).Halted?
    requires fuel <= more
    ensures Run(program, r, more) == Run(program, r, fuel)
    decreases fuel
  {
    if 0 <= r.ip < |program| {
      RunMoreFuel(program, Step(program, r).value, fuel - 1, more - 1);
    }
  }

  /** `test1`: `bst 6` with c = 9 leaves b = 1. */
  lemma Test1()
    ensures var o := Run([2, 6], Registers(0, 0, 9, 0, []), 1);
            o.Halted? && o.final.b == 1
  {
  }

  /** `test2`: three `out`s of 0, 1 and a = 10. */
  lemma Test2()
    ensures var o := Run([5, 0, 5, 1, 5, 4], Registers(10, 0, 0, 0, []), 3);
            o.Halted? && o.final.output == [0, 1, 2]
  {
  }

  /** The program of `test3`: halve a, print a mod 8, loop while a is not zero. */
  const HalvingProgram: seq<int> := [0, 1, 5, 4, 3, 0]

  /** The output `HalvingProgram` has when it halts, having started from register a
      with output `out`: the successive halves of `a`, each mod 8, appended down to
      and including the first zero half. */
  function HalvingOutput(a: nat, out: seq<int>): seq<int>
    requires a > 0
    decreases a
  {
    var h := a / 2;
    if h == 0 then out + [h % 8] else HalvingOutput(h, out + [h % 8])
  }

  /** The number of passes through the loop of `HalvingProgram`. */
  function HalvingRounds(a: nat): nat
    requires a > 0
    decreases a
  {
    if a / 2 == 0 then 1 else 1 + HalvingRounds(a / 2)
  }

  /** One pass through `HalvingProgram`'s loop: three instructions. */
  lemma HalvingRound(a: nat, out: seq<int>, fuel: nat)
    ensures var h := a / 2;
            Run(HalvingProgram, Registers(a, 0, 0, 0, out), fuel + 3)
              == Run(HalvingProgram, Registers(h, 0, 0, if h != 0 then 0 else 6, out + [h % 8]), fuel)
  {
    var p := HalvingProgram;
    var h := a / 2;
    var r0 := Registers(a, 0, 0, 0, out);
    var r1 := Registers(h, 0, 0, 2, out);
    var r2 := Registers(h, 0, 0, 4, out + [h % 8]);
    var r3 := Registers(h, 0, 0, if h != 0 then 0 else 6, out + [h % 8]);
    assert Pow2(1) == 2;
    assert Step(p, r0) == Some(r1);
    assert Run(p, r0, fuel + 3) == Run(p, r1, fuel + 2);
    assert Step(p, r1) == Some(r2);
    assert Run(p, r1, fuel + 2) == Run(p, r2, fuel + 1);
    assert Step(p, r2) == Some(r3);
  }

  /** Given three instructions of fuel per pass, `HalvingProgram` halts with a = 0
      and the output `HalvingOutput(a, out)`. */
  lemma {:induction false} HalvingRun(a: nat, out: seq<int>, fuel: nat)
    requires a > 0 && fuel >= 3 * HalvingRounds(a)
    ensures Run(HalvingProgram, Registers(a, 0, 0, 0, out), fuel)
              == Halted(Registers(0, 0, 0, 6, HalvingOutput(a, out)))
    decreases a
  {
    var h := a / 2;
    HalvingRound(a, out, fuel - 3);
    if h != 0 {
      HalvingRun(h, out + [h % 8], fuel - 3);
    }
  }

  /** `test3`: from a = 2024 the program prints 4,2,5,6,7,7,7,7,3,1,0 and leaves a = 0. */
  lemma Test3(a: nat)
    requires a == 2024
    ensures var o := Run(HalvingProgram, Registers(a, 0, 0, 0, []), 33);
            o.Halted? && o.final.output == [4, 2, 5, 6, 7, 7, 7, 7, 3, 1, 0] && o.final.a == 0
  {
    HalvingOf2024(a);
    HalvingRun(a, [], 33);
  }

  lemma HalvingOf2024(a: nat)
    requires a == 2024
    ensures HalvingRounds(a) == 11
    ensures HalvingOutput(a, []) == [4, 2, 5, 6, 7, 7, 7, 7, 3, 1, 0]
  {
    assert HalvingRounds(2024) == 11;
    HalvingOutputOf2024();
  }

  lemma HalvingOutputOf2024()
    ensures HalvingOutput(2024, []) == [4, 2, 5, 6, 7, 7, 7, 7, 3, 1, 0]
  {
  }

  /** A machine state (the source's `State`), updated in place by the opcode functions. */
  class State {
    var a: int
    var b: int
    var c: int
    var ip: int
    var output: seq<int>

    function Value(): Registers
      reads this
    {
      Registers(a, b, c, ip, output)
    }

    /** `State::new`. */
    constructor (a: nat, b: nat, c: nat)
      ensures Value() == Registers(a, b, c, 0, [])
    {
      this.a, this.b, this.c := a, b, c;
      ip := 0;
      output := [];
    }

    /** `State::clone`. */
    constructor Clone(other: State)
      ensures Value() == other.Value()
    {
      a, b, c := other.a, other.b, other.c;
      ip, output := other.ip, other.output;
    }

    method Adv(operand: int)
      requires Value().Valid() && 0 <= operand <= 6
      modifies this
      ensures Value() == Effect(Instruction.Adv, operand, old(Value())).value
    {
      a := Shr(a, Combo(operand, Value()).value);
    }

    method Bxl(operand: nat)
      requires Value().Valid()
      modifies this
      ensures Value() == Effect(Instruction.Bxl, operand, old(Value())).value
    {
      b := Xor(b, operand);
    }

    method Bst(operand: int)
      requires Value().Valid() && 0 <= operand <= 6
      modifies this
      ensures Value() == Effect(Instruction.Bst, operand, old(Value())).value
    {
      b := Combo(operand, Value()).value % 8;
    }

    method Jnz(operand: nat)
      requires Value().Valid()
      modifies this
      ensures Value() == Effect(Instruction.Jnz, operand, old(Value())).value
    {
      if a != 0 {
        ip := operand - 2;
      }
    }

    method Bxc(operand: nat)
      requires Value().Valid()
      modifies this
      ensures Value() == Effect(Instruction.Bxc, operand, old(Value())).value
    {
      b := Xor(b, c);
    }

    method Out(operand: int)
      requires Value().Valid() && 0 <= operand <= 6
      modifies this
      ensures Value() == Effect(Instruction.Out, operand, old(Value())).value
    {
      var v := Combo(operand, Value()).value % 8;
      output := output + [v];
    }

    method Bdv(operand: int)
      requires Value().Valid() && 0 <= operand <= 6
      modifies this
      ensures Value() == Effect(Instruction.Bdv, operand, old(Value())).value
    {
      b := Shr(a, Combo(operand, Value()).value);
    }

    method Cdv(operand: int)
      requires Value().Valid() && 0 <= operand <= 6
      modifies this
      ensures Value() == Effect(Instruction.Cdv, operand, old(Value())).value
    {
      c := Shr(a, Combo(operand, Value()).value);
    }

    /** Calls the function `get_instruction` returned. */
    method Execute(i: Instruction, operand: nat)
      requires Value().Valid() && Effect(i, operand, Value()).Some?
      modifies this
      ensures Value() == Effect(i, operand, old(Value())).value
    {
      match i
        case Adv => Adv(operand);
        case Bxl => Bxl(operand);
        case Bst => Bst(operand);
        case Jnz => Jnz(operand);
        case Bxc => Bxc(operand);
        case Out => Out(operand);
        case Bdv => Bdv(operand);
        case Cdv => Cdv(operand);
    }

    /** One pass of `solve`'s loop body: `ok` is false, and nothing changes, where
        the source would panic. */
    method Cycle(program: seq<int>) returns (ok: bool)
      requires Value().Valid() && 0 <= ip < |program|
      requires forall k :: 0 <= k < |program| ==> program[k] >= 0
      modifies this
      ensures ok <==> Step(program, old(Value())).Some?
      ensures ok ==> Value() == Step(program, old(Value())).value
      ensures !ok ==> Value() == old(Value())
    {
      if ip + 1 >= |program| {
        return false;
      }
      var instruction := GetInstruction(program[ip]);
      if instruction.None? || Effect(instruction.value, program[ip + 1], Value()).None? {
        return false;
      }
      EffectProperties(instruction.value, program[ip + 1], Value());
      ghost var after := Effect(instruction.value, program[ip + 1], Value()).value;
      StepOf(program, Value(), instruction.value, after);
      Execute(instruction.value, program[ip + 1]);
      ip := ip + 2;
      ok := true;
    }
  }

  datatype Status = Finished | Panicked | FuelExhausted

  /** `solve`: runs a copy of `start` until the instruction pointer leaves the
      program, for at most `fuel` instructions. */
  method Solve(program: seq<int>, start: State, fuel: nat) returns (state: State, status: Status)
    requires start.Value().Valid()
    requires forall k :: 0 <= k < |program| ==> program[k] >= 0
    ensures fresh(state)
    ensures var o := Run(program, start.Value(), fuel);
            && state.Value() == o.Regs()
            && (status == Finished <==> o.Halted?)
            && (status == Panicked <==> o.Fault?)
  {
    state := new State.Clone(start);
    var steps: nat := 0;
    while 0 <= state.ip < |program| && steps < fuel
      invariant steps <= fuel
      invariant state.Value().Valid()
      invariant Run(program, start.Value(), fuel) == Run(program, state.Value(), fuel - steps)
    {
      ghost var before := state.Value();
      var ok := state.Cycle(program);
      if !ok {
        return state, Panicked;
      }
      RunStep(program, before, fuel - steps);
      steps := steps + 1;
    }
    status := if 0 <= state.ip < |program| then FuelExhausted else Finished;
  }
}
