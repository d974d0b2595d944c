/**
 * 2024 day 17 (2024/src/day17.hpp): chronospatial computer. A 3-bit
 * machine with three 64-bit registers A, B and C runs a program of
 * opcode/operand pairs; `out` emits octal digits. The second part only
 * searches for quines when the program has the shape the search relies on,
 * which `is_possible_quine` checks.
 */
module Y2024Day17 {
  import opened AocLib

  /** `code_t` values as read from the input: non-negative 8-bit numbers. */
  type Code = x: int | 0 <= x < 128

  /** The eight instructions, by their opcode. */
  datatype Opcode = Adv | Bxl | Bst | Jnz | Bxc | Out | Bdv | Cdv

  /** `Opcode(code)`: codes outside 0..7 name no instruction and match no case. */
  function OpcodeOf(code: Code): (op: Option<Opcode>)
    ensures op.Some? <==> code < 8
    ensures op.Some? ==> OpcodeValue(op.value) == code
  {
    if code == 0 then Some(Adv)
    else if code == 1 then Some(Bxl)
    else if code == 2 then Some(Bst)
    else if code == 3 then Some(Jnz)
    else if code == 4 then Some(Bxc)
    else if code == 5 then Some(Out)
    else if code == 6 then Some(Bdv)
    else if code == 7 then Some(Cdv)
    else None
  }

  /** The underlying value of an opcode. */
  function OpcodeValue(op: Opcode): (code: Code)
    ensures code < 8
  {
    match op
    case Adv => 0
    case Bxl => 1
    case Bst => 2
    case Jnz => 3
    case Bxc => 4
    case Out => 5
    case Bdv => 6
    case Cdv => 7
  }

  lemma OpcodeRoundTrip(op: Opcode)
    ensures OpcodeOf(OpcodeValue(op)) == Some(op)
  {
  }


  datatype Register = A | B | C

  /** `RegisterMask`: a flag per register. */
  datatype RegisterMask = RegisterMask(a: bool, b: bool, c: bool)

  const NoRegister := RegisterMask(false, false, false)

  /** `(mask & REGISTER_X) == REGISTER_X`. */
  predicate Has(mask: RegisterMask, r: Register)
  {
    match r
    case A => mask.a
    case B => mask.b
    case C => mask.c
  }

  /** The flag of one register. */
  function Only(r: Register): (mask: RegisterMask)
    ensures forall q :: Has(mask, q) <==> q == r
  {
    RegisterMask(r == A, r == B, r == C)
  }

  /** `mask | other`. */
  function Union(mask: RegisterMask, other: RegisterMask): (u: RegisterMask)
    ensures forall r :: Has(u, r) <==> Has(mask, r) || Has(other, r)
  {
    RegisterMask(mask.a || other.a, mask.b || other.b, mask.c || other.c)
  }

  /** The register a combo operand names: A for 4, B for 5, C for 6. */
  function ComboRegister(arg: Code): RegisterMask
  {
    if arg == 4 then Only(A) else if arg == 5 then Only(B) else if arg == 6 then Only(C) else NoRegister
  }

  /** The instructions whose operand is a combo operand. */
  predicate UsesCombo(op: Opcode)
  {
    op == Adv || op == Bdv || op == Cdv || op == Bst || op == Out
  }

  /** `Instruction::reads`: the registers an instruction looks at. */
  function Reads(op: Opcode, arg: Code): RegisterMask
  {
    match op
    case Adv => Union(Only(A), ComboRegister(arg))
    case Bdv => Union(Only(A), ComboRegister(arg))
    case Cdv => Union(Only(A), ComboRegister(arg))
    case Bxl => Only(B)
    case Bst => ComboRegister(arg)
    case Jnz => Only(A)
    case Bxc => Union(Only(B), Only(C))
    case Out => ComboRegister(arg)
  }

  /** `Instruction::writes`: the register an instruction assigns, if any. */
  function Writes(op: Opcode, arg: Code): RegisterMask
  {
    match op
    case Adv => Only(A)
    case Bdv => Only(B)
    case Cdv => Only(C)
    case Bxl => Only(B)
    case Bst => Only(B)
    case Jnz => NoRegister
    case Bxc => Only(B)
    case Out => NoRegister
  }

  /**
   * The `Instruction` built from a code and an operand: a code that names
   * no instruction reads and writes nothing.
   */
  function CodeReads(code: Code, arg: Code): RegisterMask
  {
    if OpcodeOf(code).Some? then Reads(OpcodeOf(code).value, arg) else NoRegister
  }

  function CodeWrites(code: Code, arg: Code): RegisterMask
  {
    if OpcodeOf(code).Some? then Writes(OpcodeOf(code).value, arg) else NoRegister
  }

  /**
   * The three `std::uint64_t` registers. They are kept as unbounded
   * numbers; no instruction makes a register wider than 64 bits (StepFits),
   * so nothing ever wraps around.
   */
  datatype Registers = Registers(a: nat, b: nat, c: nat)

  function Get(regs: Registers, r: Register): nat
  {
    match r
    case A => regs.a
    case B => regs.b
    case C => regs.c
  }

  function Pow2(k: nat): (p: nat)
    ensures p >= 1
  {
    if k == 0 then 1 else 2 * Pow2(k - 1)
  }

  /** 2^64, one more than the largest `std::uint64_t`. */
  const Word: nat := Pow2(64)

  /** Every register holds a 64-bit value. */
  predicate Fits(regs: Registers)
  {
    regs.a < Word && regs.b < Word && regs.c < Word
  }

  /**
   * Bitwise exclusive or, bit by bit from the lowest: `x ^ y`.
   */
  function Xor(x: nat, y: nat): nat
    decreases x + y
  {
    if x == 0 then y
    else if y == 0 then x
    else 2 * Xor(x / 2, y / 2) + (if x % 2 == y % 2 then 0 else 1)
  }

  /** Exclusive or of two n-bit values has n bits. */
  lemma {:induction false} XorBound(x: nat, y: nat, n: nat)
    requires x < Pow2(n) && y < Pow2(n)
    ensures Xor(x, y) < Pow2(n)
    decreases x + y
  {
    if x != 0 && y != 0 {
      assert n > 0;
      XorBound(x / 2, y / 2, n - 1);
    }
  }

  /**
   * `x >> k`: x halved k times, rounding down, i.e. x divided by 2^k. A shift
   * by 64 or more is undefined for `std::uint64_t`; the quotient, 0, is taken
   * there.
   */
  function Shr(x: nat, k: nat): (r: nat)
    ensures r <= x
    ensures k > 0 && x > 0 ==> r < x
  {
    if k == 0 then x else Shr(x / 2, k - 1)
  }

  /**
   * `Registers::combo_operand`: 0 to 3 stand for themselves, 4 to 6 for the
   * registers A to C; any other operand fails the assertion (None).
   */
  function ComboOperand(regs: Registers, arg: Code): (v: Option<nat>)
    ensures v.Some? <==> arg <= 6
    ensures arg <= 3 ==> v == Some(arg)
    ensures v.Some? && arg > 3 ==> forall r :: Has(ComboRegister(arg), r) ==> v.value == Get(regs, r)
  {
    if arg <= 3 then Some(arg)
    else if arg == 4 then Some(regs.a)
    else if arg == 5 then Some(regs.b)
    else if arg == 6 then Some(regs.c)
    else None
  }

  /** The instruction pointer and the registers. */
  datatype State = State(ip: nat, regs: Registers)

  /** What an instruction other than `jnz` does: the new registers and its output. */
  datatype Effect = Effect(regs: Registers, out: seq<int>)

  /**
   * The register updates of the switch in `run_program`; None when the
   * combo operand fails its assertion. Only `out` outputs, one octal digit.
   */
  function Execute(op: Opcode, arg: Code, regs: Registers): (e: Option<Effect>)
    requires op != Jnz
    ensures e.None? <==> UsesCombo(op) && arg > 6
    ensures e.Some? ==> |e.value.out| <= 1 && forall o :: o in e.value.out ==> 0 <= o < 8
    ensures e.Some? && e.value.out != [] ==> op == Out
  {
    if op == Bxl then Some(Effect(regs.(b := Xor(regs.b, arg)), []))
    else if op == Bxc then Some(Effect(regs.(b := Xor(regs.b, regs.c)), []))
    else
      match ComboOperand(regs, arg)
      case None => None
      case Some(k) =>
        if op == Adv then Some(Effect(regs.(a := Shr(regs.a, k)), []))
        else if op == Bdv then Some(Effect(regs.(b := Shr(regs.a, k)), []))
        else if op == Cdv then Some(Effect(regs.(c := Shr(regs.a, k)), []))
        else if op == Bst then Some(Effect(regs.(b := k % 8), []))
        else Some(Effect(regs, [Octal(k)]))
  }

  /** One instruction's effect: the next state and what it outputs, or a failed assertion. */
  datatype StepResult = Next(state: State, out: seq<int>) | Fault

  /**
   * One pass of the loop in `run_program`. `jnz` jumps to its operand when
   * A is not zero; every other instruction, and a `jnz` that does not jump,
   * moves on by two; a code that names no instruction does nothing.
   */
  function Step(program: seq<Code>, s: State): (r: StepResult)
    requires s.ip + 1 < |program|
    ensures r.Fault? <==> exists op :: OpcodeOf(program[s.ip]) == Some(op) && UsesCombo(op) && program[s.ip + 1] > 6
    ensures r.Next? && OpcodeOf(program[s.ip]) != Some(Jnz) ==> r.state.ip == s.ip + 2
    ensures OpcodeOf(program[s.ip]) == Some(Jnz) ==>
      r.Next? && r.out == [] && r.state.regs == s.regs &&
      r.state.ip == if s.regs.a != 0 then program[s.ip + 1] else s.ip + 2
  {
    var arg := program[s.ip + 1];
    var next := s.ip + 2;
    match OpcodeOf(program[s.ip])
    case None => Next(State(next, s.regs), [])
    case Some(op) =>
      if op == Jnz then
        if s.regs.a != 0 then Next(State(arg, s.regs), []) else Next(State(next, s.regs), [])
      else
        match Execute(op, arg, s.regs)
        case None => Fault
        case Some(e) => Next(State(next, e.regs), e.out)
  }

  /** Step outputs at most one octal digit, and only for `out`. */
  lemma StepOutput(program: seq<Code>, s: State)
    requires s.ip + 1 < |program| && Step(program, s).Next?
    ensures |Step(program, s).out| <= 1 && forall o :: o in Step(program, s).out ==> 0 <= o < 8
    ensures Step(program, s).out != [] ==> OpcodeOf(program[s.ip]) == Some(Out)
  {
  }

  /** `value & 0b111`, the lowest octal digit. */
  function Octal(x: nat): (d: int)
    ensures 0 <= d < 8
  {
    x % 8
  }

  datatype Outcome = Halted | Faulted | OutOfFuel

  /**
   * `run_program` for at most `fuel` instructions: the outputs, in order,
   * and how the run ended. It halts once no whole instruction is left at
   * the instruction pointer.
   */
  function Run(program: seq<Code>, s: State, fuel: nat): (seq<int>, Outcome)
    decreases fuel
  {
    if s.ip + 1 >= |program| then ([], Halted)
    else if fuel == 0 then ([], OutOfFuel)
    else
      match Step(program, s)
      case Fault => ([], Faulted)
      case Next(t, out) =>
        var (rest, outcome) := Run(program, t, fuel - 1);
        (out + rest, outcome)
  }

  /**
   * `run_program`: the instruction loop, with `output_handler` collecting
   * the outputs. Each turn does what Step says, so the whole run is Run.
   */
  method RunProgram(program: seq<Code>, regs: Registers, fuel: nat) returns (outputs: seq<int>, outcome: Outcome)
    ensures (outputs, outcome) == Run(program, State(0, regs), fuel)
  {
    var ip: nat := 0;
    var a, b, c := regs.a, regs.b, regs.c;
    var left := fuel;
    outputs := [];
    assert Prepend(outputs, Run(program, State(ip, Registers(a, b, c)), left)).0
      == Run(program, State(0, regs), fuel).0;
    while ip + 1 < |program| && left > 0
      invariant Run(program, State(0, regs), fuel) == Prepend(outputs, Run(program, State(ip, Registers(a, b, c)), left))
      decreases left
    {
      ghost var before := State(ip, Registers(a, b, c));
      var arg := program[ip + 1];
      var out: seq<int> := [];
      match OpcodeOf(program[ip]) {
        case None =>
          ip := ip + 2;
        case Some(op) =>
          if op == Jnz {
            if a != 0 {
              ip := arg;
            } else {
              ip := ip + 2;
            }
          } else {
            var effect := Execute(op, arg, Registers(a, b, c));
            if effect.None? {
              assert Step(program, before) == Fault;
              assert outputs + [] == outputs;
              return outputs, Faulted;
            }
            a, b, c := effect.value.regs.a, effect.value.regs.b, effect.value.regs.c;
            out := effect.value.out;
            ip := ip + 2;
          }
      }
      assert Step(program, before) == Next(State(ip, Registers(a, b, c)), out);
      RunStep(program, before, left, outputs, out);
      outputs := outputs + out;
      left := left - 1;
    }
    assert outputs + [] == outputs;
    if ip + 1 < |program| {
      return outputs, OutOfFuel;
    }
    return outputs, Halted;
  }

  function Prepend(outputs: seq<int>, run: (seq<int>, Outcome)): (seq<int>, Outcome)
  {
    (outputs + run.0, run.1)
  }

  lemma RunStep(program: seq<Code>, s: State, fuel: nat, outputs: seq<int>, out: seq<int>)
    requires s.ip + 1 < |program| && fuel > 0
    requires Step(program, s).Next? && Step(program, s).out == out
    ensures Prepend(outputs, Run(program, s, fuel))
      == Prepend(outputs + out, Run(program, Step(program, s).state, fuel - 1))
  {
    var rest := Run(program, Step(program, s).state, fuel - 1).0;
    assert outputs + (out + rest) == (outputs + out) + rest;
  }

  /** Every output is an octal digit. */
  lemma {:induction false} OutputsAreOctal(program: seq<Code>, s: State, fuel: nat)
    ensures forall o :: o in Run(program, s, fuel).0 ==> 0 <= o < 8
    decreases fuel
  {
    if s.ip + 1 < |program| && fuel > 0 && Step(program, s).Next? {
      StepOutput(program, s);
      OutputsAreOctal(program, Step(program, s).state, fuel - 1);
    }
  }

  /** A run that halts or fails within some fuel ends the same with more. */
  lemma {:induction false} MoreFuel(program: seq<Code>, s: State, fuel: nat, more: nat)
    requires Run(program, s, fuel).1 != OutOfFuel && fuel <= more
    ensures Run(program, s, more) == Run(program, s, fuel)
    decreases fuel
  {
    if s.ip + 1 < |program| && Step(program, s).Next? {
      MoreFuel(program, Step(program, s).state, fuel - 1, more - 1);
    }
  }

  /** Each output comes from an `out` instruction: a run outputs at most once per step. */
  lemma {:induction false} OutputsPerStep(program: seq<Code>, s: State, fuel: nat)
    ensures |Run(program, s, fuel).0| <= fuel
    decreases fuel
  {
    if s.ip + 1 < |program| && fuel > 0 && Step(program, s).Next? {
      StepOutput(program, s);
      OutputsPerStep(program, Step(program, s).state, fuel - 1);
    }
  }

  /**
   * The masks say what an instruction touches: a register outside
   * `writes` keeps its value.
   */
  lemma WritesCover(program: seq<Code>, s: State, r: Register)
    requires s.ip + 1 < |program| && Step(program, s).Next?
    requires !Has(CodeWrites(program[s.ip], program[s.ip + 1]), r)
    ensures Get(Step(program, s).state.regs, r) == Get(s.regs, r)
  {
  }

  /**
   * ... and registers outside `reads` do not matter: two states that agree
   * on the registers read step alike, to the same place, with the same
   * output and the same values in the registers written.
   */
  lemma ReadsCover(program: seq<Code>, s: State, t: State)
    requires s.ip == t.ip && s.ip + 1 < |program|
    requires Agree(s.regs, t.regs, CodeReads(program[s.ip], program[s.ip + 1]))
    ensures Step(program, s).Fault? == Step(program, t).Fault?
    ensures Step(program, s).Next? ==>
      Step(program, s).state.ip == Step(program, t).state.ip &&
      Step(program, s).out == Step(program, t).out &&
      Agree(Step(program, s).state.regs, Step(program, t).state.regs, CodeWrites(program[s.ip], program[s.ip + 1]))
  {
    match OpcodeOf(program[s.ip])
    case None =>
    case Some(op) =>
      if op != Jnz {
        ExecuteReads(op, program[s.ip + 1], s.regs, t.regs);
      }
  }

  /** The registers in `mask` hold the same values in both. */
  predicate Agree(regs: Registers, other: Registers, mask: RegisterMask)
  {
    (mask.a ==> regs.a == other.a) && (mask.b ==> regs.b == other.b) && (mask.c ==> regs.c == other.c)
  }

  lemma ExecuteReads(op: Opcode, arg: Code, regs: Registers, other: Registers)
    requires op != Jnz
    requires Agree(regs, other, Reads(op, arg))
    ensures Execute(op, arg, regs).Some? ==>
      Execute(op, arg, other).Some? &&
      Execute(op, arg, regs).value.out == Execute(op, arg, other).value.out &&
      Agree(Execute(op, arg, regs).value.regs, Execute(op, arg, other).value.regs, Writes(op, arg))
  {
    if UsesCombo(op) {
      assert ComboOperand(regs, arg) == ComboOperand(other, arg);
    }
  }

  lemma {:induction false} Pow2Monotone(m: nat, n: nat)
    requires m <= n
    ensures Pow2(m) <= Pow2(n)
    decreases n
  {
    if m < n {
      Pow2Monotone(m, n - 1);
    }
  }

  lemma WordBound()
    ensures Word >= 128
  {
    assert Pow2(7) == 128;
    Pow2Monotone(7, 64);
  }

  /** No instruction makes a register wider than 64 bits. */
  lemma StepFits(program: seq<Code>, s: State)
    requires s.ip + 1 < |program| && Fits(s.regs) && Step(program, s).Next?
    ensures Fits(Step(program, s).state.regs)
  {
    var op := OpcodeOf(program[s.ip]);
    if op.Some? && op.value != Jnz {
      ExecuteFits(op.value, program[s.ip + 1], s.regs);
    }
  }

  lemma ExecuteFits(op: Opcode, arg: Code, regs: Registers)
    requires op != Jnz && Fits(regs) && Execute(op, arg, regs).Some?
    ensures Fits(Execute(op, arg, regs).value.regs)
  {
    WordBound();
    if op == Bxl {
      XorBound(regs.b, arg, 64);
    } else if op == Bxc {
      XorBound(regs.b, regs.c, 64);
    }
  }

  // Checking the shape `solve_quine` relies on. Instructions are counted
  // from 0: instruction k has its opcode at offset 2k and its operand after it.

  /** Why `is_possible_quine` rejects a program (the source reports it as a message). */
  datatype QuineError =
    | TooSmall
    | UsesB(at: nat)
    | UsesC(at: nat)
    | BadAdvOperand(at: nat, arg: Code)
    | MultipleAdv
    | MultipleOut
    | BadJnzOperand(at: nat, arg: Code)
    | JnzBeforeEnd(at: nat)
    | NoAdv
    | NoOut
    | NoJnz

  /** Instruction k has both its opcode and its operand in the program. */
  predicate IsInst(program: seq<Code>, k: int)
  {
    0 <= k && 2 * k + 1 < |program|
  }

  /** Some instruction before instruction n writes register r. */
  ghost predicate WritesBefore(program: seq<Code>, r: Register, n: int)
  {
    exists k :: IsInst(program, k) && k < n && Has(CodeWrites(program[2 * k], program[2 * k + 1]), r)
  }

  /** Some instruction before instruction n is `op`. */
  ghost predicate OpBefore(program: seq<Code>, op: Opcode, n: int)
  {
    exists k :: IsInst(program, k) && k < n && OpcodeOf(program[2 * k]) == Some(op)
  }

  /**
   * Instruction k keeps to the shape: it reads B and C only after the loop
   * body has assigned them, an `adv` shifts by 3, and a `jnz` jumps to 0
   * from the very end.
   */
  ghost predicate InstOk(program: seq<Code>, k: int)
    requires IsInst(program, k)
  {
    var code, arg := program[2 * k], program[2 * k + 1];
    (Has(CodeReads(code, arg), B) ==> WritesBefore(program, B, k)) &&
    (Has(CodeReads(code, arg), C) ==> WritesBefore(program, C, k)) &&
    (OpcodeOf(code) == Some(Adv) ==> arg == 3) &&
    (OpcodeOf(code) == Some(Jnz) ==> arg == 0 && 2 * k == |program| - 2)
  }

  /** The instructions before instruction n keep to the shape, with at most one `adv` and one `out`. */
  ghost predicate PrefixOk(program: seq<Code>, n: int)
  {
    AllInstOk(program, n) && AtMostOne(program, Adv, n) && AtMostOne(program, Out, n)
  }

  ghost predicate AllInstOk(program: seq<Code>, n: int)
  {
    forall k :: IsInst(program, k) && k < n ==> InstOk(program, k)
  }

  /** No two instructions before instruction n are `op`. */
  ghost predicate AtMostOne(program: seq<Code>, op: Opcode, n: int)
  {
    forall j, k :: (IsInst(program, j) && IsInst(program, k) && j < k < n &&
      OpcodeOf(program[2 * j]) == Some(op)) ==> OpcodeOf(program[2 * k]) != Some(op)
  }

  /**
   * The assumptions of `solve_quine`: at least three instructions, exactly
   * one `adv 3` and one `out`, a `jnz 0` at the end, and no value of B or
   * C carried over from the previous pass.
   */
  ghost predicate PossibleQuine(program: seq<Code>)
  {
    |program| >= 6 && PrefixOk(program, |program|) &&
    OpBefore(program, Adv, |program|) && OpBefore(program, Out, |program|) && OpBefore(program, Jnz, |program|)
  }

  /**
   * `is_possible_quine`: one pass over the instructions with the flags of
   * the source; None exactly when the program has the shape.
   */
  method IsPossibleQuine(program: seq<Code>) returns (r: Option<QuineError>)
    ensures r.None? <==> PossibleQuine(program)
    ensures r == Some(TooSmall) <==> |program| < 6
  {
    if |program| < 6 {
      return Some(TooSmall);
    }
    var foundAdv, foundOut, foundJnz := false, false, false;
    var assignedB, assignedC := false, false;
    var i := 0;
    ghost var k := 0;
    while i + 1 < |program|
      invariant 0 <= k && i == 2 * k && i <= |program|
      invariant assignedB == WritesBefore(program, B, k) && assignedC == WritesBefore(program, C, k)
      invariant foundAdv == OpBefore(program, Adv, k) && foundOut == OpBefore(program, Out, k)
      invariant foundJnz == OpBefore(program, Jnz, k)
      invariant PrefixOk(program, k)
    {
      var error := CheckInstruction(program, i, k, assignedB, assignedC, foundAdv, foundOut);
      if error.Some? {
        return error;
      }
      ScanNext(program, k);
      var op, writeMask := OpcodeOf(program[i]), CodeWrites(program[i], program[i + 1]);
      if op == Some(Adv) {
        foundAdv := true;
      } else if op == Some(Out) {
        foundOut := true;
      } else if op == Some(Jnz) {
        foundJnz := true;
      }
      if Has(writeMask, B) {
        assignedB := true;
      }
      if Has(writeMask, C) {
        assignedC := true;
      }
      i, k := i + 2, k + 1;
    }
    ScanDone(program, k);
    if !foundAdv {
      return Some(NoAdv);
    }
    if !foundOut {
      return Some(NoOut);
    }
    if !foundJnz {
      return Some(NoJnz);
    }
    return None;
  }

  /**
   * The checks of the loop body in `is_possible_quine` on the instruction
   * at offset i, given the flags gathered so far: an error rules the
   * program out, and passing the checks lets the shape extend over it.
   */
  method CheckInstruction(program: seq<Code>, i: int, ghost k: int, assignedB: bool, assignedC: bool, foundAdv: bool, foundOut: bool)
    returns (error: Option<QuineError>)
    requires i == 2 * k && IsInst(program, k)
    requires assignedB == WritesBefore(program, B, k) && assignedC == WritesBefore(program, C, k)
    requires foundAdv == OpBefore(program, Adv, k) && foundOut == OpBefore(program, Out, k)
    ensures error.Some? ==> !PossibleQuine(program) && error != Some(TooSmall)
    ensures error.None? ==> InstOk(program, k)
    ensures error.None? && OpcodeOf(program[i]) == Some(Adv) ==> !OpBefore(program, Adv, k)
    ensures error.None? && OpcodeOf(program[i]) == Some(Out) ==> !OpBefore(program, Out, k)
  {
    var code, arg := program[i], program[i + 1];
    var op, readMask := OpcodeOf(code), CodeReads(code, arg);
    if Has(readMask, B) && !assignedB {
      Rejected(program, k);
      return Some(UsesB(i));
    }
    if Has(readMask, C) && !assignedC {
      Rejected(program, k);
      return Some(UsesC(i));
    }
    if op == Some(Adv) {
      if arg != 3 {
        Rejected(program, k);
        return Some(BadAdvOperand(i, arg));
      }
      if foundAdv {
        Repeated(program, Adv, k);
        return Some(MultipleAdv);
      }
    } else if op == Some(Out) {
      if foundOut {
        Repeated(program, Out, k);
        return Some(MultipleOut);
      }
    } else if op == Some(Jnz) {
      if arg != 0 {
        Rejected(program, k);
        return Some(BadJnzOperand(i, arg));
      }
      if i != |program| - 2 {
        Rejected(program, k);
        return Some(JnzBeforeEnd(i));
      }
    }
    return None;
  }

  /** An instruction off the shape rules the program out. */
  lemma Rejected(program: seq<Code>, k: int)
    requires IsInst(program, k) && !InstOk(program, k)
    ensures !PossibleQuine(program)
  {
  }

  /** So does a second `adv` or `out`. */
  lemma Repeated(program: seq<Code>, op: Opcode, k: int)
    requires op == Adv || op == Out
    requires IsInst(program, k) && OpcodeOf(program[2 * k]) == Some(op) && OpBefore(program, op, k)
    ensures !PossibleQuine(program)
  {
    var j :| IsInst(program, j) && j < k && OpcodeOf(program[2 * j]) == Some(op);
    if PossibleQuine(program) {
      assert false;
    }
  }

  /** The flags and the shape after one more instruction that passed the checks. */
  lemma ScanNext(program: seq<Code>, k: int)
    requires IsInst(program, k) && PrefixOk(program, k) && InstOk(program, k)
    requires OpcodeOf(program[2 * k]) == Some(Adv) ==> !OpBefore(program, Adv, k)
    requires OpcodeOf(program[2 * k]) == Some(Out) ==> !OpBefore(program, Out, k)
    ensures PrefixOk(program, k + 1)
    ensures WritesBefore(program, B, k + 1) <==>
      WritesBefore(program, B, k) || Has(CodeWrites(program[2 * k], program[2 * k + 1]), B)
    ensures WritesBefore(program, C, k + 1) <==>
      WritesBefore(program, C, k) || Has(CodeWrites(program[2 * k], program[2 * k + 1]), C)
    ensures OpBefore(program, Adv, k + 1) <==> OpBefore(program, Adv, k) || OpcodeOf(program[2 * k]) == Some(Adv)
    ensures OpBefore(program, Out, k + 1) <==> OpBefore(program, Out, k) || OpcodeOf(program[2 * k]) == Some(Out)
    ensures OpBefore(program, Jnz, k + 1) <==> OpBefore(program, Jnz, k) || OpcodeOf(program[2 * k]) == Some(Jnz)
  {
    AtMostOneNext(program, Adv, k);
    AtMostOneNext(program, Out, k);
    WritesBeforeNext(program, B, k);
    WritesBeforeNext(program, C, k);
    OpBeforeNext(program, Adv, k);
    OpBeforeNext(program, Out, k);
    OpBeforeNext(program, Jnz, k);
  }

  lemma WritesBeforeNext(program: seq<Code>, r: Register, k: int)
    requires IsInst(program, k)
    ensures WritesBefore(program, r, k + 1) <==>
      WritesBefore(program, r, k) || Has(CodeWrites(program[2 * k], program[2 * k + 1]), r)
  {
    if WritesBefore(program, r, k + 1) {
      var j :| IsInst(program, j) && j < k + 1 && Has(CodeWrites(program[2 * j], program[2 * j + 1]), r);
      if j < k {
        assert WritesBefore(program, r, k);
      }
    }
  }

  lemma OpBeforeNext(program: seq<Code>, op: Opcode, k: int)
    requires IsInst(program, k)
    ensures OpBefore(program, op, k + 1) <==> OpBefore(program, op, k) || OpcodeOf(program[2 * k]) == Some(op)
  {
    if OpBefore(program, op, k + 1) {
      var j :| IsInst(program, j) && j < k + 1 && OpcodeOf(program[2 * j]) == Some(op);
      if j < k {
        assert OpBefore(program, op, k);
      }
    }
  }

  lemma AtMostOneNext(program: seq<Code>, op: Opcode, k: int)
    requires IsInst(program, k) && AtMostOne(program, op, k)
    requires OpcodeOf(program[2 * k]) == Some(op) ==> !OpBefore(program, op, k)
    ensures AtMostOne(program, op, k + 1)
  {
    forall i, j | IsInst(program, i) && IsInst(program, j) && i < j < k + 1 && OpcodeOf(program[2 * i]) == Some(op)
      ensures OpcodeOf(program[2 * j]) != Some(op)
    {
      if j == k {
        assert OpBefore(program, op, k);
      }
    }
  }

  /** Once no instruction is left, the scan has seen them all. */
  lemma ScanDone(program: seq<Code>, n: int)
    requires 0 <= n && 2 * n + 1 >= |program|
    ensures PrefixOk(program, n) == PrefixOk(program, |program|)
    ensures forall op :: OpBefore(program, op, n) == OpBefore(program, op, |program|)
  {
  }

  /** A program shorter than three instructions is never a possible quine. */
  lemma TooSmallRejected(program: seq<Code>)
    requires |program| < 6
    ensures !PossibleQuine(program)
  {
  }

  /** A possible quine has even length and ends with `jnz 0`, its only jump. */
  lemma QuineEndsWithJnz(program: seq<Code>)
    requires PossibleQuine(program)
    ensures |program| % 2 == 0
    ensures program[|program| - 2] == OpcodeValue(Jnz) && program[|program| - 1] == 0
    ensures forall k :: IsInst(program, k) && 2 * k < |program| - 2 ==> OpcodeOf(program[2 * k]) != Some(Jnz)
  {
    var j :| IsInst(program, j) && j < |program| && OpcodeOf(program[2 * j]) == Some(Jnz);
    assert InstOk(program, j);
  }

  /** From the worked examples: bst 6 with C = 9 sets B to 1. */
  lemma BstExample()
    ensures Step([2, 6], State(0, Registers(0, 0, 9))).state.regs.b == 1
  {
    assert Execute(Bst, 6, Registers(0, 0, 9)) == Some(Effect(Registers(0, 1, 9), []));
  }

  /** bxl 7 with B = 29 sets B to 26. */
  lemma BxlExample()
    ensures Step([1, 7], State(0, Registers(0, 29, 0))).state.regs.b == 26
  {
    assert Xor(3, 0) == 3;
    assert Xor(7, 1) == 6;
    assert Xor(14, 3) == 13;
    assert Xor(29, 7) == 26;
  }

  /** With A = 10 the program 5,0,5,1,5,4 outputs 0,1,2. */
  lemma RunExample()
    ensures Run([5, 0, 5, 1, 5, 4], State(0, Registers(10, 0, 0)), 3) == ([0, 1, 2], Halted)
  {
    var p: seq<Code> := [5, 0, 5, 1, 5, 4];
    var regs := Registers(10, 0, 0);
    assert Run(p, State(6, regs), 0) == ([], Halted);
    assert Step(p, State(4, regs)) == Next(State(6, regs), [2]);
    assert [2] + [] == [2];
    assert Run(p, State(4, regs), 1) == ([2], Halted);
    assert Step(p, State(2, regs)) == Next(State(4, regs), [1]);
    assert [1] + [2] == [1, 2];
    assert Run(p, State(2, regs), 2) == ([1, 2], Halted);
    assert Step(p, State(0, regs)) == Next(State(2, regs), [0]);
    assert [0] + [1, 2] == [0, 1, 2];
  }
}
