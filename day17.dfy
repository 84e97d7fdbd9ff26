/**
 * Day 17: a three-bit computer with registers a, b and c, an instruction
 * pointer and an output list. Each instruction is an opcode followed by an
 * operand; `run` executes until the pointer leaves the program.
 * `find_values_outputting` searches for register-a values whose run ends
 * with a given tail of output.
 *
 * Registers are unbounded naturals here; a right shift by 128 or more,
 * which overflows in the source's 128-bit arithmetic, is a fault.
 */
module Day17 {
  import opened Wrappers
  import opened Arith

  /** The computer's registers, pointer and output, as one value. */
  datatype Machine = Machine(a: nat, b: nat, c: nat, ip: nat, output: seq<nat>)

  /** How a bounded run ends: off the end of the program, on a panic, or out of steps. */
  datatype Outcome = Halted | Fault | OutOfFuel

  /** The value of a combo operand: 0–3 literally, 4–6 the registers a, b, c; 7 and above are invalid. */
  function Combo(m: Machine, v: nat): (r: Option<nat>)
    ensures r.None? <==> v >= 7
    ensures v <= 3 ==> r == Some(v)
    ensures v == 4 ==> r == Some(m.a)
    ensures v == 5 ==> r == Some(m.b)
    ensures v == 6 ==> r == Some(m.c)
  {
    if v <= 3 then Some(v)
    else if v == 4 then Some(m.a)
    else if v == 5 then Some(m.b)
    else if v == 6 then Some(m.c)
    else None
  }

  /** `x >> n` on unbounded naturals. */
  function Shr(x: nat, n: nat): nat
  {
    PowPositive(2, n);
    x / Pow(2, n)
  }

  /** Opcodes whose operand is a combo operand. */
  predicate UsesCombo(instr: nat)
  {
    instr == 0 || instr == 2 || instr == 5 || instr == 6 || instr == 7
  }

  /** The shifting opcodes, whose shift amount must be below 128. */
  predicate Shifts(instr: nat)
  {
    instr == 0 || instr == 6 || instr == 7
  }

  /** One instruction at `m.ip`; `None` where the source panics. */
  function Step(ins: seq<nat>, m: Machine): (r: Option<Machine>)
    requires m.ip + 1 < |ins|
    ensures r.None? <==>
      ins[m.ip] > 7
      || (UsesCombo(ins[m.ip]) && ins[m.ip + 1] >= 7)
      || (Shifts(ins[m.ip]) && ins[m.ip + 1] < 7 && Combo(m, ins[m.ip + 1]).value >= 128)
    ensures r.Some? ==>
      r.value.ip == if ins[m.ip] == 3 && m.a != 0 then ins[m.ip + 1] else m.ip + 2
    ensures r.Some? && ins[m.ip] in {1, 2, 4} ==>
      r.value == m.(ip := r.value.ip, b := r.value.b)
    ensures r.Some? && ins[m.ip] == 5 ==>
      ins[m.ip + 1] < 7
      && r.value == m.(ip := m.ip + 2, output := m.output + [Combo(m, ins[m.ip + 1]).value % 8])
    ensures r.Some? && ins[m.ip] !in {5} ==> r.value.output == m.output
  {
    var instr, op := ins[m.ip], ins[m.ip + 1];
    var next := m.(ip := m.ip + 2);
    if instr == 1 then Some(next.(b := Xor(m.b, op)))
    else if instr == 3 then Some(if m.a == 0 then next else m.(ip := op))
    else if instr == 4 then Some(next.(b := Xor(m.b, m.c)))
    else if instr > 7 || op >= 7 then None
    else
      var v := Combo(m, op).value;
      if instr == 2 then Some(next.(b := v % 8))
      else if instr == 5 then Some(next.(output := m.output + [v % 8]))
      else if v >= 128 then None
      else if instr == 0 then Some(next.(a := Shr(m.a, v)))
      else if instr == 6 then Some(next.(b := Shr(m.a, v)))
      else Some(next.(c := Shr(m.a, v)))
  }

  /** Runs at most `fuel` instructions from `m`. */
  function Exec(ins: seq<nat>, m: Machine, fuel: nat): (r: (Outcome, Machine))
    ensures r.0 == Halted <==> r.1.ip + 1 >= |ins|
    ensures r.0 == Fault ==> Step(ins, r.1).None?
    decreases fuel
  {
    if m.ip + 1 >= |ins| then (Halted, m)
    else if fuel == 0 then (OutOfFuel, m)
    else match Step(ins, m)
      case None => (Fault, m)
      case Some(m') => Exec(ins, m', fuel - 1)
  }

  predicate Digits(s: seq<nat>)
  {
    forall i :: 0 <= i < |s| ==> s[i] < 8
  }

  /** Every value a run prints is a single octal digit. */
  lemma {:induction false} ExecPrintsDigits(ins: seq<nat>, m: Machine, fuel: nat)
    requires Digits(m.output)
    ensures Digits(Exec(ins, m, fuel).1.output)
    decreases fuel
  {
    if m.ip + 1 < |ins| && fuel > 0 {
      var s := Step(ins, m);
      if s.Some? {
        ExecPrintsDigits(ins, s.value, fuel - 1);
      }
    }
  }

  /** The last `n` values of `s`. */
  function Tail(s: seq<nat>, n: nat): seq<nat>
    requires n <= |s|
  {
    s[|s| - n..]
  }

  /** A run from `m` halts within `fuel` steps with output ending in `target`. */
  predicate Produces(ins: seq<nat>, fuel: nat, target: seq<nat>, m: Machine)
  {
    var (o, e) := Exec(ins, m, fuel);
    o == Halted && |target| <= |e.output| && Tail(e.output, |target|) == target
  }

  /** With some contents of b and c, starting with `a` at ip 0 prints `target` last. */
  ghost predicate Outputs(ins: seq<nat>, fuel: nat, target: seq<nat>, a: nat)
  {
    exists b: nat, c: nat :: Produces(ins, fuel, target, Machine(a, b, c, 0, []))
  }

  /** Each option followed by each three low bits: `(option << 3) | low` for low in 0..8. */
  function Candidates(options: seq<nat>): (r: seq<nat>)
    ensures |r| == 8 * |options|
  {
    if options == [] then []
    else seq(8, low => options[0] * 8 + low) + Candidates(options[1..])
  }

  lemma {:induction false} CandidateAt(options: seq<nat>, i: nat, low: nat)
    requires i < |options| && low < 8
    ensures Candidates(options)[8 * i + low] == options[i] * 8 + low
  {
    if i > 0 {
      CandidateAt(options[1..], i - 1, low);
    }
  }

  /** Every candidate is some option shifted left by three, plus three low bits. */
  lemma {:induction false} CandidateShape(options: seq<nat>, v: nat)
    requires v in Candidates(options)
    ensures v / 8 in options
  {
    var k :| 0 <= k < |Candidates(options)| && Candidates(options)[k] == v;
    var i, low := k / 8, k % 8;
    assert k == 8 * i + low;
    CandidateAt(options, i, low);
    assert v / 8 == options[i];
  }

  /**
   * The search over `cands` from machine `m`, having kept `acc`: each
   * candidate is run from ip 0 with empty output and a set to it (b and c
   * are whatever the previous run left); it is kept when the output ends
   * with `target`. `None` where the source panics or never stops.
   */
  function Sweep(ins: seq<nat>, fuel: nat, target: seq<nat>, m: Machine, cands: seq<nat>, acc: seq<nat>)
    : Option<(seq<nat>, Machine)>
    decreases |cands|
  {
    if cands == [] then Some((acc, m))
    else
      var (o, e) := Exec(ins, Machine(cands[0], m.b, m.c, 0, []), fuel);
      if o != Halted || |e.output| < |target| then None
      else Sweep(ins, fuel, target, e, cands[1..],
                 if Tail(e.output, |target|) == target then acc + [cands[0]] else acc)
  }

  /** Every value the search keeps was already kept or is a candidate whose run prints `target` last. */
  lemma {:induction false} SweepSound(ins: seq<nat>, fuel: nat, target: seq<nat>, m: Machine, cands: seq<nat>, acc: seq<nat>)
    requires Sweep(ins, fuel, target, m, cands, acc).Some?
    ensures forall v :: v in Sweep(ins, fuel, target, m, cands, acc).value.0 ==>
      v in acc || (v in cands && Outputs(ins, fuel, target, v))
    decreases |cands|
  {
    if cands != [] {
      var start := Machine(cands[0], m.b, m.c, 0, []);
      var (o, e) := Exec(ins, start, fuel);
      var keep := Tail(e.output, |target|) == target;
      var acc' := if keep then acc + [cands[0]] else acc;
      SweepSound(ins, fuel, target, e, cands[1..], acc');
      if keep {
        assert Produces(ins, fuel, target, start);
      }
      forall v | v in Sweep(ins, fuel, target, m, cands, acc).value.0
        ensures v in acc || (v in cands && Outputs(ins, fuel, target, v))
      {
        if v !in acc {
          if v in cands[1..] {
            assert v in cands;
          } else {
            assert v == cands[0] && keep;
          }
        }
      }
    }
  }

  /** What `find_values_outputting` promises: each value is `(o << 3) | low` and prints `target` last. */
  lemma FoundValues(ins: seq<nat>, fuel: nat, target: seq<nat>, m: Machine, options: seq<nat>)
    requires Sweep(ins, fuel, target, m, Candidates(options), []).Some?
    ensures forall v :: v in Sweep(ins, fuel, target, m, Candidates(options), []).value.0 ==>
      Outputs(ins, fuel, target, v)
      && v / 8 in options
  {
    SweepSound(ins, fuel, target, m, Candidates(options), []);
    forall v | v in Sweep(ins, fuel, target, m, Candidates(options), []).value.0
      ensures v / 8 in options
    {
      CandidateShape(options, v);
    }
  }

  class Computer {
    var instructions: seq<nat>
    var a: nat
    var b: nat
    var c: nat
    var ip: nat
    var output: seq<nat>

    /** The registers, pointer and output as a value. */
    function State(): Machine
      reads this
    {
      Machine(a, b, c, ip, output)
    }

    constructor(instructions: seq<nat>, a: nat, b: nat, c: nat)
      ensures this.instructions == instructions && State() == Machine(a, b, c, 0, [])
    {
      this.instructions := instructions;
      this.a, this.b, this.c := a, b, c;
      this.ip := 0;
      this.output := [];
    }

    /** Back to the start of the program with no output; registers stay as they are. */
    method Reset()
      modifies this
      ensures State() == old(State()).(ip := 0, output := [])
      ensures instructions == old(instructions)
    {
      ip := 0;
      output := [];
    }

    method Adv(op: nat)
      requires op < 7 && Combo(State(), op).value < 128
      modifies this
      ensures State() == old(State()).(a := Shr(old(a), Combo(old(State()), op).value))
      ensures instructions == old(instructions)
    {
      a := Shr(a, Combo(State(), op).value);
    }

    method Bxl(op: nat)
      modifies this
      ensures State() == old(State()).(b := Xor(old(b), op))
      ensures instructions == old(instructions)
    {
      b := Xor(b, op);
    }

    method Bst(op: nat)
      requires op < 7
      modifies this
      ensures State() == old(State()).(b := Combo(old(State()), op).value % 8)
      ensures instructions == old(instructions)
    {
      b := Combo(State(), op).value % 8;
    }

    /** The jump target: the literal operand exactly when register a is non-zero. */
    method Jnz(op: nat) returns (r: Option<nat>)
      ensures r.Some? <==> a != 0
      ensures r.Some? ==> r.value == op
    {
      if a == 0 {
        r := None;
      } else {
        r := Some(op);
      }
    }

    method Bxc(op: nat)
      modifies this
      ensures State() == old(State()).(b := Xor(old(b), old(c)))
      ensures instructions == old(instructions)
    {
      b := Xor(b, c);
    }

    method Out(op: nat)
      requires op < 7
      modifies this
      ensures State() == old(State()).(output := old(output) + [Combo(old(State()), op).value % 8])
      ensures instructions == old(instructions)
    {
      output := output + [Combo(State(), op).value % 8];
    }

    method Bdv(op: nat)
      requires op < 7 && Combo(State(), op).value < 128
      modifies this
      ensures State() == old(State()).(b := Shr(old(a), Combo(old(State()), op).value))
      ensures instructions == old(instructions)
    {
      b := Shr(a, Combo(State(), op).value);
    }

    method Cdv(op: nat)
      requires op < 7 && Combo(State(), op).value < 128
      modifies this
      ensures State() == old(State()).(c := Shr(old(a), Combo(old(State()), op).value))
      ensures instructions == old(instructions)
    {
      c := Shr(a, Combo(State(), op).value);
    }

    /**
     * Executes until the pointer leaves the program, at most `fuel`
     * instructions; stops early where the source would panic.
     */
    method Run(fuel: nat) returns (outcome: Outcome)
      modifies this
      ensures (outcome, State()) == Exec(instructions, old(State()), fuel)
      ensures instructions == old(instructions)
    {
      var left := fuel;
      while ip + 1 < |instructions|
        invariant instructions == old(instructions)
        invariant Exec(instructions, State(), left) == Exec(instructions, old(State()), fuel)
        decreases left
      {
        if left == 0 {
          return OutOfFuel;
        }
        var instr := instructions[ip];
        var op := instructions[ip + 1];
        var jumpTo := ip + 2;
        if instr > 7 || (UsesCombo(instr) && op >= 7)
           || (Shifts(instr) && Combo(State(), op).value >= 128) {
          return Fault;
        }
        ghost var before := State();
        if instr == 0 {
          Adv(op);
        } else if instr == 1 {
          Bxl(op);
        } else if instr == 2 {
          Bst(op);
        } else if instr == 3 {
          var jump := Jnz(op);
          if jump.Some? {
            jumpTo := jump.value;
          }
        } else if instr == 4 {
          Bxc(op);
        } else if instr == 5 {
          Out(op);
        } else if instr == 6 {
          Bdv(op);
        } else {
          Cdv(op);
        }
        ip := jumpTo;
        assert Step(instructions, before) == Some(State());
        left := left - 1;
      }
      return Halted;
    }

    /**
     * The values `(option << 3) | low`, for each option and each low in
     * 0..8 in turn, whose run prints `target` last; `None` where the
     * source panics (a fault, or output shorter than `target`) or a run
     * does not stop within `fuel` steps.
     */
    method FindValuesOutputting(target: seq<nat>, options: seq<nat>, fuel: nat) returns (r: Option<seq<nat>>)
      modifies this
      ensures instructions == old(instructions)
      ensures r.Some? <==> Sweep(instructions, fuel, target, old(State()), Candidates(options), []).Some?
      ensures r.Some? ==>
        var s := Sweep(instructions, fuel, target, old(State()), Candidates(options), []).value;
        r.value == s.0 && State() == s.1
    {
      ghost var cands := Candidates(options);
      ghost var start := State();
      var values := [];
      var i := 0;
      while i < |options|
        invariant i <= |options|
        invariant instructions == old(instructions)
        invariant Sweep(instructions, fuel, target, State(), cands[8 * i..], values)
               == Sweep(instructions, fuel, target, start, cands, [])
      {
        var low := 0;
        while low < 8
          invariant low <= 8
          invariant instructions == old(instructions)
          invariant Sweep(instructions, fuel, target, State(), cands[8 * i + low..], values)
                 == Sweep(instructions, fuel, target, start, cands, [])
        {
          ghost var m := State();
          CandidateAt(options, i, low);
          var option := options[i] * 8 + low;
          Reset();
          a := option;
          var outcome := Run(fuel);
          assert cands[8 * i + low..][0] == option;
          assert cands[8 * i + low..][1..] == cands[8 * i + low + 1..];
          if outcome != Halted || |output| < |target| {
            return None;
          }
          if output[|output| - |target|..] == target {
            values := values + [option];
          }
          low := low + 1;
        }
        i := i + 1;
      }
      assert cands[8 * i..] == [];
      return Some(values);
    }
  }
}
