/**
 * The Intcode machine of src/intcode.rs: an instruction pointer and a
 * memory of integers, and a fetch/dispatch loop over opcodes 1 (add),
 * 2 (multiply), 3 (input), 4 (output) and 99 (halt).  Every operand is
 * read in position mode.  Output, a `println` in the source, is appended
 * to an output sequence.
 */
module Intcode {
  import opened Wrappers

  /** A `usize` on a 64-bit target. */
  const UsizeModulus: int := 0x1_0000_0000_0000_0000

  /** Rust's `value as usize` on an `i32`: a negative value is sign-extended,
      so it becomes a huge index. */
  function Addr(value: int): (a: int)
    requires -0x8000_0000 <= value < 0x8000_0000
    ensures 0 <= a < UsizeModulus
    ensures value >= 0 ==> a == value
    ensures value < 0 ==> a >= UsizeModulus - 0x8000_0000
  {
    if value >= 0 then value else value + UsizeModulus
  }

  /** An address is usable on a memory when it indexes one of its cells;
      the cast of a negative cell never is (memories are far smaller than
      2^63 cells). */
  predicate ValidAddr(memory: seq<int>, a: int)
  {
    0 <= a < |memory|
  }

  /** On any memory shorter than 2^63 cells, indexing by the cast `Addr(v)`
      of an `i32` cell succeeds exactly when `v` itself is a valid index, so
      the machine below checks the cell value directly. */
  lemma AddrAgrees(memory: seq<int>, v: int)
    requires -0x8000_0000 <= v < 0x8000_0000 && |memory| < UsizeModulus / 2
    ensures ValidAddr(memory, Addr(v)) <==> ValidAddr(memory, v)
    ensures ValidAddr(memory, v) ==> Addr(v) == v
  {
  }

  /** The state of a machine as a value. */
  datatype State = State(ip: int, memory: seq<int>, output: seq<int>)

  /** `IntcodeMachine::new`: the program as memory, `ip` at 0. */
  function Initial(program: seq<int>): (s: State)
    ensures s.ip == 0 && s.memory == program && s.output == []
  {
    State(0, program, [])
  }

  /** `deref(addr)`: the cell whose address is stored at `addr`, i.e.
      `memory[memory[addr]]`.  Both indexings can fail. */
  function Indirect(memory: seq<int>, addr: int): (r: Result<int>)
    ensures r.Ok? <==> ValidAddr(memory, addr) && ValidAddr(memory, memory[addr])
    ensures r.Ok? ==> r.value == memory[memory[addr]]
    ensures !r.Ok? ==> r == Err(IndexOutOfBounds)
  {
    if !ValidAddr(memory, addr) then Err(IndexOutOfBounds)
    else if !ValidAddr(memory, memory[addr]) then Err(IndexOutOfBounds)
    else Ok(memory[memory[addr]])
  }

  /** Opcodes 1 and 2: `memory[memory[ip+3]] := op(deref(ip+1), deref(ip+2))`,
      then `ip += 4`. */
  function ExecBinary(s: State, mul: bool): Result<State>
  {
    var a :- Indirect(s.memory, s.ip + 1);
    var b :- Indirect(s.memory, s.ip + 2);
    var v := if mul then a * b else a + b;
    if !ValidAddr(s.memory, s.ip + 3) || !ValidAddr(s.memory, s.memory[s.ip + 3]) then Err(IndexOutOfBounds)
    else Ok(State(s.ip + 4, s.memory[s.memory[s.ip + 3] := v], s.output))
  }

  /** Opcode 3: `read_input` is `unimplemented!()`, so the instruction always
      aborts, before it touches anything. */
  function ExecInput(s: State): Result<State>
  {
    Err(NotImplemented)
  }

  /** Opcode 4: `out_addr = memory[ip+1]`, then `deref(out_addr)`, i.e.
      `memory[memory[memory[ip+1]]]` is emitted and `ip += 2`. */
  function ExecOutput(s: State): Result<State>
  {
    if !ValidAddr(s.memory, s.ip + 1) then Err(IndexOutOfBounds)
    else
      var out :- Indirect(s.memory, s.memory[s.ip + 1]);
      Ok(State(s.ip + 2, s.memory, s.output + [out]))
  }

  /** One pass of `run_program`'s loop over an instruction other than halt. */
  function Exec(s: State): Result<State>
    requires ValidAddr(s.memory, s.ip)
  {
    match s.memory[s.ip]
    case 1 => ExecBinary(s, false)
    case 2 => ExecBinary(s, true)
    case 3 => ExecInput(s)
    case 4 => ExecOutput(s)
    case _ => Err("bad input")
  }

  /** Is `s` at a halt instruction? */
  predicate AtHalt(s: State)
  {
    ValidAddr(s.memory, s.ip) && s.memory[s.ip] == 99
  }

  /** `run_program`'s loop from state `s`, executing at most `fuel`
      instructions: the state at the halt instruction, or the failure. */
  function Run(s: State, fuel: nat): Result<State>
    decreases fuel
  {
    if !ValidAddr(s.memory, s.ip) then Err(IndexOutOfBounds)
    else if s.memory[s.ip] == 99 then Ok(s)
    else if fuel == 0 then OutOfFuel
    else
      match Exec(s)
      case Ok(t) => Run(t, fuel - 1)
      case Err(e) => Err(e)
      case OutOfFuel => OutOfFuel
  }

  /** `run_program`'s result: `memory[0]` once the machine halts. */
  function RunValue(program: seq<int>, fuel: nat): Result<int>
  {
    var t :- Run(Initial(program), fuel);
    if |t.memory| == 0 then Err(IndexOutOfBounds) else Ok(t.memory[0])
  }

  // ---------------------------------------------------------------------
  // Properties of the instruction set

  /** Add and multiply succeed exactly when the five cells they index
      exist; then the destination cell alone changes, to the sum or product
      of the two operands, and `ip` moves on by 4. */
  lemma ExecBinarySpec(s: State, mul: bool)
    ensures var r := ExecBinary(s, mul);
      && (r.Ok? <==> (ValidAddr(s.memory, s.ip + 1) && ValidAddr(s.memory, s.memory[s.ip + 1])
                   && ValidAddr(s.memory, s.ip + 2) && ValidAddr(s.memory, s.memory[s.ip + 2])
                   && ValidAddr(s.memory, s.ip + 3) && ValidAddr(s.memory, s.memory[s.ip + 3])))
      && (!r.Ok? ==> r == Err(IndexOutOfBounds))
      && (r.Ok? ==>
            var a, b, dst := s.memory[s.memory[s.ip + 1]], s.memory[s.memory[s.ip + 2]], s.memory[s.ip + 3];
            && r.value.ip == s.ip + 4
            && r.value.output == s.output
            && |r.value.memory| == |s.memory|
            && r.value.memory[dst] == (if mul then a * b else a + b)
            && (forall k :: 0 <= k < |s.memory| && k != dst ==> r.value.memory[k] == s.memory[k]))
  {
  }

  /** Output succeeds exactly when its three chained reads succeed; it emits
      `memory[memory[memory[ip+1]]]`, leaves memory alone and moves `ip` on
      by 2. */
  lemma ExecOutputSpec(s: State)
    ensures var r := ExecOutput(s);
      && (r.Ok? <==> (ValidAddr(s.memory, s.ip + 1) && ValidAddr(s.memory, s.memory[s.ip + 1])
                   && ValidAddr(s.memory, s.memory[s.memory[s.ip + 1]])))
      && (r.Ok? ==> r.value == State(s.ip + 2, s.memory, s.output + [s.memory[s.memory[s.memory[s.ip + 1]]]]))
  {
  }

  /** Every opcode other than 1, 2, 4 and 99 is fatal, 3 included. */
  lemma FatalOpcodes(s: State)
    requires ValidAddr(s.memory, s.ip)
    requires s.memory[s.ip] !in {1, 2, 4, 99}
    ensures Exec(s).Err? && Run(s, 1) == Exec(s)
    ensures s.memory[s.ip] == 3 ==> Exec(s) == Err(NotImplemented)
    ensures s.memory[s.ip] != 3 ==> Exec(s) == Err("bad input")
  {
  }

  /** A halt instruction stops the loop at once, whatever the fuel. */
  lemma HaltStops(s: State, fuel: nat)
    requires AtHalt(s)
    ensures Run(s, fuel) == Ok(s)
  {
  }

  /** No instruction changes the size of memory, and output only grows. */
  lemma ExecFrame(s: State)
    requires ValidAddr(s.memory, s.ip)
    ensures Exec(s).Ok? ==> |Exec(s).value.memory| == |s.memory|
    ensures Exec(s).Ok? ==> s.output <= Exec(s).value.output
  {
  }

  /** The runs from one state agree whatever the fuel, once it suffices. */
  lemma {:induction false} RunMoreFuel(s: State, fuel: nat, more: nat)
    requires !Run(s, fuel).OutOfFuel?
    ensures Run(s, fuel + more) == Run(s, fuel)
    decreases fuel
  {
    if ValidAddr(s.memory, s.ip) && s.memory[s.ip] != 99 && fuel > 0 {
      match Exec(s)
      case Ok(t) => RunMoreFuel(t, fuel - 1, more);
      case Err(e) =>
      case OutOfFuel =>
    }
  }

  /** A halted run ends at a halt instruction with memory of the same size
      and with the output it started with as a prefix. */
  lemma {:induction false} RunFrame(s: State, fuel: nat)
    requires Run(s, fuel).Ok?
    ensures AtHalt(Run(s, fuel).value)
    ensures |Run(s, fuel).value.memory| == |s.memory|
    ensures s.output <= Run(s, fuel).value.output
    decreases fuel
  {
    if s.memory[s.ip] != 99 {
      ExecFrame(s);
      RunFrame(Exec(s).value, fuel - 1);
    }
  }

  /** The test program of src/intcode.rs: `1,9,10,3,2,3,11,0,99,30,40,50`
      halts after two instructions with 3500 in cell 0. */
  lemma ExampleProgram()
    ensures RunValue([1, 9, 10, 3, 2, 3, 11, 0, 99, 30, 40, 50], 2) == Ok(3500)
  {
    var p := [1, 9, 10, 3, 2, 3, 11, 0, 99, 30, 40, 50];
    var s1 := State(4, p[3 := 70], []);
    assert Exec(Initial(p)) == Ok(s1);
    var s2 := State(8, s1.memory[0 := 3500], []);
    assert Exec(s1) == Ok(s2);
    assert Run(s2, 0) == Ok(s2);
  }

  // ---------------------------------------------------------------------
  // The machine itself

  /** `IntcodeMachine`: `ip` and `memory` are updated in place by the
      instruction methods; `output` collects what `print_output` prints. */
  class Machine {
    var ip: int
    var memory: seq<int>
    var output: seq<int>

    function Snapshot(): State
      reads this
    {
      State(ip, memory, output)
    }

    /** `IntcodeMachine::new(program)`. */
    constructor (program: seq<int>)
      ensures Snapshot() == Initial(program)
    {
      ip := 0;
      memory := program;
      output := [];
    }

    /** `deref(addr)`: `memory[memory[addr]]`. */
    method Deref(addr: int) returns (r: Result<int>)
      ensures r == Indirect(memory, addr)
    {
      if !(0 <= addr < |memory|) || !(0 <= memory[addr] < |memory|) {
        return Err(IndexOutOfBounds);
      }
      r := Ok(memory[memory[addr]]);
    }

    /** Shared body of `add` and `multiply`. */
    method Binary(mul: bool) returns (r: Result<()>)
      modifies this
      ensures var e := ExecBinary(old(Snapshot()), mul);
        (r == Ok(()) <==> e.Ok?) && (e.Ok? ==> Snapshot() == e.value) && (!e.Ok? ==> r == Err(IndexOutOfBounds))
    {
      var a := Deref(ip + 1);
      if !a.Ok? { return Err(IndexOutOfBounds); }
      var b := Deref(ip + 2);
      if !b.Ok? { return Err(IndexOutOfBounds); }
      var v := if mul then a.value * b.value else a.value + b.value;
      if !(0 <= ip + 3 < |memory|) { return Err(IndexOutOfBounds); }
      var resAddr := memory[ip + 3];
      if !(0 <= resAddr < |memory|) { return Err(IndexOutOfBounds); }
      memory := memory[resAddr := v];
      ip := ip + 4;
      r := Ok(());
    }

    /** `add`: opcode 1. */
    method Add() returns (r: Result<()>)
      modifies this
      ensures var e := ExecBinary(old(Snapshot()), false);
        (r == Ok(()) <==> e.Ok?) && (e.Ok? ==> Snapshot() == e.value) && (!e.Ok? ==> r == Err(IndexOutOfBounds))
    {
      r := Binary(false);
    }

    /** `multiply`: opcode 2. */
    method Multiply() returns (r: Result<()>)
      modifies this
      ensures var e := ExecBinary(old(Snapshot()), true);
        (r == Ok(()) <==> e.Ok?) && (e.Ok? ==> Snapshot() == e.value) && (!e.Ok? ==> r == Err(IndexOutOfBounds))
    {
      r := Binary(true);
    }

    /** `input`: opcode 3; `read_input` is unimplemented, so it aborts. */
    method Input() returns (r: Result<()>)
      ensures r == Err(NotImplemented)
    {
      r := Err(NotImplemented);
    }

    /** `output`: opcode 4. */
    method Output() returns (r: Result<()>)
      modifies this
      ensures var e := ExecOutput(old(Snapshot()));
        (r == Ok(()) <==> e.Ok?) && (e.Ok? ==> Snapshot() == e.value) && (!e.Ok? ==> r == Err(IndexOutOfBounds))
    {
      if !(0 <= ip + 1 < |memory|) { return Err(IndexOutOfBounds); }
      var outAddr := memory[ip + 1];
      var out := Deref(outAddr);
      if !out.Ok? { return Err(IndexOutOfBounds); }
      output := output + [out.value];
      ip := ip + 2;
      r := Ok(());
    }

    /** `run_program`, cut off after `fuel` instructions: resets `ip`, runs
      to the halt instruction and returns cell 0. */
    method RunProgram(fuel: nat) returns (r: Result<int>)
      modifies this
      ensures var e := Run(State(0, old(memory), old(output)), fuel);
        && (e.Ok? ==> AtHalt(e.value) && r.Ok? && Snapshot() == e.value && r.value == e.value.memory[0])
        && (e.Err? ==> r == Err(e.error))
        && (e.OutOfFuel? ==> r.OutOfFuel?)
    {
      ip := 0;
      var left := fuel;
      while true
        invariant Run(Snapshot(), left) == Run(State(0, old(memory), old(output)), fuel)
        decreases left
      {
        if !(0 <= ip < |memory|) { return Err(IndexOutOfBounds); }
        var op := memory[ip];
        if op == 99 { break; }
        if left == 0 { return OutOfFuel; }
        var step: Result<()>;
        if op == 1 {
          step := Add();
        } else if op == 2 {
          step := Multiply();
        } else if op == 3 {
          step := Input();
        } else if op == 4 {
          step := Output();
        } else {
          return Err("bad input");
        }
        if !step.Ok? { return Err(step.error); }
        left := left - 1;
      }
      RunFrame(State(0, old(memory), old(output)), fuel);
      r := Ok(memory[0]);
    }
  }
}
