/**
 * The virtual machine of bfdb: `runtime_t` (bfdb.c:74-86), `dbg_run`
 * (bfdb.c:484-490) and `dbg_interpret` (bfdb.c:492-549).
 *
 * `Step` is the meaning of one `dbg_interpret` call on a state value; the
 * class `Runtime` holds the tape as an array and its methods are proved to
 * move the state as `Step` says. The program's byte input and output are
 * an input sequence that `,` consumes and an output sequence that `.`
 * appends to.
 */
module Machine {
  import opened Ir

  /** What `getchar` returns at the end of the input. */
  const Eof: int := -1

  /** The fields of `runtime_t`, plus the program's input and output. */
  datatype State = State(
    running: bool,
    cells: seq<u16>,   // data[DATA_SIZE]
    pc: u16,
    ptr: nat,          // unsigned int, always below DataSize
    input: seq<u8>,
    output: seq<u8>)

  predicate WellFormed(m: State) {
    |m.cells| == DataSize && m.ptr < DataSize
  }

  /** A tape of DataSize zero cells. */
  function Zeros(): (z: seq<u16>)
    ensures |z| == DataSize && forall i :: 0 <= i < DataSize ==> z[i] == 0
  {
    seq(DataSize, _ => 0)
  }

  /** `getchar`: the next input byte, or Eof once the input is used up. */
  function GetChar(input: seq<u8>): int {
    if input == [] then Eof else input[0]
  }

  /** What `,` stores: the byte read, converted to `unsigned int` and then to `unsigned short`. */
  function InputCell(input: seq<u8>): (v: u16)
    ensures input == [] ==> v == 0xFFFF
    ensures input != [] ==> v == input[0]
  {
    Wrap16(Wrap32(GetChar(input)))
  }

  /** The result of `dbg_interpret`, and the state it leaves. */
  datatype Outcome = Outcome(terminated: bool, after: State)

  /** Executing `instr` would move the data pointer off the tape. */
  predicate PointerFault(m: State, instr: Instruction) {
    (instr.operator == OpInc && m.ptr + 1 >= DataSize) || (instr.operator == OpDec && m.ptr == 0)
  }

  /** `instr` is a jump whose condition on the current cell holds. */
  predicate JumpTaken(m: State, instr: Instruction)
    requires WellFormed(m)
  {
    (instr.operator == OpJmp && m.cells[m.ptr] == 0) || (instr.operator == OpRet && m.cells[m.ptr] != 0)
  }

  /** One `dbg_interpret` call. */
  function Step(m: State, instr: Instruction): (r: Outcome)
    requires WellFormed(m)
    ensures WellFormed(r.after)
    // it terminates on OP_END and on a pointer fault, and only then
    ensures r.terminated <==> instr.operator == OpEnd || PointerFault(m, instr)
    // terminating clears running and changes nothing else: pc is not advanced
    ensures r.terminated ==> r.after == m.(running := false)
    // otherwise running is kept and pc ends one past the instruction or past the jump's operand
    ensures !r.terminated ==> r.after.running == m.running
    ensures !r.terminated ==>
      r.after.pc as int == ((if JumpTaken(m, instr) then instr.operand else m.pc) as int + 1) % 0x1_0000
    // only OP_INC and OP_DEC move the pointer, by one
    ensures !r.terminated ==>
      r.after.ptr as int == m.ptr + (if instr.operator == OpInc then 1 else if instr.operator == OpDec then -1 else 0)
    // only the current cell can change: +1 and -1 modulo 2^16, or the input byte
    ensures forall i :: 0 <= i < DataSize && i != m.ptr ==> r.after.cells[i] == m.cells[i]
    ensures r.after.cells[m.ptr] as int ==
      if r.terminated then m.cells[m.ptr] as int
      else if instr.operator == OpAdd then (m.cells[m.ptr] as int + 1) % 0x1_0000
      else if instr.operator == OpSub then (m.cells[m.ptr] as int - 1) % 0x1_0000
      else if instr.operator == OpIn then InputCell(m.input) as int
      else m.cells[m.ptr] as int
    // `.` writes the low byte of the current cell; `,` consumes one byte, if there is one
    ensures r.after.output ==
      if !r.terminated && instr.operator == OpOut then m.output + [m.cells[m.ptr] % 0x100] else m.output
    ensures r.after.input ==
      if !r.terminated && instr.operator == OpIn && m.input != [] then m.input[1..] else m.input
  {
    if instr.operator == OpEnd then
      Outcome(true, m.(running := false))
    else
      var moved :=
        if instr.operator == OpInc then
          (if m.ptr + 1 < DataSize then Some(m.(ptr := m.ptr + 1)) else None)
        else if instr.operator == OpDec then
          (if m.ptr > 0 then Some(m.(ptr := m.ptr - 1)) else None)
        else if instr.operator == OpAdd then
          Some(m.(cells := m.cells[m.ptr := Wrap16(m.cells[m.ptr] as int + 1)]))
        else if instr.operator == OpSub then
          Some(m.(cells := m.cells[m.ptr := Wrap16(m.cells[m.ptr] as int - 1)]))
        else if instr.operator == OpOut then
          Some(m.(output := m.output + [Wrap8(m.cells[m.ptr])]))
        else if instr.operator == OpIn then
          Some(m.(cells := m.cells[m.ptr := InputCell(m.input)],
                  input := if m.input == [] then [] else m.input[1..]))
        else if instr.operator == OpJmp then
          Some(if m.cells[m.ptr] == 0 then m.(pc := instr.operand) else m)
        else if instr.operator == OpRet then
          Some(if m.cells[m.ptr] != 0 then m.(pc := instr.operand) else m)
        else
          Some(m);
      match moved
      case None => Outcome(true, m.(running := false))
      case Some(n) => Outcome(false, n.(pc := Wrap16(n.pc as int + 1)))
  }

  /**
   * A program as the compiler leaves it after a successful compile: `count`
   * slots are in use, the last of them holds OP_END, and no operand has
   * ever been written (the instruction array is statically zeroed and the
   * compiler only writes operator fields).
   */
  predicate Installed(prog: seq<Instruction>, count: nat) {
    && |prog| == ProgramSize
    && 1 <= count <= ProgramSize
    && prog[count - 1].operator == OpEnd
    && forall k :: 0 <= k < |prog| ==> prog[k].operand == 0
  }

  /** While the machine runs, its pc names one of the `count` slots in use. */
  predicate InProgram(m: State, count: nat) {
    WellFormed(m) && (m.running ==> m.pc < count)
  }

  /**
   * Executing the instruction at pc keeps pc inside the program: a taken
   * jump reads operand 0 and so always lands on slot 1, and the last slot
   * holds OP_END, which stops the machine instead of advancing it. A step
   * that does not terminate leaves the machine running.
   */
  lemma StepStaysInProgram(m: State, prog: seq<Instruction>, count: nat)
    requires Installed(prog, count) && InProgram(m, count) && m.running
    ensures InProgram(Step(m, prog[m.pc]).after, count)
    ensures Step(m, prog[m.pc]).terminated <==> !Step(m, prog[m.pc]).after.running
    ensures JumpTaken(m, prog[m.pc]) && !Step(m, prog[m.pc]).terminated ==> Step(m, prog[m.pc]).after.pc == 1
  {
    var instr := prog[m.pc];
    var r := Step(m, instr);
    if !r.terminated {
      assert instr.operator != OpEnd;
      assert m.pc != count - 1;
      if JumpTaken(m, instr) {
        assert instr.operand == 0;
        assert 1 < count;
      }
    }
  }

  /**
   * `cmd_continue`: `dbg_next` is called until it reports termination. The
   * loop need not end, so at most `fuel` steps are taken; the result is not
   * terminated when the fuel runs out first.
   */
  function Continued(m: State, prog: seq<Instruction>, count: nat, fuel: nat): (r: Outcome)
    requires Installed(prog, count) && InProgram(m, count) && m.running
    ensures InProgram(r.after, count)
    ensures r.terminated <==> !r.after.running
    decreases fuel
  {
    if fuel == 0 then
      Outcome(false, m)
    else
      StepStaysInProgram(m, prog, count);
      var o := Step(m, prog[m.pc]);
      if o.terminated then o else Continued(o.after, prog, count, fuel - 1)
  }

  /** One round of the `cmd_continue` loop. */
  lemma ContinuedUnfold(m: State, prog: seq<Instruction>, count: nat, fuel: nat)
    requires Installed(prog, count) && InProgram(m, count) && m.running && fuel > 0
    ensures m.pc < |prog| && WellFormed(m)
    ensures var o := Step(m, prog[m.pc]);
      Continued(m, prog, count, fuel) == if o.terminated then o else Continued(o.after, prog, count, fuel - 1)
  {
  }

  /** Once `Continued` terminates, more fuel does not change where it stops. */
  lemma {:induction false} ContinuedMoreFuel(m: State, prog: seq<Instruction>, count: nat, fuel: nat, more: nat)
    requires Installed(prog, count) && InProgram(m, count) && m.running
    requires fuel <= more
    requires Continued(m, prog, count, fuel).terminated
    ensures Continued(m, prog, count, more) == Continued(m, prog, count, fuel)
    decreases fuel
  {
    StepStaysInProgram(m, prog, count);
    var o := Step(m, prog[m.pc]);
    if !o.terminated {
      ContinuedMoreFuel(o.after, prog, count, fuel - 1, more - 1);
    }
  }

  /** `runtime_t`: the tape is a fixed array, the other fields are updated in place. */
  class Runtime {
    var running: bool
    const data: array<u16>
    var pc: u16
    var ptr: nat
    var input: seq<u8>
    var output: seq<u8>

    ghost predicate Valid()
      reads this
    {
      data.Length == DataSize && ptr < DataSize
    }

    /** The runtime's fields as a state value. */
    ghost function Snapshot(): State
      reads this, data
    {
      State(running, data[..], pc, ptr, input, output)
    }

    /** The static initialiser of `runtime`: stopped, zeroed, pc and ptr at 0. */
    constructor (input: seq<u8>)
      ensures Valid() && fresh(data)
      ensures Snapshot() == State(false, Zeros(), 0, 0, input, [])
    {
      running := false;
      data := new u16[DataSize](_ => 0);
      pc := 0;
      ptr := 0;
      this.input := input;
      output := [];
      new;
      assert data[..] == Zeros();
    }

    /** `dbg_run`: clears the tape, rewinds pc and ptr and starts the machine. */
    method Reset()
      requires Valid()
      modifies this, data
      ensures Valid()
      ensures Snapshot() == old(Snapshot()).(running := true, cells := Zeros(), pc := 0, ptr := 0)
    {
      forall i | 0 <= i < data.Length {
        data[i] := 0;
      }
      pc := 0;
      ptr := 0;
      running := true;
      assert data[..] == Zeros();
    }

    /** `dbg_interpret` on this runtime. */
    method Interpret(instr: Instruction) returns (terminated: bool)
      requires Valid()
      modifies this, data
      ensures Valid()
      ensures Outcome(terminated, Snapshot()) == Step(old(Snapshot()), instr)
    {
      if instr.operator == OpEnd {
        running := false;
        return true;
      }
      if instr.operator == OpInc {
        if ptr + 1 < DataSize {
          ptr := ptr + 1;
        } else {
          running := false;
          return true;
        }
      } else if instr.operator == OpDec {
        if ptr > 0 {
          ptr := ptr - 1;
        } else {
          running := false;
          return true;
        }
      } else if instr.operator == OpAdd {
        data[ptr] := Wrap16(data[ptr] as int + 1);
      } else if instr.operator == OpSub {
        data[ptr] := Wrap16(data[ptr] as int - 1);
      } else if instr.operator == OpOut {
        output := output + [Wrap8(data[ptr])];
      } else if instr.operator == OpIn {
        data[ptr] := InputCell(input);
        if input != [] {
          input := input[1..];
        }
      } else if instr.operator == OpJmp {
        if data[ptr] == 0 {
          pc := instr.operand;
        }
      } else if instr.operator == OpRet {
        if data[ptr] != 0 {
          pc := instr.operand;
        }
      }
      pc := Wrap16(pc as int + 1);
      return false;
    }
  }
}
