/**
 * The debugger session of bfdb: the global `program`, `runtime` and
 * `loaded`, the debugger actions `dbg_load`, `dbg_run`, `dbg_next`,
 * `dbg_jump` and `dbg_print` (bfdb.c:448-583), and the command handlers
 * with their `loaded`/`running` guards (bfdb.c:367-446).
 *
 * `Valid` is the invariant the handlers keep: every operand is still 0,
 * a loaded program ends in OP_END within its instruction count, and while
 * the machine runs its pc stays below that count. The last fact is what
 * makes `dbg_next` read inside the compiled program.
 */
module Session {
  import opened Ir
  import opened Compiler
  import opened Machine
  import opened Commands

  /** What `dbg_print` reports about a cell index. */
  datatype Shown = NotRunning | OutOfRange | Cell(value: u16, printable: bool)

  /** `isprint` in the C locale. */
  predicate IsPrint(c: int) {
    32 <= c <= 126
  }

  class Debugger {
    const program: Program
    const runtime: Runtime
    var loaded: bool

    ghost predicate Valid()
      reads this, program, program.instructions, program.stack, runtime, runtime.data
    {
      && program.Valid() && runtime.Valid()
      && program.stack != runtime.data
      && (forall k :: 0 <= k < ProgramSize ==> program.instructions[k].operand == 0)
      && (loaded ==> Installed(program.instructions[..], program.instrCount as nat))
      && (runtime.running ==> loaded && runtime.pc < program.instrCount)
    }

    /**
     * The globals at start-up: nothing loaded, the program structure zeroed
     * (so the first compile starts from an empty stack), the runtime stopped;
     * `input` is what the debugged program will read.
     */
    constructor (input: seq<u8>)
      ensures Valid() && fresh(program) && fresh(runtime)
      ensures fresh(program.instructions) && fresh(program.stack) && fresh(runtime.data)
      ensures !loaded && runtime.Snapshot() == State(false, Zeros(), 0, 0, input, [])
      ensures program.instrCount == 0 && program.esp == 0
      ensures forall k :: 0 <= k < ProgramSize ==> program.instructions[k] == Instruction(OpEnd, 0)
      ensures forall i :: 0 <= i < StackSize ==> program.stack[i] == 0
    {
      program := new Program();
      runtime := new Runtime(input);
      loaded := false;
    }

    /**
     * What `dbg_load` leaves: the runtime is stopped; when the file opens
     * (`file` is its text) `loaded` is the verdict of `compile` and the
     * program structure is what `compile` leaves in it, and when it does not
     * open `loaded` and the program keep their old values.
     */
    twostate predicate Loaded(file: Option<seq<char>>)
      requires old(Valid())
      reads this, program, program.instructions, program.stack, runtime, runtime.data
    {
      && runtime.Snapshot() == old(runtime.Snapshot()).(running := false)
      && (file.None? ==> loaded == old(loaded) && unchanged(program, program.instructions, program.stack))
      && (file.Some? ==>
        var r := Compiled(old(program.Entry()), file.value);
        && loaded == !r.failed
        && program.instructions[..] == r.instrs && program.stack[..] == r.stack && program.esp == r.esp
        && program.instrCount as int == (if loaded then r.pc + 1 else old(program.instrCount) as int))
    }

    /** `dbg_load` on the text of the file, or on None when it does not open. */
    method Load(file: Option<seq<char>>)
      requires Valid()
      modifies this, program, program.instructions, program.stack, runtime
      ensures Valid() && Loaded(file)
    {
      runtime.running := false;
      if file.Some? {
        loaded := program.Compile(file.value);
      }
    }

    /**
     * What `cmd_file` leaves: without an argument nothing changes; with one,
     * what `dbg_load` leaves, where `files` maps the names that open to
     * their text.
     */
    twostate predicate FileDone(arg: Option<string>, files: map<string, seq<char>>)
      requires old(Valid())
      reads this, program, program.instructions, program.stack, runtime, runtime.data
    {
      && (arg.None? ==> unchanged(this, program, program.instructions, program.stack, runtime))
      && (arg.Some? ==> Loaded(if arg.value in files then Some(files[arg.value]) else None))
    }

    /** `cmd_file`. */
    method CmdFile(arg: Option<string>, files: map<string, seq<char>>)
      requires Valid()
      modifies this, program, program.instructions, program.stack, runtime
      ensures Valid() && FileDone(arg, files)
    {
      if arg.Some? {
        Load(if arg.value in files then Some(files[arg.value]) else None);
      }
    }

    /** What `cmd_run` leaves: with a program loaded, `dbg_run` clears the tape and starts at slot 0. */
    twostate predicate RunDone()
      requires old(Valid())
      reads this, runtime, runtime.data
    {
      && (old(loaded) ==>
        runtime.Snapshot() == old(runtime.Snapshot()).(running := true, cells := Zeros(), pc := 0, ptr := 0))
      && (!old(loaded) ==> unchanged(runtime, runtime.data))
    }

    /** `cmd_run`. */
    method CmdRun()
      requires Valid()
      modifies runtime, runtime.data
      ensures Valid() && RunDone()
    {
      if loaded {
        runtime.Reset();
      }
    }

    /**
     * `dbg_next`: interprets the instruction at pc. Both of its callers
     * call it only while the machine runs, which keeps pc inside the
     * compiled program.
     */
    method Next() returns (terminated: bool)
      requires Valid() && runtime.running
      modifies runtime, runtime.data
      ensures Valid()
      ensures terminated <==> !runtime.running
      ensures Outcome(terminated, runtime.Snapshot())
        == Step(old(runtime.Snapshot()), program.instructions[old(runtime.pc)])
    {
      ghost var m := runtime.Snapshot();
      ghost var prog := program.instructions[..];
      StepStaysInProgram(m, prog, program.instrCount as nat);
      terminated := runtime.Interpret(program.instructions[runtime.pc]);
    }

    /** What `cmd_next` leaves: one step, only while the machine runs. */
    twostate predicate NextDone()
      requires old(Valid())
      reads this, program, program.instructions, runtime, runtime.data
    {
      && (old(runtime.running) ==>
        runtime.Snapshot() == Step(old(runtime.Snapshot()), old(program.instructions[runtime.pc])).after)
      && (!old(runtime.running) ==> unchanged(runtime, runtime.data))
    }

    /** `cmd_next`. */
    method CmdNext()
      requires Valid()
      modifies runtime, runtime.data
      ensures Valid() && NextDone()
    {
      if runtime.running {
        var _ := Next();
      }
    }

    /** `dbg_jump`: a 1-based index within the instruction count moves pc there; any other index changes nothing. */
    method Jump(index: int)
      requires Valid()
      modifies runtime
      ensures Valid()
      ensures 1 <= index <= program.instrCount as int ==> runtime.Snapshot() == old(runtime.Snapshot()).(pc := index - 1)
      ensures !(1 <= index <= program.instrCount as int) ==> unchanged(runtime)
    {
      if index < 1 || index > program.instrCount as int {
        return;
      }
      runtime.pc := index - 1;
    }

    /**
     * What `cmd_jump` leaves: the jump happens only while running, and only
     * with an argument, already converted by `strtol`, inside the program.
     */
    twostate predicate JumpDone(index: Option<int>)
      requires old(Valid())
      reads this, program, runtime, runtime.data
    {
      && (old(runtime.running) && index.Some? && 1 <= index.value <= program.instrCount as int ==>
        runtime.Snapshot() == old(runtime.Snapshot()).(pc := index.value - 1))
      && (!(old(runtime.running) && index.Some? && 1 <= index.value <= program.instrCount as int) ==>
        unchanged(runtime))
    }

    /** `cmd_jump`. */
    method CmdJump(index: Option<int>)
      requires Valid()
      modifies runtime
      ensures Valid() && JumpDone(index)
    {
      if runtime.running {
        if index.Some? {
          Jump(index.value);
        }
      }
    }

    /** What `cmd_continue` leaves, for a budget of `fuel` steps. */
    twostate predicate ContinueDone(fuel: nat)
      requires old(Valid())
      reads this, program, program.instructions, runtime, runtime.data
    {
      && (old(runtime.running) ==>
        runtime.Snapshot()
          == Continued(old(runtime.Snapshot()), old(program.instructions[..]), old(program.instrCount) as nat, fuel).after)
      && (!old(runtime.running) ==> unchanged(runtime, runtime.data))
    }

    /**
     * `cmd_continue`: while the machine runs, `dbg_next` is called until it
     * reports termination, for at most `fuel` steps; the runtime ends where
     * `Continued` says.
     */
    method CmdContinue(fuel: nat)
      requires Valid()
      modifies runtime, runtime.data
      ensures Valid() && ContinueDone(fuel)
    {
      if !runtime.running {
        return;
      }
      ghost var prog := program.instructions[..];
      ghost var count := program.instrCount as nat;
      ghost var goal := Continued(runtime.Snapshot(), prog, count, fuel);
      var done := false;
      var n := fuel;
      while !done && n > 0
        invariant Valid() && program.instructions[..] == prog && program.instrCount as nat == count
        invariant Installed(prog, count)
        invariant done ==> goal == Outcome(true, runtime.Snapshot())
        invariant !done ==> runtime.running && Continued(runtime.Snapshot(), prog, count, n) == goal
        decreases n
      {
        done := Round(prog, count, n);
        n := n - 1;
      }
      assert runtime.Snapshot() == goal.after;
    }

    /** One iteration of the `cmd_continue` loop: a `dbg_next` call, as one round of `Continued`. */
    method Round(ghost prog: seq<Instruction>, ghost count: nat, ghost n: nat) returns (done: bool)
      requires Valid() && runtime.running && n > 0
      requires program.instructions[..] == prog && program.instrCount as nat == count
      modifies runtime, runtime.data
      ensures Valid()
      ensures done ==> old(Continued(runtime.Snapshot(), prog, count, n)) == Outcome(true, runtime.Snapshot())
      ensures !done ==> runtime.running
      ensures !done ==>
        old(Continued(runtime.Snapshot(), prog, count, n)) == Continued(runtime.Snapshot(), prog, count, n - 1)
    {
      ghost var m := runtime.Snapshot();
      ContinuedUnfold(m, prog, count, n);
      done := Next();
    }

    /** `cmd_dataptr`: the data pointer, while running. */
    method CmdDataptr() returns (p: Option<nat>)
      requires Valid()
      ensures p.Some? <==> runtime.running
      ensures p.Some? ==> p.value == runtime.ptr < DataSize
    {
      if runtime.running {
        return Some(runtime.ptr);
      }
      return None;
    }

    /** `dbg_print`: the cell at `index` and whether it is printable, for an index on the tape. */
    method Print(index: int) returns (shown: Shown)
      requires Valid()
      ensures shown != NotRunning
      ensures shown == OutOfRange <==> index < 0 || index >= DataSize
      ensures shown.Cell? ==> 0 <= index < DataSize && shown.value == runtime.data[index]
      ensures shown.Cell? ==> (shown.printable <==> 32 <= shown.value <= 126)
    {
      if index < 0 || index >= DataSize {
        return OutOfRange;
      }
      var c := runtime.data[index];
      return Cell(c, IsPrint(c));
    }

    /** `cmd_print`: while running, the cell at the given index, or at the data pointer when none is given. */
    method CmdPrint(index: Option<int>) returns (shown: Shown)
      requires Valid()
      ensures shown == NotRunning <==> !runtime.running
      ensures runtime.running ==>
        var i := if index.Some? then index.value else runtime.ptr;
        && (shown == OutOfRange <==> i < 0 || i >= DataSize)
        && (shown.Cell? ==> shown.value == runtime.data[i])
        && (shown.Cell? ==> (shown.printable <==> IsPrint(shown.value as int)))
    {
      if !runtime.running {
        return NotRunning;
      }
      if index.Some? {
        shown := Print(index.value);
      } else {
        shown := Print(runtime.ptr);
      }
    }

    /**
     * `parse_command` followed by the handler it selects. `files` stands
     * for the file system, `strtol` for the C conversion of an argument,
     * and `fuel` bounds `continue`.
     */
    method Execute(line: string, files: map<string, seq<char>>, strtol: string -> int, fuel: nat) returns (call: Option<Call>)
      requires Valid()
      requires line == [] || Tokens(line, " ") != []
      modifies this, program, program.instructions, program.stack, runtime, runtime.data
      ensures Valid()
      ensures line == [] ==> call.None?
      ensures line != [] ==>
        var toks := Tokens(line, " ");
        call == match ByAbbr(toks[0][0])
          case None => None
          case Some(c) => Some(Call(c, if |toks| == 2 then Some(toks[1]) else None))
      ensures call.None? ==> unchanged(this, program, program.instructions, program.stack, runtime, runtime.data)
      ensures call.Some? ==> Dispatched(call.value, files, strtol, fuel)
    {
      var calls := ParseCommand(line);
      if calls == [] {
        return None;
      }
      call := Some(calls[0]);
      Dispatch(calls[0], files, strtol, fuel);
    }

    /**
     * What the handler of `call` leaves: the effect each stateful handler
     * promises, and no change at all after `help`, `quit`, `dataptr` and
     * `print`, which only print text or end the REPL.
     */
    twostate predicate Dispatched(call: Call, files: map<string, seq<char>>, strtol: string -> int, fuel: nat)
      requires old(Valid())
      reads this, program, program.instructions, program.stack, runtime, runtime.data
    {
      match call.command
      case File => FileDone(call.arg, files) && unchanged(runtime.data)
      case Run => RunDone() && unchanged(this, program, program.instructions, program.stack)
      case Next => NextDone() && unchanged(this, program, program.instructions, program.stack)
      case Jump =>
        JumpDone(if call.arg.Some? then Some(strtol(call.arg.value)) else None)
        && unchanged(this, program, program.instructions, program.stack, runtime.data)
      case Continue => ContinueDone(fuel) && unchanged(this, program, program.instructions, program.stack)
      case _ => unchanged(this, program, program.instructions, program.stack, runtime, runtime.data)
    }

    /** The handler call `parse_command` makes. */
    method Dispatch(call: Call, files: map<string, seq<char>>, strtol: string -> int, fuel: nat)
      requires Valid()
      modifies this, program, program.instructions, program.stack, runtime, runtime.data
      ensures Valid() && Dispatched(call, files, strtol, fuel)
    {
      var arg := call.arg;
      match call.command
      case Help =>
      case Quit =>
      case File => CmdFile(arg, files);
      case Run => CmdRun();
      case Next => CmdNext();
      case Jump => CmdJump(if arg.Some? then Some(strtol(arg.value)) else None);
      case Continue => CmdContinue(fuel);
      case Dataptr => var _ := CmdDataptr();
      case Print => var _ := CmdPrint(if arg.Some? then Some(strtol(arg.value)) else None);
    }
  }
}
