/**
 * A concrete session: `++>+<-.` compiled into fresh storage, started with
 * `run`, and stepped seven times. The seventh step is the `.`; the END
 * after it has not been executed yet.
 */
module Scenarios {
  import opened Ir
  import opened Compiler
  import opened Machine

  const Source: seq<char> := "++>+<-."

  /** Text without brackets keeps the stack depth at 0. */
  lemma {:induction false} NoBracketsDepth(g: seq<char>)
    requires forall k :: 0 <= k < |g| ==> !IsBracket(g[k])
    ensures Depth(g) == 0
    decreases |g|
  {
    if g != [] {
      NoBracketsDepth(g[..|g| - 1]);
    }
  }

  /** Compiled from an empty stack, the seven glyphs fill slots 0 to 6 in order and END goes to slot 7. */
  lemma CompileSource(instrs: seq<Instruction>, stack: seq<u16>)
    requires Compiler.WellFormed(Start(instrs, stack, 0))
    ensures var r := Compiled(Start(instrs, stack, 0), Source);
      && !r.failed && r.pc == 7 && r.esp == 0 && |r.instrs| == ProgramSize && r.instrs[7].operator == OpEnd
      && forall k :: 0 <= k < 7 && !IsBracket(Source[k]) ==> r.instrs[k].operator == OpCode(Source[k])
  {
    SourceAccepted();
    CompileVerdict(instrs, stack, 0, Source);
    CompileShape(instrs, stack, 0, Source);
    FreshCompileSlots(instrs, stack, Source);
  }

  /** Every character of `Source` is a glyph, and none of them makes compile fail. */
  lemma SourceAccepted()
    ensures Glyphs(Source) == Source && Accepts(Source, 0)
  {
    assert Source[1..][1..][1..][1..][1..][1..][1..] == [];
    assert Glyphs(Source) == Source;
    forall p | 0 <= p < |Source|
      ensures LevelOk(Source, p, 0)
    {
      assert !IsBracket(Source[p]);
    }
    NoBracketsDepth(Source);
  }

  /** The instructions `Source` compiles to, as far as running them is concerned. */
  predicate SourceProgram(prog: seq<Instruction>) {
    && Installed(prog, 8)
    && prog[0].operator == OpAdd && prog[1].operator == OpAdd && prog[2].operator == OpInc
    && prog[3].operator == OpAdd && prog[4].operator == OpDec && prog[5].operator == OpSub
    && prog[6].operator == OpOut
  }

  /**
   * After `run` the seven instructions leave cells 0 and 1 at 1, the data
   * pointer at 0, one byte of value 1 written, and the machine running at
   * the END slot.
   */
  lemma RunSource(instrs: seq<Instruction>, stack: seq<u16>, input: seq<u8>)
    requires Compiler.WellFormed(Start(instrs, stack, 0))
    requires forall k :: 0 <= k < |instrs| ==> instrs[k].operand == 0
    ensures var r := Compiled(Start(instrs, stack, 0), Source);
      && !r.failed && Installed(r.instrs, r.pc + 1)
      && var o := Continued(State(true, Zeros(), 0, 0, input, []), r.instrs, r.pc + 1, 7);
        && !o.terminated && o.after.running && o.after.pc == 7
        && o.after.cells[0] == 1 && o.after.cells[1] == 1 && o.after.ptr == 0
        && o.after.output == [1] && o.after.input == input
  {
    CompileSource(instrs, stack);
    var r := Compiled(Start(instrs, stack, 0), Source);
    assert forall k :: 0 <= k < |r.instrs| ==> r.instrs[k].operand == 0;
    assert r.instrs[0].operator == OpCode(Source[0]) && r.instrs[1].operator == OpCode(Source[1]);
    assert r.instrs[2].operator == OpCode(Source[2]) && r.instrs[3].operator == OpCode(Source[3]);
    assert r.instrs[4].operator == OpCode(Source[4]) && r.instrs[5].operator == OpCode(Source[5]);
    assert r.instrs[6].operator == OpCode(Source[6]);
    assert SourceProgram(r.instrs);
    var m3 := FirstSteps(r.instrs, input);
    LastSteps(r.instrs, input, m3);
  }

  /** `++>`: cell 0 holds 2 and the pointer has moved to cell 1. */
  lemma FirstSteps(prog: seq<Instruction>, input: seq<u8>) returns (m3: State)
    requires SourceProgram(prog)
    ensures InProgram(m3, 8) && m3.running && m3.pc == 3 && m3.ptr == 1
    ensures m3.cells[0] == 2 && m3.cells[1] == 0 && m3.output == [] && m3.input == input
    ensures Continued(State(true, Zeros(), 0, 0, input, []), prog, 8, 7) == Continued(m3, prog, 8, 4)
  {
    var m0 := State(true, Zeros(), 0, 0, input, []);
    var m1 := Advance(m0, prog, 8, 7);
    assert m1.pc == 1 && m1.cells[0] == 1 && m1.ptr == 0;
    var m2 := Advance(m1, prog, 8, 6);
    assert m2.pc == 2 && m2.cells[0] == 2 && m2.ptr == 0;
    m3 := Advance(m2, prog, 8, 5);
  }

  /** `+<-.` from there: cell 1 becomes 1, cell 0 drops back to 1, and that 1 is written. */
  lemma LastSteps(prog: seq<Instruction>, input: seq<u8>, m3: State)
    requires SourceProgram(prog)
    requires InProgram(m3, 8) && m3.running && m3.pc == 3 && m3.ptr == 1
    requires m3.cells[0] == 2 && m3.cells[1] == 0 && m3.output == [] && m3.input == input
    ensures var o := Continued(m3, prog, 8, 4);
      && !o.terminated && o.after.running && o.after.pc == 7
      && o.after.cells[0] == 1 && o.after.cells[1] == 1 && o.after.ptr == 0
      && o.after.output == [1] && o.after.input == input
  {
    var m4 := Advance(m3, prog, 8, 4);
    assert m4.pc == 4 && m4.cells[0] == 2 && m4.cells[1] == 1 && m4.ptr == 1;
    var m5 := Advance(m4, prog, 8, 3);
    FinalSteps(prog, input, m5);
  }

  /** `-.` from cell 0 holding 2: it drops to 1 and that 1 is written. */
  lemma FinalSteps(prog: seq<Instruction>, input: seq<u8>, m5: State)
    requires SourceProgram(prog)
    requires InProgram(m5, 8) && m5.running && m5.pc == 5 && m5.ptr == 0
    requires m5.cells[0] == 2 && m5.cells[1] == 1 && m5.output == [] && m5.input == input
    ensures var o := Continued(m5, prog, 8, 2);
      && !o.terminated && o.after.running && o.after.pc == 7
      && o.after.cells[0] == 1 && o.after.cells[1] == 1 && o.after.ptr == 0
      && o.after.output == [1] && o.after.input == input
  {
    var m6 := Advance(m5, prog, 8, 2);
    assert m6.pc == 6 && m6.cells[0] == 1 && m6.cells[1] == 1 && m6.ptr == 0;
    var m7 := Advance(m6, prog, 8, 1);
    assert Continued(m7, prog, 8, 0) == Outcome(false, m7);
  }

  /** A step that does not terminate hands the rest of the fuel to the state it leaves. */
  lemma Advance(m: State, prog: seq<Instruction>, count: nat, fuel: nat) returns (n: State)
    requires Installed(prog, count) && InProgram(m, count) && m.running && fuel > 0
    requires prog[m.pc].operator != OpEnd && !PointerFault(m, prog[m.pc])
    ensures n == Step(m, prog[m.pc]).after && InProgram(n, count) && n.running
    ensures Continued(m, prog, count, fuel) == Continued(n, prog, count, fuel - 1)
  {
    StepStaysInProgram(m, prog, count);
    ContinuedUnfold(m, prog, count, fuel);
    n := Step(m, prog[m.pc]).after;
  }
}
