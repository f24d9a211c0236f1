/**
 * The compiler of bfdb (`compile`, bfdb.c:255-317), as the code is written.
 *
 * The single pass is specified by a pure fold, `Scanned`, over a `Scan`
 * state that holds the program structure's two arrays as sequences; the
 * class `Program` runs the same pass in place over its arrays and is proved
 * to end in the state the fold computes. Two behaviours of the code as
 * written are kept on purpose:
 *  - a `]` stores the bracket links into the OPERATOR fields (the operand
 *    fields are never written), overwriting the `]` slot's OpRet;
 *  - the stack pointer `esp` is not reset on entry, so the stack left over
 *    by a failed compile is seen by the next one.
 * The scan also records, as `pairs`, which `[` slot each `]` popped, so that
 * the last-in-first-out pairing can be stated independently of that bug.
 */
module Compiler {
  import opened Ir

  /** The state of the pass after some prefix of the input. */
  datatype Scan = Scan(
    instrs: seq<Instruction>,  // prog->instructions
    stack: seq<u16>,           // prog->stack
    esp: nat,                  // prog->esp
    pc: nat,                   // the local slot counter
    code: seq<char>,           // the glyphs placed so far, one per slot
    pairs: seq<(nat, nat)>,    // (popped `[` slot, `]` slot), one per pop
    failed: bool)              // compile has returned false

  predicate WellFormed(s: Scan) {
    && |s.instrs| == ProgramSize
    && |s.stack| == StackSize
    && s.esp <= StackSize
    && s.pc <= ProgramSize
    && (forall i :: 0 <= i < |s.stack| ==> s.stack[i] < ProgramSize)
  }

  /** The operand fields of `a` and `b` agree. */
  predicate SameOperands(a: seq<Instruction>, b: seq<Instruction>) {
    |a| == |b| && forall k :: 0 <= k < |a| ==> a[k].operand == b[k].operand
  }

  /** The state on entry to `compile`: the local pc is 0, the rest is whatever the structure holds. */
  function Start(instrs: seq<Instruction>, stack: seq<u16>, esp: nat): Scan {
    Scan(instrs, stack, esp, 0, [], [], false)
  }

  /** One iteration of the loop at bfdb.c:265-307 on character `c`. */
  function ScanChar(s: Scan, c: char): (r: Scan)
    requires WellFormed(s) && !s.failed && s.pc < ProgramSize
    ensures WellFormed(r) && SameOperands(r.instrs, s.instrs)
    ensures !r.failed ==> r.pc == s.pc + (if IsGlyph(c) then 1 else 0)
  {
    if c == '[' then
      var marked := s.instrs[s.pc := s.instrs[s.pc].(operator := OpJmp)];
      if s.esp == StackSize then s.(instrs := marked, failed := true)
      else s.(instrs := marked, stack := s.stack[s.esp := s.pc], esp := s.esp + 1,
              pc := s.pc + 1, code := s.code + [c])
    else if c == ']' then
      if s.esp == 0 then s.(failed := true)
      else
        var j := s.stack[s.esp - 1];
        var ret := s.instrs[s.pc := s.instrs[s.pc].(operator := OpRet)];
        var back := ret[s.pc := ret[s.pc].(operator := j)];
        var linked := back[j := back[j].(operator := s.pc)];
        s.(instrs := linked, esp := s.esp - 1, pc := s.pc + 1, code := s.code + [c],
           pairs := s.pairs + [(j as nat, s.pc)])
    else if IsGlyph(c) then
      s.(instrs := s.instrs[s.pc := s.instrs[s.pc].(operator := OpCode(c))],
         pc := s.pc + 1, code := s.code + [c])
    else
      s
  }

  /** The loop: it stops at the end of the input, on a failure, or once all slots are used. */
  function Scanned(s: Scan, src: seq<char>): (r: Scan)
    requires WellFormed(s)
    ensures WellFormed(r) && SameOperands(r.instrs, s.instrs)
    ensures s.failed ==> r == s
    decreases |src|
  {
    if src == [] || s.failed || s.pc == ProgramSize then s
    else Scanned(ScanChar(s, src[0]), src[1..])
  }

  /** All of `compile`: the loop, the final checks (bfdb.c:309-311) and the END slot (bfdb.c:313). */
  function Compiled(s: Scan, src: seq<char>): (r: Scan)
    requires WellFormed(s)
    ensures WellFormed(r) && SameOperands(r.instrs, s.instrs)
    ensures !r.failed ==> r.esp == 0 && r.pc < ProgramSize && r.instrs[r.pc].operator == OpEnd
  {
    var t := Scanned(s, src);
    if !t.failed && t.esp == 0 && t.pc < ProgramSize then
      t.(instrs := t.instrs[t.pc := t.instrs[t.pc].(operator := OpEnd)])
    else
      t.(failed := true)
  }

  // ----- Reference definitions over the glyph sequence -----

  /** The characters of `src` that occupy an instruction slot, in order. */
  function Glyphs(src: seq<char>): (g: seq<char>)
    ensures |g| <= |src|
    ensures forall k :: 0 <= k < |g| ==> IsGlyph(g[k])
  {
    if src == [] then []
    else (if IsGlyph(src[0]) then [src[0]] else []) + Glyphs(src[1..])
  }

  function Delta(c: char): int {
    if c == '[' then 1 else if c == ']' then -1 else 0
  }

  /** The number of `[` minus the number of `]` in `g`. */
  function Depth(g: seq<char>): int {
    if g == [] then 0 else Depth(g[..|g| - 1]) + Delta(g[|g| - 1])
  }

  /** Glyph `c` makes compile fail when `level` slots of the stack are in use. */
  predicate Faults(c: char, level: int) {
    (c == ']' && level == 0) || (c == '[' && level == StackSize)
  }

  /** No glyph of `g` makes compile fail, starting from `entry` stack slots in use. */
  ghost predicate Clean(g: seq<char>, entry: nat) {
    forall p :: 0 <= p < |g| ==> LevelOk(g, p, entry)
  }

  /** The glyph at position `p` of `g` does not make compile fail. */
  ghost predicate LevelOk(g: seq<char>, p: nat, entry: nat)
    requires p < |g|
  {
    !Faults(g[p], entry + Depth(g[..p]))
  }

  /** The glyph sequences `compile` accepts from a stack holding `entry` slots. */
  ghost predicate Accepts(g: seq<char>, entry: nat) {
    |g| < ProgramSize && Clean(g, entry) && entry + Depth(g) == 0
  }

  /**
   * The matching-bracket search of a naive interpreter: scanning backward
   * from position `k`, the `[` that closes `depth` levels further out.
   * -1 when there is none.
   */
  function BackScan(code: seq<char>, k: int, depth: nat): (j: int)
    requires -1 <= k < |code|
    ensures -1 <= j <= k
    ensures j >= 0 ==> code[j] == '['
    decreases k + 1
  {
    if k < 0 then -1
    else if code[k] == '[' then (if depth == 0 then k else BackScan(code, k - 1, depth - 1))
    else if code[k] == ']' then BackScan(code, k - 1, depth + 1)
    else BackScan(code, k - 1, depth)
  }

  /** The `[` that matches the `]` at position `p` (-1 when it has none). */
  function MatchingOpen(code: seq<char>, p: nat): int
    requires p < |code|
  {
    BackScan(code, p - 1, 0)
  }

  // ----- Lemmas: the verdict of compile, for any entry stack -----

  lemma DepthSnoc(g: seq<char>, c: char)
    ensures Depth(g + [c]) == Depth(g) + Delta(c)
  {
    assert (g + [c])[..|g|] == g;
  }

  lemma CleanSnoc(g: seq<char>, c: char, entry: nat)
    requires Clean(g, entry) && !Faults(c, entry + Depth(g))
    ensures Clean(g + [c], entry)
  {
    var h := g + [c];
    forall p | 0 <= p < |h|
      ensures LevelOk(h, p, entry)
    {
      if p < |g| {
        assert LevelOk(g, p, entry);
        assert h[..p] == g[..p] && h[p] == g[p];
      } else {
        assert h[..p] == g && h[p] == c;
      }
    }
  }

  /** The facts the loop keeps about the stack, whatever it held on entry. */
  ghost predicate Tracks(s: Scan, entry: nat) {
    && WellFormed(s) && !s.failed && s.pc == |s.code|
    && s.esp == entry + Depth(s.code) && Clean(s.code, entry)
  }

  /** A glyph that does not fault extends the tracked prefix by itself. */
  lemma ScanCharTracks(s: Scan, c: char, entry: nat)
    requires Tracks(s, entry) && s.pc < ProgramSize && IsGlyph(c) && !Faults(c, s.esp)
    ensures ScanChar(s, c).code == s.code + [c] && Tracks(ScanChar(s, c), entry)
  {
    DepthSnoc(s.code, c);
    CleanSnoc(s.code, c, entry);
  }

  /** A glyph that faults at the slot after `s.code` leaves no accepted extension. */
  lemma FaultRejects(code: seq<char>, c: char, tail: seq<char>, entry: nat)
    requires Faults(c, entry + Depth(code))
    ensures !Accepts(code + ([c] + tail), entry)
  {
    var g := code + ([c] + tail);
    assert g[..|code|] == code && g[|code|] == c;
    assert !LevelOk(g, |code|, entry);
  }

  /** The two facts the verdict lemma proves about `t`, the final state reached from `s` on `rest`. */
  ghost predicate VerdictHolds(s: Scan, rest: seq<char>, entry: nat, t: Scan) {
    && ((!t.failed && t.esp == 0 && t.pc < ProgramSize) <==> Accepts(s.code + Glyphs(rest), entry))
    && (!t.failed && t.pc < ProgramSize ==> t.code == s.code + Glyphs(rest) && Tracks(t, entry))
  }

  lemma {:induction false} ScannedVerdict(s: Scan, rest: seq<char>, entry: nat)
    requires Tracks(s, entry)
    ensures VerdictHolds(s, rest, entry, Scanned(s, rest))
    decreases |rest|
  {
    if rest == [] {
      assert s.code + Glyphs(rest) == s.code;
    } else if s.pc == ProgramSize {
      assert |s.code + Glyphs(rest)| >= ProgramSize;
    } else {
      var c := rest[0];
      var next := ScanChar(s, c);
      assert Scanned(s, rest) == Scanned(next, rest[1..]);
      GlyphsCons(rest);
      if IsGlyph(c) && Faults(c, s.esp) {
        FaultStops(s, rest, entry);
      } else {
        if IsGlyph(c) {
          ScanCharTracks(s, c, entry);
        }
        assert next.code + Glyphs(rest[1..]) == s.code + Glyphs(rest);
        ScannedVerdict(next, rest[1..], entry);
        VerdictShift(s, next, rest, entry, Scanned(next, rest[1..]));
      }
    }
  }

  /** A glyph that faults ends the pass with a failure that the reference also reports. */
  lemma FaultStops(s: Scan, rest: seq<char>, entry: nat)
    requires Tracks(s, entry) && s.pc < ProgramSize && rest != []
    requires IsGlyph(rest[0]) && Faults(rest[0], s.esp)
    ensures VerdictHolds(s, rest, entry, Scanned(s, rest))
  {
    var next := ScanChar(s, rest[0]);
    assert next.failed;
    assert Scanned(s, rest) == Scanned(next, rest[1..]) == next;
    GlyphsCons(rest);
    FaultRejects(s.code, rest[0], Glyphs(rest[1..]), entry);
  }

  /** The verdict carries back over one character that did not fault. */
  lemma VerdictShift(s: Scan, next: Scan, rest: seq<char>, entry: nat, t: Scan)
    requires rest != [] && next.code + Glyphs(rest[1..]) == s.code + Glyphs(rest)
    requires VerdictHolds(next, rest[1..], entry, t)
    ensures VerdictHolds(s, rest, entry, t)
  {
  }

  lemma GlyphsCons(src: seq<char>)
    requires src != []
    ensures IsGlyph(src[0]) ==> Glyphs(src) == [src[0]] + Glyphs(src[1..])
    ensures !IsGlyph(src[0]) ==> Glyphs(src) == Glyphs(src[1..])
  {
  }

  /**
   * compile returns true exactly when the input has fewer than 4096 glyphs,
   * no `]` arrives with the stack empty, no `[` arrives with the stack full,
   * and the stack is empty again at the end. `entry` is the stack pointer
   * left by the previous compile.
   */
  lemma CompileVerdict(instrs: seq<Instruction>, stack: seq<u16>, entry: nat, src: seq<char>)
    requires WellFormed(Start(instrs, stack, entry))
    ensures !Compiled(Start(instrs, stack, entry), src).failed <==> Accepts(Glyphs(src), entry)
  {
    var s := Start(instrs, stack, entry);
    assert Clean([], entry);
    ScannedVerdict(s, src, entry);
    assert s.code + Glyphs(src) == Glyphs(src);
  }

  /** On success one slot per glyph is used, the END follows them, and the stack is empty. */
  lemma CompileShape(instrs: seq<Instruction>, stack: seq<u16>, entry: nat, src: seq<char>)
    requires WellFormed(Start(instrs, stack, entry))
    requires !Compiled(Start(instrs, stack, entry), src).failed
    ensures var r := Compiled(Start(instrs, stack, entry), src);
      && r.code == Glyphs(src) && r.pc == |Glyphs(src)| < ProgramSize
      && r.instrs[r.pc].operator == OpEnd && r.esp == 0
      && SameOperands(r.instrs, instrs)
  {
    var s := Start(instrs, stack, entry);
    assert Clean([], entry);
    ScannedVerdict(s, src, entry);
    assert s.code + Glyphs(src) == Glyphs(src);
  }

  /**
   * A loop that has not failed is still tracked, also when it stopped
   * because every slot is in use: no glyph it placed faulted, and esp is
   * the entry depth plus the open `[` count of the glyphs it placed.
   */
  lemma {:induction false} ScannedTracks(s: Scan, rest: seq<char>, entry: nat)
    requires Tracks(s, entry)
    ensures var t := Scanned(s, rest); !t.failed ==> Tracks(t, entry)
    decreases |rest|
  {
    if rest != [] && s.pc < ProgramSize {
      var c := rest[0];
      var next := ScanChar(s, c);
      assert Scanned(s, rest) == Scanned(next, rest[1..]);
      if !next.failed {
        if IsGlyph(c) {
          ScanCharTracks(s, c, entry);
        }
        ScannedTracks(next, rest[1..], entry);
      }
    }
  }

  /**
   * While no failure has occurred, the stack holds the entry slots plus one
   * per `[` placed and not yet closed, also when the loop stopped with every
   * slot used (that esp is what the next compile starts from); and when the
   * input runs out first, all of it has been placed.
   */
  lemma StackDepth(instrs: seq<Instruction>, stack: seq<u16>, entry: nat, src: seq<char>)
    requires WellFormed(Start(instrs, stack, entry))
    ensures var t := Scanned(Start(instrs, stack, entry), src);
      !t.failed ==> t.esp == entry + Depth(t.code)
    ensures var t := Scanned(Start(instrs, stack, entry), src);
      !t.failed && t.pc < ProgramSize ==> t.code == Glyphs(src)
  {
    var s := Start(instrs, stack, entry);
    assert Clean([], entry);
    ScannedVerdict(s, src, entry);
    ScannedTracks(s, src, entry);
    assert s.code + Glyphs(src) == Glyphs(src);
  }

  // ----- Lemmas: bracket pairing, for a compile that starts with an empty stack -----

  lemma {:induction false} BackScanSnoc(code: seq<char>, c: char, k: int, depth: nat)
    requires -1 <= k < |code|
    ensures BackScan(code + [c], k, depth) == BackScan(code, k, depth)
    decreases k + 1
  {
    if k >= 0 {
      assert (code + [c])[k] == code[k];
      if code[k] == '[' {
        if depth > 0 { BackScanSnoc(code, c, k - 1, depth - 1); }
      } else if code[k] == ']' {
        BackScanSnoc(code, c, k - 1, depth + 1);
      } else {
        BackScanSnoc(code, c, k - 1, depth);
      }
    }
  }

  /** Appending a glyph does not change the match of an earlier `]`. */
  lemma MatchingOpenSnoc(code: seq<char>, c: char)
    ensures forall p :: 0 <= p < |code| ==> MatchingOpen(code + [c], p) == MatchingOpen(code, p)
  {
    forall p | 0 <= p < |code| ensures MatchingOpen(code + [c], p) == MatchingOpen(code, p) {
      BackScanSnoc(code, c, p - 1, 0);
    }
  }

  lemma MatchingOpenSnocAt(code: seq<char>, c: char, p: nat)
    requires p < |code|
    ensures MatchingOpen(code + [c], p) == MatchingOpen(code, p)
  {
    BackScanSnoc(code, c, p - 1, 0);
  }

  /** The `]` at slot `p` is linked, through the operator fields, with the `[` that matches it. */
  ghost predicate Closed(s: Scan, p: nat)
    requires WellFormed(s) && p < |s.code| && p < ProgramSize
  {
    var j := MatchingOpen(s.code, p);
    0 <= j && s.instrs[p].operator as int == j && s.instrs[j].operator as int == p
  }

  /** The `[` at slot `k` is either still pending on the stack, or linked with the `]` that matches it. */
  ghost predicate Opened(s: Scan, k: nat)
    requires WellFormed(s) && k < ProgramSize
  {
    || (k as u16 in s.stack[..s.esp] && s.instrs[k].operator == OpJmp)
    || (var p := s.instrs[k].operator as int;
        k < p < |s.code| && s.code[p] == ']' && MatchingOpen(s.code, p) == k)
  }

  /** The slots filled so far hold the glyphs that were read. */
  ghost predicate Shape(s: Scan, base: seq<Instruction>) {
    && WellFormed(s) && |base| == ProgramSize && !s.failed && s.pc == |s.code|
    && (forall k :: 0 <= k < |s.code| ==> IsGlyph(s.code[k]))
  }

  /** The stack holds, bottom to top, the pending `[` slots a backward scan finds. */
  ghost predicate StackOk(s: Scan)
    requires Shape(s, s.instrs)
  {
    && (forall i :: 0 <= i < s.esp ==> s.stack[i] as int == BackScan(s.code, s.pc - 1, s.esp - 1 - i))
    && (forall i, i' :: 0 <= i < i' < s.esp ==> s.stack[i] < s.stack[i'])
    && (forall i, p :: 0 <= i < s.esp && 0 <= p < s.pc && s.code[p] == ']' ==>
          s.stack[i] as int != MatchingOpen(s.code, p))
  }

  /** Every filled slot holds its glyph's operator or, for a bracket, its link. */
  ghost predicate SlotsOk(s: Scan)
    requires Shape(s, s.instrs)
  {
    && (forall k :: 0 <= k < s.pc && !IsBracket(s.code[k]) ==> s.instrs[k].operator == OpCode(s.code[k]))
    && (forall p :: 0 <= p < s.pc && s.code[p] == ']' ==> Closed(s, p))
    && (forall k :: 0 <= k < s.pc && s.code[k] == '[' ==> Opened(s, k))
  }

  /** Slots not yet reached are as they were on entry. */
  ghost predicate FrameOk(s: Scan, base: seq<Instruction>)
    requires Shape(s, base)
  {
    forall k :: s.pc <= k < ProgramSize ==> s.instrs[k] == base[k]
  }

  /** What the pass has established about the slots it has filled, when it started with an empty stack. */
  ghost predicate Paired(s: Scan, base: seq<Instruction>) {
    Shape(s, base) && StackOk(s) && SlotsOk(s) && FrameOk(s, base)
  }

  lemma PushStack(s: Scan)
    requires Shape(s, s.instrs) && StackOk(s) && s.pc < ProgramSize && s.esp < StackSize
    ensures Shape(ScanChar(s, '['), s.instrs) && StackOk(ScanChar(s, '['))
  {
    var t := ScanChar(s, '[');
    var code := t.code;
    assert code == s.code + ['['];
    MatchingOpenSnoc(s.code, '[');
    forall i | 0 <= i < t.esp
      ensures t.stack[i] as int == BackScan(code, t.pc - 1, t.esp - 1 - i)
    {
      if i < s.esp {
        BackScanSnoc(s.code, '[', s.pc - 1, s.esp - 1 - i);
      }
    }
  }

  lemma PushSlots(s: Scan)
    requires Shape(s, s.instrs) && StackOk(s) && SlotsOk(s) && s.pc < ProgramSize && s.esp < StackSize
    ensures Shape(ScanChar(s, '['), s.instrs) && SlotsOk(ScanChar(s, '['))
  {
    var t := ScanChar(s, '[');
    var code := t.code;
    assert code == s.code + ['['];
    assert t.stack[..t.esp] == s.stack[..s.esp] + [s.pc as u16];
    assert t.instrs == s.instrs[s.pc := s.instrs[s.pc].(operator := OpJmp)];
    MatchingOpenSnoc(s.code, '[');
    forall k | 0 <= k < t.pc && code[k] == '[' ensures Opened(t, k) {
      if k < s.pc {
        assert Opened(s, k);
      }
    }
    forall p | 0 <= p < t.pc && code[p] == ']' ensures Closed(t, p) {
      assert Closed(s, p);
    }
  }

  lemma PushFrame(s: Scan, base: seq<Instruction>)
    requires Shape(s, base) && FrameOk(s, base) && s.pc < ProgramSize && s.esp < StackSize
    ensures Shape(ScanChar(s, '['), base) && FrameOk(ScanChar(s, '['), base)
  {
  }

  lemma PopStack(s: Scan)
    requires Shape(s, s.instrs) && StackOk(s) && s.pc < ProgramSize && s.esp > 0
    ensures Shape(ScanChar(s, ']'), s.instrs) && StackOk(ScanChar(s, ']'))
    ensures MatchingOpen(ScanChar(s, ']').code, s.pc) == s.stack[s.esp - 1] as int
  {
    PopWrites(s);
    PopStackScan(s);
    PopStackUnmatched(s);
  }

  /** After a pop the remaining stack entries are still what the backward scan finds. */
  lemma PopStackScan(s: Scan)
    requires Shape(s, s.instrs) && StackOk(s) && s.pc < ProgramSize && s.esp > 0
    ensures var t := ScanChar(s, ']');
      forall i :: 0 <= i < t.esp ==> t.stack[i] as int == BackScan(t.code, t.pc - 1, t.esp - 1 - i)
  {
    var t := ScanChar(s, ']');
    assert t.code == s.code + [']'] && t.stack == s.stack && t.esp == s.esp - 1 && t.pc == s.pc + 1;
    forall i | 0 <= i < t.esp
      ensures t.stack[i] as int == BackScan(t.code, t.pc - 1, t.esp - 1 - i)
    {
      var d := t.esp - 1 - i;
      assert t.code[s.pc] == ']';
      assert BackScan(t.code, s.pc, d) == BackScan(t.code, s.pc - 1, d + 1);
      BackScanSnoc(s.code, ']', s.pc - 1, d + 1);
      assert s.stack[i] as int == BackScan(s.code, s.pc - 1, d + 1);
    }
  }

  /** After a pop no remaining stack entry is the match of a `]` read so far. */
  lemma PopStackUnmatched(s: Scan)
    requires Shape(s, s.instrs) && StackOk(s) && s.pc < ProgramSize && s.esp > 0
    ensures var t := ScanChar(s, ']');
      forall i, p :: 0 <= i < t.esp && 0 <= p < t.pc && t.code[p] == ']' ==>
        t.stack[i] as int != MatchingOpen(t.code, p)
  {
    var t := ScanChar(s, ']');
    assert t.code == s.code + [']'] && t.stack == s.stack && t.esp == s.esp - 1 && t.pc == s.pc + 1;
    BackScanSnoc(s.code, ']', s.pc - 1, 0);
    forall i, p | 0 <= i < t.esp && 0 <= p < t.pc && t.code[p] == ']'
      ensures t.stack[i] as int != MatchingOpen(t.code, p)
    {
      if p < s.pc {
        MatchingOpenSnocAt(s.code, ']', p);
        assert s.stack[i] as int != MatchingOpen(s.code, p);
      } else {
        assert s.stack[i] < s.stack[s.esp - 1];
      }
    }
  }

  lemma PopSlots(s: Scan)
    requires Shape(s, s.instrs) && StackOk(s) && SlotsOk(s) && s.pc < ProgramSize && s.esp > 0
    ensures Shape(ScanChar(s, ']'), s.instrs) && SlotsOk(ScanChar(s, ']'))
  {
    var t := ScanChar(s, ']');
    PopWrites(s);
    PopOpened(s);
    PopClosed(s);
    forall k | 0 <= k < t.pc && !IsBracket(t.code[k])
      ensures t.instrs[k].operator == OpCode(t.code[k])
    {
      assert k < s.pc && t.code[k] == s.code[k];
    }
  }

  /** What popping the `[` slot j at `]` slot pc writes, and what it leaves alone. */
  lemma PopWrites(s: Scan)
    requires Shape(s, s.instrs) && StackOk(s) && s.pc < ProgramSize && s.esp > 0
    ensures var t := ScanChar(s, ']'); var j := s.stack[s.esp - 1];
      && t.code == s.code + [']'] && t.pc == s.pc + 1 && t.esp == s.esp - 1
      && s.stack[..s.esp] == t.stack[..t.esp] + [j]
      && 0 <= j < s.pc && s.code[j] == '['
      && t.instrs[s.pc].operator == j && t.instrs[j].operator == s.pc
      && (forall k :: 0 <= k < ProgramSize && k != j as int && k != s.pc ==> t.instrs[k] == s.instrs[k])
      && MatchingOpen(t.code, s.pc) == j as int
  {
    var t := ScanChar(s, ']');
    var j := s.stack[s.esp - 1];
    assert s.stack[..s.esp] == t.stack[..t.esp] + [j];
    BackScanSnoc(s.code, ']', s.pc - 1, 0);
  }

  /** After the pop, every `[` read so far is still pending or now linked. */
  lemma PopOpened(s: Scan)
    requires Shape(s, s.instrs) && StackOk(s) && SlotsOk(s) && s.pc < ProgramSize && s.esp > 0
    ensures WellFormed(ScanChar(s, ']'))
    ensures var t := ScanChar(s, ']');
      forall k :: 0 <= k < t.pc && t.code[k] == '[' ==> Opened(t, k)
  {
    var t := ScanChar(s, ']');
    var j := s.stack[s.esp - 1];
    PopWrites(s);
    forall k | 0 <= k < t.pc && t.code[k] == '['
      ensures Opened(t, k)
    {
      assert k < s.pc && s.code[k] == '[';
      if k != j as int {
        assert Opened(s, k);
        var p := s.instrs[k].operator as int;
        if k < p < |s.code| && s.code[p] == ']' && MatchingOpen(s.code, p) == k {
          MatchingOpenSnocAt(s.code, ']', p);
        }
      }
    }
  }

  /** After the pop, every `]` read so far, the new one included, is linked. */
  lemma PopClosed(s: Scan)
    requires Shape(s, s.instrs) && StackOk(s) && SlotsOk(s) && s.pc < ProgramSize && s.esp > 0
    ensures WellFormed(ScanChar(s, ']'))
    ensures var t := ScanChar(s, ']');
      forall p :: 0 <= p < t.pc && t.code[p] == ']' ==> Closed(t, p)
  {
    var t := ScanChar(s, ']');
    PopWrites(s);
    forall p | 0 <= p < t.pc && t.code[p] == ']'
      ensures Closed(t, p)
    {
      if p < s.pc {
        assert s.code[p] == t.code[p];
        ClosedKept(s, t, p);
      }
    }
  }

  /** A `]` linked before the pop stays linked: the pop rewrites only its own slot and the popped one. */
  lemma ClosedKept(s: Scan, t: Scan, p: nat)
    requires Shape(s, s.instrs) && StackOk(s) && SlotsOk(s) && s.pc < ProgramSize && s.esp > 0
    requires t == ScanChar(s, ']') && p < s.pc && s.code[p] == ']'
    ensures WellFormed(t) && p < |t.code| && Closed(t, p)
  {
    PopWrites(s);
    assert Closed(s, p);
    var m := MatchingOpen(s.code, p);
    var j := s.stack[s.esp - 1];
    assert m != j as int;
    MatchingOpenSnocAt(s.code, ']', p);
    assert t.instrs[p] == s.instrs[p];
    assert t.instrs[m] == s.instrs[m];
  }

  lemma PopFrame(s: Scan, base: seq<Instruction>)
    requires Shape(s, base) && StackOk(s) && FrameOk(s, base) && s.pc < ProgramSize && s.esp > 0
    ensures Shape(ScanChar(s, ']'), base) && FrameOk(ScanChar(s, ']'), base)
  {
  }

  lemma OtherStack(s: Scan, c: char)
    requires Shape(s, s.instrs) && StackOk(s) && s.pc < ProgramSize && IsGlyph(c) && !IsBracket(c)
    ensures Shape(ScanChar(s, c), s.instrs) && StackOk(ScanChar(s, c))
  {
    var t := ScanChar(s, c);
    assert t.code == s.code + [c];
    MatchingOpenSnoc(s.code, c);
    forall i | 0 <= i < t.esp
      ensures t.stack[i] as int == BackScan(t.code, t.pc - 1, t.esp - 1 - i)
    {
      BackScanSnoc(s.code, c, s.pc - 1, s.esp - 1 - i);
    }
  }

  lemma OtherSlots(s: Scan, c: char)
    requires Shape(s, s.instrs) && SlotsOk(s) && s.pc < ProgramSize && IsGlyph(c) && !IsBracket(c)
    ensures Shape(ScanChar(s, c), s.instrs) && SlotsOk(ScanChar(s, c))
  {
    var t := ScanChar(s, c);
    assert t.code == s.code + [c];
    assert t.stack[..t.esp] == s.stack[..s.esp];
    MatchingOpenSnoc(s.code, c);
    forall k | 0 <= k < t.pc && t.code[k] == '[' ensures Opened(t, k) {
      assert Opened(s, k);
    }
    forall p | 0 <= p < t.pc && t.code[p] == ']' ensures Closed(t, p) {
      assert Closed(s, p);
    }
  }

  lemma OtherFrame(s: Scan, c: char, base: seq<Instruction>)
    requires Shape(s, base) && FrameOk(s, base) && s.pc < ProgramSize && IsGlyph(c) && !IsBracket(c)
    ensures Shape(ScanChar(s, c), base) && FrameOk(ScanChar(s, c), base)
  {
  }

  /** One non-failing iteration keeps the pairing facts. */
  lemma ScanCharPaired(s: Scan, c: char, base: seq<Instruction>)
    requires Paired(s, base) && s.pc < ProgramSize && !ScanChar(s, c).failed
    ensures Paired(ScanChar(s, c), base)
  {
    if c == '[' {
      PushStack(s); PushSlots(s); PushFrame(s, base);
    } else if c == ']' {
      PopStack(s); PopSlots(s); PopFrame(s, base);
    } else if IsGlyph(c) {
      OtherStack(s, c); OtherSlots(s, c); OtherFrame(s, c, base);
    }
  }

  lemma {:induction false} ScannedPaired(s: Scan, rest: seq<char>, base: seq<Instruction>)
    requires Paired(s, base)
    ensures !Scanned(s, rest).failed ==> Paired(Scanned(s, rest), base)
    decreases |rest|
  {
    if rest != [] && s.pc < ProgramSize {
      var next := ScanChar(s, rest[0]);
      if !next.failed {
        ScanCharPaired(s, rest[0], base);
        ScannedPaired(next, rest[1..], base);
      }
    }
  }

  /**
   * A compile that starts with an empty stack and succeeds leaves, for the
   * glyph sequence g of its input:
   *  - each glyph other than a bracket in its own slot, in source order;
   *  - at each `]` slot p the slot j of its matching `[` (stored as the
   *    operator), and at slot j the value p: the two are linked both ways;
   *  - the END operator right after the last glyph, and the slots beyond
   *    it as they were.
   */
  lemma FreshCompileSlots(instrs: seq<Instruction>, stack: seq<u16>, src: seq<char>)
    requires WellFormed(Start(instrs, stack, 0))
    requires !Compiled(Start(instrs, stack, 0), src).failed
    ensures var r := Compiled(Start(instrs, stack, 0), src); var g := Glyphs(src);
      && |r.instrs| == ProgramSize && |g| < ProgramSize && r.instrs[|g|].operator == OpEnd
      && (forall k :: 0 <= k < |g| && !IsBracket(g[k]) ==> r.instrs[k].operator == OpCode(g[k]))
      && (forall k :: |g| < k < ProgramSize ==> r.instrs[k] == instrs[k])
  {
    var t := FreshScanned(instrs, stack, src);
  }

  /**
   * In `instrs`, each `]` of the glyphs `g` and the `[` a backward scan
   * matches to it name each other's slot in their operator fields.
   */
  ghost predicate Linked(g: seq<char>, instrs: seq<Instruction>)
    requires |g| <= |instrs|
  {
    && (forall p :: 0 <= p < |g| && g[p] == ']' ==>
          var j := MatchingOpen(g, p);
          0 <= j < p && g[j] == '[' && instrs[p].operator as int == j && instrs[j].operator as int == p)
    && (forall j :: 0 <= j < |g| && g[j] == '[' ==>
          var p := instrs[j].operator as int;
          j < p < |g| && g[p] == ']' && MatchingOpen(g, p) == j)
  }

  /** The bracket half of the layout: each `]` and its matching `[` name each other's slot. */
  lemma FreshCompileLinks(instrs: seq<Instruction>, stack: seq<u16>, src: seq<char>)
    requires WellFormed(Start(instrs, stack, 0))
    requires !Compiled(Start(instrs, stack, 0), src).failed
    ensures var r := Compiled(Start(instrs, stack, 0), src);
      |Glyphs(src)| < |r.instrs| && Linked(Glyphs(src), r.instrs)
  {
    var t := FreshScanned(instrs, stack, src);
    var g := Glyphs(src);
    forall j | 0 <= j < |g| && g[j] == '['
      ensures var p := t.instrs[j].operator as int; j < p < |g| && g[p] == ']' && MatchingOpen(g, p) == j
    {
      assert Opened(t, j);
    }
    forall p | 0 <= p < |g| && g[p] == ']'
      ensures var j := MatchingOpen(g, p); 0 <= j < p && t.instrs[p].operator as int == j && t.instrs[j].operator as int == p
    {
      assert Closed(t, p);
    }
  }

  /** The loop of a successful compile from an empty stack, and the END slot written after it. */
  lemma FreshScanned(instrs: seq<Instruction>, stack: seq<u16>, src: seq<char>) returns (t: Scan)
    requires WellFormed(Start(instrs, stack, 0))
    requires !Compiled(Start(instrs, stack, 0), src).failed
    ensures t == Scanned(Start(instrs, stack, 0), src)
    ensures Paired(t, instrs) && t.code == Glyphs(src) && t.esp == 0 && t.pc == |t.code| < ProgramSize
    ensures Compiled(Start(instrs, stack, 0), src) == t.(instrs := t.instrs[t.pc := t.instrs[t.pc].(operator := OpEnd)])
  {
    var s := Start(instrs, stack, 0);
    assert Paired(s, instrs);
    ScannedPaired(s, src, instrs);
    CompileShape(instrs, stack, 0, src);
    t := Scanned(s, src);
  }

  // ----- Lemmas: the pops, for any stack left on entry -----

  /** The number of `]` of `g` that match no earlier `[`. */
  function Unmatched(g: seq<char>): (n: nat)
    ensures n <= |g|
    decreases |g|
  {
    if g == [] then 0
    else Unmatched(g[..|g| - 1]) + (if g[|g| - 1] == ']' && MatchingOpen(g, |g| - 1) < 0 then 1 else 0)
  }

  /**
   * The slot the `]` at position `p` of `g` pops, when compile is entered
   * with `entry` on the stack (bottom first): the `[` that matches it or,
   * for a `]` that matches none, the next entry slot from the top down.
   * -1 when nothing is left to pop.
   */
  function Popped(g: seq<char>, entry: seq<u16>, p: nat): int
    requires p < |g|
  {
    var j := MatchingOpen(g, p);
    if j >= 0 then j
    else
      var n := |entry| - 1 - Unmatched(g[..p]);
      if n >= 0 then entry[n] as int else -1
  }

  /** `pr` is a `]` slot of `g` together with the slot `Popped` says it pops. */
  predicate PopOk(g: seq<char>, entry: seq<u16>, pr: (nat, nat)) {
    pr.1 < |g| && g[pr.1] == ']' && pr.0 as int == Popped(g, entry, pr.1)
  }

  /**
   * The stack below `Base` still holds the entry slots that no unmatched
   * `]` has popped yet; above it lie the pending `[` slots a backward scan
   * finds, and the scan finds no more than those.
   */
  ghost predicate Leaked(s: Scan, entry: seq<u16>) {
    && WellFormed(s) && !s.failed && s.pc == |s.code| && |entry| <= StackSize
    && Unmatched(s.code) <= |entry| && |entry| - Unmatched(s.code) <= s.esp
    && (forall i :: 0 <= i < |entry| - Unmatched(s.code) ==> s.stack[i] == entry[i])
    && (forall i :: |entry| - Unmatched(s.code) <= i < s.esp ==>
          s.stack[i] as int == BackScan(s.code, s.pc - 1, s.esp - 1 - i))
    && BackScan(s.code, s.pc - 1, s.esp - (|entry| - Unmatched(s.code))) == -1
  }

  /** The recorded pops are exactly what `Popped` gives for the `]` read so far. */
  ghost predicate PopsOk(s: Scan, entry: seq<u16>)
    requires s.pc == |s.code|
  {
    && (forall n :: 0 <= n < |s.pairs| ==> PopOk(s.code, entry, s.pairs[n]))
    && (forall p :: 0 <= p < s.pc && s.code[p] == ']' ==>
          Popped(s.code, entry, p) >= 0 && (Popped(s.code, entry, p) as nat, p) in s.pairs)
  }

  /** A backward scan that finds nothing at some depth finds nothing further out either. */
  lemma {:induction false} BackScanDeeper(code: seq<char>, k: int, depth: nat, more: nat)
    requires -1 <= k < |code| && depth <= more
    requires BackScan(code, k, depth) == -1
    ensures BackScan(code, k, more) == -1
    decreases k + 1
  {
    if k >= 0 {
      if code[k] == '[' {
        BackScanDeeper(code, k - 1, depth - 1, more - 1);
      } else if code[k] == ']' {
        BackScanDeeper(code, k - 1, depth + 1, more + 1);
      } else {
        BackScanDeeper(code, k - 1, depth, more);
      }
    }
  }

  lemma UnmatchedSnoc(code: seq<char>, c: char)
    ensures Unmatched(code + [c]) == Unmatched(code) + (if c == ']' && BackScan(code, |code| - 1, 0) < 0 then 1 else 0)
  {
    assert (code + [c])[..|code|] == code;
    BackScanSnoc(code, c, |code| - 1, 0);
  }

  /** Appending a glyph does not change what an earlier `]` pops. */
  lemma PoppedSnoc(code: seq<char>, c: char, entry: seq<u16>, p: nat)
    requires p < |code|
    ensures Popped(code + [c], entry, p) == Popped(code, entry, p)
  {
    MatchingOpenSnocAt(code, c, p);
    assert (code + [c])[..p] == code[..p];
  }

  lemma PoppedSnocAll(code: seq<char>, c: char, entry: seq<u16>)
    ensures forall p :: 0 <= p < |code| ==> Popped(code + [c], entry, p) == Popped(code, entry, p)
  {
    forall p | 0 <= p < |code|
      ensures Popped(code + [c], entry, p) == Popped(code, entry, p)
    {
      PoppedSnoc(code, c, entry, p);
    }
  }

  /** The parts of `ScanChar` a glyph of each kind changes, when it does not fail. */
  lemma ScanCharParts(s: Scan, c: char)
    requires WellFormed(s) && !s.failed && s.pc == |s.code| && s.pc < ProgramSize && IsGlyph(c)
    requires !ScanChar(s, c).failed
    ensures var t := ScanChar(s, c);
      && t.code == s.code + [c] && t.pc == s.pc + 1 && !t.failed
      && (c == '[' ==> t.esp == s.esp + 1 && t.stack == s.stack[s.esp := s.pc as u16] && t.pairs == s.pairs)
      && (c == ']' ==>
            s.esp > 0 && t.esp == s.esp - 1 && t.stack == s.stack && t.pairs == s.pairs + [(s.stack[s.esp - 1] as nat, s.pc)])
      && (!IsBracket(c) ==> t.esp == s.esp && t.stack == s.stack && t.pairs == s.pairs)
  {
  }

  /** A backward scan from a glyph just appended: `[` closes one level, `]` opens one, others pass. */
  lemma BackScanLast(code: seq<char>, c: char, depth: nat)
    ensures c == '[' ==> BackScan(code + [c], |code|, 0) == |code|
    ensures c == '[' ==> BackScan(code + [c], |code|, depth + 1) == BackScan(code, |code| - 1, depth)
    ensures c == ']' ==> BackScan(code + [c], |code|, depth) == BackScan(code, |code| - 1, depth + 1)
    ensures !IsBracket(c) ==> BackScan(code + [c], |code|, depth) == BackScan(code, |code| - 1, depth)
  {
    BackScanSnoc(code, c, |code| - 1, depth);
    BackScanSnoc(code, c, |code| - 1, depth + 1);
  }

  lemma LeakPush(s: Scan, entry: seq<u16>)
    requires Leaked(s, entry) && s.pc < ProgramSize && s.esp < StackSize
    ensures Leaked(ScanChar(s, '['), entry)
  {
    var t := ScanChar(s, '[');
    ScanCharParts(s, '[');
    UnmatchedSnoc(s.code, '[');
    var base := |entry| - Unmatched(s.code);
    forall i | base <= i < t.esp
      ensures t.stack[i] as int == BackScan(t.code, t.pc - 1, t.esp - 1 - i)
    {
      if i < s.esp {
        BackScanLast(s.code, '[', s.esp - 1 - i);
      } else {
        BackScanLast(s.code, '[', 0);
      }
    }
    BackScanLast(s.code, '[', s.esp - base);
  }

  lemma LeakPop(s: Scan, entry: seq<u16>)
    requires Leaked(s, entry) && s.pc < ProgramSize && s.esp > 0
    ensures Leaked(ScanChar(s, ']'), entry)
    ensures Popped(ScanChar(s, ']').code, entry, s.pc) == s.stack[s.esp - 1] as int
  {
    var t := ScanChar(s, ']');
    ScanCharParts(s, ']');
    var base := |entry| - Unmatched(s.code);
    UnmatchedSnoc(s.code, ']');
    BackScanSnoc(s.code, ']', s.pc - 1, 0);
    assert t.code[..s.pc] == s.code;
    if s.esp == base {
      BackScanDeeper(s.code, s.pc - 1, 0, 1);
      BackScanLast(s.code, ']', 0);
    } else {
      forall i | base <= i < t.esp
        ensures t.stack[i] as int == BackScan(t.code, t.pc - 1, t.esp - 1 - i)
      {
        BackScanLast(s.code, ']', t.esp - 1 - i);
      }
      BackScanLast(s.code, ']', t.esp - base);
    }
  }

  lemma LeakOther(s: Scan, c: char, entry: seq<u16>)
    requires Leaked(s, entry) && s.pc < ProgramSize && IsGlyph(c) && !IsBracket(c)
    ensures Leaked(ScanChar(s, c), entry)
  {
    var t := ScanChar(s, c);
    ScanCharParts(s, c);
    UnmatchedSnoc(s.code, c);
    var base := |entry| - Unmatched(s.code);
    forall i | base <= i < t.esp
      ensures t.stack[i] as int == BackScan(t.code, t.pc - 1, t.esp - 1 - i)
    {
      BackScanLast(s.code, c, s.esp - 1 - i);
    }
    BackScanLast(s.code, c, s.esp - base);
  }

  /** A glyph keeps the recorded pops right, given what it pops, if it is a `]`. */
  lemma PopsSnoc(s: Scan, c: char, entry: seq<u16>)
    requires WellFormed(s) && !s.failed && s.pc == |s.code| && s.pc < ProgramSize && IsGlyph(c)
    requires !ScanChar(s, c).failed && PopsOk(s, entry)
    requires c == ']' ==> Popped(s.code + [c], entry, s.pc) == s.stack[s.esp - 1] as int
    ensures PopsOk(ScanChar(s, c), entry)
  {
    var t := ScanChar(s, c);
    ScanCharParts(s, c);
    PoppedSnocAll(s.code, c, entry);
    forall n | 0 <= n < |t.pairs|
      ensures PopOk(t.code, entry, t.pairs[n])
    {
      if n < |s.pairs| {
        assert t.pairs[n] == s.pairs[n];
        assert PopOk(s.code, entry, s.pairs[n]);
      }
    }
    forall p | 0 <= p < t.pc && t.code[p] == ']'
      ensures Popped(t.code, entry, p) >= 0 && (Popped(t.code, entry, p) as nat, p) in t.pairs
    {
      if p < s.pc {
        assert t.code[p] == s.code[p];
        assert (Popped(s.code, entry, p) as nat, p) in s.pairs;
      }
    }
  }

  /** One non-failing iteration keeps the stack and pop facts, whatever the entry stack. */
  lemma ScanCharLeaked(s: Scan, c: char, entry: seq<u16>)
    requires Leaked(s, entry) && PopsOk(s, entry) && s.pc < ProgramSize && !ScanChar(s, c).failed
    ensures Leaked(ScanChar(s, c), entry) && PopsOk(ScanChar(s, c), entry)
  {
    if IsGlyph(c) {
      if c == '[' {
        LeakPush(s, entry);
      } else if c == ']' {
        LeakPop(s, entry);
      } else {
        LeakOther(s, c, entry);
      }
      PopsSnoc(s, c, entry);
    }
  }

  lemma {:induction false} ScannedLeaked(s: Scan, rest: seq<char>, entry: seq<u16>)
    requires Leaked(s, entry) && PopsOk(s, entry)
    ensures var t := Scanned(s, rest);
      !t.failed ==> Leaked(t, entry) && PopsOk(t, entry)
    decreases |rest|
  {
    if rest != [] && s.pc < ProgramSize {
      var next := ScanChar(s, rest[0]);
      if !next.failed {
        ScanCharLeaked(s, rest[0], entry);
        ScannedLeaked(next, rest[1..], entry);
      }
    }
  }

  /**
   * The pops of a successful compile, for any stack left on entry: each
   * `]` pops the `[` a backward scan matches to it or, when it matches
   * none, the entry stack from the top down, and every `]` pops once.
   */
  lemma CompilePairs(instrs: seq<Instruction>, stack: seq<u16>, entry: nat, src: seq<char>)
    requires WellFormed(Start(instrs, stack, entry))
    requires !Compiled(Start(instrs, stack, entry), src).failed
    ensures var r := Compiled(Start(instrs, stack, entry), src); var g := Glyphs(src); var e := stack[..entry];
      && (forall n :: 0 <= n < |r.pairs| ==> PopOk(g, e, r.pairs[n]))
      && (forall p :: 0 <= p < |g| && g[p] == ']' ==> Popped(g, e, p) >= 0 && (Popped(g, e, p) as nat, p) in r.pairs)
  {
    var s := Start(instrs, stack, entry);
    ScannedLeaked(s, src, stack[..entry]);
    CompileShape(instrs, stack, entry, src);
  }

  /**
   * From an empty stack the pops follow the last-in-first-out discipline
   * alone: every `]` of a successful compile has a matching `[`, pops it,
   * and pops once.
   */
  lemma FreshCompilePairs(instrs: seq<Instruction>, stack: seq<u16>, src: seq<char>)
    requires WellFormed(Start(instrs, stack, 0))
    requires !Compiled(Start(instrs, stack, 0), src).failed
    ensures var r := Compiled(Start(instrs, stack, 0), src); var g := Glyphs(src);
      && (forall n :: 0 <= n < |r.pairs| ==>
            var pr := r.pairs[n]; pr.1 < |g| && g[pr.1] == ']' && pr.0 as int == MatchingOpen(g, pr.1))
      && (forall p :: 0 <= p < |g| && g[p] == ']' ==>
            MatchingOpen(g, p) >= 0 && (MatchingOpen(g, p) as nat, p) in r.pairs)
  {
    CompilePairs(instrs, stack, 0, src);
  }

  // ----- Consequences of the code as written -----

  /**
   * Because the links go into the operator fields, "[]" compiled from an
   * empty stack becomes OpInc (the `[` slot gets the `]` slot's index, 1),
   * OpEnd (the `]` slot gets the `[` slot's index, 0) and the END.
   */
  lemma LoopAtSlotZero(instrs: seq<Instruction>, stack: seq<u16>)
    requires WellFormed(Start(instrs, stack, 0))
    ensures var r := Compiled(Start(instrs, stack, 0), "[]");
      && !r.failed && r.pc + 1 == 3
      && r.instrs[0].operator == OpInc && r.instrs[1].operator == OpEnd && r.instrs[2].operator == OpEnd
  {
    var s0 := Start(instrs, stack, 0);
    var s1 := ScanChar(s0, '[');
    var s2 := ScanChar(s1, ']');
    assert "[]"[1..] == "]" && "]"[1..] == [];
    assert Scanned(s0, "[]") == Scanned(s1, "]") == Scanned(s2, []) == s2;
  }

  /**
   * Because the stack pointer is not reset, "[" fails and leaves one stack
   * slot in use, after which "]" compiles, popping that slot, although "]"
   * alone is rejected when the stack starts empty.
   */
  lemma LeakedStack(instrs: seq<Instruction>, stack: seq<u16>)
    requires WellFormed(Start(instrs, stack, 0))
    ensures Compiled(Start(instrs, stack, 0), "]").failed
    ensures var first := Compiled(Start(instrs, stack, 0), "[");
      && first.failed && first.esp == 1
      && !Compiled(Start(first.instrs, first.stack, first.esp), "]").failed
      && Compiled(Start(first.instrs, first.stack, first.esp), "]").pairs == [(0, 0)]
  {
    var s0 := Start(instrs, stack, 0);
    assert "]"[1..] == [] && "["[1..] == [];
    assert Scanned(s0, "]") == Scanned(ScanChar(s0, ']'), []);
    var s1 := ScanChar(s0, '[');
    assert Scanned(s0, "[") == Scanned(s1, []) == s1;
    var t0 := Start(s1.instrs, s1.stack, s1.esp);
    assert Scanned(t0, "]") == Scanned(ScanChar(t0, ']'), []);
  }

  // ----- The program structure and compile, in place -----

  /** The `program_t` structure: instructions, their count, and the compile stack. */
  class Program {
    const instructions: array<Instruction>
    var instrCount: u16
    const stack: array<u16>
    var esp: nat
    /** The (`[` slot, `]` slot) pairs the last compile popped. */
    ghost var pairs: seq<(nat, nat)>

    ghost predicate Valid()
      reads this, instructions, stack
    {
      && instructions.Length == ProgramSize
      && stack.Length == StackSize
      && esp <= StackSize
      && (forall i :: 0 <= i < StackSize ==> stack[i] < ProgramSize)
    }

    /** The structure as `compile` finds it on entry. */
    ghost function Entry(): Scan
      reads this, instructions, stack
    {
      Start(instructions[..], stack[..], esp)
    }

    /** The pass after reading some characters, with the local slot counter `pc`. */
    ghost function Current(pc: nat, code: seq<char>): Scan
      reads this, instructions, stack
    {
      Scan(instructions[..], stack[..], esp, pc, code, pairs, false)
    }

    /** The global `program`: zero-initialised storage. */
    constructor ()
      ensures Valid() && fresh(instructions) && fresh(stack)
      ensures instrCount == 0 && esp == 0 && pairs == []
      ensures forall k :: 0 <= k < ProgramSize ==> instructions[k] == Instruction(OpEnd, 0)
      ensures forall i :: 0 <= i < StackSize ==> stack[i] == 0
    {
      instructions := new Instruction[ProgramSize](_ => Instruction(OpEnd, 0));
      stack := new u16[StackSize](_ => 0);
      instrCount, esp, pairs := 0, 0, [];
    }

    /** `compile` (bfdb.c:255-317) over the characters of the source file. */
    method Compile(src: seq<char>) returns (ok: bool)
      requires Valid()
      modifies this, instructions, stack
      ensures Valid()
      ensures var r := Compiled(old(Entry()), src);
        && ok == !r.failed
        && instructions[..] == r.instrs && stack[..] == r.stack && esp == r.esp && pairs == r.pairs
        && instrCount as int == (if ok then r.pc + 1 else old(instrCount) as int)
    {
      ghost var entry := Entry();
      ghost var code: seq<char> := [];
      pairs := [];
      var pc: u16 := 0;
      var i := 0;
      while i < |src| && pc < ProgramSize as u16
        invariant Valid() && i <= |src| && pc <= ProgramSize && instrCount == old(instrCount)
        invariant Scanned(Current(pc, code), src[i..]) == Scanned(entry, src)
        decreases |src| - i
      {
        ghost var before := Current(pc, code);
        var c := src[i];
        i := i + 1;
        assert Scanned(before, src[i - 1..]) == Scanned(ScanChar(before, c), src[i..]);
        var stop: bool;
        pc, stop := ReadChar(c, pc, code);
        if stop {
          return false;
        }
        code := code + (if IsGlyph(c) then [c] else []);
      }
      if esp != 0 || pc == ProgramSize as u16 {
        return false;
      }
      instructions[pc] := instructions[pc].(operator := OpEnd);
      instrCount := pc + 1;
      return true;
    }

    /** One pass of the loop body (bfdb.c:266-306): the switch on `c`, then `pc++`. */
    method ReadChar(c: char, pc: u16, ghost code: seq<char>) returns (next: u16, stop: bool)
      requires Valid() && pc < ProgramSize
      modifies this, instructions, stack
      ensures Valid() && instrCount == old(instrCount)
      ensures var a := ScanChar(old(Current(pc, code)), c);
        && stop == a.failed
        && instructions[..] == a.instrs && stack[..] == a.stack && esp == a.esp && pairs == a.pairs
        && (!stop ==> next as int == a.pc && a.code == code + (if IsGlyph(c) then [c] else []))
    {
      next := pc;
      stop := false;
      if c == '>' {
        instructions[pc] := instructions[pc].(operator := OpInc);
      } else if c == '<' {
        instructions[pc] := instructions[pc].(operator := OpDec);
      } else if c == '+' {
        instructions[pc] := instructions[pc].(operator := OpAdd);
      } else if c == '-' {
        instructions[pc] := instructions[pc].(operator := OpSub);
      } else if c == '.' {
        instructions[pc] := instructions[pc].(operator := OpOut);
      } else if c == ',' {
        instructions[pc] := instructions[pc].(operator := OpIn);
      } else if c == '[' {
        stop := Open(pc, code);
        if stop {
          return;
        }
      } else if c == ']' {
        stop := Close(pc, code);
        if stop {
          return;
        }
      } else {
        next := Wrap16(next - 1);
      }
      next := Wrap16(next + 1);
    }

    /** The `[` case (bfdb.c:285-291). */
    method Open(pc: u16, ghost code: seq<char>) returns (stop: bool)
      requires Valid() && pc < ProgramSize
      modifies this, instructions, stack
      ensures Valid() && instrCount == old(instrCount)
      ensures var a := ScanChar(old(Current(pc, code)), '[');
        && stop == a.failed
        && instructions[..] == a.instrs && stack[..] == a.stack && esp == a.esp && pairs == a.pairs
    {
      instructions[pc] := instructions[pc].(operator := OpJmp);
      if esp == StackSize {
        return true;
      }
      stack[esp] := pc;
      esp := esp + 1;
      return false;
    }

    /** The `]` case (bfdb.c:292-300), with its double write of the `]` slot. */
    method Close(pc: u16, ghost code: seq<char>) returns (stop: bool)
      requires Valid() && pc < ProgramSize
      modifies this, instructions, stack
      ensures Valid() && instrCount == old(instrCount)
      ensures var a := ScanChar(old(Current(pc, code)), ']');
        && stop == a.failed
        && instructions[..] == a.instrs && stack[..] == a.stack && esp == a.esp && pairs == a.pairs
    {
      if esp == 0 {
        return true;
      }
      esp := esp - 1;
      var jmpPc := stack[esp];
      instructions[pc] := instructions[pc].(operator := OpRet);
      instructions[pc] := instructions[pc].(operator := jmpPc);
      instructions[jmpPc] := instructions[jmpPc].(operator := pc);
      pairs := pairs + [(jmpPc as nat, pc as nat)];
      return false;
    }
  }
}
