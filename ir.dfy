/**
 * The intermediate representation of bfdb: capacities, C integer widths,
 * operator codes and the two-field instruction record.
 */
module Ir {

  datatype Option<T> = None | Some(value: T)

  /** Capacity of the instruction array of a program. */
  const ProgramSize: nat := 4096
  /** Capacity of the stack of pending `[` slots used while compiling. */
  const StackSize: nat := 512
  /** Number of cells of the tape. */
  const DataSize: nat := 65535

  type u8 = x: int | 0 <= x < 0x100
  type u16 = x: int | 0 <= x < 0x1_0000
  type u32 = x: int | 0 <= x < 0x1_0000_0000

  /** Conversion to `unsigned short`: C keeps the value modulo 2^16. */
  function Wrap16(x: int): (r: u16)
    ensures 0 <= x < 0x1_0000 ==> r == x
    ensures (r - x) % 0x1_0000 == 0
  {
    x % 0x1_0000
  }

  /** Conversion to `unsigned int`: C keeps the value modulo 2^32. */
  function Wrap32(x: int): (r: u32)
    ensures 0 <= x < 0x1_0000_0000 ==> r == x
    ensures (r - x) % 0x1_0000_0000 == 0
  {
    x % 0x1_0000_0000
  }

  /** Conversion to `unsigned char`, as `putchar` does with its argument. */
  function Wrap8(x: int): (r: u8)
    ensures 0 <= x < 0x100 ==> r == x
    ensures (r - x) % 0x100 == 0
  {
    x % 0x100
  }

  /*
   * Operator codes. The field that holds them is a plain `unsigned short`,
   * and the compiler stores slot indices into it, so an operator is a u16
   * and not a closed enumeration.
   */
  const OpEnd: u16 := 0
  const OpInc: u16 := 1
  const OpDec: u16 := 2
  const OpAdd: u16 := 3
  const OpSub: u16 := 4
  const OpOut: u16 := 5
  const OpIn: u16 := 6
  const OpJmp: u16 := 7
  const OpRet: u16 := 8

  /** An instruction: an operator and the operand the jumps use. */
  datatype Instruction = Instruction(operator: u16, operand: u16)

  /** The eight characters the compiler turns into instructions. */
  predicate IsGlyph(c: char) {
    c == '>' || c == '<' || c == '+' || c == '-' || c == '.' || c == ',' || c == '[' || c == ']'
  }

  predicate IsBracket(c: char) {
    c == '[' || c == ']'
  }

  /** The operator a glyph other than a bracket compiles to. */
  function OpCode(c: char): (op: u16)
    requires IsGlyph(c) && !IsBracket(c)
    ensures OpInc <= op <= OpIn
  {
    match c
    case '>' => OpInc
    case '<' => OpDec
    case '+' => OpAdd
    case '-' => OpSub
    case '.' => OpOut
    case ',' => OpIn
  }
}
