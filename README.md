# bfdb in Dafny

bfdb is a small interactive debugger for brainfuck programs, written as one C
file. This project models its core:

- the compiler, which turns brainfuck text into a fixed array of two-field instructions;
- the virtual machine, which interprets one instruction at a time;
- the command line: managing the tokens of `split` and dispatching `parse_command` over the command table;
- the debugger session: the global program, the runtime, the `loaded` flag, and the command handlers that guard and drive them.

Modules:

- `Ir` (ir.dfy): the capacities (4096 instructions, a stack of 512 pending
  `[` slots, 65535 cells), the C integer widths used (`unsigned char`,
  `unsigned short`, `unsigned int`) and conversion to them, the operator
  codes `OP_END` … `OP_RET`, and the instruction record.
- `Compiler` (compiler.dfy): `compile` as a pure fold (`ScanChar`,
  `Scanned`, `Compiled`) over a `Scan` state. It is specified by
  independent definitions over the glyph sequence of the input:
  - `Accepts`: the verdict;
  - `BackScan`/`MatchingOpen`: a backward bracket search, giving the pairing.

  The class `Program` holds the `program_t` arrays. It runs the same pass in
  place, and its `Compile` is proved to end in the state the fold computes.
- `Machine` (machine.dfy): one `dbg_interpret` call as a function `Step` on a
  state value, and the class `Runtime` (the tape is an `array`) whose
  `Interpret` is proved to move its fields exactly as `Step` says. Also
  `Continued`, the `cmd_continue` loop bounded by a step budget, and the
  invariant that the program counter of a running machine stays inside the
  compiled program.
- `Commands` (commands.dfy): strtok's tokens as a function, `split` as the C
  loop proved to return them, the command table, and the `parse_command`
  loop proved to call at most one handler, the one whose abbreviation is
  the first character of the first token.
- `Session` (session.dfy): the class `Debugger` with the globals and every
  handler. Its invariant `Valid` says:
  - no operand is ever non-zero;
  - a loaded program ends in `OP_END`;
  - a running machine's pc is below the instruction count.

  The last fact makes every `dbg_next` read a slot of the compiled program.
- `Scenarios` (scenarios.dfy): `++>+<-.` compiled into fresh storage and run
  for seven steps, with the resulting cells, pointer and output.

The model follows the code as written, also where it departs from what
bfdb.c itself suggests (for instance, `instruction_t` at bfdb.c:24-28
declares an `operand` field beside the operator, and nothing ever writes it):

- `compile`'s `]` case writes both bracket links into the operator fields
  (bfdb.c:297-299), overwriting the `OP_RET` just stored; no operand is ever
  written. So every jump the machine takes lands on slot 1, and a bracket
  slot executes as whatever operator its partner's index happens to be
  (`LoopAtSlotZero`).
- `compile` does not reset `esp`, so a compile that fails with brackets open
  leaves them on the stack for the next one (`LeakedStack`). A failed
  compile also leaves the slots it already wrote changed, while
  `instr_count` keeps its old value.
- `dbg_load` stops the runtime in every case. When the file cannot be opened,
  `loaded` keeps its previous value.

## Model

| member | source | states |
|---|---|---|
| Ir.Wrap16 | bfdb.c:521-525 | conversion to `unsigned short` keeps values in range and is congruent to its argument modulo 2^16 |
| Ir.Wrap32 | bfdb.c:531 | conversion to `unsigned int` keeps values in range and is congruent modulo 2^32 |
| Ir.Wrap8 | bfdb.c:528 | the byte `putchar` writes is the value modulo 2^8 |
| Ir.OpCode | bfdb.c:266-284 | each glyph other than a bracket compiles to one of OP_INC … OP_IN |
| Compiler.ScanChar | bfdb.c:266-306 | one loop iteration keeps the structure well formed, never touches an operand, and advances the slot counter exactly on a glyph |
| Compiler.Scanned | bfdb.c:265-307 | the loop keeps the structure well formed and the operands unchanged; a failed state is final |
| Compiler.Compiled | bfdb.c:255-317 | whole compile: on success the stack is empty, fewer than 4096 slots are used and OP_END follows the last glyph |
| Compiler.Glyphs | bfdb.c:301-303 | the characters that take a slot: other characters are skipped (`pc--`) |
| Compiler.BackScan | bfdb.c:285-299 | the reference bracket search finds a `[` at or before its start, or -1 |
| Compiler.ScannedVerdict | bfdb.c:265-307 | from any prefix the loop has tracked, success on the rest holds exactly when the reference `Accepts` holds for its glyphs |
| Compiler.CompileVerdict | bfdb.c:285-311 | compile succeeds if and only if the glyphs number fewer than 4096, no `]` meets an empty stack, no `[` meets a full one, and the stack ends empty, from any entry stack pointer |
| Compiler.CompileShape | bfdb.c:306-314 | on success one slot per glyph is used, OP_END is at the slot after them, esp is 0 and every operand is as before |
| Compiler.ScannedTracks | bfdb.c:265-307 | a loop that has not failed, also one stopped with every slot used, placed no faulting glyph and has esp equal to the entry depth plus the open `[` count of what it placed |
| Compiler.StackDepth | bfdb.c:265-307 | while no failure has happened, including when the loop stops with all 4096 slots used, esp is the entry depth plus the open `[` count of the glyphs placed; when the input runs out first, every glyph has been placed |
| Compiler.ScannedPaired | bfdb.c:285-300 | from an empty stack the loop keeps the stack equal to the pending `[` slots a backward scan finds and every `]` linked to its match |
| Compiler.FreshCompileSlots | bfdb.c:265-314 | after a successful compile from an empty stack each non-bracket glyph's operator is in its own slot in order, END follows, and later slots are untouched |
| Compiler.FreshCompileLinks | bfdb.c:292-299 | after it every `]` slot holds its matching `[` slot's index and that `[` slot holds the `]` slot's index, both in the operator field |
| Compiler.ScannedLeaked | bfdb.c:285-300 | from any entry stack the loop keeps the entry slots not yet popped at the bottom of the stack, the pending `[` slots of a backward scan above them, and one recorded pop per `]` read, as `Popped` says |
| Compiler.CompilePairs | bfdb.c:290-296 | for any stack left on entry, each `]` of a successful compile pops the `[` the backward scan matches to it or, when it matches none, the entry stack from the top down; every `]` pops once |
| Compiler.FreshCompilePairs | bfdb.c:290-296 | from an empty stack every `]` has a matching `[`, pops it, and pops once: the pops are last-in-first-out |
| Compiler.LoopAtSlotZero | bfdb.c:297-299 | `[]` compiles to OP_INC, OP_END, OP_END because the links overwrite the operators |
| Compiler.LeakedStack | bfdb.c:285-296 | `]` alone is rejected from an empty stack, but accepted after a failed `[` leaves esp at 1, popping the leaked slot 0 |
| Compiler.Program.constructor | bfdb.c:42-57 | the global program: zeroed instructions and stack, count and esp 0 |
| Compiler.Program.Compile | bfdb.c:255-317 | the in-place compile ends with the arrays, esp and verdict that `Compiled` gives; instr_count becomes slots used plus one on success and is otherwise unchanged |
| Compiler.Program.ReadChar | bfdb.c:266-306 | one switch pass over the arrays matches `ScanChar`, including the unsigned wrap of `pc--` |
| Compiler.Program.Open | bfdb.c:285-291 | the `[` case: mark OP_JMP, fail on a full stack, else push the slot |
| Compiler.Program.Close | bfdb.c:292-300 | the `]` case: fail on an empty stack, else pop and write both links into the operator fields |
| Machine.InputCell | bfdb.c:530-531 | `,` stores the input byte, or 0xFFFF at end of input |
| Machine.Step | bfdb.c:492-549 | `dbg_interpret` terminates exactly on OP_END or a pointer fault, and then changes only `running`; otherwise pc advances past the instruction or past a taken jump's operand, and only the current cell, the pointer, the input and the output change, as each operator says |
| Machine.StepStaysInProgram | bfdb.c:551-553 | with operands all 0 and END at the last slot, a step keeps a running pc inside the program and a taken jump lands on slot 1 |
| Machine.Continued | bfdb.c:414-419 | the continue loop keeps the pc inside the program and reports termination exactly when the machine has stopped |
| Machine.ContinuedMoreFuel | bfdb.c:419 | once the loop has terminated, a larger step budget gives the same outcome |
| Machine.Runtime.constructor | bfdb.c:74-89 | the global runtime: stopped, zero tape, pc and ptr 0 |
| Machine.Runtime.Reset | bfdb.c:484-490 | `dbg_run` zeroes the tape, sets pc and ptr to 0 and starts the machine |
| Machine.Runtime.Interpret | bfdb.c:492-549 | the in-place interpreter returns and leaves exactly what `Step` gives |
| Commands.RunLength | bfdb.c:235-241 | the run at the front holds no delimiter and stops at one, or at the end |
| Commands.Tokens | bfdb.c:235-241 | strtok's tokens are non-empty and free of delimiters |
| Commands.TokensOfJoin | bfdb.c:228-253 | round trip: non-empty delimiter-free words joined by a delimiter tokenise back to themselves |
| Commands.NoTokens | bfdb.c:235-237 | a text of delimiters only has no token |
| Commands.NextToken | bfdb.c:235-241 | one strtok call returns the first token of the rest and the resume position, or none when no token remains |
| Commands.SkipDelimiters | bfdb.c:235-241 | strtok's first scan stops at the end or at a non-delimiter, and the delimiters it passes contribute no token |
| Commands.TokenEnd | bfdb.c:235-241 | strtok's second scan stops at the end or at the first delimiter after the token start, passing only non-delimiters |
| Commands.TokenThen | bfdb.c:235-241 | the maximal run from the token start is the first token, and the tokens after it are those after the delimiter that ends it |
| Commands.Split | bfdb.c:228-253 | `split` returns exactly the tokens, in order, and nothing when either argument is null |
| Commands.TableWellFormed | bfdb.c:149-159 | the table lists every command once with distinct abbreviations, each name starting with its abbreviation |
| Commands.ByAbbr | bfdb.c:149-159 | the lookup returns a command exactly when that command's abbreviation is the character |
| Commands.Firing | bfdb.c:330-339 | the commands that fire are exactly those of the table that pass the name-or-abbreviation test |
| Commands.FiresByAbbr | bfdb.c:333 | the name comparison adds nothing: a command fires exactly when its abbreviation begins the token |
| Commands.AtMostOneFires | bfdb.c:330-339 | with distinct abbreviations at most one command fires |
| Commands.FiringOnTable | bfdb.c:330-339 | on the table, exactly the command named by the first character fires |
| Commands.ParseCommand | bfdb.c:319-348 | an empty line calls nothing; otherwise the single handler selected by the first character of the first token is called, with the second token exactly when there are two tokens |
| Commands.DispatchOnTable | bfdb.c:330-338 | the calls the table produces for a token and argument |
| Session.Debugger.constructor | bfdb.c:57-89 | nothing loaded, runtime stopped, invariant established; the program structure is zeroed: instruction count 0, esp 0, every slot OP_END with operand 0, every stack slot 0 |
| Session.Debugger.Load | bfdb.c:448-467 | `Loaded`: the runtime stops and nothing else of it changes; on open `loaded` becomes the compile verdict, and the instructions, stack, esp and instr_count are what `Compiled` gives (instr_count unchanged on failure); otherwise the program and `loaded` are unchanged |
| Session.Debugger.CmdFile | bfdb.c:373-379 | `FileDone`: without an argument nothing changes; with one, exactly what `Load` leaves, on the file's text when the name opens and on no file otherwise |
| Session.Debugger.CmdRun | bfdb.c:381-389 | `RunDone`: with a program loaded the runtime restarts on a zero tape at slot 0; otherwise nothing changes |
| Session.Debugger.Next | bfdb.c:551-553 | the step at pc is the `Step` of the compiled instruction there, its result is "not running", and the invariant holds |
| Session.Debugger.CmdNext | bfdb.c:391-399 | `NextDone`: one `Step` of the instruction at pc while running; otherwise nothing changes |
| Session.Debugger.Jump | bfdb.c:555-566 | an index in 1..instr_count moves pc to index-1; any other index leaves the runtime unchanged |
| Session.Debugger.CmdJump | bfdb.c:401-412 | `JumpDone`: pc moves to index-1 only while running, with an argument, and for an index in 1..instr_count; otherwise the runtime is unchanged |
| Session.Debugger.CmdContinue | bfdb.c:414-423 | `ContinueDone`: while running, the runtime ends where `Continued` says; otherwise nothing changes |
| Session.Debugger.Round | bfdb.c:419 | one `dbg_next` call of the loop is one round of `Continued` |
| Session.Debugger.CmdDataptr | bfdb.c:425-433 | the data pointer is reported exactly while running, and it is on the tape |
| Session.Debugger.Print | bfdb.c:572-583 | an index off the tape is reported out of range; otherwise the cell's value and whether it is printable |
| Session.Debugger.CmdPrint | bfdb.c:435-446 | while running, the cell at the given index or at the pointer, out of range exactly off the tape, with its `isprint` flag; nothing when stopped |
| Session.Debugger.Dispatch | bfdb.c:336-338 | calling one command's handler changes the session exactly as that handler's effect predicate says, and leaves it unchanged for `help`, `quit`, `dataptr` and `print` |
| Session.Debugger.Execute | bfdb.c:319-339 | the call made is exactly the command `ByAbbr` gives for the first character of the first token, with the second token as argument exactly when there are two; the session then changes exactly as that handler's effect predicate says (`FileDone`, `RunDone`, `NextDone`, `JumpDone`, `ContinueDone`), and not at all for `help`, `quit`, `dataptr`, `print` or no command |
| Scenarios.SourceAccepted | bfdb.c:309-311 | `++>+<-.` is all glyphs and is accepted |
| Scenarios.CompileSource | bfdb.c:255-317 | it compiles into slots 0..6 in order, END at slot 7 |
| Scenarios.RunSource | bfdb.c:484-549 | seven steps after `run` leave cells 0 and 1 at 1, the pointer at 0, output `[1]`, and pc at the END slot |

## Left out

- File I/O: `fopen`/`getc`/`fclose` are not modelled. A file's text is a `seq<char>`, and `CmdFile` takes a map from names that open to their text.
- Console text is not modelled: the messages printed by `printf`/`fprintf`, `cmd_help`, `dbg_print_op`, and the text of `dbg_error`. Only `dbg_error`'s effect, stopping the runtime, is kept. `Print` returns the cell and its printability instead of printing them.
- The REPL is not modelled: `main`'s loop, `fgets` into the 32-byte `COMMAND_SZ` buffer (so a line longer than 31 characters is read as several commands), and `cmd_quit`'s `run` flag, which only ends that loop.
- `strtol` is a function parameter of `Execute`, because it is a C library conversion.
- `strdup`, `realloc` and `free` are not modelled: `split` returns a sequence, so allocation and its failure do not appear.
- The null checks on the `prog` and `runtime` pointers are not modelled: the model never passes null.
- Commands.ParseCommand: a non-empty line made only of spaces is excluded by precondition, because bfdb then dereferences a null token array.
- `getchar` and `putchar`: the program's input and output are sequences held by the runtime.
- `isprint` is taken as printable ASCII, 32 to 126, as in the C locale.
- Machine.Continued: `cmd_continue` loops until `dbg_next` reports termination, which need not happen. The model runs at most `fuel` steps, so a non-terminating program is seen only up to that budget.
- Session.Debugger.CmdContinue: likewise bounded by `fuel` steps.
- Session.Debugger.Next: requires a running machine, which both of its callers (`cmd_next`, `cmd_continue`) check first. The same pc bound would not hold for `dbg_next` called while stopped.
- The `dbg_error` message names the glyph of the failing instruction. It is only reached from the OP_INC and OP_DEC cases, so the operator is 1 or 2; a bracket slot whose link value is 1 or 2 is reported as `>` or `<`. That text is not modelled.
