# A verified model of the `bf.cc` Brainfuck interpreter

This project models the core of a small Brainfuck interpreter written in C++ and proves
properties of it in Dafny 4.11. The interpreter has three parts:

- `build_jumps` matches brackets. One left-to-right scan with a stack of pending `[`
  positions fills two tables: `forward` maps each `[` to its `]`, and `backward` maps each
  `]` to its `[`. The scan fails on an unmatched `]`, or when some `[` is still pending at
  the end.
- `bf` is the execution engine. It holds a 30000-cell `uint8_t` tape and two counters: the
  instruction counter `pc` and the data pointer `ptr`. Its loop dispatches on the character
  at `pc`. `+` and `-` wrap around modulo 256. `[` and `]` jump through the tables. `.`
  prints the current cell. `,` and unknown characters are fatal. The loop stops, and the
  run succeeds, as soon as `pc` runs past the program or `ptr` leaves the tape.
- `clean` prepares the raw source text. It drops `;` comments up to and including the end
  of the line, and it drops spaces and newlines.

Files and modules:

- `errors.dfy` (module `Errors`): the fatal conditions as values (`Error`), and `Result`.
  Each `exit(1)` of the program becomes one of these values, returned to the caller.
- `brackets.dfy` (module `Brackets`): `BuildJumps`, a method with the scan's loop, proved
  against a specification stated through nesting depth. `Depth(p, k)` is the number of `[`
  minus the number of `]` in `p[..k]`. `Matched` says when two brackets pair up, and
  `TableFor` says when a table is the jump table of a program. `Jump` is the table lookup.
- `engine.dfy` (module `Engine`): `Step`, one pass of the dispatch loop, as a function on
  a `State`, and `Exec`, which runs up to `fuel` passes. `Execute` is the loop itself: it
  allocates an `array<bv8>` tape and updates it in place, and it is proved equal to `Exec`.
  `Bf` runs `BuildJumps`, then `Execute`.
- `runs.dfy` (module `Runs`): whole runs of small programs.
- `cleaner.dfy` (module `Cleaner`): `Clean`, with the nested loops of `clean`, proved
  equal to `Cleaned`. `Cleaned` is defined through `CommentOpen`, a two-state automaton: a
  `;` opens a comment and a newline closes it.

## Model

| member | source | states |
|---|---|---|
| Brackets.BuildJumps | bf.cc:20-47 | The scan succeeds iff the program is balanced: no prefix has more `]` than `[`, and the whole has as many of each. It reports `UnmatchedClose(i)` iff some prefix underflows, and `i` is the first position where one does. It reports `UnmatchedOpen` iff nothing underflows but `[` outnumber `]`. On success the tables are the jump table of the program (`TableFor`). |
| Brackets.ScanOpen | bf.cc:29-30 | Pushing a `[` keeps the scan invariant: the stack holds exactly the pending `[` positions, at their nesting heights. |
| Brackets.ScanClose | bf.cc:31-38 | A `]` with a non-empty stack matches the `[` on top of the stack. Popping it and recording `backward[i] = top` and `forward[top] = i` keeps the invariant. |
| Brackets.ScanOther | bf.cc:28-41 | A non-bracket character changes neither the stack nor the tables. |
| Brackets.ScanUnderflow | bf.cc:32-35 | A `]` met with an empty stack is the first position where a prefix has more `]` than `[`. |
| Brackets.ScanDone | bf.cc:42-46 | An empty stack at the end means the tables hold every bracket of the program, all matched, and each table is the inverse of the other. |
| Brackets.ScanStackExact | bf.cc:26-41 | During the scan the stack is strictly increasing. It holds exactly the positions of `[` before `i` whose `]` has not been reached. |
| Brackets.MatchedIffBalanced | bf.cc:36-38 | A `[` at `o` and a `]` at `c > o` are a matched pair exactly when the text strictly between them is balanced. |
| Brackets.MatchedUnique | bf.cc:36 | Every bracket has at most one partner, in either direction. |
| Brackets.MatchedMostRecent | bf.cc:36 | The `[` a `]` matches is still open when the `]` is reached, and no `[` after it is: the `]` pairs with the most recent unmatched `[`. |
| Brackets.TableUnique | bf.cc:11-18 | Two tables that both satisfy `TableFor` for the same program are equal. So the jump table of a program is unique. |
| Brackets.Jump | bf.cc:49-58 | The lookup succeeds iff the key is in the table, and it then returns that key's entry. Otherwise it fails with `MissingJump` at that key. |
| Brackets.JumpOnTable | bf.cc:49-58 | On a program's own jump table, the `forward` lookup succeeds exactly at `[` positions and the `backward` lookup exactly at `]` positions. Each returns the matching bracket. |
| Engine.Running | bf.cc:66 | The loop guard: `pc` is inside the program and `ptr` is inside the tape, so a running machine has an instruction to read and a cell under the head. Its consequences are stated by ExecLeavesRange and ExecEdgeOfTape. |
| Engine.Step | bf.cc:68-102 | One pass of the dispatch switch. A pass that succeeds keeps the tape's length, never erases output and prints at most one byte (only `.` prints, bf.cc:90-93). A pass fails only on `,`, on a bracket, or on a character outside the instruction set. The rest of its meaning is stated by StepTape, StepWraps, StepEffects, StepControl, StepErrors and StepOnTable. |
| Engine.Exec | bf.cc:66-103 | The interpreter loop, run for at most `fuel` passes. Over any number of passes the output is only extended: what was printed stays a prefix of the final output. The rest of its meaning is stated by ExecFailure, ExecSafe, ExecLeavesRange and ExecFuelMono. |
| Engine.Initial | bf.cc:60-64 | The run starts with `pc = 0`, `ptr = 0`, an empty output, and a tape of `TAPE_LEN` (30000) cells that are all zero. |
| Engine.StepTape | bf.cc:69-101 | A pass never changes the tape's length and changes no cell but the current one. Only `+` and `-` change any cell. |
| Engine.StepWraps | bf.cc:70-75 | `+` sets the current cell to `(cell + 1) mod 256`, so 255 becomes 0. `-` sets it to `(cell + 255) mod 256`, so 0 becomes 255. |
| Engine.ByteWrap | bf.cc:71-74 | 8-bit increment and decrement, stated on the numeric value of the cell. |
| Engine.StepEffects | bf.cc:76-81 | Only `>` and `<` move the pointer, each by one. Only `.` changes the output: it appends the current cell. |
| Engine.StepControl | bf.cc:82-89 | `[` on a zero cell continues after `forward[pc]`, and `]` on a non-zero cell continues after `backward[pc]`. Either fails with `MissingJump` when the table has no entry. Every other instruction continues at `pc + 1` (bf.cc:102). |
| Engine.StepErrors | bf.cc:94-100 | `,` fails with `Unsupported`. A character outside the eight instructions fails with `Unknown` at its position. |
| Engine.StepOnTable | bf.cc:82-89 | With the program's own table, a pass fails only on `,` or an unknown character. A jump from a `[` lands just after its matching `]`, and a jump from a `]` lands just after its matching `[`. |
| Engine.Execute | bf.cc:59-104 | The dispatch loop over an in-place `bv8` tape array gives exactly the outcome of `Exec` from the initial state: the same output and the same ending. |
| Engine.Bf | bf.cc:59-104 | A bracket error is reported before anything runs, with no output. It is `UnmatchedClose` at the first underflowing `]`, or `UnmatchedOpen`. The run ends in a bracket error iff the program is unbalanced. A balanced program has a jump table, and it runs as `Exec` with that (unique) table. |
| Engine.ExecFuelMono | bf.cc:66-103 | A run that has finished or failed within some budget gives the same result with any larger budget, so the fuel bound never changes a result it lets through. |
| Engine.ExecFailure | bf.cc:66-103 | A run fails only on `,` in the program, on an unknown character at the reported position, or on a bracket with no table entry. Leaving the range of `pc` or `ptr` is never a failure. |
| Engine.ExecSafe | bf.cc:66-103 | A program made only of `+-<>[].`, run with its own jump table, never fails. It finishes, or it is still running when the budget is spent. |
| Engine.ExecLeavesRange | bf.cc:66 | A pass that takes `pc` or `ptr` out of range ends the run successfully, with the output printed so far. |
| Engine.ExecEdgeOfTape | bf.cc:66-81 | `>` on the last cell, or `<` on the first, ends the run successfully without an out-of-bounds access. |
| Runs.RunPrintsThree | bf.cc:59-104 | `+++.` prints the single byte 3 and finishes. |
| Runs.CountdownRound | bf.cc:73-89 | One round of `[-]` on a non-zero cell takes two passes. It lowers the cell by one, and it goes back to the `-` or, on reaching zero, leaves past the `]`. |
| Runs.CountdownLast | bf.cc:73-89 | The last round of `[-]`, on a cell holding 1, clears the cell in two passes and leaves past the `]`. |
| Runs.CountdownMore | bf.cc:73-89 | A round of `[-]` on a cell holding more than 1 hands over to the same state with the cell one less, which then ends where the whole loop ends. |
| Runs.ClearLoop | bf.cc:73-89 | `[-]` on a cell holding `v > 0` takes `2v` passes, leaves the cell at zero, and continues past the `]`. |
| Runs.CountdownTable | bf.cc:20-47 | The jump table of `+++++[-].` pairs positions 5 and 7. |
| Runs.RunPrintsZero | bf.cc:59-104 | `+++++[-].` prints the single byte 0 and finishes. |
| Runs.RunLoopOnce | bf.cc:59-104 | `+[-]` runs its loop once and finishes without printing. |
| Runs.RunFallsOffLeft | bf.cc:66-80 | `<` moves the pointer to -1, and the run finishes successfully without printing. |
| Runs.RunStopsOnInput | bf.cc:90-97 | `.,.` prints one byte, then fails on `,`. The byte printed before the failure stays in the output. |
| Cleaner.Clean | bf.cc:129-155 | The nested loops build exactly `Cleaned(input)`: the characters that are not spaces or newlines and are not inside a comment, in their original order. |
| Cleaner.CommentOpenMeans | bf.cc:135-141 | A comment is open at a position exactly when some earlier `;` has no newline between it and that position. |
| Cleaner.KeepMeans | bf.cc:135-151 | A character is kept exactly when it is neither a space nor a newline, and no `;` at or before it on its own line starts a comment. |
| Cleaner.KeptPrefixClean | bf.cc:144-151 | No space, newline or `;` survives cleaning. |
| Cleaner.KeptIndicesEmbed | bf.cc:131-150 | The kept positions are strictly increasing, and they pick the cleaned text out of the input character by character. |
| Cleaner.CleanedProperties | bf.cc:129-155 | The cleaned text contains no space, newline or `;`. It is an order-preserving subsequence of the input, so it is no longer than the input. |
| Cleaner.KeptPrefixIdentity | bf.cc:144-151 | In text without spaces, newlines or `;`, no comment is ever open and every character is kept. |
| Cleaner.CleanedIdempotent | bf.cc:144-151 | Cleaning is the identity on text without spaces, newlines or `;`. So cleaning twice gives the same result as cleaning once. |

## Left out

- `slurp` (bf.cc:106-127) reads the source file with `fopen`/`fread`. It is file I/O and is not modelled. Its `n < 0` check on a `size_t` can never fire.
- `main` (bf.cc:157-166) handles the command-line argument and wires `slurp`, `clean` and `bf` together. It is process plumbing and is not modelled.
- The text of diagnostics (`puts`, `printf`, `perror`) and `exit(1)` are not modelled. Each fatal path returns an `Error` value, and the model stops there.
- Printing is not modelled as I/O. `.` appends the cell to an output sequence of bytes. stdout buffering and the `(char)` cast are not modelled.
- `UnmatchedClose` carries the position of the offending `]`. The program prints a fixed message without it. The position is what the scan has at hand when it fails.
- `std::unordered_map` is modelled as a Dafny `map<int, int>`. Hashing and allocation are not modelled.
- Engine.Execute: runs at most `fuel` passes and returns `OutOfFuel` with the output so far when the budget is spent. The program loops without bound (`+[]` never halts), and Dafny methods must terminate. `ExecFuelMono` shows that a run which ends within the budget ends the same way with any larger one.
- Engine.Bf: takes the same `fuel` bound as `Execute`, for the same reason.
- The model's loop guard also stops when `pc < 0`. The program's guard (bf.cc:66) does not test this. Only a table that did not come from `build_jumps` could send `pc` below zero, and then the program would read outside the string. `StepOnTable` shows that jumps through the program's own table stay in range.
- `pc`, `ptr` and `len` are unbounded integers, not 32-bit `int`s. A program longer than 2^31 characters would truncate `len` in `bf.cc`, and the model does not capture that.
- `UnmatchedOpen` carries no position: the program's message names none (bf.cc:42-45).
- Program text is a sequence of Dafny `char`s (Unicode scalar values), while `std::string` holds bytes. For non-ASCII text the positions in `UnmatchedClose(i)` and `Unknown(c, pc)` count characters rather than bytes, and `c` is the whole character rather than its first byte. Output and success or failure are the same either way.
