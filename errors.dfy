/** The interpreter's fatal conditions. Every `exit(1)` of `bf.cc`
    becomes one of these values, returned to the caller. */
module Errors {

  datatype Error =
    | UnmatchedClose(at: int)        // a `]` with no pending `[`, found while scanning position `at`
    | UnmatchedOpen                  // the scan ended with `[` still pending
    | MissingJump(at: int)           // no jump-table entry for the bracket at `at`
    | Unsupported                    // the input instruction `,` was reached
    | Unknown(instr: char, at: int)  // a character outside the instruction set was reached

  datatype Result<T> = Ok(value: T) | Err(error: Error)
}
