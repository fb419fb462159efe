/** Failure-compatible wrappers shared by every stage of the decompiler.

    tcldis.py raises Python exceptions (KeyError, IndexError, TypeError,
    AssertionError) whenever its input breaks an assumption; here each of
    those becomes an `Err` value naming what went wrong. */
module Wrappers {

  datatype Option<+T> = None | Some(value: T)

  /** Why a stage gave up. */
  datatype Error =
    | UnknownOpcode(opcode: int)          // INSTRUCTIONS has no entry for the byte
    | Truncated                           // an operand reader ran off the end of its bytes
    | NoneOperand                         // the NONE operand kind has no reader
    | MissingOperand(name: string)        // `ops[0]` of an instruction without operands
    | MissingTarget(loc: int)             // a jump without a decoded target location
    | TargetNotFound(target: int)         // the search for the instruction before a target fell off the list
    | EmptyInstructionList                // `insts[-1]` of an empty list
    | BoundaryCountMismatch               // `assert len(starts) == len(ends)`
    | BlockMisaligned(loc: int)           // a block does not begin or end where its boundary says
    | UnresolvedJump(target: int)         // the jump fixup found no block at the target
    | LiteralIndex(index: int)            // the literal pool has no entry for a push operand

  datatype Result<+T> = Ok(value: T) | Err(error: Error) {

    predicate IsFailure() {
      Err?
    }

    function PropagateFailure<U>(): Result<U>
      requires Err?
    {
      Err(error)
    }

    function Extract(): T
      requires Ok?
    {
      value
    }
  }
}
