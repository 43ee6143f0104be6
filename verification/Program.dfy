/** The guest program as the translator sees it: program counters, decoded instructions and traces. */
module Program {

  const PC_LIMIT: nat := 0x1_0000_0000_0000_0000

  /** A 64-bit program counter. */
  type PC = pc: nat | pc < PC_LIMIT

  datatype Category =
    | Invalid
    | Error
    | Normal
    | NoOp
    | DirectJump
    | IndirectJump
    | DirectFunctionCall
    | IndirectFunctionCall
    | FunctionReturn
    | ConditionalBranch
    | AsyncHyperCall
    | ConditionalAsyncHyperCall

  /** A decoded instruction. `liftable` says whether the instruction lifter has semantics for it. */
  datatype Instruction = Instruction(
    pc: PC,
    nextPc: PC,
    category: Category,
    branchTakenPc: PC,
    branchNotTakenPc: PC,
    liftable: bool)
  {
    /** The lifted block of a failing instruction ends in the error intrinsic. */
    predicate Fails() {
      !liftable || category.Invalid? || category.Error?
    }
  }

  /** What decoding the bytes at a PC gives: an instruction in every case, and whether decoding succeeded. */
  datatype Decoded = Decoded(inst: Instruction, ok: bool)

  /** Fixed code: the result of decoding at each PC. */
  type Code = PC -> Decoded

  /** The instructions of one trace, keyed by PC, with the PC of the trace's head. */
  datatype Trace = Trace(pc: PC, instructions: map<PC, Instruction>)

  /** Every instruction of the trace is the one the code has at that PC. */
  ghost predicate FromCode(trace: Trace, code: Code) {
    forall pc <- trace.instructions :: trace.instructions[pc] == code(pc).inst
  }
}
