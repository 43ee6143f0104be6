/** Lifting a decoded trace to a graph of basic blocks, one block per program counter. */
module Lifter {
  import opened Options
  import opened Program

  /** What a call block calls: a lifted function declared for that PC, or the function-call intrinsic. */
  datatype Callee = Lifted(pc: PC) | FunctionCallIntrinsic

  datatype Terminator =
    | Branch(target: PC)
    | CondBranch(taken: PC, notTaken: PC)
    | TailError
    | TailMissingBlock
    | TailJump
    | TailReturn
    | HyperCallThenJump
    /** Call, then compare the PC with `expected`: go to `fallThrough` if equal, return if not. */
    | CallAndCheck(callee: Callee, expected: PC, fallThrough: PC)
  {
    /** The blocks this terminator can branch to inside its own function. */
    function Targets(): set<PC> {
      match this
      case Branch(t) => {t}
      case CondBranch(t, n) => {t, n}
      case CallAndCheck(_, _, f) => {f}
      case _ => {}
    }
  }

  /** A block stores its own PC, then runs the lifted instruction it holds, if any. */
  datatype Block = Block(pc: PC, body: Option<Instruction>, terminator: Option<Terminator>)

  type Blocks = map<PC, Block>

  function GetOrCreateBlock(blocks: Blocks, pc: PC): Blocks {
    if pc in blocks then blocks else blocks[pc := Block(pc, None, None)]
  }

  /** The terminator that wires an instruction's block to its successors; a call to the next instruction gets none. */
  function TerminatorFor(inst: Instruction, declared: set<PC>): Option<Terminator> {
    if inst.Fails() then Some(TailError)
    else match inst.category
      case Normal => Some(Branch(inst.nextPc))
      case NoOp => Some(Branch(inst.nextPc))
      case DirectJump => Some(Branch(inst.branchTakenPc))
      case IndirectJump => Some(TailJump)
      case DirectFunctionCall =>
        if inst.branchTakenPc == inst.nextPc then None
        else
          var callee := if inst.branchTakenPc in declared then Lifted(inst.branchTakenPc) else FunctionCallIntrinsic;
          Some(CallAndCheck(callee, inst.nextPc, inst.nextPc))
      case IndirectFunctionCall => Some(CallAndCheck(FunctionCallIntrinsic, inst.nextPc, inst.nextPc))
      case FunctionReturn => Some(TailReturn)
      case AsyncHyperCall => Some(HyperCallThenJump)
      case _ => Some(CondBranch(inst.branchTakenPc, inst.branchNotTakenPc))
  }

  function BodyFor(inst: Instruction): Option<Instruction> {
    if inst.liftable then Some(inst) else None
  }

  function TargetsFor(inst: Instruction, declared: set<PC>): set<PC> {
    var t := TerminatorFor(inst, declared);
    if t.Some? then t.value.Targets() else {}
  }

  /** The PCs of a lifted function's blocks: its entry, its instructions and every PC they branch to. */
  ghost function BlockPcs(trace: Trace, pcs: set<PC>, declared: set<PC>): set<PC>
    requires pcs <= trace.instructions.Keys
  {
    {trace.pc} + pcs +
    (set pc, target | pc in pcs && target in TargetsFor(trace.instructions[pc], declared) :: target)
  }

  /** The graph that `LiftTrace` builds. */
  ghost predicate WellLifted(trace: Trace, declared: set<PC>, blocks: Blocks) {
    if trace.pc !in trace.instructions then
      blocks == map[trace.pc := Block(trace.pc, None, Some(TailError))]
    else
      && blocks.Keys == BlockPcs(trace, trace.instructions.Keys, declared)
      && forall pc <- blocks ::
           && blocks[pc].pc == pc
           && (pc in trace.instructions ==>
                 && blocks[pc].body == BodyFor(trace.instructions[pc])
                 && var t := TerminatorFor(trace.instructions[pc], declared);
                    blocks[pc].terminator == if t.Some? then t else Some(TailMissingBlock))
           && (pc !in trace.instructions ==> blocks[pc] == Block(pc, None, Some(TailMissingBlock)))
  }

  /** The block of `pc` once the instructions in `done` have been wired up. */
  ghost function WiredBlock(trace: Trace, declared: set<PC>, done: set<PC>, pc: PC): Block
    requires done <= trace.instructions.Keys
  {
    if pc in done then
      Block(pc, BodyFor(trace.instructions[pc]), TerminatorFor(trace.instructions[pc], declared))
    else
      Block(pc, None, None)
  }

  /** The state between two iterations of the instruction loop. */
  ghost predicate Wired(trace: Trace, declared: set<PC>, done: set<PC>, blocks: Blocks)
    requires done <= trace.instructions.Keys
  {
    && blocks.Keys == BlockPcs(trace, done, declared)
    && forall pc <- blocks :: blocks[pc] == WiredBlock(trace, declared, done, pc)
  }

  /**
   * Lifts a trace: one block per instruction, wired to its successors' blocks, and a missing-block
   * terminator on every block that is left without one.
   */
  method LiftTrace(trace: Trace, declared: set<PC>) returns (blocks: Blocks)
    ensures WellLifted(trace, declared, blocks)
  {
    var entry := trace.pc;
    blocks := GetOrCreateBlock(map[], entry);
    if entry !in trace.instructions {
      blocks := blocks[entry := blocks[entry].(terminator := Some(TailError))];
      return;
    }
    blocks := ConnectBlocks(trace, declared, blocks);
    blocks := TerminateStragglers(blocks);
  }

  /** Lifts each instruction into its own block and connects the blocks. */
  method ConnectBlocks(trace: Trace, declared: set<PC>, entry: Blocks) returns (blocks: Blocks)
    requires entry == map[trace.pc := Block(trace.pc, None, None)]
    ensures Wired(trace, declared, trace.instructions.Keys, blocks)
  {
    blocks := entry;
    var todo := trace.instructions.Keys;
    ghost var done := {};
    assert Wired(trace, declared, done, blocks);
    hide *;
    while todo != {}
      invariant todo !! done && todo + done == trace.instructions.Keys
      invariant Wired(trace, declared, done, blocks)
      decreases todo
    {
      var pc :| pc in todo;
      var inst := trace.instructions[pc];
      var created := CreateBlocks(blocks, {pc} + TargetsFor(inst, declared));
      WiredGrows(trace, declared, done, pc, blocks, created);
      blocks := created[pc := Block(pc, BodyFor(inst), TerminatorFor(inst, declared))];
      todo, done := todo - {pc}, done + {pc};
    }
    assert done == trace.instructions.Keys;
  }

  lemma WiredGrows(trace: Trace, declared: set<PC>, done: set<PC>, pc: PC, before: Blocks, created: Blocks)
    requires done <= trace.instructions.Keys && pc in trace.instructions.Keys - done
    requires Wired(trace, declared, done, before)
    requires created.Keys == before.Keys + ({pc} + TargetsFor(trace.instructions[pc], declared))
    requires forall p <- created :: created[p] == if p in before then before[p] else Block(p, None, None)
    ensures
      var inst := trace.instructions[pc];
      Wired(trace, declared, done + {pc},
            created[pc := Block(pc, BodyFor(inst), TerminatorFor(inst, declared))])
  {
    hide TargetsFor, TerminatorFor, BodyFor;
    assert BlockPcs(trace, done + {pc}, declared) ==
           BlockPcs(trace, done, declared) + {pc} + TargetsFor(trace.instructions[pc], declared);
  }

  /** Makes sure that a block exists for each of `pcs`; existing blocks stay as they are. */
  method CreateBlocks(before: Blocks, pcs: set<PC>) returns (blocks: Blocks)
    ensures blocks.Keys == before.Keys + pcs
    ensures forall pc <- blocks :: blocks[pc] == if pc in before then before[pc] else Block(pc, None, None)
  {
    blocks := before;
    var todo := pcs;
    while todo != {}
      invariant todo <= pcs
      invariant blocks.Keys == before.Keys + (pcs - todo)
      invariant forall pc <- blocks :: blocks[pc] == if pc in before then before[pc] else Block(pc, None, None)
      decreases todo
    {
      var pc :| pc in todo;
      blocks := GetOrCreateBlock(blocks, pc);
      todo := todo - {pc};
    }
  }

  /** Gives every block without a terminator the missing-block one. */
  method TerminateStragglers(wired: Blocks) returns (blocks: Blocks)
    ensures blocks.Keys == wired.Keys
    ensures forall pc <- blocks ::
      blocks[pc] == if wired[pc].terminator.Some? then wired[pc]
                    else wired[pc].(terminator := Some(TailMissingBlock))
  {
    blocks := wired;
    var todo := blocks.Keys;
    while todo != {}
      invariant todo <= blocks.Keys == wired.Keys
      invariant forall pc <- blocks ::
        blocks[pc] == if pc in todo || wired[pc].terminator.Some? then wired[pc]
                      else wired[pc].(terminator := Some(TailMissingBlock))
      decreases todo
    {
      var pc :| pc in todo;
      if blocks[pc].terminator.None? {
        blocks := blocks[pc := blocks[pc].(terminator := Some(TailMissingBlock))];
      }
      todo := todo - {pc};
    }
  }
}
