/** What decoded traces have to do with running them: where control can go from an instruction of a trace. */
module TraceFlow {
  import opened Options
  import opened Program
  import opened Decoder
  import opened Lifter
  import opened Interpreter

  /** What the lifter takes for the fall-through of a conditional branch is what the decoder takes for it. */
  predicate FallsThrough(inst: Instruction) {
    inst.category.ConditionalBranch? ==> inst.branchNotTakenPc == inst.nextPc
  }

  /**
   * Where control can go from an instruction by direct flow: to any PC that running it can result in. Calls,
   * and conditional hyper calls, go on behind themselves.
   */
  ghost predicate GoesTo(inst: Instruction, pc: PC, next: PC) {
    match inst.category
    case Normal => RunsTo(inst, pc, next)
    case NoOp => RunsTo(inst, pc, next)
    case DirectJump => RunsTo(inst, pc, next)
    case ConditionalBranch => RunsTo(inst, pc, next)
    case DirectFunctionCall => next == inst.nextPc
    case IndirectFunctionCall => next == inst.nextPc
    case ConditionalAsyncHyperCall => next == inst.nextPc
    case _ => false
  }

  ghost predicate RunsTo(inst: Instruction, pc: PC, next: PC) {
    exists e: Effect<()> :: Conforming(inst, pc, (), e) && e.pc == next
  }

  /** Direct flow does not leave these PCs. */
  ghost predicate Closed(code: Code, pcs: iset<PC>) {
    forall pc <- pcs, next: PC :: GoesTo(code(pc).inst, pc, next) ==> next in pcs
  }

  ghost predicate TraceFallsThrough(code: Code, trace: Trace) {
    forall pc <- trace.instructions :: FallsThrough(code(pc).inst)
  }

  /** The decoder follows an instruction exactly to where control can go from it. */
  lemma DecoderFollowsFlow(inst: Instruction, pc: PC, next: PC)
    requires FallsThrough(inst)
    ensures GoesTo(inst, pc, next) <==> next in FlowSuccessors(inst)
  {
    var taken, notTaken := Effect((), next, true, None), Effect((), next, false, None);
    assert taken.pc == next && notTaken.pc == next;
    if Conforming(inst, pc, (), taken) || Conforming(inst, pc, (), notTaken) {
      assert RunsTo(inst, pc, next);
    }
  }

  /** The PCs of a trace that decodes are the least set that holds its head and that direct flow does not leave. */
  lemma TraceIsLeastClosed(code: Code, trace: Trace)
    requires ExactTrace(code, trace) && AllDecode(code, {trace.pc}) && TraceFallsThrough(code, trace)
    ensures Closed(code, iset pc | pc in trace.instructions)
    ensures forall pcs: iset<PC> | trace.pc in pcs && Closed(code, pcs) :: forall pc <- trace.instructions :: pc in pcs
  {
    hide FlowSuccessors, GoesTo, Reachable;
    forall pc <- trace.instructions, next: PC | GoesTo(code(pc).inst, pc, next) ensures next in trace.instructions {
      DecoderFollowsFlow(code(pc).inst, pc, next);
      assert Flows(code, pc, next);
      ReachableStep(code, {trace.pc}, pc, next);
    }
    forall pcs: iset<PC>, pc | trace.pc in pcs && Closed(code, pcs) && pc in trace.instructions ensures pc in pcs {
      var path := PathTo(code, {trace.pc}, pc);
      PathStaysInside(code, trace, pcs, path);
    }
  }

  lemma PathTo(code: Code, starts: set<PC>, pc: PC) returns (path: seq<PC>)
    requires Reachable(code, starts, pc)
    ensures IsPath(code, starts, path) && path[|path| - 1] == pc
  {
    path :| IsPath(code, starts, path) && path[|path| - 1] == pc;
  }

  lemma {:induction false} PathStaysInside(code: Code, trace: Trace, pcs: iset<PC>, path: seq<PC>)
    requires ExactTrace(code, trace) && TraceFallsThrough(code, trace) && trace.pc in pcs && Closed(code, pcs)
    requires IsPath(code, {trace.pc}, path)
    ensures path[|path| - 1] in pcs
    decreases |path|
  {
    hide FlowSuccessors, GoesTo;
    if |path| > 1 {
      var shorter := path[..|path| - 1];
      assert IsPath(code, {trace.pc}, shorter);
      PathStaysInside(code, trace, pcs, shorter);
      var (pc, next) := (path[|path| - 2], path[|path| - 1]);
      assert shorter[|shorter| - 1] == pc && Reachable(code, {trace.pc}, pc);
      assert Flows(code, pc, next);
      DecoderFollowsFlow(code(pc).inst, pc, next);
    }
  }

  /**
   * Running an instruction of a trace that decodes, other than a call, return, indirect jump or hyper call,
   * stays in the trace; and a call comes back to it.
   */
  lemma RunStaysInTrace<S(!new)>(code: Code, sem: Semantics<S>, trace: Trace, f: Flat<S>)
    requires ExactTrace(code, trace) && AllDecode(code, {trace.pc}) && TraceFallsThrough(code, trace)
    requires Conforms(code, sem) && f.pc in trace.instructions && !f.stopped
    ensures var category := code(f.pc).inst.category;
            && (category.Normal? || category.NoOp? || category.DirectJump? || category.ConditionalBranch? ==>
                  FlatStep(code, sem, f).pc in trace.instructions)
            && (category.DirectFunctionCall? || category.IndirectFunctionCall? ==>
                  code(f.pc).inst.nextPc in trace.instructions)
  {
    hide ExactTrace, AllDecode, TraceFallsThrough;
    TraceIsLeastClosed(code, trace);
    var pcs := iset pc | pc in trace.instructions;
    var inst := code(f.pc).inst;
    var e := sem.exec(inst, f.s);
    assert ConformsAt(inst, f.pc, sem, f.s);
    if inst.category.Normal? || inst.category.NoOp? || inst.category.DirectJump? || inst.category.ConditionalBranch? {
      var e' := Effect((), e.pc, e.taken, None);
      assert Conforming(inst, f.pc, (), e') && e'.pc == e.pc;
      StaysClosed(code, pcs, f.pc, e.pc);
    } else if inst.category.DirectFunctionCall? || inst.category.IndirectFunctionCall? {
      StaysClosed(code, pcs, f.pc, inst.nextPc);
    }
  }

  lemma StaysClosed(code: Code, pcs: iset<PC>, pc: PC, next: PC)
    requires Closed(code, pcs) && pc in pcs && GoesTo(code(pc).inst, pc, next)
    ensures next in pcs
  {
  }

  /**
   * The graph of a trace that decodes has a block for each of its instructions and no others. A block is left
   * to the missing-block intrinsic exactly if it calls the instruction behind it.
   */
  lemma NoBlockIsMissing(code: Code, trace: Trace, declared: set<PC>, blocks: Blocks)
    requires ExactTrace(code, trace) && AllDecode(code, {trace.pc}) && FromCode(trace, code)
    requires TraceFallsThrough(code, trace) && WellLifted(trace, declared, blocks)
    requires forall pc <- trace.instructions :: !code(pc).inst.category.ConditionalAsyncHyperCall?
    ensures blocks.Keys == trace.instructions.Keys
    ensures forall pc <- blocks ::
      var inst := code(pc).inst;
      blocks[pc].terminator == Some(TailMissingBlock) <==>
        !inst.Fails() && inst.category.DirectFunctionCall? && inst.branchTakenPc == inst.nextPc
  {
    hide Reachable;
    forall pc <- trace.instructions, target <- TargetsFor(code(pc).inst, declared)
      ensures target in trace.instructions
    {
      assert Flows(code, pc, target);
      ReachableStep(code, {trace.pc}, pc, target);
    }
  }

  /** The instruction is a direct call that goes somewhere else than to the instruction behind it. */
  predicate Calls(code: Code, pc: PC, target: PC) {
    var inst := code(pc).inst;
    code(pc).ok && inst.category.DirectFunctionCall? && inst.branchTakenPc == target && target != inst.nextPc
  }

  /** The heads of decoded traces are the PC asked for and the targets of direct calls, and all of these are marked. */
  lemma HeadsAreCallTargets(code: Code, heads: set<PC>, start: PC, traces: seq<Trace>, marked: set<PC>)
    requires forall trace <- traces :: GoodTrace(code, heads, marked, trace)
    requires CallOrder(code, start, traces)
    ensures forall trace <- traces, pc <- trace.instructions, target: PC | Calls(code, pc, target) :: target in marked
    ensures forall i | 0 <= i < |traces| && traces[i].pc != start ::
      exists trace <- traces[..i], pc <- trace.instructions :: Calls(code, pc, traces[i].pc)
  {
    forall trace <- traces, pc <- trace.instructions, target: PC | Calls(code, pc, target) ensures target in marked {
      assert target in TraceSuccessors(code(pc).inst) && target in CalledFrom(code, trace.instructions.Keys);
    }
    forall i | 0 <= i < |traces| && traces[i].pc != start
      ensures exists trace <- traces[..i], pc <- trace.instructions :: Calls(code, pc, traces[i].pc)
    {
      assert Called(code, start, traces[..i], traces[i].pc);
      var trace :| trace in traces[..i] && traces[i].pc in CalledFrom(code, trace.instructions.Keys);
      var pc: PC :| pc in trace.instructions && code(pc).ok && traces[i].pc in TraceSuccessors(code(pc).inst);
      assert Calls(code, pc, traces[i].pc);
    }
  }
}
