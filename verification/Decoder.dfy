/** Recursive-descent decoding of traces, with one worklist of trace heads and one of PCs. */
module Decoder {
  import opened Program

  /** Successors decoded into the same trace. */
  function FlowSuccessors(inst: Instruction): set<PC> {
    match inst.category
    case IndirectFunctionCall => {inst.nextPc}
    case DirectFunctionCall => {inst.nextPc}
    case Normal => {inst.nextPc}
    case NoOp => {inst.nextPc}
    case ConditionalAsyncHyperCall => {inst.nextPc}
    case DirectJump => {inst.branchTakenPc}
    case ConditionalBranch => {inst.branchTakenPc, inst.nextPc}
    case _ => {}
  }

  /** Targets that start traces of their own. */
  function TraceSuccessors(inst: Instruction): set<PC> {
    if inst.category.DirectFunctionCall? && inst.branchTakenPc != inst.nextPc then {inst.branchTakenPc} else {}
  }

  /** One step of direct flow. Nothing follows an instruction that does not decode. */
  predicate Flows(code: Code, pc: PC, next: PC) {
    code(pc).ok && next in FlowSuccessors(code(pc).inst)
  }

  /** `path` leads from one of `starts` along direct flow. */
  ghost predicate IsPath(code: Code, starts: set<PC>, path: seq<PC>) {
    && path != []
    && path[0] in starts
    && forall i | 0 <= i < |path| - 1 :: Flows(code, path[i], path[i + 1])
  }

  ghost predicate Reachable(code: Code, starts: set<PC>, pc: PC) {
    exists path :: IsPath(code, starts, path) && path[|path| - 1] == pc
  }

  predicate InRange(pc: int) {
    0 <= pc < PC_LIMIT
  }

  ghost function AllPcs(): set<PC> {
    set pc: PC | 0 <= pc < PC_LIMIT && InRange(pc)
  }

  ghost predicate IsLeast(pc: PC, s: set<PC>) {
    pc in s && forall other <- s :: pc <= other
  }

  lemma {:induction false} LeastExists(s: set<PC>) returns (least: PC)
    requires s != {}
    ensures IsLeast(least, s)
    decreases s
  {
    least :| least in s;
    var rest := s - {least};
    if rest != {} {
      var other := LeastExists(rest);
      assert s == rest + {least};
      if other < least {
        least := other;
      }
    } else {
      assert s == {least};
    }
  }

  /** The first element of an ordered set. */
  ghost function Least(s: set<PC>): (pc: PC)
    requires s != {}
    ensures IsLeast(pc, s)
  {
    assert exists pc: PC :: IsLeast(pc, s) by {
      var least := LeastExists(s);
    }
    var pc: PC :| IsLeast(pc, s);
    pc
  }

  // ---------------------------------------------------------------- decoding one trace

  /** The instructions decoded, the worklist that is left, and whether every decode succeeded. */
  datatype Progress = Progress(instructions: map<PC, Instruction>, work: set<PC>, ok: bool)

  /** The inner loop as a function: take the least PC; stop at the first failed decode. */
  ghost function DecodeFrom(code: Code, instructions: map<PC, Instruction>, work: set<PC>): Progress
    decreases AllPcs() - instructions.Keys, work
  {
    if work == {} then Progress(instructions, work, true)
    else
      var pc := Least(work);
      var rest := work - {pc};
      if pc in instructions then DecodeFrom(code, instructions, rest)
      else
        var inst := code(pc).inst;
        if !code(pc).ok then Progress(instructions[pc := inst], rest, false)
        else
          assert InRange(pc) && pc in AllPcs() - instructions.Keys;
          assert instructions[pc := inst].Keys == instructions.Keys + {pc};
          DecodeFrom(code, instructions[pc := inst], rest + FlowSuccessors(inst))
  }

  /** Every trace head called from a successfully decoded instruction. */
  ghost function CalledFrom(code: Code, pcs: set<PC>): set<PC> {
    set pc, target | pc in pcs && code(pc).ok && target in TraceSuccessors(code(pc).inst) :: target
  }

  /** Decodes one trace, starting from what the previous trace left in the worklist. */
  method DecodeTrace(code: Code, head: PC, leftover: set<PC>)
    returns (trace: Trace, work: set<PC>, called: set<PC>)
    ensures trace.pc == head
    ensures var p := DecodeFrom(code, map[], leftover + {head});
            trace.instructions == p.instructions && work == p.work
    ensures called == CalledFrom(code, trace.instructions.Keys)
  {
    work := leftover + {head};
    called := {};
    var instructions: map<PC, Instruction> := map[];
    trace := Trace(head, instructions);
    while work != {}
      invariant trace.pc == head
      invariant DecodeFrom(code, map[], leftover + {head}) == DecodeFrom(code, trace.instructions, work)
      invariant called == CalledFrom(code, trace.instructions.Keys)
      decreases AllPcs() - trace.instructions.Keys, work
    {
      ghost var least := LeastExists(work);
      var pc :| pc in work && forall other <- work :: pc <= other;
      assert pc == Least(work);
      assert InRange(pc) && pc in AllPcs();
      work := work - {pc};
      if pc in trace.instructions {
        continue;
      }
      var decoded := code(pc);
      trace := trace.(instructions := trace.instructions[pc := decoded.inst]);
      if !decoded.ok {
        break;
      }
      work := work + FlowSuccessors(decoded.inst);
      called := called + TraceSuccessors(decoded.inst);
    }
  }

  // ---------------------------------------------------------------- what a trace holds

  /** Everything reachable from `starts` by direct flow decodes. */
  ghost predicate AllDecode(code: Code, starts: set<PC>) {
    forall pc: PC :: Reachable(code, starts, pc) ==> code(pc).ok
  }

  /** The worklist invariant: decoded and pending PCs are reachable, and flow out of the decoded ones is covered. */
  ghost predicate Covers(code: Code, starts: set<PC>, instructions: map<PC, Instruction>, work: set<PC>) {
    && starts <= instructions.Keys + work
    && (forall pc <- instructions.Keys + work :: Reachable(code, starts, pc))
    && (forall pc <- instructions :: instructions[pc] == code(pc).inst && code(pc).ok)
    && (forall pc <- instructions :: FlowSuccessors(code(pc).inst) <= instructions.Keys + work)
  }

  lemma ReachableStep(code: Code, starts: set<PC>, pc: PC, next: PC)
    requires Reachable(code, starts, pc) && Flows(code, pc, next)
    ensures Reachable(code, starts, next)
  {
    var path :| IsPath(code, starts, path) && path[|path| - 1] == pc;
    assert IsPath(code, starts, path + [next]);
    assert (path + [next])[|path + [next]| - 1] == next;
  }

  lemma CoversStep(code: Code, starts: set<PC>, instructions: map<PC, Instruction>, work: set<PC>, pc: PC)
    requires Covers(code, starts, instructions, work) && pc in work && code(pc).ok
    ensures Covers(code, starts, instructions[pc := code(pc).inst], work - {pc} + FlowSuccessors(code(pc).inst))
  {
    hide Reachable, FlowSuccessors;
    var inst := code(pc).inst;
    forall next <- FlowSuccessors(inst) ensures Reachable(code, starts, next) {
      assert Flows(code, pc, next);
      ReachableStep(code, starts, pc, next);
    }
  }

  /** With an empty worklist, nothing reachable is missing. */
  lemma {:induction false} PathIsCovered(code: Code, starts: set<PC>, instructions: map<PC, Instruction>, path: seq<PC>)
    requires Covers(code, starts, instructions, {}) && IsPath(code, starts, path)
    ensures path[|path| - 1] in instructions
    decreases |path|
  {
    if |path| > 1 {
      var shorter := path[..|path| - 1];
      assert IsPath(code, starts, shorter);
      PathIsCovered(code, starts, instructions, shorter);
      assert Flows(code, path[|path| - 2], path[|path| - 1]);
    }
  }

  lemma {:induction false} DecodeFromCovers(
    code: Code, starts: set<PC>, instructions: map<PC, Instruction>, work: set<PC>)
    requires Covers(code, starts, instructions, work)
    ensures var p := DecodeFrom(code, instructions, work);
            && (forall pc <- p.instructions :: p.instructions[pc] == code(pc).inst && Reachable(code, starts, pc))
            && (p.ok ==> p.work == {} && Covers(code, starts, p.instructions, {}))
            && (!p.ok ==> exists pc <- p.instructions :: !code(pc).ok)
    decreases AllPcs() - instructions.Keys, work
  {
    hide Reachable, FlowSuccessors;
    if work != {} {
      var pc := Least(work);
      var rest := work - {pc};
      if pc in instructions {
        assert instructions.Keys + work == instructions.Keys + rest;
        DecodeFromCovers(code, starts, instructions, rest);
      } else if code(pc).ok {
        assert InRange(pc) && pc in AllPcs();
        CoversStep(code, starts, instructions, work, pc);
        DecodeFromCovers(code, starts, instructions[pc := code(pc).inst], rest + FlowSuccessors(code(pc).inst));
      }
    }
  }

  /**
   * A trace holds only PCs reachable by direct flow from the PCs it started with. Its decoding
   * succeeds exactly when all of those decode, and then it holds all of them.
   */
  lemma TraceIsReachableSet(code: Code, starts: set<PC>)
    ensures var p := DecodeFrom(code, map[], starts);
            && (forall pc <- p.instructions :: p.instructions[pc] == code(pc).inst && Reachable(code, starts, pc))
            && (p.ok <==> AllDecode(code, starts))
            && (p.ok ==> p.work == {} && forall pc: PC :: Reachable(code, starts, pc) <==> pc in p.instructions)
  {
    forall pc <- starts ensures Reachable(code, starts, pc) {
      assert IsPath(code, starts, [pc]);
      assert [pc][|[pc]| - 1] == pc;
    }
    DecodeFromCovers(code, starts, map[], starts);
    var p := DecodeFrom(code, map[], starts);
    if p.ok {
      forall pc: PC | Reachable(code, starts, pc) ensures pc in p.instructions {
        var path :| IsPath(code, starts, path) && path[|path| - 1] == pc;
        PathIsCovered(code, starts, p.instructions, path);
      }
    }
  }

  // ---------------------------------------------------------------- which traces hold their own head

  /** The PC can be reached from `starts` along PCs below `head` only, itself included. */
  ghost predicate ReachableBelow(code: Code, starts: set<PC>, head: PC, pc: PC) {
    exists path :: IsPathBelow(code, starts, head, path) && path[|path| - 1] == pc
  }

  ghost predicate IsPathBelow(code: Code, starts: set<PC>, head: PC, path: seq<PC>) {
    IsPath(code, starts, path) && forall i | 0 <= i < |path| :: path[i] < head
  }

  /** All that is decoded before `head`, because it is lower, decodes. */
  ghost predicate BelowDecodes(code: Code, starts: set<PC>, head: PC) {
    forall pc: PC | ReachableBelow(code, starts, head, pc) :: code(pc).ok
  }

  /** The worklist before `head` is taken from it. */
  ghost predicate CoversBelow(
    code: Code, starts: set<PC>, head: PC, instructions: map<PC, Instruction>, work: set<PC>)
  {
    && head in work && (forall pc <- starts | pc < head :: pc in instructions.Keys + work)
    && (forall pc <- instructions :: pc < head && code(pc).ok)
    && (forall pc <- instructions.Keys + work | pc < head :: ReachableBelow(code, starts, head, pc))
    && (forall pc <- instructions :: FlowSuccessors(code(pc).inst) <= instructions.Keys + work)
  }

  lemma CoversBelowStep(
    code: Code, starts: set<PC>, head: PC, instructions: map<PC, Instruction>, work: set<PC>, pc: PC)
    requires CoversBelow(code, starts, head, instructions, work) && pc in work && pc < head && code(pc).ok
    ensures CoversBelow(code, starts, head, instructions[pc := code(pc).inst],
                        work - {pc} + FlowSuccessors(code(pc).inst))
  {
    hide ReachableBelow, FlowSuccessors;
    forall next <- FlowSuccessors(code(pc).inst) | next < head ensures ReachableBelow(code, starts, head, next) {
      StepBelow(code, starts, head, pc, next);
    }
  }

  lemma StepBelow(code: Code, starts: set<PC>, head: PC, pc: PC, next: PC)
    requires ReachableBelow(code, starts, head, pc) && Flows(code, pc, next) && next < head
    ensures ReachableBelow(code, starts, head, next)
  {
    var path :| IsPathBelow(code, starts, head, path) && path[|path| - 1] == pc;
    assert IsPathBelow(code, starts, head, path + [next]);
    assert (path + [next])[|path + [next]| - 1] == next;
  }

  /** Once nothing lower is left, all that can be reached below has been decoded. */
  lemma {:induction false} PathBelowIsCovered(code: Code, starts: set<PC>, head: PC,
                                              instructions: map<PC, Instruction>, work: set<PC>, path: seq<PC>)
    requires CoversBelow(code, starts, head, instructions, work) && IsPathBelow(code, starts, head, path)
    requires forall pc <- work :: head <= pc
    ensures path[|path| - 1] in instructions
    decreases |path|
  {
    if |path| > 1 {
      var shorter := path[..|path| - 1];
      assert IsPathBelow(code, starts, head, shorter);
      PathBelowIsCovered(code, starts, head, instructions, work, shorter);
      assert Flows(code, path[|path| - 2], path[|path| - 1]);
    }
  }

  lemma {:induction false} DecodeFromKeeps(code: Code, instructions: map<PC, Instruction>, work: set<PC>)
    ensures instructions.Keys <= DecodeFrom(code, instructions, work).instructions.Keys
    decreases AllPcs() - instructions.Keys, work
  {
    if work != {} {
      var pc := Least(work);
      if pc in instructions {
        DecodeFromKeeps(code, instructions, work - {pc});
      } else if code(pc).ok {
        assert InRange(pc) && pc in AllPcs() - instructions.Keys;
        assert instructions[pc := code(pc).inst].Keys == instructions.Keys + {pc};
        DecodeFromKeeps(code, instructions[pc := code(pc).inst], work - {pc} + FlowSuccessors(code(pc).inst));
      }
    }
  }

  lemma {:induction false} HeadFromIff(
    code: Code, starts: set<PC>, head: PC, instructions: map<PC, Instruction>, work: set<PC>)
    requires CoversBelow(code, starts, head, instructions, work)
    ensures head in DecodeFrom(code, instructions, work).instructions <==> BelowDecodes(code, starts, head)
    decreases AllPcs() - instructions.Keys, work
  {
    hide ReachableBelow, FlowSuccessors;
    var pc := Least(work);
    var rest := work - {pc};
    if pc == head {
      HeadIsDecoded(code, instructions, work);
      forall p: PC | ReachableBelow(code, starts, head, p) ensures code(p).ok {
        BelowIsDecoded(code, starts, head, instructions, work, p);
      }
    } else if pc in instructions {
      assert instructions.Keys + work == instructions.Keys + rest;
      HeadFromIff(code, starts, head, instructions, rest);
    } else if code(pc).ok {
      assert InRange(pc) && pc in AllPcs();
      CoversBelowStep(code, starts, head, instructions, work, pc);
      HeadFromIff(code, starts, head, instructions[pc := code(pc).inst], rest + FlowSuccessors(code(pc).inst));
    }
  }

  lemma HeadIsDecoded(code: Code, instructions: map<PC, Instruction>, work: set<PC>)
    requires work != {} && Least(work) !in instructions
    ensures Least(work) in DecodeFrom(code, instructions, work).instructions
  {
    hide FlowSuccessors;
    var pc := Least(work);
    if code(pc).ok {
      assert InRange(pc) && pc in AllPcs();
      DecodeFromKeeps(code, instructions[pc := code(pc).inst], work - {pc} + FlowSuccessors(code(pc).inst));
    }
  }

  lemma BelowIsDecoded(code: Code, starts: set<PC>, head: PC, instructions: map<PC, Instruction>, work: set<PC>, pc: PC)
    requires CoversBelow(code, starts, head, instructions, work) && ReachableBelow(code, starts, head, pc)
    requires forall p <- work :: head <= p
    ensures code(pc).ok
  {
    var path :| IsPathBelow(code, starts, head, path) && path[|path| - 1] == pc;
    PathBelowIsCovered(code, starts, head, instructions, work, path);
  }

  /**
   * A trace holds its own head exactly if everything that what was left over leads to, along PCs
   * below the head, decodes: the lower PCs are taken first, and one that does not decode ends the trace.
   */
  lemma HoldsHeadIff(code: Code, leftover: set<PC>, head: PC)
    ensures head in DecodeFrom(code, map[], leftover + {head}).instructions <==> BelowDecodes(code, leftover, head)
  {
    hide FlowSuccessors;
    forall pc <- leftover | pc < head ensures ReachableBelow(code, leftover, head, pc) {
      assert IsPathBelow(code, leftover, head, [pc]);
      assert [pc][|[pc]| - 1] == pc;
    }
    HeadFromIff(code, leftover, head, map[], leftover + {head});
  }

  // ---------------------------------------------------------------- decoding all traces

  /** What every trace of the list satisfies, given the heads known before and after decoding. */
  ghost predicate GoodTrace(code: Code, before: set<PC>, after: set<PC>, trace: Trace) {
    && trace.pc in after - before
    && FromCode(trace, code)
    && CalledFrom(code, trace.instructions.Keys) <= after
  }

  /** The trace holds exactly the PCs reachable from its head by direct flow. */
  ghost predicate ExactTrace(code: Code, trace: Trace) {
    && trace.pc in trace.instructions
    && forall pc: PC :: Reachable(code, {trace.pc}, pc) <==> pc in trace.instructions
  }

  /** The traces so far are one for each newly marked head. */
  ghost predicate OnePerHead(before: set<PC>, heads: set<PC>, traces: seq<Trace>) {
    && before <= heads
    && (forall pc <- heads - before :: exists trace <- traces :: trace.pc == pc)
    && (forall i | 0 <= i < |traces| :: traces[i].pc in heads - before)
    && (forall i, j | 0 <= i < j < |traces| :: traces[i].pc != traces[j].pc)
  }

  /** Every trace decodes completely. */
  ghost predicate AllTracesDecode(code: Code, traces: seq<Trace>) {
    forall trace <- traces :: AllDecode(code, {trace.pc})
  }

  /** The first trace starts from an empty worklist, so it always holds its own head. */
  ghost predicate StartsAt(code: Code, start: PC, traces: seq<Trace>) {
    && traces != []
    && traces[0] == Trace(start, DecodeFrom(code, map[], {start}).instructions)
  }

  /** The worklist that decoding the traces one after the other leaves behind. */
  ghost function Leftover(code: Code, traces: seq<Trace>): set<PC> {
    if traces == [] then {} else
      var last := |traces| - 1;
      DecodeFrom(code, map[], Leftover(code, traces[..last]) + {traces[last].pc}).work
  }

  /** Each trace is what decoding gives from its head and what the traces before it left over. */
  ghost predicate AsDecoded(code: Code, traces: seq<Trace>) {
    forall i | 0 <= i < |traces| ::
      traces[i].instructions == DecodeFrom(code, map[], Leftover(code, traces[..i]) + {traces[i].pc}).instructions
  }

  /** Nothing left over keeps a trace from its head. */
  ghost predicate NothingInTheWay(code: Code, traces: seq<Trace>) {
    forall i | 0 <= i < |traces| :: BelowDecodes(code, Leftover(code, traces[..i]), traces[i].pc)
  }

  /** Every trace holds its own head exactly if nothing left over is in the way of any. */
  lemma TracesHoldHeadsIff(code: Code, traces: seq<Trace>)
    requires AsDecoded(code, traces)
    ensures (forall i | 0 <= i < |traces| :: traces[i].pc in traces[i].instructions) <==> NothingInTheWay(code, traces)
  {
    hide DecodeFrom, BelowDecodes, Leftover;
    forall i | 0 <= i < |traces|
      ensures traces[i].pc in traces[i].instructions <==> BelowDecodes(code, Leftover(code, traces[..i]), traces[i].pc)
    {
      HoldsHeadIff(code, Leftover(code, traces[..i]), traces[i].pc);
    }
  }

  /** The PC is the one decoding started from, or the target of a direct call in one of the traces. */
  ghost predicate Called(code: Code, start: PC, traces: seq<Trace>, pc: PC) {
    pc == start || exists trace <- traces :: pc in CalledFrom(code, trace.instructions.Keys)
  }

  /** Every trace is the starting one or is called from an earlier one. */
  ghost predicate CallOrder(code: Code, start: PC, traces: seq<Trace>) {
    forall i | 0 <= i < |traces| :: Called(code, start, traces[..i], traces[i].pc)
  }

  /** Marked, pending and decoded heads fit together. */
  ghost predicate HeadsOk(code: Code, heads: set<PC>, start: PC,
                          marked: set<PC>, traces: seq<Trace>, traceList: set<PC>) {
    && start in marked + traceList
    && OnePerHead(heads, marked, traces)
    && (forall trace <- traces :: GoodTrace(code, heads, marked + traceList, trace))
    && CallOrder(code, start, traces)
    && (forall pc <- traceList :: Called(code, start, traces, pc))
  }

  /** A trace is exact as long as it and the traces before it decode completely. */
  ghost predicate ExactWhileDecodable(code: Code, traces: seq<Trace>) {
    forall i | 0 <= i < |traces| :: AllTracesDecode(code, traces[..i + 1]) ==> ExactTrace(code, traces[i])
  }

  /** What the traces hold. */
  ghost predicate ContentsOk(code: Code, heads: set<PC>, start: PC, traces: seq<Trace>, workList: set<PC>) {
    && workList == Leftover(code, traces) && AsDecoded(code, traces)
    && (traces != [] && start !in heads ==> StartsAt(code, start, traces))
    && (AllTracesDecode(code, traces) ==> workList == {})
    && ExactWhileDecodable(code, traces)
  }

  /** The state of the outer loop: heads marked, traces decoded, heads pending, PCs pending. */
  ghost predicate Decoding(code: Code, heads: set<PC>, start: PC,
                           marked: set<PC>, traces: seq<Trace>, traceList: set<PC>, workList: set<PC>) {
    && HeadsOk(code, heads, start, marked, traces, traceList)
    && ContentsOk(code, heads, start, traces, workList)
  }

  /**
   * Decodes every trace reachable through direct calls from `start`, apart from those whose head is
   * already marked. `heads` is the address space's set of marked trace heads.
   */
  method DecodeTraces(code: Code, heads: set<PC>, start: PC) returns (traces: seq<Trace>, marked: set<PC>)
    ensures start in marked
    ensures OnePerHead(heads, marked, traces)
    ensures forall trace <- traces :: GoodTrace(code, heads, marked, trace)
    ensures CallOrder(code, start, traces)
    ensures start !in heads ==> StartsAt(code, start, traces)
    ensures AsDecoded(code, traces) && ExactWhileDecodable(code, traces)
  {
    traces := [];
    marked := heads;
    var traceList := {start};
    var workList: set<PC> := {};
    assert Decoding(code, heads, start, marked, traces, traceList, workList);
    while traceList != {}
      invariant Decoding(code, heads, start, marked, traces, traceList, workList)
      decreases AllPcs() - marked, traceList
    {
      hide Decoding;
      ghost var least := LeastExists(traceList);
      var head :| head in traceList && forall other <- traceList :: head <= other;
      ghost var pending := traceList;
      traceList := traceList - {head};
      if head in marked {
        SkipHead(code, heads, start, marked, traces, pending, workList, head);
        continue;
      }
      assert InRange(head) && head in AllPcs() - marked;
      var trace, rest, called := DecodeTrace(code, head, workList);
      AddTrace(code, heads, start, marked, traces, pending, workList, trace, rest, called);
      marked := marked + {head};
      workList := rest;
      traceList := traceList + called;
      traces := traces + [trace];
    }
    assert marked + {} == marked;
    assert start !in heads ==> start in marked - heads;
  }

  lemma SkipHead(code: Code, heads: set<PC>, start: PC,
                 marked: set<PC>, traces: seq<Trace>, traceList: set<PC>, workList: set<PC>, head: PC)
    requires Decoding(code, heads, start, marked, traces, traceList, workList) && head in marked * traceList
    ensures Decoding(code, heads, start, marked, traces, traceList - {head}, workList)
  {
    hide ContentsOk, OnePerHead, CallOrder, Called;
    assert marked + (traceList - {head}) == marked + traceList;
  }

  lemma AddTrace(code: Code, heads: set<PC>, start: PC,
                 marked: set<PC>, traces: seq<Trace>, traceList: set<PC>, workList: set<PC>,
                 trace: Trace, rest: set<PC>, called: set<PC>)
    requires Decoding(code, heads, start, marked, traces, traceList, workList)
    requires trace.pc in traceList - marked
    requires called == CalledFrom(code, trace.instructions.Keys)
    requires var p := DecodeFrom(code, map[], workList + {trace.pc});
             trace.instructions == p.instructions && rest == p.work
    ensures Decoding(code, heads, start, marked + {trace.pc}, traces + [trace],
                     traceList - {trace.pc} + called, rest)
  {
    TraceIsReachableSet(code, workList + {trace.pc});
    assert FromCode(trace, code);
    hide DecodeFrom, Reachable, HeadsOk, ContentsOk;
    AddKeepsHeads(code, heads, start, marked, traces, traceList, trace);
    AddKeepsContents(code, heads, start, marked, traces, traceList, workList, trace, rest);
  }

  lemma AddKeepsHeads(code: Code, heads: set<PC>, start: PC,
                      marked: set<PC>, traces: seq<Trace>, traceList: set<PC>, trace: Trace)
    requires HeadsOk(code, heads, start, marked, traces, traceList)
    requires trace.pc in traceList - marked && FromCode(trace, code)
    ensures HeadsOk(code, heads, start, marked + {trace.pc}, traces + [trace],
                    traceList - {trace.pc} + CalledFrom(code, trace.instructions.Keys))
  {
    hide CalledFrom, OnePerHead, FromCode, CallOrder, Called, GoodTrace;
    BeforeIsKept(heads, marked, traces);
    var called := CalledFrom(code, trace.instructions.Keys);
    assert marked + {trace.pc} + (traceList - {trace.pc} + called) == marked + traceList + called;
    AddKeepsGood(code, heads, marked + traceList, traces, trace);
    AddKeepsOnePerHead(heads, marked, traces, trace);
    AddKeepsCallOrder(code, start, traces, traceList, trace);
  }

  lemma AddKeepsContents(code: Code, heads: set<PC>, start: PC,
                         marked: set<PC>, traces: seq<Trace>, traceList: set<PC>, workList: set<PC>,
                         trace: Trace, rest: set<PC>)
    requires HeadsOk(code, heads, start, marked, traces, traceList)
    requires ContentsOk(code, heads, start, traces, workList)
    requires trace.pc in traceList - marked
    requires var p := DecodeFrom(code, map[], workList + {trace.pc});
             trace.instructions == p.instructions && rest == p.work
    ensures ContentsOk(code, heads, start, traces + [trace], rest)
  {
    hide DecodeFrom, Reachable, AllTracesDecode, ExactWhileDecodable, AsDecoded;
    NewTraceIsExact(code, traces, workList, trace, rest);
    AddKeepsDecoded(code, traces, trace);
    if traces == [] {
      assert Called(code, start, traces, trace.pc);
      assert workList + {trace.pc} == {start};
    } else if start !in heads {
      assert (traces + [trace])[0] == traces[0];
    }
  }

  lemma AddKeepsDecoded(code: Code, traces: seq<Trace>, trace: Trace)
    requires AsDecoded(code, traces)
    requires trace.instructions == DecodeFrom(code, map[], Leftover(code, traces) + {trace.pc}).instructions
    ensures AsDecoded(code, traces + [trace])
    ensures Leftover(code, traces + [trace]) == DecodeFrom(code, map[], Leftover(code, traces) + {trace.pc}).work
  {
    hide DecodeFrom;
    var all := traces + [trace];
    assert all[..|traces|] == traces;
    forall i | 0 <= i < |all|
      ensures all[i].instructions == DecodeFrom(code, map[], Leftover(code, all[..i]) + {all[i].pc}).instructions
    {
      if i < |traces| {
        assert all[..i] == traces[..i];
      }
    }
  }

  lemma AddKeepsGood(code: Code, heads: set<PC>, known: set<PC>, traces: seq<Trace>, trace: Trace)
    requires forall t <- traces :: GoodTrace(code, heads, known, t)
    requires trace.pc in known - heads && FromCode(trace, code)
    ensures forall t <- traces + [trace] ::
              GoodTrace(code, heads, known + CalledFrom(code, trace.instructions.Keys), t)
  {
    hide FromCode, CalledFrom;
  }

  lemma BeforeIsKept(before: set<PC>, heads: set<PC>, traces: seq<Trace>)
    requires OnePerHead(before, heads, traces)
    ensures before <= heads
  {
  }

  lemma AddKeepsOnePerHead(before: set<PC>, heads: set<PC>, traces: seq<Trace>, trace: Trace)
    requires OnePerHead(before, heads, traces) && trace.pc !in heads
    ensures OnePerHead(before, heads + {trace.pc}, traces + [trace])
  {
    var all := traces + [trace];
    forall pc <- heads + {trace.pc} - before ensures exists t <- all :: t.pc == pc {
      if pc == trace.pc {
        assert all[|traces|] == trace;
      } else {
        assert pc in heads - before;
        var t :| t in traces && t.pc == pc;
        assert t in all;
      }
    }
  }

  lemma AddKeepsCallOrder(code: Code, start: PC, traces: seq<Trace>, traceList: set<PC>, trace: Trace)
    requires CallOrder(code, start, traces) && trace.pc in traceList
    requires forall pc <- traceList :: Called(code, start, traces, pc)
    ensures CallOrder(code, start, traces + [trace])
    ensures forall pc <- traceList + CalledFrom(code, trace.instructions.Keys) ::
              Called(code, start, traces + [trace], pc)
  {
    hide CalledFrom;
    var all := traces + [trace];
    assert all[..|traces|] == traces;
    forall i | 0 <= i < |all| ensures Called(code, start, all[..i], all[i].pc) {
      if i < |traces| {
        assert all[..i] == traces[..i];
      }
    }
    assert all[|traces|] == trace;
    forall pc <- traceList + CalledFrom(code, trace.instructions.Keys) ensures Called(code, start, all, pc) {
      if pc in traceList && pc != start {
        var t :| t in traces && pc in CalledFrom(code, t.instructions.Keys);
        assert t in all;
      }
    }
  }

  lemma NewTraceIsExact(code: Code, traces: seq<Trace>, workList: set<PC>, trace: Trace, rest: set<PC>)
    requires AllTracesDecode(code, traces) ==> workList == {}
    requires ExactWhileDecodable(code, traces)
    requires var p := DecodeFrom(code, map[], workList + {trace.pc});
             trace.instructions == p.instructions && rest == p.work
    ensures AllTracesDecode(code, traces + [trace]) ==> rest == {}
    ensures ExactWhileDecodable(code, traces + [trace])
  {
    hide DecodeFrom, AllDecode;
    var all := traces + [trace];
    assert all[..|all|] == all;
    if AllTracesDecode(code, all) {
      assert AllTracesDecode(code, traces) by {
        forall t <- traces ensures AllDecode(code, {t.pc}) {
          assert t in all;
        }
      }
      assert trace in all;
      assert workList + {trace.pc} == {trace.pc};
      TraceIsReachableSet(code, {trace.pc});
      assert IsPath(code, {trace.pc}, [trace.pc]);
      assert [trace.pc][|[trace.pc]| - 1] == trace.pc;
      assert ExactTrace(code, trace);
    }
    forall i | 0 <= i < |all| && AllTracesDecode(code, all[..i + 1]) ensures ExactTrace(code, all[i]) {
      if i < |traces| {
        assert all[..i + 1] == traces[..i + 1];
      } else {
        assert all[..i + 1] == all;
      }
    }
  }

  // ---------------------------------------------------------------- a failed decode

  /**
   * 10 calls 50 and falls through to 11, which branches to 3 or 5; nothing decodes at 3 or 5.
   */
  function LeakyCode(pc: PC): Decoded {
    if pc == 10 then Decoded(Instruction(10, 11, DirectFunctionCall, 50, 11, true), true)
    else if pc == 11 then Decoded(Instruction(11, 5, ConditionalBranch, 3, 5, true), true)
    else if pc == 50 then Decoded(Instruction(50, 51, FunctionReturn, 51, 51, true), true)
    else Decoded(Instruction(pc, pc, Invalid, pc, pc, false), false)
  }

  /**
   * The worklist survives a failed decode, so the next trace starts with PCs of the previous one.
   * When one of those fails too, the next trace ends up without its own, decodable, head.
   */
  lemma FailedDecodeLosesNextHead()
    ensures var first := DecodeFrom(LeakyCode, map[], {10});
            var second := DecodeFrom(LeakyCode, map[], first.work + {50});
            && 50 in CalledFrom(LeakyCode, first.instructions.Keys)
            && first.work == {5}
            && LeakyCode(50).ok && 50 !in second.instructions
  {
    var i10 := LeakyCode(10).inst;
    var i11 := LeakyCode(11).inst;
    var m0: map<PC, Instruction> := map[];
    var m1 := m0[10 := i10];
    var m2 := m1[11 := i11];
    var empty: set<PC> := {};
    var only10: set<PC> := {10};
    var only11: set<PC> := {11};
    var targets: set<PC> := {3, 5};
    assert Least(only10) == 10 && only10 - {10} + FlowSuccessors(i10) == only11;
    assert DecodeFrom(LeakyCode, m0, only10) == DecodeFrom(LeakyCode, m1, only11);
    assert Least(only11) == 11 && only11 - {11} + FlowSuccessors(i11) == targets;
    assert DecodeFrom(LeakyCode, m1, only11) == DecodeFrom(LeakyCode, m2, targets);
    assert Least(targets) == 3 && targets - {3} == {5};
    var first := DecodeFrom(LeakyCode, m2, targets);
    assert first.work == {5} && 10 in first.instructions;
    assert 50 in TraceSuccessors(LeakyCode(10).inst);
    var next: set<PC> := {5, 50};
    assert first.work + {50} == next && Least(next) == 5;
  }
}
