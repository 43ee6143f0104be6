/**
 * Two ways to run a guest program: a flat fetch-execute loop, and the lifted block graphs with
 * their nested calls, return-PC checks, intrinsics and re-dispatch. The theorems at the end say
 * that the second executes exactly the PC sequence of the first.
 */
module Interpreter {
  import opened Options
  import opened Program
  import opened Lifter
  import TaskStatus

  /** The result of running one instruction: new state, PC register, branch condition and memory fault. */
  datatype Effect<S> = Effect(s: S, pc: PC, taken: bool, fault: Option<TaskStatus.Fault>)

  /** Of several faults, the first is kept. */
  function First(a: Option<TaskStatus.Fault>, b: Option<TaskStatus.Fault>): Option<TaskStatus.Fault> {
    if a.Some? then a else b
  }

  /** The result of a hyper call: new state and PC, and whether it stops the task, as an exit does. */
  datatype HyperEffect<S> = HyperEffect(s: S, pc: PC, stops: bool)

  /** Abstract instruction semantics, and the async hyper call that follows a hyper-call instruction. */
  datatype Semantics<!S(!new)> = Semantics(
    exec: (Instruction, S) -> Effect<S>,
    hyper: (S, PC) -> HyperEffect<S>)

  // ---------------------------------------------------------------- the flat interpreter

  /** The PC and the state, whether a hyper call has ended the run, and the first memory fault. */
  datatype Flat<S> = Flat(pc: PC, s: S, stopped: bool, fault: Option<TaskStatus.Fault>)

  /** One step of the flat loop: the instruction decides where to go next. */
  function FlatStep<S(!new)>(code: Code, sem: Semantics<S>, f: Flat<S>): Flat<S>
  {
    var inst := code(f.pc).inst;
    var e := sem.exec(inst, f.s);
    if f.stopped then f
    else if inst.category.AsyncHyperCall? then
      var h := sem.hyper(e.s, e.pc);
      Flat(h.pc, h.s, h.stops, First(f.fault, e.fault))
    else
      Flat(e.pc, e.s, false, First(f.fault, e.fault))
  }

  /** A run that nothing has happened to yet. */
  predicate IsFresh<S>(f: Flat<S>) {
    !f.stopped && f.fault.None?
  }

  predicate FlatFails<S>(code: Code, f: Flat<S>) {
    code(f.pc).inst.Fails()
  }

  /** The flat state after `n` instructions. */
  function FlatRun<S(!new)>(code: Code, sem: Semantics<S>, f: Flat<S>, n: nat): Flat<S> {
    if n == 0 then f else FlatStep(code, sem, FlatRun(code, sem, f, n - 1))
  }

  /** The PCs of the first `n` instructions, in order. */
  function FlatLog<S(!new)>(code: Code, sem: Semantics<S>, f: Flat<S>, n: nat): seq<PC> {
    if n == 0 then [] else FlatLog(code, sem, f, n - 1) + [FlatRun(code, sem, f, n - 1).pc]
  }

  /** The flat run has `n` instructions: none of them fails, and none comes after a stop. */
  ghost predicate FlatOk<S(!new)>(code: Code, sem: Semantics<S>, f: Flat<S>, n: nat) {
    forall i: nat :: i < n ==> !FlatFails(code, FlatRun(code, sem, f, i)) && !FlatRun(code, sem, f, i).stopped
  }

  /**
   * The semantics agree with the decoder about where direct control flow goes, and an instruction
   * that is lifted to an error stop changes neither the state nor the PC register, and does not fault.
   */
  ghost predicate Conforms<S(!new)>(code: Code, sem: Semantics<S>) {
    forall pc: PC, s: S :: ConformsAt(code(pc).inst, pc, sem, s)
  }

  ghost predicate ConformsAt<S(!new)>(inst: Instruction, pc: PC, sem: Semantics<S>, s: S) {
    Conforming(inst, pc, s, sem.exec(inst, s))
  }

  /** What running an instruction can result in, as far as the decoder knows. */
  ghost predicate Conforming<S>(inst: Instruction, pc: PC, s: S, e: Effect<S>) {
    match inst.category
    case Invalid => e.s == s && e.pc == pc && e.fault.None?
    case Error => e.s == s && e.pc == pc && e.fault.None?
    case Normal => e.pc == inst.nextPc
    case NoOp => e.pc == inst.nextPc
    case DirectJump => e.pc == inst.branchTakenPc
    case DirectFunctionCall => e.pc == inst.branchTakenPc
    case ConditionalBranch => e.pc == if e.taken then inst.branchTakenPc else inst.branchNotTakenPc
    case ConditionalAsyncHyperCall => false
    case _ => true
  }

  // ---------------------------------------------------------------- the lifted machine

  /** A lifted function: the trace it came from and its block graph. */
  datatype Function = Function(trace: Trace, declared: set<PC>, blocks: Blocks)

  /** A lifted caller waiting for its callee: where it resumes if the PC is the expected one. */
  datatype Frame = Frame(fn: Function, expected: PC, fallThrough: PC)

  datatype Mode =
    | At(fn: Function, block: PC)   // about to run a block
    | Entering(pc: PC)              // looking up the lifted function of `pc`
    | Returning                     // returning to the innermost waiting caller
    | Idle                          // back in the dispatcher
    | Halted                        // a task that failed, was stopped or faulted is never resumed

  datatype Machine<S> = Machine(
    mode: Mode,
    callers: seq<Frame>,
    s: S,
    pcRegister: PC,
    taskPc: PC,
    failed: bool,
    stopped: bool,
    fault: Option<TaskStatus.Fault>,
    log: seq<PC>)
  {
    /** The task is not resumed once it has given up control. */
    predicate Ending() {
      failed || stopped || fault.Some?
    }
  }

  /** The executor's answers for each PC. */
  type Answers = PC -> Option<Function>

  /** What the executor's lookup answers at each time; `None` stands for the error intrinsic. */
  type Lookup = nat -> Answers

  ghost predicate GoodFunction(code: Code, fn: Function, pc: PC) {
    && fn.trace.pc == pc
    && pc in fn.trace.instructions
    && FromCode(fn.trace, code)
    && WellLifted(fn.trace, fn.declared, fn.blocks)
  }

  /** A function whose entry is the requested PC, or the error intrinsic where the code cannot be executed. */
  ghost predicate GoodAnswer(code: Code, answer: Option<Function>, pc: PC) {
    match answer
    case None => code(pc).inst.Fails()
    case Some(fn) => GoodFunction(code, fn, pc)
  }

  /** At all times, the executor has a good answer for every PC that the flat run visits. */
  ghost predicate GoodLookup<S(!new)>(code: Code, sem: Semantics<S>, lookup: Lookup, start: Flat<S>) {
    forall time: nat, n: nat ::
      var f := FlatRun(code, sem, start, n);
      f.stopped || GoodAnswer(code, lookup(time)(f.pc), f.pc)
  }

  /** The error intrinsic: record the PC, mark the task failed and return to the caller. */
  function FailAt<S>(m: Machine<S>): Machine<S> {
    m.(mode := Returning, taskPc := m.pcRegister, failed := true)
  }

  /** The jump and call intrinsics: record the PC and yield. A task that is ending never comes back. */
  function YieldTo<S>(m: Machine<S>): Machine<S> {
    m.(mode := if m.Ending() then Halted else Entering(m.pcRegister), taskPc := m.pcRegister)
  }

  function RunTerminator<S(!new)>(sem: Semantics<S>, m: Machine<S>, fn: Function, t: Terminator, taken: bool)
    : Machine<S>
  {
    match t
    case Branch(target) => m.(mode := At(fn, target))
    case CondBranch(yes, no) => m.(mode := At(fn, if taken then yes else no))
    case TailError => FailAt(m)
    case TailMissingBlock => YieldTo(m)
    case TailJump => YieldTo(m)
    case TailReturn => m.(mode := Returning, taskPc := m.pcRegister)
    case HyperCallThenJump =>
      var h := sem.hyper(m.s, m.pcRegister);
      YieldTo(m.(s := h.s, pcRegister := h.pc, stopped := h.stops))
    case CallAndCheck(callee, expected, fallThrough) =>
      var called := m.(callers := m.callers + [Frame(fn, expected, fallThrough)]);
      match callee
      case Lifted(pc) => called.(mode := Entering(pc))
      case FunctionCallIntrinsic => YieldTo(called)
  }

  /** Runs one block. Only instructions that do not end in the error intrinsic enter the log. */
  function RunBlock<S(!new)>(sem: Semantics<S>, m: Machine<S>, fn: Function, b: PC): Machine<S> {
    if b !in fn.blocks || fn.blocks[b].terminator.None? then m.(mode := Halted)
    else
      var block := fn.blocks[b];
      match block.body
      case None => RunTerminator(sem, m.(pcRegister := b), fn, block.terminator.value, false)
      case Some(inst) =>
        var e := sem.exec(inst, m.s);
        var log := if block.terminator.value.TailError? then m.log else m.log + [b];
        var after := m.(s := e.s, pcRegister := e.pc, fault := First(m.fault, e.fault), log := log);
        RunTerminator(sem, after, fn, block.terminator.value, e.taken)
  }

  function Step<S(!new)>(sem: Semantics<S>, lookup: Answers, m: Machine<S>): Machine<S> {
    match m.mode
    case At(fn, b) => RunBlock(sem, m, fn, b)
    case Entering(pc) =>
      (match lookup(pc)
       case None => FailAt(m.(pcRegister := pc))
       case Some(fn) => m.(mode := At(fn, fn.trace.pc)))
    case Returning =>
      if m.callers == [] then m.(mode := Idle)
      else
        var top := m.callers[|m.callers| - 1];
        var popped := m.(callers := m.callers[..|m.callers| - 1]);
        if m.pcRegister == top.expected then popped.(mode := At(top.fn, top.fallThrough)) else popped
    case Idle => if m.Ending() then m.(mode := Halted) else m.(mode := Entering(m.taskPc))
    case Halted => m
  }

  function Run<S(!new)>(sem: Semantics<S>, lookup: Lookup, m: Machine<S>, k: nat): Machine<S> {
    if k == 0 then m else Step(sem, lookup(k - 1), Run(sem, lookup, m, k - 1))
  }

  /** A task about to be dispatched for the first time. */
  function Start<S>(pc: PC, s: S): Machine<S> {
    Machine(Idle, [], s, pc, pc, false, false, None, [])
  }

  // ---------------------------------------------------------------- the simulation

  /** The PC the machine is at, whatever it is doing. */
  function CurrentPc<S>(m: Machine<S>): PC {
    match m.mode
    case At(_, b) => b
    case Entering(pc) => pc
    case _ => m.pcRegister
  }

  /** A function of the program, and one of its blocks. */
  ghost predicate InProgram(code: Code, fn: Function, b: PC) {
    GoodFunction(code, fn, fn.trace.pc) && b in fn.blocks
  }

  ghost predicate GoodFrame(code: Code, frame: Frame) {
    frame.expected == frame.fallThrough && InProgram(code, frame.fn, frame.fallThrough)
  }

  ghost predicate Inv<S>(code: Code, m: Machine<S>) {
    && (forall i | 0 <= i < |m.callers| :: GoodFrame(code, m.callers[i]))
    && (m.mode.At? ==> InProgram(code, m.mode.fn, m.mode.block))
    && (m.mode.Returning? || m.mode.Idle? || m.mode.Halted? ==> m.taskPc == m.pcRegister)
    && (m.mode.Idle? ==> m.callers == [])
    && (m.mode.Halted? ==> m.Ending())
    && (m.stopped ==> m.mode.Halted? && !m.failed)
    // Once the error intrinsic has run, the machine only ever visits that same failing PC.
    && (m.failed ==> code(CurrentPc(m)).inst.Fails() && !m.mode.Entering?)
  }

  ghost predicate Simulates<S>(code: Code, m: Machine<S>, f: Flat<S>) {
    Inv(code, m) && CurrentPc(m) == f.pc && m.s == f.s && m.stopped == f.stopped && m.fault == f.fault
  }

  /** The machine runs the instruction of the block it is at in its next step. */
  ghost predicate AboutToExecute<S>(m: Machine<S>) {
    && m.mode.At?
    && m.mode.block in m.mode.fn.trace.instructions
    && !m.mode.fn.trace.instructions[m.mode.block].Fails()
  }

  lemma BlockOf(code: Code, fn: Function, b: PC)
    requires InProgram(code, fn, b)
    ensures b in fn.trace.instructions ==>
      && fn.trace.instructions[b] == code(b).inst
      && fn.blocks[b].body == BodyFor(code(b).inst)
      && TargetsFor(code(b).inst, fn.declared) <= fn.blocks.Keys
      && var t := TerminatorFor(code(b).inst, fn.declared);
         fn.blocks[b].terminator == if t.Some? then t else Some(TailMissingBlock)
    ensures b !in fn.trace.instructions ==> fn.blocks[b] == Block(b, None, Some(TailMissingBlock))
  {
    if b in fn.trace.instructions {
      forall target <- TargetsFor(code(b).inst, fn.declared)
        ensures target in BlockPcs(fn.trace, fn.trace.instructions.Keys, fn.declared)
      {
      }
    }
  }

  lemma EntryBlock(code: Code, answer: Option<Function>, pc: PC)
    requires GoodAnswer(code, answer, pc)
    ensures match answer
            case None => code(pc).inst.Fails()
            case Some(fn) => fn.trace.pc == pc && pc in fn.trace.instructions && InProgram(code, fn, pc)
  {
  }

  /** An executing step is one flat step. */
  lemma ExecuteStep<S(!new)>(
    code: Code, sem: Semantics<S>, lookup: Answers, m: Machine<S>, f: Flat<S>)
    requires Conforms(code, sem) && Simulates(code, m, f) && AboutToExecute(m)
    ensures !FlatFails(code, f) && !f.stopped
    ensures Simulates(code, Step(sem, lookup, m), FlatStep(code, sem, f))
    ensures Step(sem, lookup, m).log == m.log + [f.pc]
  {
    hide GoodFunction;
    BlockOf(code, m.mode.fn, f.pc);
    assert ConformsAt(code(f.pc).inst, f.pc, sem, f.s);
  }

  /** A block that executes nothing: a failing instruction, or a missing block. */
  lemma IdleBlock<S(!new)>(code: Code, sem: Semantics<S>, m: Machine<S>, f: Flat<S>)
    requires Conforms(code, sem) && Simulates(code, m, f) && m.mode.At? && !AboutToExecute(m)
    ensures f.pc in m.mode.fn.trace.instructions && FlatFails(code, f) ==>
      RunBlock(sem, m, m.mode.fn, f.pc) == FailAt(m.(pcRegister := f.pc))
    ensures f.pc !in m.mode.fn.trace.instructions ==>
      RunBlock(sem, m, m.mode.fn, f.pc) == YieldTo(m.(pcRegister := f.pc))
    ensures f.pc in m.mode.fn.trace.instructions ==> FlatFails(code, f)
  {
    BlockOf(code, m.mode.fn, f.pc);
    assert ConformsAt(code(f.pc).inst, f.pc, sem, f.s);
  }

  /** Every other step leaves the flat machine where it is. */
  lemma StutterStep<S(!new)>(
    code: Code, sem: Semantics<S>, lookup: Answers, m: Machine<S>, f: Flat<S>)
    requires Conforms(code, sem) && (m.mode.Entering? ==> GoodAnswer(code, lookup(f.pc), f.pc))
    requires Simulates(code, m, f) && !AboutToExecute(m)
    ensures Simulates(code, Step(sem, lookup, m), f)
    ensures Step(sem, lookup, m).log == m.log
    ensures m.failed ==> Step(sem, lookup, m).failed
    ensures Step(sem, lookup, m).failed ==> FlatFails(code, f)
  {
    hide RunBlock, GoodFunction, Conforms;
    match m.mode
    case At(fn, b) =>
      IdleBlock(code, sem, m, f);
    case Entering(pc) =>
      EntryBlock(code, lookup(pc), pc);
    case Returning =>
      if m.callers != [] {
        assert GoodFrame(code, m.callers[|m.callers| - 1]);
      }
    case _ =>
  }

  lemma AnswerAt<S(!new)>(code: Code, sem: Semantics<S>, lookup: Lookup, start: Flat<S>, time: nat, n: nat)
    requires GoodLookup(code, sem, lookup, start)
    ensures var f := FlatRun(code, sem, start, n);
            f.stopped || GoodAnswer(code, lookup(time)(f.pc), f.pc)
  {
  }

  /**
   * The instructions executed so far are exactly the first instructions of the flat run, and the
   * machine is at the flat PC with the flat state.
   */
  ghost predicate Follows<S(!new)>(code: Code, sem: Semantics<S>, start: Flat<S>, m: Machine<S>) {
    && m.log == FlatLog(code, sem, start, |m.log|)
    && FlatOk(code, sem, start, |m.log|)
    && Simulates(code, m, FlatRun(code, sem, start, |m.log|))
    && (m.failed ==> FlatFails(code, FlatRun(code, sem, start, |m.log|)))
  }

  /** With a good answer to every lookup, each step keeps that, and executes at most one instruction. */
  lemma StepFollows<S(!new)>(code: Code, sem: Semantics<S>, now: Answers, start: Flat<S>, m: Machine<S>)
    requires Conforms(code, sem) && Follows(code, sem, start, m)
    requires m.mode.Entering? ==> GoodAnswer(code, now(m.mode.pc), m.mode.pc)
    ensures Follows(code, sem, start, Step(sem, now, m))
    ensures |Step(sem, now, m).log| == |m.log| + if AboutToExecute(m) then 1 else 0
    ensures !AboutToExecute(m) && !m.mode.Halted? ==> Rank(Step(sem, now, m)) < Rank(m)
  {
    hide Step, FlatStep, Conforms, GoodAnswer, AboutToExecute, GoodFrame, InProgram, Rank;
    var f := FlatRun(code, sem, start, |m.log|);
    if AboutToExecute(m) {
      ExecuteStep(code, sem, now, m, f);
    } else {
      StutterStep(code, sem, now, m, f);
      if !m.mode.Halted? {
        StutterDecreasesRank(code, sem, now, m, f);
      }
    }
  }

  /** Safety. The machine follows the flat run, however many steps it takes. */
  lemma {:induction false} LiftedRunFollowsFlatRun<S(!new)>(
    code: Code, sem: Semantics<S>, lookup: Lookup, start: Flat<S>, k: nat)
    requires Conforms(code, sem) && GoodLookup(code, sem, lookup, start) && IsFresh(start)
    ensures Follows(code, sem, start, Run(sem, lookup, Start(start.pc, start.s), k))
  {
    hide Step, FlatStep, Conforms, GoodLookup, GoodAnswer, AboutToExecute, GoodFrame, InProgram;
    if k > 0 {
      LiftedRunFollowsFlatRun(code, sem, lookup, start, k - 1);
      var m := Run(sem, lookup, Start(start.pc, start.s), k - 1);
      AnswerAt(code, sem, lookup, start, k - 1, |m.log|);
      StepFollows(code, sem, lookup(k - 1), start, m);
    }
  }

  /**
   * Every non-error return to the dispatcher leaves the task PC equal to the flat interpreter's PC.
   */
  lemma DispatcherSeesFlatPc<S(!new)>(code: Code, sem: Semantics<S>, lookup: Lookup, start: Flat<S>, k: nat)
    requires Conforms(code, sem) && GoodLookup(code, sem, lookup, start) && IsFresh(start)
    requires Run(sem, lookup, Start(start.pc, start.s), k).mode.Idle?
    ensures var m := Run(sem, lookup, Start(start.pc, start.s), k);
            Flat(m.taskPc, m.s, false, m.fault) == FlatRun(code, sem, start, |m.log|)
  {
    LiftedRunFollowsFlatRun(code, sem, lookup, start, k);
  }

  /** A bound on the steps the machine can still take before it executes an instruction or halts. */
  function Rank<S>(m: Machine<S>): nat {
    var c := 3 * |m.callers|;
    match m.mode
    case Halted => 0
    case Idle => if m.Ending() then 1 else 7
    case Returning => if m.failed then c + 2 else c + 8
    case Entering(_) => c + 6
    case At(fn, b) =>
      if m.failed then c + 4
      else if b !in fn.trace.instructions then c + 7
      else if fn.trace.instructions[b].Fails() then c + 5
      else 0
  }

  lemma StutterDecreasesRank<S(!new)>(
    code: Code, sem: Semantics<S>, lookup: Answers, m: Machine<S>, f: Flat<S>)
    requires Conforms(code, sem) && (m.mode.Entering? ==> GoodAnswer(code, lookup(f.pc), f.pc))
    requires Simulates(code, m, f) && !AboutToExecute(m)
    requires !m.mode.Halted?
    ensures Rank(Step(sem, lookup, m)) < Rank(m)
  {
    hide RunBlock, GoodFunction, Conforms;
    match m.mode
    case At(fn, b) =>
      IdleBlock(code, sem, m, f);
    case Entering(pc) =>
      EntryBlock(code, lookup(pc), pc);
    case _ =>
  }

  /** From any point, the machine gets to its next instruction, or halts; it executes nothing on the way. */
  lemma {:induction false} NextExecution<S(!new)>(
    code: Code, sem: Semantics<S>, lookup: Lookup, start: Flat<S>, k: nat) returns (k': nat)
    requires Conforms(code, sem) && GoodLookup(code, sem, lookup, start) && IsFresh(start)
    ensures var m := Run(sem, lookup, Start(start.pc, start.s), k);
            var m' := Run(sem, lookup, Start(start.pc, start.s), k');
            m'.log == m.log && (AboutToExecute(m') || m'.mode.Halted?)
    decreases Rank(Run(sem, lookup, Start(start.pc, start.s), k))
  {
    var m := Run(sem, lookup, Start(start.pc, start.s), k);
    LiftedRunFollowsFlatRun(code, sem, lookup, start, k);
    if AboutToExecute(m) || m.mode.Halted? {
      k' := k;
    } else {
      var f := FlatRun(code, sem, start, |m.log|);
      AnswerAt(code, sem, lookup, start, k, |m.log|);
      StutterStep(code, sem, lookup(k), m, f);
      StutterDecreasesRank(code, sem, lookup(k), m, f);
      k' := NextExecution(code, sem, lookup, start, k + 1);
    }
  }

  lemma {:induction false} FaultStays<S(!new)>(code: Code, sem: Semantics<S>, start: Flat<S>, i: nat, n: nat)
    requires i <= n && FlatRun(code, sem, start, i).fault.Some?
    ensures FlatRun(code, sem, start, n).fault == FlatRun(code, sem, start, i).fault
  {
    if i < n {
      FaultStays(code, sem, start, i, n - 1);
    }
  }

  /** The machine halts because of a fault, having executed fewer than `n` instructions. */
  ghost predicate HaltsEarly<S>(m: Machine<S>, n: nat) {
    m.mode.Halted? && m.fault.Some? && |m.log| < n
  }

  /**
   * Progress. Whatever the flat interpreter executes, the lifted machine executes too: for every
   * flat prefix without a failure there is a machine run that has executed exactly that prefix, or
   * that ends before because an instruction has faulted.
   */
  lemma {:induction false} FlatRunIsExecuted<S(!new)>(
    code: Code, sem: Semantics<S>, lookup: Lookup, start: Flat<S>, n: nat) returns (k: nat)
    requires Conforms(code, sem) && GoodLookup(code, sem, lookup, start) && IsFresh(start)
    requires FlatOk(code, sem, start, n)
    ensures var m := Run(sem, lookup, Start(start.pc, start.s), k);
            m.log == FlatLog(code, sem, start, n) || HaltsEarly(m, n)
    ensures |FlatLog(code, sem, start, n)| == n
  {
    hide Step, FlatStep, Conforms, GoodLookup, GoodAnswer, AboutToExecute, GoodFrame, InProgram;
    k := 0;
    if n > 0 {
      k := FlatRunIsExecuted(code, sem, lookup, start, n - 1);
      if !HaltsEarly(Run(sem, lookup, Start(start.pc, start.s), k), n - 1) {
        k := NextExecution(code, sem, lookup, start, k);
        LiftedRunFollowsFlatRun(code, sem, lookup, start, k);
        var m := Run(sem, lookup, Start(start.pc, start.s), k);
        assert !FlatFails(code, FlatRun(code, sem, start, n - 1));
        if AboutToExecute(m) {
          ExecuteStep(code, sem, lookup(k), m, FlatRun(code, sem, start, n - 1));
          k := k + 1;
        }
      }
    }
  }

  /**
   * If the flat run fails at its `n`th instruction, or was stopped by the one before, the task stops
   * for good. If nothing has faulted, it has executed all of the flat run, and its PC is the flat one.
   */
  lemma FlatEndStopsTask<S(!new)>(
    code: Code, sem: Semantics<S>, lookup: Lookup, start: Flat<S>, n: nat) returns (k: nat)
    requires Conforms(code, sem) && GoodLookup(code, sem, lookup, start) && IsFresh(start)
    requires FlatOk(code, sem, start, n)
    requires var f := FlatRun(code, sem, start, n); f.stopped || FlatFails(code, f)
    ensures var (m, f) := (Run(sem, lookup, Start(start.pc, start.s), k), FlatRun(code, sem, start, n));
            && m.mode.Halted?
            && (f.fault.None? ==>
                  && m.stopped == f.stopped && m.failed == !f.stopped
                  && m.log == FlatLog(code, sem, start, n)
                  && Flat(m.taskPc, m.s, m.stopped, m.fault) == f)
  {
    k := FlatRunIsExecuted(code, sem, lookup, start, n);
    LiftedRunFollowsFlatRun(code, sem, lookup, start, k);
    var early := Run(sem, lookup, Start(start.pc, start.s), k);
    if HaltsEarly(early, n) {
      FaultStays(code, sem, start, |early.log|, n);
    } else {
      k := NextExecution(code, sem, lookup, start, k);
      LiftedRunFollowsFlatRun(code, sem, lookup, start, k);
      var m := Run(sem, lookup, Start(start.pc, start.s), k);
      if AboutToExecute(m) {
        ExecuteStep(code, sem, lookup(k), m, FlatRun(code, sem, start, n));
        assert false;
      }
    }
  }

  // ---------------------------------------------------------------- calls and returns

  predicate IsCall(inst: Instruction) {
    inst.category.IndirectFunctionCall? || (inst.category.DirectFunctionCall? && inst.branchTakenPc != inst.nextPc)
  }

  /**
   * A call leaves its function waiting. When the callee returns to the instruction behind the call, the
   * function goes on there; when it returns to anywhere else, so does the function.
   */
  lemma ReturnResumesCaller<S(!new)>(
    code: Code, sem: Semantics<S>, lookup: Answers, m: Machine<S>, returned: Machine<S>, later: Answers)
    requires Inv(code, m) && AboutToExecute(m) && IsCall(code(m.mode.block).inst)
    requires returned.mode.Returning? && returned.callers == Step(sem, lookup, m).callers
    ensures |Step(sem, lookup, m).callers| == |m.callers| + 1
    ensures var next := code(m.mode.block).inst.nextPc;
            Step(sem, later, returned) ==
            if returned.pcRegister == next then returned.(mode := At(m.mode.fn, next), callers := m.callers)
            else returned.(callers := m.callers)
  {
    hide GoodFunction, GoodFrame;
    BlockOf(code, m.mode.fn, m.mode.block);
    var called := Step(sem, lookup, m).callers;
    assert called[..|called| - 1] == m.callers;
  }

  /** What the machine does after an instruction, given what running it has resulted in. */
  ghost predicate Continues<S(!new)>(
    sem: Semantics<S>, fn: Function, inst: Instruction, m: Machine<S>, e: Effect<S>, m': Machine<S>)
  {
    match inst.category
    case Normal => m'.mode == At(fn, e.pc) && m'.callers == m.callers
    case NoOp => m'.mode == At(fn, e.pc) && m'.callers == m.callers
    case DirectJump => m'.mode == At(fn, e.pc) && m'.callers == m.callers
    case ConditionalBranch => m'.mode == At(fn, e.pc) && m'.callers == m.callers
    // A return goes back to the caller and keeps control.
    case FunctionReturn => m'.mode == Returning && m'.callers == m.callers && m'.taskPc == e.pc
    // A jump gives up control, and the code it gets to is looked up.
    case IndirectJump => GaveUpAt(m', e.pc) && m'.callers == m.callers
    case AsyncHyperCall =>
      var h := sem.hyper(e.s, e.pc);
      GaveUpAt(m', h.pc) && m'.callers == m.callers && m'.s == h.s && m'.stopped == h.stops
    // A call to the next instruction is no call.
    case DirectFunctionCall =>
      if e.pc == inst.nextPc then GaveUpAt(m', e.pc) && m'.callers == m.callers
      else
        && m'.callers == m.callers + [Frame(fn, inst.nextPc, inst.nextPc)]
        // A declared function is entered without giving up control.
        && if e.pc in fn.declared then m'.mode == Entering(e.pc) && m'.taskPc == m.taskPc else GaveUpAt(m', e.pc)
    case IndirectFunctionCall =>
      GaveUpAt(m', e.pc) && m'.callers == m.callers + [Frame(fn, inst.nextPc, inst.nextPc)]
    case _ => true
  }

  predicate GaveUpAt<S>(m: Machine<S>, pc: PC) {
    m.taskPc == pc && m.mode == if m.Ending() then Halted else Entering(pc)
  }

  /** Lifted code keeps the structure of calls and returns, and gives up control only where it has to look code up. */
  lemma StructureIsKept<S(!new)>(code: Code, sem: Semantics<S>, lookup: Answers, m: Machine<S>)
    requires Conforms(code, sem) && Inv(code, m) && AboutToExecute(m)
    ensures var inst := code(m.mode.block).inst;
            Continues(sem, m.mode.fn, inst, m, sem.exec(inst, m.s), Step(sem, lookup, m))
  {
    hide GoodFunction, GoodFrame;
    BlockOf(code, m.mode.fn, m.mode.block);
    assert ConformsAt(code(m.mode.block).inst, m.mode.block, sem, m.s);
  }
}
