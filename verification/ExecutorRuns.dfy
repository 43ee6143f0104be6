/** Runs of lifted code in which every lookup is answered by the executor, decoding and lifting as it goes. */
module ExecutorRuns {
  import opened Options
  import opened Program
  import opened Decoder
  import opened Interpreter
  import opened Executor

  /** What the executor is given: the flat interpreter fails where code cannot be executed. */
  ghost predicate FailsWhereForbidden(code: Code, canExecute: PC -> bool) {
    forall pc: PC :: !canExecute(pc) ==> code(pc).inst.Fails()
  }

  /** All that the flat run visits and that can be executed is among these PCs. */
  ghost predicate StaysInside<S(!new)>(
    code: Code, sem: Semantics<S>, start: Flat<S>, canExecute: PC -> bool, pcs: iset<PC>)
  {
    forall n: nat ::
      var f := FlatRun(code, sem, start, n);
      f.stopped || !canExecute(f.pc) || f.pc in pcs
  }

  /** The step follows the flat run, and executes an instruction or gets closer to doing so. */
  ghost predicate Advances<S(!new)>(code: Code, sem: Semantics<S>, start: Flat<S>, m: Machine<S>, m': Machine<S>) {
    && Follows(code, sem, start, m')
    && |m'.log| == |m.log| + (if AboutToExecute(m) then 1 else 0)
    && (!AboutToExecute(m) && !m.mode.Halted? ==> Rank(m') < Rank(m))
  }

  lemma AnswerIsGood(executor: Executor, fn: Option<Function>, pc: PC, canExecute: PC -> bool)
    requires executor.LiveHoldHeads() && FailsWhereForbidden(executor.code, canExecute)
    requires fn.None? ==> !canExecute(pc)
    requires fn.Some? ==>
      LiftedFor(executor.code, fn.value, pc) && pc in executor.liveTraces && fn.value == executor.liveTraces[pc]
    ensures GoodAnswer(executor.code, fn, pc)
  {
  }

  /** What the machine looks for while it follows the flat run is what the flat run visits. */
  lemma VisitedIsInside<S(!new)>(
    code: Code, sem: Semantics<S>, start: Flat<S>, canExecute: PC -> bool, pcs: iset<PC>, m: Machine<S>)
    requires Follows(code, sem, start, m) && m.mode.Entering? && StaysInside(code, sem, start, canExecute, pcs)
    ensures canExecute(m.mode.pc) ==> m.mode.pc in pcs
  {
    var f := FlatRun(code, sem, start, |m.log|);
    assert f.stopped || !canExecute(f.pc) || f.pc in pcs;
  }

  /**
   * One step of the machine, with the executor's answer if it looks for a function. It follows the flat
   * run as long as the live functions hold their heads, and inside closed code they do.
   */
  method StepWith<S(!new)>(executor: Executor, sem: Semantics<S>, canExecute: PC -> bool, m: Machine<S>,
                           ghost start: Flat<S>, ghost pcs: iset<PC>)
    returns (m': Machine<S>)
    requires executor.Valid() && Conforms(executor.code, sem) && FailsWhereForbidden(executor.code, canExecute)
    requires executor.LiveHoldHeads() ==> Follows(executor.code, sem, start, m)
    modifies executor
    ensures executor.Valid() && executor.KeepsLive()
    ensures executor.LiveHoldHeads() ==> Advances(executor.code, sem, start, m, m')
    ensures
      && ClosedUnderCalls(executor.code, pcs) && StaysInside(executor.code, sem, start, canExecute, pcs)
      && old(executor.AllHoldHeads())
      ==> executor.AllHoldHeads()
  {
    hide Conforms, ClosedUnderCalls, NothingInTheWay, AsDecoded, Step, Follows, GoodAnswer,
         FailsWhereForbidden, StaysInside, AboutToExecute, Rank, HoldsHead;
    var fn: Option<Function> := None;
    if m.mode.Entering? {
      if executor.LiveHoldHeads() && StaysInside(executor.code, sem, start, canExecute, pcs) {
        VisitedIsInside(executor.code, sem, start, canExecute, pcs, m);
      }
      ghost var traces;
      fn, traces := executor.FindLiftedFunction(m.mode.pc, canExecute(m.mode.pc));
      if executor.LiveHoldHeads() {
        AnswerIsGood(executor, fn, m.mode.pc, canExecute);
      }
    }
    m' := Step(sem, _ => fn, m);
    if executor.LiveHoldHeads() {
      StepFollows(executor.code, sem, _ => fn, start, m);
    }
  }

  lemma StartFollows<S(!new)>(code: Code, sem: Semantics<S>, start: Flat<S>)
    requires IsFresh(start)
    ensures Follows(code, sem, start, Start(start.pc, start.s))
  {
  }

  /**
   * Runs a new task for a number of steps. As long as the live functions hold their heads, what it has
   * executed is exactly the first part of the flat run.
   */
  method RunSteps<S(!new)>(executor: Executor, sem: Semantics<S>, canExecute: PC -> bool, start: Flat<S>, k: nat,
                           ghost pcs: iset<PC>)
    returns (m: Machine<S>)
    requires executor.Valid() && Conforms(executor.code, sem) && FailsWhereForbidden(executor.code, canExecute)
    requires IsFresh(start)
    modifies executor
    ensures executor.Valid()
    ensures executor.LiveHoldHeads() ==> Follows(executor.code, sem, start, m)
    ensures
      && ClosedUnderCalls(executor.code, pcs) && StaysInside(executor.code, sem, start, canExecute, pcs)
      && old(executor.AllHoldHeads())
      ==> executor.AllHoldHeads()
  {
    hide Conforms, ClosedUnderCalls, Follows, FailsWhereForbidden, StaysInside, Executor.Valid, HoldsHead, Start,
         AboutToExecute, Rank;
    m := Start(start.pc, start.s);
    StartFollows(executor.code, sem, start);
    for i := 0 to k
      invariant executor.Valid()
      invariant executor.LiveHoldHeads() ==> Follows(executor.code, sem, start, m)
      invariant
        && ClosedUnderCalls(executor.code, pcs) && StaysInside(executor.code, sem, start, canExecute, pcs)
        && old(executor.AllHoldHeads())
        ==> executor.AllHoldHeads()
    {
      m := StepWith(executor, sem, canExecute, m, start, pcs);
    }
  }

  /**
   * Runs a new task, in closed code, until it has executed a number of instructions or stops. What it
   * has executed is exactly the first part of the flat run, and it stops only where the flat run ends
   * or has faulted.
   */
  method RunInstructions<S(!new)>(executor: Executor, sem: Semantics<S>, canExecute: PC -> bool, start: Flat<S>, n: nat,
                                  ghost pcs: iset<PC>)
    returns (m: Machine<S>)
    requires executor.Valid() && Conforms(executor.code, sem) && FailsWhereForbidden(executor.code, canExecute)
    requires IsFresh(start) && executor.AllHoldHeads()
    requires ClosedUnderCalls(executor.code, pcs) && StaysInside(executor.code, sem, start, canExecute, pcs)
    modifies executor
    ensures executor.Valid() && executor.AllHoldHeads()
    ensures Follows(executor.code, sem, start, m) && |m.log| <= n
    ensures |m.log| < n ==>
      var f := FlatRun(executor.code, sem, start, |m.log|);
      m.mode.Halted? && (FlatFails(executor.code, f) || f.stopped || f.fault.Some?)
  {
    hide Conforms, ClosedUnderCalls, Follows, FailsWhereForbidden, StaysInside, Executor.Valid, HoldsHead,
         AboutToExecute, Rank;
    m := Start(start.pc, start.s);
    StartFollows(executor.code, sem, start);
    while |m.log| < n && !m.mode.Halted?
      invariant executor.Valid() && executor.AllHoldHeads()
      invariant Follows(executor.code, sem, start, m) && |m.log| <= n
      decreases n - |m.log|, Rank(m)
    {
      m := StepWith(executor, sem, canExecute, m, start, pcs);
    }
    if m.mode.Halted? {
      HaltedAtEnd(executor.code, sem, start, m);
    }
  }

  lemma HaltedAtEnd<S(!new)>(code: Code, sem: Semantics<S>, start: Flat<S>, m: Machine<S>)
    requires Follows(code, sem, start, m) && m.mode.Halted?
    ensures var f := FlatRun(code, sem, start, |m.log|); FlatFails(code, f) || f.stopped || f.fault.Some?
  {
  }
}
