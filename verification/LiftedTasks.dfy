/**
 * What runs of lifted code do to a task's status: every step of the lifted machine is a run of
 * permitted actions, so what holds of all runs of tasks holds of lifted code.
 */
module LiftedTasks {
  import opened Options
  import opened Program
  import opened Lifter
  import Interpreter
  import opened TaskRuns

  ghost predicate OneTask(w: World) {
    |w.lives| == 1 && Good(w)
  }

  predicate HasControl(w: World) {
    w.current == Some(0)
  }

  /**
   * The task has recorded the machine's first fault, and a stop exactly if the machine is ending. Code
   * that cannot be executed is a fault as well, but one that the machine fails with.
   */
  ghost predicate SameStop<S>(m: Interpreter.Machine<S>, w: World) {
    && OneTask(w) && (Doomed(w.lives[0].task) <==> m.Ending())
    && (m.fault.Some? ==> w.lives[0].task.fault == m.fault)
    && (w.lives[0].task.fault.Some? ==> m.fault.Some? || m.failed)
  }

  /** And the machine's PC. */
  ghost predicate SameRecord<S>(m: Interpreter.Machine<S>, w: World) {
    SameStop(m, w) && w.lives[0].task.pc == m.taskPc
  }

  /** And the task is where the machine is. */
  ghost predicate Matches<S>(m: Interpreter.Machine<S>, w: World) {
    && SameRecord(m, w)
    && var control := w.lives[0].control;
       match m.mode
       case At(_, _) => HasControl(w) && control == if m.failed then Unwinding else Running
       case Returning => HasControl(w) && control == if m.failed then Unwinding else Running
       case Entering(_) => HasControl(w) && (control.Dispatching? || control.Running?)
       case Idle => w.current.None? && control.Outside?
       case Halted => w.current.None?
  }

  /** The task can get from one world to the other. */
  ghost predicate Leads(w: World, w': World) {
    exists steps :: Run(w, steps) == Some(w')
  }

  lemma Nothing(w: World)
    ensures Leads(w, w)
  {
    assert Run(w, []) == Some(w);
  }

  lemma One(w: World, step: Step)
    requires Good(w) && Possible(w, step)
    ensures Leads(w, Take(w, step)) && Good(Take(w, step))
  {
    RunOne(w, step);
    TakeKeepsGood(w, step);
  }

  lemma Then(u: World, v: World, w: World)
    requires Leads(u, v) && Leads(v, w)
    ensures Leads(u, w)
  {
    var a :| Run(u, a) == Some(v);
    var b :| Run(v, b) == Some(w);
    RunJoin(u, a, b);
  }

  /** The task does something and keeps control. */
  lemma Do1(w: World, a: Action) returns (w': World)
    requires OneTask(w) && HasControl(w) && CanDo(w.lives[0].control, a)
    ensures w' == Take(w, Act(a)) && Leads(w, w') && Good(w')
  {
    w' := Take(w, Act(a));
    One(w, Act(a));
  }

  /** The task gives up control at a jump or call, and is given it again unless it has stopped. */
  lemma Yields<S>(m: Interpreter.Machine<S>, w: World, a: Action) returns (w': World)
    requires SameStop(m, w) && HasControl(w)
    requires CanDo(w.lives[0].control, a) && (a == Jump(m.pcRegister) || a == Call(m.pcRegister))
    ensures Leads(w, w') && Matches(Interpreter.YieldTo(m), w')
  {
    var v := Do1(w, a);
    w' := v;
    if !m.Ending() {
      One(v, Enter(0));
      w' := Take(v, Enter(0));
      Then(w, v, w');
    }
  }

  /** What a terminator makes the task do is permitted. */
  lemma TerminatorMatches<S(!new)>(sem: Interpreter.Semantics<S>, m: Interpreter.Machine<S>, w: World,
                                   fn: Interpreter.Function, t: Terminator, taken: bool)
    returns (w': World)
    requires SameRecord(m, w) && HasControl(w) && !m.stopped
    requires w.lives[0].control == if m.failed then Unwinding else Running
    requires m.failed ==> t.TailError? || t.TailMissingBlock?
    ensures Leads(w, w') && Matches(Interpreter.RunTerminator(sem, m, fn, t, taken), w')
  {
    hide Good, Leads;
    match t
    case TailError => w' := Do1(w, Fail(m.pcRegister));
    case TailMissingBlock => w' := Yields(m, w, Jump(m.pcRegister));
    case TailJump => w' := Yields(m, w, Jump(m.pcRegister));
    case TailReturn => w' := Do1(w, Return(m.pcRegister));
    case HyperCallThenJump => w' := HyperMatches(sem, m, w);
    case CallAndCheck(callee, expected, fallThrough) =>
      w' := w;
      Nothing(w);
      if callee.FunctionCallIntrinsic? {
        var called := m.(callers := m.callers + [Interpreter.Frame(fn, expected, fallThrough)]);
        w' := Yields(called, w, Call(m.pcRegister));
      }
    case _ =>
      w' := w;
      Nothing(w);
  }

  lemma HyperMatches<S(!new)>(sem: Interpreter.Semantics<S>, m: Interpreter.Machine<S>, w: World) returns (w': World)
    requires SameStop(m, w) && HasControl(w) && !m.failed && !m.stopped && w.lives[0].control.Running?
    ensures var h := sem.hyper(m.s, m.pcRegister);
            && Leads(w, w')
            && Matches(Interpreter.YieldTo(m.(s := h.s, pcRegister := h.pc, stopped := h.stops)), w')
  {
    hide Leads;
    var h := sem.hyper(m.s, m.pcRegister);
    var location := if h.stops then TaskStatus.AtExit else TaskStatus.AfterHyperCall;
    var v := Do1(w, Location(h.pc, location));
    w' := Yields(m.(s := h.s, pcRegister := h.pc, stopped := h.stops), v, Jump(h.pc));
    Then(w, v, w');
  }

  /** Every step of the lifted machine is a run of permitted actions of its task. */
  lemma StepMatches<S(!new)>(code: Code, sem: Interpreter.Semantics<S>, answers: Interpreter.Answers,
                             m: Interpreter.Machine<S>, w: World)
    returns (w': World)
    requires Interpreter.Inv(code, m) && Interpreter.Conforms(code, sem) && Matches(m, w)
    ensures Leads(w, w') && Matches(Interpreter.Step(sem, answers, m), w')
  {
    hide Leads, Interpreter.Conforms;
    w' := w;
    Nothing(w);
    match m.mode
    case At(fn, b) => w' := BlockMatches(code, sem, m, w);
    case Entering(pc) => w' := EnteringMatches(answers, m, w, pc);
    case Returning =>
      if m.callers == [] {
        w' := Do1(w, Finish(m.taskPc));
      }
    case Idle =>
      if !m.Ending() {
        One(w, Enter(0));
        w' := Take(w, Enter(0));
      }
    case Halted =>
  }

  lemma EnteringMatches<S(!new)>(answers: Interpreter.Answers, m: Interpreter.Machine<S>, w: World, pc: PC)
    returns (w': World)
    requires m.mode == Interpreter.Entering(pc) && Matches(m, w) && !m.failed && !m.stopped
    ensures Leads(w, w')
    ensures Matches(match answers(pc)
                    case None => Interpreter.FailAt(m.(pcRegister := pc))
                    case Some(fn) => m.(mode := Interpreter.At(fn, fn.trace.pc)), w')
  {
    hide Leads;
    var v := w;
    Nothing(w);
    if w.lives[0].control.Dispatching? {
      v := Do1(w, if answers(pc).None? then CannotExecute else Found);
    }
    w' := v;
    if answers(pc).None? {
      w' := Do1(v, Fail(pc));
      Then(w, v, w');
    }
  }

  /** A block that runs after an error ends in another error or a jump. */
  lemma BlockMatches<S(!new)>(code: Code, sem: Interpreter.Semantics<S>, m: Interpreter.Machine<S>, w: World)
    returns (w': World)
    requires Interpreter.Inv(code, m) && Interpreter.Conforms(code, sem) && m.mode.At? && Matches(m, w)
    ensures Leads(w, w') && Matches(Interpreter.RunBlock(sem, m, m.mode.fn, m.mode.block), w')
  {
    hide Leads, OneTask, Interpreter.GoodFunction;
    var fn, b := m.mode.fn, m.mode.block;
    Interpreter.BlockOf(code, fn, b);
    assert Interpreter.ConformsAt(code(b).inst, b, sem, m.s);
    var block := fn.blocks[b];
    match block.body
    case None => w' := TerminatorMatches(sem, m.(pcRegister := b), w, fn, block.terminator.value, false);
    case Some(inst) =>
      var e := sem.exec(inst, m.s);
      var log := if block.terminator.value.TailError? then m.log else m.log + [b];
      var m' := m.(s := e.s, pcRegister := e.pc, fault := Interpreter.First(m.fault, e.fault), log := log);
      var v := FaultMatches(m, w, e.fault);
      w' := TerminatorMatches(sem, m', v, fn, block.terminator.value, e.taken);
      Then(w, v, w');
  }

  /** A fault of an instruction is recorded, if it is the first. */
  lemma FaultMatches<S>(m: Interpreter.Machine<S>, w: World, fault: Option<TaskStatus.Fault>) returns (w': World)
    requires SameRecord(m, w) && HasControl(w)
    requires w.lives[0].control == if m.failed then Unwinding else Running
    requires m.failed ==> fault.None?
    ensures Leads(w, w') && SameRecord(m.(fault := Interpreter.First(m.fault, fault)), w') && HasControl(w')
    ensures w'.lives[0].control == w.lives[0].control
  {
    hide Leads;
    w' := w;
    Nothing(w);
    if fault.Some? {
      w' := Do1(w, MemoryFault(fault.value));
    }
  }

  /**
   * Every run of lifted code, from the first dispatch of a new task, is a run of permitted actions: so
   * what all runs of tasks keep holds of it, and the task is stopped exactly if the code has failed or
   * faulted or a hyper call has stopped it.
   */
  lemma {:induction false} LiftedRunIsPermitted<S(!new)>(
    code: Code, sem: Interpreter.Semantics<S>, lookup: Interpreter.Lookup, start: Interpreter.Flat<S>, k: nat)
    returns (w: World)
    requires Interpreter.Conforms(code, sem) && Interpreter.GoodLookup(code, sem, lookup, start)
    requires Interpreter.IsFresh(start)
    ensures Leads(NOTHING, w)
    ensures Matches(Interpreter.Run(sem, lookup, Interpreter.Start(start.pc, start.s), k), w)
  {
    hide Interpreter.Conforms, Interpreter.GoodLookup, Interpreter.Step, Leads;
    if k == 0 {
      One(NOTHING, Create(start.pc));
      w := Take(NOTHING, Create(start.pc));
    } else {
      var v := LiftedRunIsPermitted(code, sem, lookup, start, k - 1);
      Interpreter.LiftedRunFollowsFlatRun(code, sem, lookup, start, k - 1);
      var m := Interpreter.Run(sem, lookup, Interpreter.Start(start.pc, start.s), k - 1);
      w := StepMatches(code, sem, lookup(k - 1), m, v);
      Then(NOTHING, v, w);
    }
  }

  /**
   * Where the program cannot go on, its task is stopped for good: whatever all tasks do from then on, it
   * is never entered, and nothing about it changes.
   */
  lemma FlatEndIsFinal<S(!new)>(
    code: Code, sem: Interpreter.Semantics<S>, lookup: Interpreter.Lookup, start: Interpreter.Flat<S>, n: nat)
    returns (w: World)
    requires Interpreter.Conforms(code, sem) && Interpreter.GoodLookup(code, sem, lookup, start)
    requires Interpreter.IsFresh(start)
    requires Interpreter.FlatOk(code, sem, start, n)
    requires var f := Interpreter.FlatRun(code, sem, start, n); f.stopped || Interpreter.FlatFails(code, f)
    ensures Leads(NOTHING, w) && |w.lives| == 1
    ensures var f := Interpreter.FlatRun(code, sem, start, n); f.fault.None? ==> w.lives[0].task.pc == f.pc
    ensures forall steps :: Run(w, steps).Some? ==>
              Enter(0) !in steps && |Run(w, steps).value.lives| > 0 && Run(w, steps).value.lives[0] == w.lives[0]
  {
    hide Interpreter.Conforms, Interpreter.GoodLookup, Interpreter.Step, Leads, Good, Doomed, Run;
    var k := Interpreter.FlatEndStopsTask(code, sem, lookup, start, n);
    w := LiftedRunIsPermitted(code, sem, lookup, start, k);
    Interpreter.LiftedRunFollowsFlatRun(code, sem, lookup, start, k);
    forall steps | Run(w, steps).Some?
      ensures Enter(0) !in steps && |Run(w, steps).value.lives| > 0
      ensures Run(w, steps).value.lives[0] == w.lives[0]
    {
      DoomedIsNeverEntered(w, steps, 0);
    }
  }

  /**
   * Once an instruction has faulted, the task runs on to where it next gives up control, and no
   * further: whatever all tasks do, it is never entered again. The first fault stays the recorded one.
   */
  lemma FaultIsFinal<S(!new)>(
    code: Code, sem: Interpreter.Semantics<S>, lookup: Interpreter.Lookup, start: Interpreter.Flat<S>, k: nat)
    returns (w: World)
    requires Interpreter.Conforms(code, sem) && Interpreter.GoodLookup(code, sem, lookup, start)
    requires Interpreter.IsFresh(start)
    requires Interpreter.Run(sem, lookup, Interpreter.Start(start.pc, start.s), k).fault.Some?
    ensures var m := Interpreter.Run(sem, lookup, Interpreter.Start(start.pc, start.s), k);
            && Leads(NOTHING, w) && Matches(m, w)
            && m.fault == Interpreter.FlatRun(code, sem, start, |m.log|).fault
            && forall steps :: Run(w, steps).Some? ==>
                 && Enter(0) !in steps && |Run(w, steps).value.lives| > 0
                 && Run(w, steps).value.lives[0].task.fault == m.fault
  {
    hide Interpreter.Conforms, Interpreter.GoodLookup, Interpreter.Step, Leads, Good, Doomed, Run;
    w := LiftedRunIsPermitted(code, sem, lookup, start, k);
    Interpreter.LiftedRunFollowsFlatRun(code, sem, lookup, start, k);
    var m := Interpreter.Run(sem, lookup, Interpreter.Start(start.pc, start.s), k);
    forall steps | Run(w, steps).Some?
      ensures Enter(0) !in steps && |Run(w, steps).value.lives| > 0
      ensures Run(w, steps).value.lives[0].task.fault == m.fault
    {
      DoomedIsNeverEntered(w, steps, 0);
    }
  }
}
