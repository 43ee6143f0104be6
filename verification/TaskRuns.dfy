/**
 * Runs of many tasks under a scheduler, with the order in which lifted code and the runtime can call
 * the intrinsics. A task that has recorded a fault, an error or an exit never gets control again.
 */
module TaskRuns {
  import opened Options
  import opened TaskStatus

  /** Where a task is in its code. */
  datatype Control =
    | Outside      // no lifted code of the task is on its stack
    | Dispatching  // the executor is looking for the lifted function of the task's PC
    | NoFunction   // there is none, and the error intrinsic is about to run instead
    | Running      // in lifted code, or in a hyper call
    | Stopping     // in a hyper call that has stopped the task; only a jump or yield can follow
    | Unwinding    // the error intrinsic has run, and its callers are returning
    | AtJump       // has given up control in the jump or call intrinsic
    | InHyperCall  // has given up control in a hyper call

  datatype Action =
    | Found
    | Missing
    | CannotExecute
    | MemoryFault(fault: Fault)
    | Location(pc: nat, location: Location)
    | Fail(pc: nat)
    | Return(pc: nat)
    | Jump(pc: nat)
    | Call(pc: nat)
    | Yield
    | Finish(entry: nat)

  datatype Life = Life(task: TaskState, control: Control)

  predicate StopsTask(location: Location) {
    location == BeforeUnhandledHyperCall || location == AtUnsupportedInstruction || location == AtExit
  }

  /** When lifted code can do what: hyper calls end in a jump, and after an error there are only returns. */
  predicate CanDo(control: Control, a: Action) {
    match a
    case Found => control.Dispatching?
    case Missing => control.Dispatching?
    case CannotExecute => control.Dispatching?
    case MemoryFault(_) => control.Running? || control.Stopping?
    case Location(_, location) =>
      (control.Running? || control.Stopping?) && (location == AfterHyperCall || StopsTask(location))
    case Fail(_) => control.Running? || control.NoFunction? || control.Unwinding?
    case Return(_) => control.Running?
    case Jump(_) => control.Running? || control.Stopping? || control.Unwinding?
    case Call(_) => control.Running?
    case Yield => control.Running? || control.Stopping?
    case Finish(_) => control.Running? || control.Unwinding?
  }

  predicate GivesUpControl(a: Action) {
    a.Jump? || a.Call? || a.Yield? || a.Finish?
  }

  function Do(l: Life, a: Action): Life {
    var t := l.task;
    match a
    case Found => Life(t, Running)
    case Missing => Life(t, NoFunction)
    case CannotExecute => Life(t.NotExecutable(), NoFunction)
    case MemoryFault(fault) => Life(t.WithFault(fault), l.control)
    case Location(pc, location) =>
      Life(t.AtLocation(pc, location), if StopsTask(location) then Stopping else l.control)
    case Fail(pc) => Life(t.AtLocation(pc, AtError), Unwinding)
    case Return(pc) => Life(t.AtLocation(pc, AtReturnTarget), l.control)
    case Jump(pc) => Life(t.AtLocation(pc, AtJumpTarget).Paused(), AtJump)
    case Call(pc) => Life(t.AtLocation(pc, AtCallTarget).Paused(), AtJump)
    case Yield => Life(t.Paused(), InHyperCall)
    case Finish(entry) => Life(t.Finished(entry), Outside)
  }

  /** The scheduler gives a task control: from its PC, or where it gave up control. */
  function Entered(l: Life): Life {
    if l.task.status == Resumable then
      Life(l.task.Resumed(), if l.control.InHyperCall? then Running else Dispatching)
    else
      Life(l.task, Dispatching)
  }

  predicate CanEnter(t: TaskState) {
    t.status == Runnable || t.status == Resumable
  }

  // ---------------------------------------------------------------- runs

  datatype World = World(lives: seq<Life>, current: Option<nat>)

  datatype Step = Create(pc: nat) | Enter(task: nat) | Act(action: Action)

  predicate Possible(w: World, step: Step) {
    match step
    case Create(_) => true
    case Enter(i) => w.current.None? && i < |w.lives| && CanEnter(w.lives[i].task)
    case Act(a) => w.current.Some? && w.current.value < |w.lives| && CanDo(w.lives[w.current.value].control, a)
  }

  function Take(w: World, step: Step): World
    requires Possible(w, step)
  {
    match step
    case Create(pc) => w.(lives := w.lives + [Life(InitialTask(pc), Outside)])
    case Enter(i) => World(w.lives[i := Entered(w.lives[i])], Some(i))
    case Act(a) =>
      var i := w.current.value;
      World(w.lives[i := Do(w.lives[i], a)], if GivesUpControl(a) then None else w.current)
  }

  /** The world after a run, if every step of it is possible. */
  function Run(w: World, steps: seq<Step>): Option<World>
    decreases |steps|
  {
    if steps == [] then Some(w)
    else if Possible(w, steps[0]) then Run(Take(w, steps[0]), steps[1..])
    else None
  }

  lemma RunOne(w: World, step: Step)
    requires Possible(w, step)
    ensures Run(w, [step]) == Some(Take(w, step))
  {
    assert [step][1..] == [];
    assert Run(Take(w, step), []) == Some(Take(w, step));
  }

  /** A run after a run is a run. */
  lemma {:induction false} RunJoin(w: World, a: seq<Step>, b: seq<Step>)
    requires Run(w, a).Some?
    ensures Run(w, a + b) == Run(Run(w, a).value, b)
    decreases |a|
  {
    hide Possible, Take;
    if a == [] {
      assert a + b == b;
    } else {
      assert (a + b)[1..] == a[1..] + b;
      RunJoin(Take(w, a[0]), a[1..], b);
    }
  }

  const NOTHING: World := World([], None)

  // ---------------------------------------------------------------- what every run keeps

  /** The task has recorded that it is to stop. */
  predicate Doomed(t: TaskState) {
    t.fault.Some? || t.status == Error || t.status == Exited
  }

  /** A task without control can be entered exactly if nothing has stopped it. */
  ghost predicate IdleOk(l: Life) {
    && (l.control.Outside? || l.control.AtJump? || l.control.InHyperCall?)
    && (Doomed(l.task) <==> !CanEnter(l.task))
    && (l.task.status == Runnable ==> l.control.Outside? && GoodLocation(l.task.location))
    && (l.task.status == Resumable ==>
          !l.control.Outside? && l.task.statusOnResume == Runnable && GoodLocation(l.task.location))
  }

  /** Where a task can be without its being finished counting as an error. */
  predicate GoodLocation(location: Location) {
    location != AtError && location != BeforeUnhandledHyperCall
  }

  ghost predicate ActiveOk(l: Life) {
    var t := l.task;
    && t.status != Resumable && (t.status == Runnable <==> !Doomed(t))
    && match l.control
       case Dispatching => !Doomed(t) && GoodLocation(t.location)
       case NoFunction => GoodLocation(t.location)
       case Running => GoodLocation(t.location) && (Doomed(t) ==> t.fault.Some?)
       case Stopping => Doomed(t)
       case Unwinding => Doomed(t) && t.location == AtError
       case _ => false
  }

  ghost predicate Good(w: World) {
    && (w.current.Some? ==> w.current.value < |w.lives| && ActiveOk(w.lives[w.current.value]))
    && (forall i | 0 <= i < |w.lives| && w.current != Some(i) :: IdleOk(w.lives[i]))
  }

  /** A task that is given control goes on with the status it had. */
  lemma EnteredIsActive(l: Life)
    requires IdleOk(l) && CanEnter(l.task)
    ensures ActiveOk(Entered(l)) && !Doomed(Entered(l).task)
    ensures Entered(l).control.Dispatching? || Entered(l).control.Running?
  {
  }

  /** What one action does: a stop is never undone, and of several faults the first stays. */
  lemma DoKeepsOk(l: Life, a: Action)
    requires ActiveOk(l) && CanDo(l.control, a)
    ensures if GivesUpControl(a) then IdleOk(Do(l, a)) else ActiveOk(Do(l, a))
    ensures Doomed(l.task) ==> Doomed(Do(l, a).task)
    ensures l.task.fault.Some? ==> Do(l, a).task.fault == l.task.fault
  {
  }

  lemma TakeKeepsGood(w: World, step: Step)
    requires Good(w) && Possible(w, step)
    ensures Good(Take(w, step))
  {
    hide IdleOk, ActiveOk, Do, Entered;
    match step
    case Create(pc) => assert IdleOk(Life(InitialTask(pc), Outside)) by { NewIsIdle(pc); }
    case Enter(i) => EnteredIsActive(w.lives[i]);
    case Act(a) => DoKeepsOk(w.lives[w.current.value], a);
  }

  lemma NewIsIdle(pc: nat)
    ensures IdleOk(Life(InitialTask(pc), Outside)) && CanEnter(InitialTask(pc)) && !Doomed(InitialTask(pc))
  {
  }

  /** Every world that a run reaches is good. */
  lemma {:induction false} RunsStayGood(w: World, steps: seq<Step>)
    requires Good(w) && Run(w, steps).Some?
    ensures Good(Run(w, steps).value)
    decreases |steps|
  {
    if steps != [] {
      TakeKeepsGood(w, steps[0]);
      RunsStayGood(Take(w, steps[0]), steps[1..]);
    }
  }

  /**
   * In every run, a task that is entered has recorded nothing that stops it. If it gave up control
   * before, it goes on with the status it had, which was Runnable.
   */
  lemma EnteredTaskIsLive(steps: seq<Step>, i: nat)
    requires Run(NOTHING, steps).Some? && Possible(Run(NOTHING, steps).value, Enter(i))
    ensures var l := Run(NOTHING, steps).value.lives[i];
            && !Doomed(l.task)
            && (l.task.status == Resumable ==>
                  l.task.statusOnResume == Runnable && (l.control.AtJump? || l.control.InHyperCall?))
            && (l.task.status == Runnable ==> l.control.Outside?)
            && Entered(l).task.status == Runnable
  {
    RunsStayGood(NOTHING, steps);
  }

  /** What one step does to a task that is to stop. */
  lemma TakeKeepsDoomed(w: World, step: Step, i: nat)
    requires Good(w) && Possible(w, step) && i < |w.lives| && Doomed(w.lives[i].task)
    ensures step != Enter(i)
    ensures Doomed(Take(w, step).lives[i].task)
    ensures w.lives[i].task.fault.Some? ==> Take(w, step).lives[i].task.fault == w.lives[i].task.fault
    ensures w.current != Some(i) ==> Take(w, step).current != Some(i) && Take(w, step).lives[i] == w.lives[i]
  {
  }

  /**
   * Once a task has recorded a fault, an error or an exit, no run enters it again: it stays stopped,
   * its first fault stays the recorded one, and as soon as it is without control nothing about it
   * changes any more.
   */
  lemma {:induction false} DoomedIsNeverEntered(w: World, steps: seq<Step>, i: nat)
    requires Good(w) && Run(w, steps).Some? && i < |w.lives| && Doomed(w.lives[i].task)
    ensures Enter(i) !in steps
    ensures var w' := Run(w, steps).value;
            && i < |w'.lives| && Doomed(w'.lives[i].task)
            && (w.lives[i].task.fault.Some? ==> w'.lives[i].task.fault == w.lives[i].task.fault)
            && (w.current != Some(i) ==> w'.lives[i] == w.lives[i])
    decreases |steps|
  {
    hide Good, Take, Possible, Doomed;
    if steps != [] {
      TakeKeepsGood(w, steps[0]);
      TakeGrows(w, steps[0]);
      TakeKeepsDoomed(w, steps[0], i);
      DoomedIsNeverEntered(Take(w, steps[0]), steps[1..], i);
      assert steps == [steps[0]] + steps[1..];
    }
  }

  lemma TakeGrows(w: World, step: Step)
    requires Possible(w, step)
    ensures |w.lives| <= |Take(w, step).lives|
  {
  }

  // ---------------------------------------------------------------- one stint

  /** What a task does from getting control to giving it up. */
  predicate IsStint(l: Life, actions: seq<Action>)
    decreases |actions|
  {
    && actions != [] && CanDo(l.control, actions[0])
    && if GivesUpControl(actions[0]) then |actions| == 1 else IsStint(Do(l, actions[0]), actions[1..])
  }

  function AfterStint(l: Life, actions: seq<Action>): Life
    decreases |actions|
  {
    if actions == [] then l else AfterStint(Do(l, actions[0]), actions[1..])
  }

  function Acts(actions: seq<Action>): seq<Step> {
    seq(|actions|, k requires 0 <= k < |actions| => Act(actions[k]))
  }

  lemma {:induction false} StintEndsIdle(l: Life, actions: seq<Action>)
    requires ActiveOk(l) && IsStint(l, actions)
    ensures IdleOk(AfterStint(l, actions))
    decreases |actions|
  {
    hide IdleOk, ActiveOk, Do, CanDo;
    var a := actions[0];
    DoKeepsOk(l, a);
    if GivesUpControl(a) {
      assert actions[1..] == [];
      assert AfterStint(Do(l, a), []) == Do(l, a);
    } else {
      StintEndsIdle(Do(l, a), actions[1..]);
    }
  }

  /** A stint is a run, and leaves the task without control: it can be entered again or is stopped. */
  lemma {:induction false} StintIsRun(w: World, i: nat, actions: seq<Action>)
    requires Good(w) && w.current == Some(i) && IsStint(w.lives[i], actions)
    ensures Run(w, Acts(actions)) == Some(World(w.lives[i := AfterStint(w.lives[i], actions)], None))
    ensures IdleOk(AfterStint(w.lives[i], actions))
    decreases |actions|
  {
    hide IdleOk, ActiveOk, Do, CanDo;
    var a := actions[0];
    var w' := Take(w, Act(a));
    assert Acts(actions)[0] == Act(a) && Acts(actions)[1..] == Acts(actions[1..]);
    TakeKeepsGood(w, Act(a));
    if GivesUpControl(a) {
      assert actions[1..] == [];
      assert AfterStint(w'.lives[i], []) == w'.lives[i];
      assert Run(w', []) == Some(w');
    } else {
      StintIsRun(w', i, actions[1..]);
      assert w'.lives[i := AfterStint(w.lives[i], actions)] == w.lives[i := AfterStint(w.lives[i], actions)];
    }
  }

  /** Where an action says that the task is. */
  function Where(a: Action): Option<(nat, TaskStatus.Location)> {
    match a
    case Location(pc, location) => Some((pc, location))
    case Fail(pc) => Some((pc, AtError))
    case Return(pc) => Some((pc, AtReturnTarget))
    case Jump(pc) => Some((pc, AtJumpTarget))
    case Call(pc) => Some((pc, AtCallTarget))
    case _ => None
  }

  /** What the last of the actions says that says anything. */
  function LastWhere(actions: seq<Action>, start: (nat, TaskStatus.Location)): (nat, TaskStatus.Location)
    decreases |actions|
  {
    if actions == [] then start
    else LastWhere(actions[1..], if Where(actions[0]).Some? then Where(actions[0]).value else start)
  }

  /** The first fault among the actions of a task that was entered at a PC. */
  function FirstFault(actions: seq<Action>, entry: nat): Option<Fault>
    decreases |actions|
  {
    if actions == [] then None
    else if actions[0].MemoryFault? then Some(actions[0].fault)
    else if actions[0].CannotExecute? then Some(Fault(OnExecute, Instruction, 1, entry))
    else FirstFault(actions[1..], entry)
  }

  /**
   * What is on record after a stint: the PC and location that were recorded last, the first fault, and, if
   * the lifted code has returned, where it was entered.
   */
  lemma {:induction false} StintRecords(l: Life, actions: seq<Action>, entry: nat)
    requires ActiveOk(l) && IsStint(l, actions) && (l.control.Dispatching? ==> entry == l.task.pc)
    ensures var (before, after) := (l.task, AfterStint(l, actions).task);
            && (after.pc, after.location) == LastWhere(actions, (before.pc, before.location))
            && after.fault == (if before.fault.Some? then before.fault else FirstFault(actions, entry))
            && after.lastPc == var last := actions[|actions| - 1]; if last.Finish? then last.entry else before.lastPc
    decreases |actions|
  {
    var a := actions[0];
    DoKeepsOk(l, a);
    hide ActiveOk, IdleOk;
    if GivesUpControl(a) {
      assert actions[1..] == [];
      assert AfterStint(Do(l, a), []) == Do(l, a);
    } else {
      StintRecords(Do(l, a), actions[1..], entry);
    }
  }

  /**
   * Recording an exit does not stop a task by itself: if its lifted function were to return next,
   * rather than jump, the task would be entered again.
   */
  lemma ExitNeedsJump(t: TaskState, pc: nat, entry: nat)
    ensures CanEnter(t.AtLocation(pc, AtExit).Finished(entry)) <==> t.fault.None?
    ensures !CanEnter(t.AtLocation(pc, AtExit).AtLocation(entry, AtJumpTarget).Paused())
  {
  }
}
