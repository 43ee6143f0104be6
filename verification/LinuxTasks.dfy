/** The emulated Linux kernel's tasks: their list, their ring, futex waiting and waking. */
module LinuxTasks {
  import opened Options
  import opened TaskStatus
  import opened TaskRuns
  import opened Rounds

  const FIRST_TID: nat := 2

  class LinuxTask {
    const tid: nat
    /** Names the address space. */
    const memory: nat

    var next: LinuxTask?
    var nextCircular: LinuxTask?
    var blockedCount: nat
    var futexAddr: nat
    var futexBitset: bv32

    // What the executor knows of a task.
    var pc: nat
    var status: Status
    var statusOnResume: Status
    var location: TaskStatus.Location
    var lastPc: nat
    var fault: Option<Fault>
    /** Where the task is on the stack of its coroutine. */
    var control: Control

    function State(): TaskState
      reads `pc, `status, `statusOnResume, `location, `lastPc, `fault
    {
      TaskState(pc, status, statusOnResume, location, lastPc, fault)
    }

    function Life(): Life
      reads `pc, `status, `statusOnResume, `location, `lastPc, `fault, `control
    {
      TaskRuns.Life(State(), control)
    }

    function View(): TaskView
      reads `pc, `status, `statusOnResume, `location, `lastPc, `fault, `control
      reads `blockedCount, `futexAddr, `futexBitset
    {
      TaskView(Life(), memory, blockedCount, futexAddr, futexBitset)
    }

    constructor (tid: nat, pc: nat, memory: nat)
      ensures this.tid == tid && this.memory == memory && next == nextCircular == null
      ensures View() == NewTask(pc, memory)
    {
      this.tid, this.memory := tid, memory;
      next, nextCircular := null, null;
      this.pc, status, statusOnResume, location, lastPc, fault := pc, Runnable, Runnable, NotYetStarted, 0, None;
      control := Outside;
      blockedCount, futexAddr, futexBitset := 0, 0, 0;
    }

    /** A memory access by lifted code has failed; the code goes on. */
    method RecordFault(newFault: Fault)
      modifies `status, `statusOnResume, `fault
      ensures State() == old(State()).WithFault(newFault)
    {
      if fault.None? {
        status := Error;
        statusOnResume := Error;
        fault := Some(newFault);
      }
    }

    method SetLocation(newPc: nat, newLocation: TaskStatus.Location)
      modifies `pc, `location, `status, `statusOnResume
      ensures State() == old(State()).AtLocation(newPc, newLocation)
    {
      pc := newPc;
      location := newLocation;
      match location {
        case AtError | BeforeUnhandledHyperCall | AtUnsupportedInstruction =>
          status := Error;
          statusOnResume := Error;
        case AtExit =>
          status := Exited;
          statusOnResume := Exited;
        case _ =>
      }
    }

    /** Gives up control in the middle of lifted code or of a hyper call. */
    method Pause()
      modifies `status, `statusOnResume
      ensures State() == old(State()).Paused()
    {
      statusOnResume := status;
      if status == Runnable {
        status := Resumable;
      }
    }

    /** The executor's lookup for a task whose code cannot be executed. */
    method RecordNotExecutable()
      modifies `status, `fault
      ensures State() == old(State()).NotExecutable()
    {
      status := Error;
      fault := Some(Fault(OnExecute, Instruction, 1, pc));
    }

    /** The end of executing the lifted function entered at `entry`. */
    method FinishExecution(entry: nat)
      modifies `lastPc, `status
      ensures State() == old(State()).Finished(entry)
    {
      lastPc := entry;
      if fault.None? {
        match location {
          case AtError | BeforeUnhandledHyperCall => status := Error;
          case _ => status := Runnable;
        }
      } else {
        status := Error;
      }
    }

    /**
     * Gives a task control. A task that gave up control goes on where it was, with the status it had
     * saved, and that is Runnable.
     */
    method Enter()
      requires IdleOk(Life()) && CanEnter(State())
      modifies `status, `control
      ensures Life() == Entered(old(Life())) && ActiveOk(Life()) && !Doomed(State())
    {
      EnteredIsActive(Life());
      if status == Resumable {
        status := statusOnResume;
        assert status == Runnable;
        control := if control.InHyperCall? then Running else Dispatching;
      } else {
        control := Dispatching;
      }
    }

    /** What lifted code, the executor or a hyper call does for the task that has control. */
    method Perform(a: Action)
      requires ActiveOk(Life()) && CanDo(control, a)
      modifies `pc, `status, `statusOnResume, `location, `lastPc, `fault, `control
      ensures Life() == Do(old(Life()), a)
      ensures if GivesUpControl(a) then IdleOk(Life()) else ActiveOk(Life())
      ensures old(Doomed(State())) ==> Doomed(State())
      ensures old(fault.Some?) ==> fault == old(fault)
    {
      DoKeepsOk(Life(), a);
      hide IdleOk, ActiveOk;
      match a
      case Found => control := Running;
      case Missing => control := NoFunction;
      case CannotExecute =>
        RecordNotExecutable();
        control := NoFunction;
      case MemoryFault(newFault) => RecordFault(newFault);
      case Location(newPc, newLocation) =>
        SetLocation(newPc, newLocation);
        control := if StopsTask(newLocation) then Stopping else control;
      case Fail(newPc) =>
        pc, location, status, statusOnResume := newPc, AtError, Error, Error;
        control := Unwinding;
      case Return(newPc) => pc, location := newPc, AtReturnTarget;
      case Jump(newPc) =>
        pc, location := newPc, AtJumpTarget;
        Pause();
        control := AtJump;
      case Call(newPc) =>
        pc, location := newPc, AtCallTarget;
        Pause();
        control := AtJump;
      case Yield =>
        Pause();
        control := InHyperCall;
      case Finish(entry) =>
        FinishExecution(entry);
        control := Outside;
    }

    /** Everything a task does from getting control to giving it up. */
    method RunStint(actions: seq<Action>)
      requires ActiveOk(Life()) && IsStint(Life(), actions)
      modifies `pc, `status, `statusOnResume, `location, `lastPc, `fault, `control
      ensures Life() == AfterStint(old(Life()), actions) && IdleOk(Life())
    {
      hide IdleOk, ActiveOk, Do, CanDo;
      var k := 0;
      while k < |actions| && (k == 0 || !GivesUpControl(actions[k - 1]))
        invariant k <= |actions| && AfterStint(Life(), actions[k..]) == AfterStint(old(Life()), actions)
        invariant if 0 < k && GivesUpControl(actions[k - 1]) then k == |actions| && IdleOk(Life())
                  else ActiveOk(Life()) && IsStint(Life(), actions[k..])
      {
        assert actions[k..][1..] == actions[k + 1..];
        Perform(actions[k]);
        k := k + 1;
      }
      assert actions[|actions|..] == [];
    }

    /** A wake on the address is for this task. Tasks in different address spaces share no futexes. */
    predicate WaitsFor(memory: nat, uaddr: nat, bitset: bv32)
      reads `blockedCount, `futexAddr, `futexBitset
    {
      this.memory == memory && futexAddr == uaddr && 0 < blockedCount && Overlap(futexBitset, bitset)
    }
  }

  /** The kernel's globals. */
  class Linux {
    var taskList: LinuxTask?
    var lastTask: LinuxTask?
    var nextTid: nat

    /** The tasks in list order, which is newest first. */
    ghost var tasks: seq<LinuxTask>

    ghost predicate Valid()
      reads this, (set t | t in tasks)`next, (set t | t in tasks)`nextCircular
    {
      && nextTid == FIRST_TID + |tasks|
      && (forall i | 0 <= i < |tasks| :: tasks[i].tid == nextTid - 1 - i)
      && (tasks == [] ==> taskList == null)
      && (tasks != [] ==> taskList == tasks[0] && lastTask == tasks[|tasks| - 1])
      && (forall i | 0 <= i < |tasks| :: tasks[i].next == if i + 1 < |tasks| then tasks[i + 1] else null)
      && (forall i | 0 <= i < |tasks| :: tasks[i].nextCircular == tasks[if i + 1 < |tasks| then i + 1 else 0])
    }

    constructor ()
      ensures Valid() && tasks == []
    {
      taskList, lastTask, nextTid, tasks := null, null, FIRST_TID, [];
    }

    /** Tasks have different numbers, so each is in the list once. */
    lemma TasksAreDistinct()
      requires Valid()
      ensures forall i, j | 0 <= i < j < |tasks| :: tasks[i] != tasks[j]
    {
    }

    /** Puts a new task at the front of the list and in the ring between the oldest and the newest. */
    method CreateTask(pc: nat, memory: nat) returns (task: LinuxTask)
      requires Valid()
      modifies this, (set t | t in tasks)`nextCircular
      ensures Valid() && fresh(task) && tasks == [task] + old(tasks)
      ensures task.tid == old(nextTid) && task.View() == NewTask(pc, memory)
    {
      hide Valid, LinuxTask.View, NewTask;
      task := new LinuxTask(nextTid, pc, memory);
      Link(task);
    }

    method Link(task: LinuxTask)
      requires Valid() && task.tid == nextTid && task !in tasks
      modifies this, task`next, task`nextCircular, (set t | t in tasks)`nextCircular
      ensures Valid() && tasks == [task] + old(tasks)
    {
      TasksAreDistinct();
      ghost var before := tasks;
      nextTid := nextTid + 1;
      if taskList != null {
        lastTask.nextCircular := task;
        task.nextCircular := taskList;
      } else {
        lastTask := task;
        task.nextCircular := task;
      }
      task.next := taskList;
      taskList := task;
      tasks := [task] + tasks;
      assert forall i | 0 < i < |tasks| :: tasks[i] == before[i - 1];
    }

    lemma OthersAreDistinct(i: nat)
      requires Valid() && i < |tasks|
      ensures var others := Others(tasks, i);
              && |others| == |tasks| - 1
              && (forall p | 0 <= p < |others| :: others[p] in tasks && others[p] != tasks[i])
              && (forall p, q | 0 <= p < q < |others| :: others[p] != others[q])
    {
      TasksAreDistinct();
    }

    /** Where the ring goes from the `i`th task. */
    lemma NextInRing(i: nat, p: nat)
      requires Valid() && i < |tasks| && p < |tasks|
      ensures var others := Others(tasks, i);
              && |others| == |tasks| - 1
              && (if p == 0 then tasks[i] else others[p - 1]).nextCircular ==
                 if p < |others| then others[p] else tasks[i]
    {
    }

    /** Unblocks the first waiters in ring order, starting after `task`; at least one, if there is one. */
    method DoWake(task: LinuxTask, uaddr: nat, bitset: bv32, numToWake: nat, ghost i: nat) returns (numWoken: nat)
      requires Valid() && i < |tasks| && tasks[i] == task
      modifies (set t | t in tasks)`blockedCount
      ensures Valid() && task.blockedCount == old(task.blockedCount)
      ensures var others, waits := Others(tasks, i), old(Waiting(Others(tasks, i), task.memory, uaddr, bitset));
              && (forall q | 0 <= q < |others| :: waits[q] <==>
                    && others[q].memory == task.memory && others[q].futexAddr == uaddr
                    && 0 < old(others[q].blockedCount) && Overlap(others[q].futexBitset, bitset))
              && numWoken == (if Count(waits, |others|) < Limit(numToWake) then Count(waits, |others|)
                              else Limit(numToWake))
              && forall q | 0 <= q < |others| ::
                   others[q].blockedCount ==
                   if waits[q] && Count(waits, q) < Limit(numToWake) then 0 else old(others[q].blockedCount)
    {
      hide LinuxTask.WaitsFor, Valid, Others, Count, Overlap, Limit;
      ghost var others := Others(tasks, i);
      OthersAreDistinct(i);
      WaitingAre(others, task.memory, uaddr, bitset);
      numWoken := WakeRing(task, uaddr, bitset, numToWake, i);
      assert forall q | 0 <= q < |others| ::
        others[q].futexAddr == old(others[q].futexAddr) && others[q].futexBitset == old(others[q].futexBitset);
    }

    /** The walk around the ring. */
    method WakeRing(task: LinuxTask, uaddr: nat, bitset: bv32, numToWake: nat, ghost i: nat) returns (numWoken: nat)
      requires Valid() && i < |tasks| && tasks[i] == task
      modifies (set t | t in tasks)`blockedCount
      ensures Valid() && task.blockedCount == old(task.blockedCount)
      ensures var others, limit := Others(tasks, i), Limit(numToWake);
              var waits := old(Waiting(others, task.memory, uaddr, bitset));
              && numWoken == (if Count(waits, |others|) < limit then Count(waits, |others|) else limit)
              && forall q | 0 <= q < |others| ::
                   others[q].blockedCount ==
                   if waits[q] && Count(waits, q) < limit then 0 else old(others[q].blockedCount)
    {
      hide LinuxTask.WaitsFor, Valid, Others, Count;
      OthersAreDistinct(i);
      ghost var others, limit := Others(tasks, i), Limit(numToWake);
      ghost var waits := Waiting(others, task.memory, uaddr, bitset);
      numWoken := 0;
      NextInRing(i, 0);
      CountStep(waits, 0);
      var nextTask: LinuxTask? := task.nextCircular;
      ghost var p := 0;
      while nextTask != task
        invariant Valid() && p <= |others| && nextTask == if p < |others| then others[p] else task
        invariant numWoken == Count(waits, p) < limit
        invariant forall q | 0 <= q < p :: others[q].blockedCount == if waits[q] then 0 else old(others[q].blockedCount)
        invariant forall q | p <= q < |others| :: others[q].blockedCount == old(others[q].blockedCount)
        invariant task.blockedCount == old(task.blockedCount)
        decreases |others| - p
      {
        var wake := nextTask.WaitsFor(task.memory, uaddr, bitset);
        if wake {
          nextTask.blockedCount := 0;
          numWoken := numWoken + 1;
        }
        CountStep(waits, p);
        p := p + 1;
        if wake && numWoken >= numToWake {
          break;
        }
        NextInRing(i, p);
        nextTask := nextTask.nextCircular;
      }
      FirstWoken(waits, limit, p);
    }
  }

  /** Which of the tasks a wake is for. */
  ghost function Waiting(ts: seq<LinuxTask>, memory: nat, uaddr: nat, bitset: bv32): (waits: seq<bool>)
    reads ts
    ensures |waits| == |ts|
    ensures forall q | 0 <= q < |ts| :: waits[q] == ts[q].WaitsFor(memory, uaddr, bitset)
  {
    seq(|ts|, q requires 0 <= q < |ts| reads ts => ts[q].WaitsFor(memory, uaddr, bitset))
  }

  lemma WaitingAre(ts: seq<LinuxTask>, memory: nat, uaddr: nat, bitset: bv32)
    ensures forall q | 0 <= q < |ts| :: Waiting(ts, memory, uaddr, bitset)[q] <==>
      && ts[q].memory == memory && ts[q].futexAddr == uaddr
      && 0 < ts[q].blockedCount && Overlap(ts[q].futexBitset, bitset)
  {
    hide Overlap;
  }

  ghost function Views(ts: seq<LinuxTask>): (vs: seq<TaskView>)
    reads ts
    ensures |vs| == |ts| && forall i | 0 <= i < |ts| :: vs[i] == ts[i].View()
  {
    seq(|ts|, i requires 0 <= i < |ts| reads ts => ts[i].View())
  }
}
