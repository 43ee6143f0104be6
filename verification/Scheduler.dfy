/** The kernel's scheduling loop, with arbitrary code in the tasks it runs. */
module Scheduler {
  import opened TaskRuns
  import opened Rounds
  import opened LinuxTasks

  // ---------------------------------------------------------------- one turn

  /** A futex wake does to all tasks what its specification says. */
  method WakeOne(kernel: Linux, task: LinuxTask, wake: Wake, ghost i: nat)
    requires kernel.Valid() && i < |kernel.tasks| && kernel.tasks[i] == task
    modifies (set t | t in kernel.tasks)`blockedCount
    ensures kernel.Valid() && Views(kernel.tasks) == AfterWake(old(Views(kernel.tasks)), i, wake)
  {
    hide Linux.Valid, LinuxTask.WaitsFor, Count, Others, Overlap;
    ghost var before := Views(kernel.tasks);
    SameWaits(kernel.tasks, i, wake);
    var _ := kernel.DoWake(task, wake.uaddr, wake.bitset, wake.count, i);
    forall j | 0 <= j < |kernel.tasks| ensures kernel.tasks[j].View() == AfterWake(before, i, wake)[j] {
      if j != i {
        OtherAt(kernel.tasks, i, j);
      }
    }
  }

  lemma SameWaits(ts: seq<LinuxTask>, i: nat, wake: Wake)
    requires i < |ts|
    ensures Waiting(Others(ts, i), ts[i].memory, wake.uaddr, wake.bitset) ==
            WaitsOf(Others(Views(ts), i), ts[i].memory, wake)
  {
    hide LinuxTask.WaitsFor, Waits, LinuxTask.View;
    var others, seen := Others(ts, i), Others(Views(ts), i);
    forall q | 0 <= q < |others| ensures seen[q] == others[q].View() {
    }
    forall q | 0 <= q < |others|
      ensures others[q].WaitsFor(ts[i].memory, wake.uaddr, wake.bitset) == Waits(seen[q], ts[i].memory, wake)
    {
      SameWait(others[q], ts[i].memory, wake);
    }
  }

  lemma SameWait(t: LinuxTask, memory: nat, wake: Wake)
    ensures t.WaitsFor(memory, wake.uaddr, wake.bitset) == Waits(t.View(), memory, wake)
  {
  }

  method WakeAll(kernel: Linux, task: LinuxTask, wakes: seq<Wake>, ghost i: nat)
    requires kernel.Valid() && i < |kernel.tasks| && kernel.tasks[i] == task
    modifies (set t | t in kernel.tasks)`blockedCount
    ensures kernel.Valid() && Views(kernel.tasks) == AfterWakes(old(Views(kernel.tasks)), i, wakes)
  {
    hide Linux.Valid, AfterWake;
    for k := 0 to |wakes|
      invariant kernel.Valid() && Views(kernel.tasks) == AfterWakes(old(Views(kernel.tasks)), i, wakes[..k])
    {
      WakeOne(kernel, task, wakes[k], i);
      assert wakes[..k + 1][..k] == wakes[..k];
    }
    assert wakes[..|wakes|] == wakes;
  }

  method Clone(kernel: Linux, memory: nat, pcs: seq<nat>) returns (ghost created: seq<LinuxTask>)
    requires kernel.Valid()
    modifies kernel, (set t | t in kernel.tasks)`nextCircular
    ensures kernel.Valid() && kernel.tasks == created + old(kernel.tasks) && forall t <- created :: fresh(t)
    ensures Views(created) == Clones(pcs, memory)
  {
    hide Linux.Valid, LinuxTask.View, NewTask;
    created := [];
    for k := 0 to |pcs|
      invariant kernel.Valid() && kernel.tasks == created + old(kernel.tasks) && forall t <- created :: fresh(t)
      invariant |created| == k && forall j | 0 <= j < k :: created[j].View() == NewTask(pcs[k - 1 - j], memory)
    {
      var task := kernel.CreateTask(pcs[k], memory);
      created := [task] + created;
    }
  }

  /** What a task that gets control does to itself. */
  method RunSelf(task: LinuxTask, effect: Effect)
    requires IdleOk(task.Life()) && CanEnter(task.State()) && IsStint(Entered(task.Life()), effect.actions)
    modifies task`pc, task`status, task`statusOnResume, task`location, task`lastPc, task`fault, task`control
    modifies task`blockedCount, task`futexAddr, task`futexBitset
    ensures task.View() == Left(old(task.View()), effect)
  {
    hide IdleOk, ActiveOk, IsStint, AfterStint, Entered;
    task.Enter();
    task.RunStint(effect.actions);
    task.blockedCount, task.futexAddr, task.futexBitset := effect.blockedCount, effect.futexAddr, effect.futexBitset;
  }

  /** What a task does to itself and to others, up to the point where it gives up control. */
  method GiveControl(kernel: Linux, task: LinuxTask, effect: Effect, ghost i: nat)
    requires kernel.Valid() && i < |kernel.tasks| && kernel.tasks[i] == task
    requires IdleOk(task.Life()) && CanEnter(task.State()) && IsStint(Entered(task.Life()), effect.actions)
    modifies (set t | t in kernel.tasks)
    ensures kernel.Valid()
    ensures var before := old(Views(kernel.tasks));
            Views(kernel.tasks) == AfterWakes(before, i, effect.wakes)[i := Left(before[i], effect)]
  {
    hide Linux.Valid, IdleOk, IsStint, Left, AfterWakes, Entered;
    ghost var before := Views(kernel.tasks);
    WakesUnblock(before, i, effect.wakes);
    WakeAll(kernel, task, effect.wakes, i);
    assert task.View() == before[i];
    assert task in kernel.tasks;
    kernel.TasksAreDistinct();
    RunSelf(task, effect);
  }

  /** Gives a task control until it finishes or yields. */
  method RunTask(kernel: Linux, task: LinuxTask, behaviour: Behaviour, time: nat, ghost i: nat)
    returns (ghost created: seq<LinuxTask>)
    requires kernel.Valid() && i < |kernel.tasks| && kernel.tasks[i] == task && Permitted(behaviour)
    requires IdleOk(task.Life()) && CanEnter(task.State()) && task.blockedCount == 0
    modifies kernel, (set t | t in kernel.tasks)
    ensures kernel.Valid() && kernel.tasks == created + old(kernel.tasks) && forall t <- created :: fresh(t)
    ensures var before := old(Views(kernel.tasks));
            var effect := behaviour(time, Entered(before[i].life));
            && Views(created) == Clones(effect.clones, task.memory)
            && Views(old(kernel.tasks)) == AfterWakes(before, i, effect.wakes)[i := Left(before[i], effect)]
  {
    hide Linux.Valid, IdleOk, ActiveOk, IsStint, AfterWakes, Left, Entered, Views;
    EnteredIsActive(task.Life());
    var effect := behaviour(time, Entered(task.Life()));
    GiveControl(kernel, task, effect, i);
    created := Clone(kernel, task.memory, effect.clones);
  }

  method CountDown(kernel: Linux, task: LinuxTask, ghost i: nat)
    requires kernel.Valid() && i < |kernel.tasks| && kernel.tasks[i] == task && 0 < task.blockedCount
    modifies task`blockedCount
    ensures kernel.Valid()
    ensures var before := old(Views(kernel.tasks));
            Views(kernel.tasks) == before[i := before[i].(blockedCount := before[i].blockedCount - 1)]
  {
    hide Linux.Valid;
    kernel.TasksAreDistinct();
    task.blockedCount := task.blockedCount - 1;
  }

  /** One task's turn is what the specification of a turn says. */
  method TakeTurn(kernel: Linux, task: LinuxTask, behaviour: Behaviour, time: nat, ghost i: nat)
    returns (turn: Turn, ghost created: seq<LinuxTask>)
    requires kernel.Valid() && i < |kernel.tasks| && kernel.tasks[i] == task
    requires AllIdle(Views(kernel.tasks)) && Permitted(behaviour)
    modifies kernel, (set t | t in kernel.tasks)
    ensures kernel.Valid() && kernel.tasks == created + old(kernel.tasks) && forall t <- created :: fresh(t)
    ensures var t := TurnAt(old(Views(kernel.tasks)), i, behaviour, time);
            turn == t.turn && Views(created) == t.created && Views(old(kernel.tasks)) == t.tasks
  {
    hide Linux.Valid, IdleOk, AfterWakes, Left, Entered, Permitted, Clones, Views;
    assert Views(kernel.tasks)[i] in Views(kernel.tasks) && task in kernel.tasks;
    turn, created := Reported, [];
    assert [] + kernel.tasks == kernel.tasks;
    if CanEnter(task.State()) {
      if task.blockedCount == 0 {
        turn := Ran(task.View());
        created := RunTask(kernel, task, behaviour, time, i);
      } else {
        CountDown(kernel, task, i);
        turn := CountedDown;
      }
    }
  }

  // ---------------------------------------------------------------- one round

  lemma ListEnds(kernel: Linux, i: nat)
    requires kernel.Valid()
    ensures kernel.taskList == if kernel.tasks == [] then null else kernel.tasks[0]
    ensures i < |kernel.tasks| ==>
      kernel.tasks[i].next == if i + 1 < |kernel.tasks| then kernel.tasks[i + 1] else null
  {
  }

  /** The kernel is in the middle of a round that began with these tasks. */
  ghost predicate InRound(kernel: Linux, present: seq<LinuxTask>, created: seq<LinuxTask>, r: RoundState)
    reads kernel, kernel.tasks, created, present
  {
    && kernel.Valid() && kernel.tasks == created + present
    && Views(created) == r.created && Views(present) == r.present && |r.turns| <= |present|
  }

  /** The next turn of a round. */
  method NextInRound(kernel: Linux, task: LinuxTask, behaviour: Behaviour, time: nat, ghost present: seq<LinuxTask>,
                     ghost created: seq<LinuxTask>, ghost r: RoundState)
    returns (turn: Turn, ghost all: seq<LinuxTask>)
    requires InRound(kernel, present, created, r) && AllIdle(r.All()) && Permitted(behaviour)
    requires |r.turns| < |present| && task == present[|r.turns|]
    modifies kernel, (set t | t in kernel.tasks)
    ensures InRound(kernel, present, all, NextTurn(r, behaviour, time))
    ensures turn == NextTurn(r, behaviour, time).turns[|r.turns|]
    ensures forall t <- all :: t in created || fresh(t)
    ensures forall t <- kernel.tasks :: t in old(kernel.tasks) || fresh(t)
    ensures task.next == if |r.turns| + 1 < |present| then present[|r.turns| + 1] else null
  {
    hide Linux.Valid, AllIdle, Permitted, TurnAt, Views, InRound, NextTurn, RoundState.All;
    ghost var n, k := |created|, |r.turns|;
    PartsOfRound(kernel, present, created, r);
    ghost var more;
    turn, more := TakeTurn(kernel, task, behaviour, time, n + k);
    all := more + created;
    assert kernel.tasks == all + present;
    ListEnds(kernel, |more| + n + k);
    TurnInRound(kernel, present, created, more, r, behaviour, time);
  }

  lemma PartsOfRound(kernel: Linux, present: seq<LinuxTask>, created: seq<LinuxTask>, r: RoundState)
    requires InRound(kernel, present, created, r)
    ensures kernel.Valid() && kernel.tasks == created + present
    ensures |r.created| == |created| && |r.present| == |present| && Views(kernel.tasks) == r.All()
  {
    hide Linux.Valid;
    JoinViews([], created, present);
  }

  lemma TurnInRound(kernel: Linux, present: seq<LinuxTask>, created: seq<LinuxTask>, more: seq<LinuxTask>,
                    r: RoundState, behaviour: Behaviour, time: nat)
    requires kernel.Valid() && kernel.tasks == (more + created) + present
    requires |r.created| == |created| && |r.present| == |present| && |r.turns| < |r.present|
    requires var t := TurnAt(r.All(), |r.created| + |r.turns|, behaviour, time);
             Views(more) == t.created && Views(created + present) == t.tasks
    ensures InRound(kernel, present, more + created, NextTurn(r, behaviour, time))
    ensures NextTurn(r, behaviour, time).turns[|r.turns|] ==
            TurnAt(r.All(), |r.created| + |r.turns|, behaviour, time).turn
  {
    hide Linux.Valid, TurnAt, Views;
    JoinViews(more, created, present);
  }

  lemma JoinViews(more: seq<LinuxTask>, created: seq<LinuxTask>, present: seq<LinuxTask>)
    ensures var all := Views(created + present);
            && all == Views(created) + Views(present)
            && Views(created) == all[..|created|] && Views(present) == all[|created|..]
    ensures Views(more + created) == Views(more) + Views(created)
  {
  }

  /**
   * One pass over the task list is a round as it is specified: each task that was there at the start gets
   * exactly one turn, and tasks created on the way get none.
   */
  method Round(kernel: Linux, behaviour: Behaviour, start: nat)
    returns (progressed: bool, turns: seq<Turn>, time: nat, ghost created: seq<LinuxTask>)
    requires kernel.Valid() && AllIdle(Views(kernel.tasks)) && Permitted(behaviour)
    modifies kernel, (set t | t in kernel.tasks)
    ensures kernel.Valid() && kernel.tasks == created + old(kernel.tasks) && forall t <- created :: fresh(t)
    ensures RoundState(Views(created), Views(old(kernel.tasks)), turns)
         == WholeRound(old(Views(kernel.tasks)), behaviour, start)
    ensures |turns| == |old(kernel.tasks)| && time == start + |turns| && (progressed <==> Progress(turns))
    ensures PresentOk(old(Views(kernel.tasks)), behaviour, start, turns, Views(old(kernel.tasks)))
    ensures CreatedOk(old(Views(kernel.tasks)), behaviour, start, turns, Views(created))
  {
    hide Linux.Valid, Progress, AllIdle, Permitted, NextTurn, PresentOk, CreatedOk, RoundState.All, InRound, Views;
    ghost var present, before := kernel.tasks, Views(kernel.tasks);
    progressed, turns, time, created := false, [], start, [];
    RoundBegins(kernel);
    ghost var r := RoundAfter(before, behaviour, start, 0);
    var task := kernel.taskList;
    while task != null
      invariant |turns| <= |present| && time == start + |turns|
      invariant task == if |turns| < |present| then present[|turns|] else null
      invariant r == RoundAfter(before, behaviour, start, |turns|) && turns == r.turns
      invariant InRound(kernel, present, created, r)
      invariant forall t <- created :: fresh(t)
      invariant forall t <- kernel.tasks :: t in present || fresh(t)
      invariant progressed <==> Progress(turns)
      decreases |present| - |turns|
    {
      RoundIsOk(before, behaviour, start, |turns|);
      var turn, all := NextInRound(kernel, task, behaviour, time, present, created, r);
      ProgressMore(turns, turn);
      TurnsOf(r, behaviour, time);
      r := NextTurn(r, behaviour, time);
      turns, created, time := turns + [turn], all, time + 1;
      progressed := progressed || !turn.Reported?;
      task := task.next;
    }
    RoundIsOk(before, behaviour, start, |before|);
    RoundEnds(kernel, present, created, r);
  }

  lemma RoundBegins(kernel: Linux)
    requires kernel.Valid()
    ensures InRound(kernel, kernel.tasks, [], RoundState([], Views(kernel.tasks), [])) && !Progress([])
    ensures kernel.taskList == if kernel.tasks == [] then null else kernel.tasks[0]
  {
    hide Linux.Valid;
    ListEnds(kernel, 0);
    assert [] + kernel.tasks == kernel.tasks;
  }

  lemma RoundEnds(kernel: Linux, present: seq<LinuxTask>, created: seq<LinuxTask>, r: RoundState)
    requires InRound(kernel, present, created, r)
    ensures kernel.Valid() && kernel.tasks == created + present
    ensures Views(created) == r.created && Views(present) == r.present
  {
    hide Linux.Valid;
  }

  lemma TurnsOf(r: RoundState, behaviour: Behaviour, time: nat)
    requires |r.turns| < |r.present|
    ensures var r' := NextTurn(r, behaviour, time); r'.turns == r.turns + [r'.turns[|r.turns|]]
  {
  }

  // ---------------------------------------------------------------- many rounds

  /** The turns of the `k`th round, which is the last one exactly if it makes no progress. */
  ghost predicate Goes(vs: seq<TaskView>, behaviour: Behaviour, k: nat) {
    var (before, time) := RoundsAfter(vs, behaviour, 0, k);
    Progress(WholeRound(before, behaviour, time).turns)
  }

  /**
   * Rounds until one makes no progress, at most `limit` of them. When that happens every task is stopped;
   * tasks that were stopped before have not changed.
   */
  method Resume(kernel: Linux, behaviour: Behaviour, limit: nat) returns (returned: bool, rounds: nat)
    requires kernel.Valid() && AllIdle(Views(kernel.tasks)) && Permitted(behaviour)
    modifies kernel, (set t | t in kernel.tasks)
    ensures kernel.Valid() && Views(kernel.tasks) == RoundsAfter(old(Views(kernel.tasks)), behaviour, 0, rounds).0
    ensures rounds <= limit && (!returned ==> rounds == limit) && (returned ==> 0 < rounds)
    ensures forall k | 0 <= k < rounds :: Goes(old(Views(kernel.tasks)), behaviour, k) <==> !returned || k < rounds - 1
    ensures returned ==> forall v <- Views(kernel.tasks) :: Doomed(v.life.task)
    ensures StoppedStay(old(Views(kernel.tasks)), Views(kernel.tasks))
  {
    hide Linux.Valid, AllIdle, Permitted, Doomed, WholeRound, Views, Progress, StoppedStay, PresentOk, CreatedOk;
    ghost var present, created, start := kernel.tasks, [], Views(kernel.tasks);
    var time := 0;
    rounds := 0;
    returned := false;
    assert [] + present == present;
    while rounds < limit && !returned
      invariant rounds <= limit && (returned ==> 0 < rounds)
      invariant kernel.Valid() && kernel.tasks == created + present && forall t <- created :: fresh(t)
      invariant (Views(kernel.tasks), time) == RoundsAfter(start, behaviour, 0, rounds)
      invariant forall k | 0 <= k < rounds :: Goes(start, behaviour, k) <==> !returned || k < rounds - 1
      invariant returned ==> forall v <- Views(kernel.tasks) :: Doomed(v.life.task)
      decreases limit - rounds, !returned
    {
      Membership(created, present);
      StoppedInRounds(start, behaviour, 0, rounds);
      StoppedInRound(Views(kernel.tasks), behaviour, time);
      ghost var ts := kernel.tasks;
      var progressed, _, after, more := Round(kernel, behaviour, time);
      JoinViews(more, more, ts);
      assert more + (created + present) == (more + created) + present;
      created, time, rounds := more + created, after, rounds + 1;
      returned := !progressed;
    }
    StoppedInRounds(start, behaviour, 0, rounds);
  }

  lemma Membership(created: seq<LinuxTask>, present: seq<LinuxTask>)
    ensures forall t <- created + present :: t in created || t in present
  {
  }

  /** A round, from the point of view of one task. */
  method RoundOf(kernel: Linux, behaviour: Behaviour, start: nat, task: LinuxTask, ghost i: nat)
    returns (turn: Turn, mine: nat, time: nat, ghost created: seq<LinuxTask>)
    requires kernel.Valid() && i < |kernel.tasks| && kernel.tasks[i] == task
    requires AllIdle(Views(kernel.tasks)) && Permitted(behaviour)
    modifies kernel, (set t | t in kernel.tasks)
    ensures kernel.Valid() && kernel.tasks == created + old(kernel.tasks) && forall t <- created :: fresh(t)
    ensures forall t <- kernel.tasks :: t in old(kernel.tasks) || fresh(t)
    ensures Views(kernel.tasks) == WholeRound(old(Views(kernel.tasks)), behaviour, start).All()
    ensures time == start + |old(kernel.tasks)| && start <= mine < time
    ensures TurnOk(behaviour, mine, old(task.View()), turn, task.View())
  {
    hide Linux.Valid, AllIdle, Permitted, TurnOk, WholeRound, PresentOk, CreatedOk, LinuxTask.View, Progress, Views;
    ghost var ts, before := kernel.tasks, Views(kernel.tasks);
    IndexByTid(kernel, i);
    var index := kernel.nextTid - 1 - task.tid;
    var _, turns, after, more := Round(kernel, behaviour, start);
    JoinViews(more, more, ts);
    TurnOf(before, behaviour, start, turns, Views(ts), i);
    turn, mine, time, created := turns[index], start + index, after, more;
  }

  lemma TurnOf(vs: seq<TaskView>, behaviour: Behaviour, start: nat, turns: seq<Turn>, present: seq<TaskView>, i: nat)
    requires PresentOk(vs, behaviour, start, turns, present) && i < |turns|
    ensures |turns| <= |vs| == |present| && TurnOk(behaviour, start + i, vs[i], turns[i], present[i])
  {
  }

  lemma IndexByTid(kernel: Linux, i: nat)
    requires kernel.Valid() && i < |kernel.tasks|
    ensures kernel.nextTid - 1 - kernel.tasks[i].tid == i
  {
  }

  /**
   * Whatever the other tasks do, a task that nothing has stopped is run again after at most as many rounds
   * as it is blocked for, plus one. It is then unblocked, its futex is the one it had, and what its code does
   * at that time is all that happens to it, unless it is unblocked afterwards.
   */
  method RoundsUntilRun(kernel: Linux, behaviour: Behaviour, start: nat, task: LinuxTask, ghost i: nat)
    returns (rounds: nat, entered: TaskView, when: nat)
    requires kernel.Valid() && i < |kernel.tasks| && kernel.tasks[i] == task && !Doomed(task.State())
    requires AllIdle(Views(kernel.tasks)) && Permitted(behaviour)
    modifies kernel, (set t | t in kernel.tasks)
    ensures kernel.Valid() && 1 <= rounds <= old(task.blockedCount) + 1
    ensures Views(kernel.tasks) == RoundsAfter(old(Views(kernel.tasks)), behaviour, start, rounds).0
    ensures entered == old(task.View()).(blockedCount := 0)
    ensures AtMostUnblocked(Left(entered, behaviour(when, Entered(entered.life))), task.View())
    decreases task.blockedCount
  {
    hide Linux.Valid, AllIdle, Permitted, Doomed, WholeRound, Views, Left, Entered, TurnOk, LinuxTask.View,
         AtMostUnblocked, RoundState.All, RoundsAfter;
    ghost var ts, before, all := kernel.tasks, task.View(), Views(kernel.tasks);
    ViewIs(task);
    StoppedInRound(all, behaviour, start);
    var turn, mine, after, more := RoundOf(kernel, behaviour, start, task, i);
    ViewIs(task);
    TurnOfLive(behaviour, mine, before, turn, task.View());
    if turn.Ran? {
      FirstRound(all, behaviour, start, 0);
      return 1, turn.entered, mine;
    }
    rounds, entered, when := RoundsUntilRun(kernel, behaviour, after, task, |more| + i);
    FirstRound(all, behaviour, start, rounds);
    rounds := rounds + 1;
  }

  lemma ViewIs(task: LinuxTask)
    ensures task.View().life == task.Life() && task.View().life.task == task.State()
    ensures task.View() == task.View().(blockedCount := task.blockedCount)
  {
  }

  /** A task that nothing has stopped is run, or closer to being run. */
  lemma TurnOfLive(behaviour: Behaviour, time: nat, before: TaskView, turn: Turn, after: TaskView)
    requires !Doomed(before.life.task) && TurnOk(behaviour, time, before, turn, after)
    ensures !turn.Reported?
    ensures turn.CountedDown? ==>
      after == before.(blockedCount := after.blockedCount) && after.blockedCount < before.blockedCount
    ensures turn.Ran? ==>
      && turn.entered == before.(blockedCount := 0)
      && AtMostUnblocked(Left(turn.entered, behaviour(time, Entered(turn.entered.life))), after)
  {
    hide AfterStint, Entered, Doomed;
  }
}
