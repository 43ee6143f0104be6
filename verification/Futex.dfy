/** Waiting on a futex, pass by pass, as futex(2) is emulated. */
module Futex {
  import opened Options
  import opened TaskStatus
  import opened TaskRuns
  import opened Rounds
  import opened LinuxTasks
  import opened Scheduler

  /** How many scheduler rounds a wait blocks a task for. */
  const BLOCKED_FOR_A_BIT: nat := 100
  const BLOCKED_FOREVER: nat := 0xFFFF_FFFF

  const EAGAIN: int := 11
  const EFAULT: int := 14
  const EINVAL: int := 22
  const ETIMEDOUT: int := 110

  /** The part of a task that waiting uses. */
  datatype Waiter = Waiter(blockedCount: nat, futexAddr: nat, futexBitset: bv32)

  /** A pass ends the system call or gives up control. */
  datatype Outcome = Completed(result: int) | GaveUp

  function WaiterOf(task: LinuxTask): Waiter
    reads task`blockedCount, task`futexAddr, task`futexBitset
  {
    Waiter(task.blockedCount, task.futexAddr, task.futexBitset)
  }

  /**
   * One pass through the wait loop. `word` is what is at the address, if it can be read and written.
   * A caller has no timeout exactly if the source's timeout argument is null, which it never is.
   */
  function WaitPass(t: Waiter, word: Option<nat>, uaddr: nat, val: nat, bitset: bv32, timeout: bool)
    : (Waiter, Outcome)
  {
    if word.None? then (t, Completed(-EFAULT))
    else if word.value != val then (t.(futexAddr := 0, blockedCount := 0), Completed(-EAGAIN))
    else if t.futexAddr != 0 && t.blockedCount == 0 then (t.(futexAddr := 0, futexBitset := 0), Completed(0))
    else
      var blocked :=
        if t.blockedCount > 0 then t.blockedCount - 1
        else if timeout then BLOCKED_FOR_A_BIT else BLOCKED_FOREVER;
      if blocked == 0 then (Waiter(0, 0, 0), Completed(-ETIMEDOUT)) else (Waiter(blocked, uaddr, bitset), GaveUp)
  }

  method DoWaitPass(task: LinuxTask, word: Option<nat>, uaddr: nat, val: nat, bitset: bv32, timeout: bool)
    returns (outcome: Outcome)
    requires task.futexAddr != 0 && task.blockedCount == 0 ==> task.futexAddr == uaddr
    modifies task`blockedCount, task`futexAddr, task`futexBitset
    ensures (WaiterOf(task), outcome) == WaitPass(old(WaiterOf(task)), word, uaddr, val, bitset, timeout)
    ensures outcome.GaveUp? ==> task.futexAddr == uaddr && task.futexBitset == bitset && 0 < task.blockedCount
    ensures outcome == Completed(0) || outcome == Completed(-EAGAIN) ==> task.futexAddr == 0 && task.blockedCount == 0
    ensures outcome == Completed(-EFAULT) ==> WaiterOf(task) == old(WaiterOf(task))
  {
    if word.None? {
      return Completed(-EFAULT);
    }
    if word.value != val {
      task.futexAddr := 0;
      task.blockedCount := 0;
      return Completed(-EAGAIN);
    }
    if task.futexAddr != 0 && task.blockedCount == 0 {
      assert task.futexAddr == uaddr;
      task.futexBitset := 0;
      task.futexAddr := 0;
      return Completed(0);
    }
    if task.blockedCount > 0 {
      task.blockedCount := task.blockedCount - 1;
    } else if timeout {
      task.blockedCount := BLOCKED_FOR_A_BIT;
    } else {
      task.blockedCount := BLOCKED_FOREVER;
    }
    if task.blockedCount == 0 {
      task.futexBitset := 0;
      task.futexAddr := 0;
      return Completed(-ETIMEDOUT);
    }
    task.futexBitset := bitset;
    task.futexAddr := uaddr;
    outcome := GaveUp;
  }

  /** A task that has control is not blocked, so it gives up control exactly if it waits on nothing yet. */
  lemma GivesUpIff(t: Waiter, word: Option<nat>, uaddr: nat, val: nat, bitset: bv32, timeout: bool)
    requires t.blockedCount == 0
    ensures WaitPass(t, word, uaddr, val, bitset, timeout).1.GaveUp? <==> word == Some(val) && t.futexAddr == 0
    ensures WaitPass(t, word, uaddr, val, bitset, timeout).1 != Completed(-ETIMEDOUT)
  {
  }

  /**
   * A wait that gave up control and is run again, unblocked, completes exactly if the word has
   * changed or the address is not zero: on address zero the code takes the waiter for a new one.
   */
  lemma ResumedWaitCompletesIff(t: Waiter, later: Option<nat>, uaddr: nat, val: nat, bitset: bv32, timeout: bool)
    requires WaitPass(t, Some(val), uaddr, val, bitset, timeout).1.GaveUp?
    ensures var resumed := WaitPass(t, Some(val), uaddr, val, bitset, timeout).0.(blockedCount := 0);
            WaitPass(resumed, later, uaddr, val, bitset, timeout).1.Completed? <==> later != Some(val) || uaddr != 0
  {
  }

  /**
   * One task waits, and another wakes. The waiter is unblocked exactly if it is in the waker's address space
   * and waits on the same address with a bitset in common, and fewer than the limit come before it in the
   * ring; otherwise its count stays.
   */
  method WaitThenWake(kernel: Linux, waiter: LinuxTask, ghost j: nat, val: nat, uaddr: nat, bitset: bv32, timeout: bool,
                      waker: LinuxTask, ghost i: nat, wake: Wake)
    returns (outcome: Outcome)
    requires kernel.Valid() && i < |kernel.tasks| && j < |kernel.tasks| && i != j
    requires kernel.tasks[i] == waker && kernel.tasks[j] == waiter
    requires waiter.blockedCount == 0 && (waiter.futexAddr == 0 || waiter.futexAddr == uaddr)
    modifies (set t | t in kernel.tasks)`blockedCount, waiter`futexAddr, waiter`futexBitset
    ensures kernel.Valid() && (outcome.GaveUp? <==> old(waiter.futexAddr) == 0)
    ensures outcome.GaveUp? ==>
      var blocked := if timeout then 100 else 0xFFFF_FFFF;
      var vs := old(Views(kernel.tasks))[j := old(waiter.View()).(
                  blockedCount := blocked, futexAddr := uaddr, futexBitset := bitset)];
      && Views(kernel.tasks) == AfterWake(vs, i, wake)
      && waiter.blockedCount ==
         if waiter.memory == waker.memory && uaddr == wake.uaddr && Overlap(bitset, wake.bitset)
            && Before(vs, i, j, wake) < (if wake.count == 0 then 1 else wake.count)
         then 0 else blocked
  {
    hide Linux.Valid, AfterWake, Before, Overlap;
    kernel.TasksAreDistinct();
    ghost var before := Views(kernel.tasks);
    GivesUpIff(WaiterOf(waiter), Some(val), uaddr, val, bitset, timeout);
    outcome := DoWaitPass(waiter, Some(val), uaddr, val, bitset, timeout);
    ghost var vs := Views(kernel.tasks);
    WokenIff(vs, i, j, wake);
    WakeOne(kernel, waker, wake, i);
    if outcome.GaveUp? {
      assert vs == before[j := before[j].(
               blockedCount := if timeout then 100 else 0xFFFF_FFFF, futexAddr := uaddr, futexBitset := bitset)];
    }
  }

  /** A task that gives up control in a hyper call gets it back there, and is then unblocked. */
  method YieldUntilRun(kernel: Linux, behaviour: Behaviour, task: LinuxTask, ghost i: nat)
    returns (rounds: nat, entered: TaskView)
    requires kernel.Valid() && i < |kernel.tasks| && kernel.tasks[i] == task && Permitted(behaviour)
    requires ActiveOk(task.Life()) && task.control.Running? && !Doomed(task.State())
    requires forall t <- kernel.tasks :: t == task || IdleOk(t.Life())
    modifies kernel, (set t | t in kernel.tasks)
    ensures kernel.Valid() && 1 <= rounds <= old(task.blockedCount) + 1
    ensures Entered(entered.life) == old(task.Life().(task := task.State().(statusOnResume := Runnable)))
    ensures Waiter(entered.blockedCount, entered.futexAddr, entered.futexBitset)
         == old(WaiterOf(task)).(blockedCount := 0)
  {
    hide Linux.Valid, IdleOk, ActiveOk, Permitted, RoundsAfter, Left, AtMostUnblocked;
    assert task in kernel.tasks;
    assert task.status == Runnable by { StatusOfLive(task.Life()); }
    task.Perform(Yield);
    forall v <- Views(kernel.tasks) ensures IdleOk(v.life) {
    }
    var when;
    rounds, entered, when := RoundsUntilRun(kernel, behaviour, 0, task, i);
  }

  lemma StatusOfLive(l: Life)
    requires ActiveOk(l) && !Doomed(l.task)
    ensures l.task.status == Runnable
  {
  }

  /**
   * Waits on a nonzero address, from the system call's start to its end: `first` is what is at the
   * address when the call starts, `later` what is there when the task is run again. A wait that
   * blocks does so on its address and bitset, is run again within 101 rounds whatever other tasks do,
   * and then completes; a task that was woken, or finds the word changed, waits on nothing any more.
   */
  method FutexWait(kernel: Linux, behaviour: Behaviour, task: LinuxTask, ghost i: nat, uaddr: nat, val: nat,
                   bitset: bv32, first: Option<nat>, later: Option<nat>)
    returns (result: int, rounds: nat, waited: Waiter, left: Waiter)
    requires kernel.Valid() && i < |kernel.tasks| && kernel.tasks[i] == task && Permitted(behaviour)
    requires ActiveOk(task.Life()) && task.control.Running? && !Doomed(task.State())
    requires forall t <- kernel.tasks :: t == task || IdleOk(t.Life())
    requires uaddr != 0 && task.blockedCount == 0 && (task.futexAddr == 0 || task.futexAddr == uaddr)
    modifies kernel, (set t | t in kernel.tasks)
    ensures kernel.Valid() && rounds <= BLOCKED_FOR_A_BIT + 1
    ensures var valid := uaddr % 4 == 0 && bitset != 0;
            && (result == -EINVAL <==> !valid)
            && (rounds > 0 <==> valid && first == Some(val) && old(task.futexAddr) == 0)
            && (rounds > 0 ==> waited == Waiter(BLOCKED_FOR_A_BIT, uaddr, bitset))
            && (rounds == 0 ==> left == WaiterOf(task))
            && (result == 0 || result == -EAGAIN ==> left.futexAddr == 0 && left.blockedCount == 0)
            && var word := if rounds == 0 then first else later;
               && (result == 0 <==> valid && word == Some(val))
               && (result == -EAGAIN <==> valid && word.Some? && word != Some(val))
               && (result == -EFAULT <==> valid && word.None?)
  {
    rounds, waited, left := 0, WaiterOf(task), WaiterOf(task);
    if uaddr % 4 != 0 || bitset == 0 {
      return -EINVAL, 0, waited, left;
    }
    hide Linux.Valid, IdleOk, ActiveOk, Permitted, Doomed, Entered;
    var outcome := DoWaitPass(task, first, uaddr, val, bitset, true);
    waited, left := WaiterOf(task), WaiterOf(task);
    if outcome.Completed? {
      return outcome.result, 0, waited, left;
    }
    var entered;
    rounds, entered := YieldUntilRun(kernel, behaviour, task, i);
    var now := Waiter(entered.blockedCount, entered.futexAddr, entered.futexBitset);
    var (after, next) := WaitPass(now, later, uaddr, val, bitset, true);
    result, left := next.result, after;
  }
}
