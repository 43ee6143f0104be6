/** What a round of the scheduler does, as a function of the tasks and of what the code in them does. */
module Rounds {
  import opened TaskStatus
  import opened TaskRuns

  /** What the kernel knows of a task. */
  datatype TaskView = TaskView(life: Life, memory: nat, blockedCount: nat, futexAddr: nat, futexBitset: bv32)

  function NewTask(pc: nat, memory: nat): TaskView {
    TaskView(Life(InitialTask(pc), Outside), memory, 0, 0, 0)
  }

  // ---------------------------------------------------------------- waking

  /** The other tasks, in the order in which the ring visits them from the `i`th. */
  ghost function Others<T>(tasks: seq<T>, i: nat): (others: seq<T>)
    requires i < |tasks|
    ensures |others| == |tasks| - 1
  {
    tasks[i + 1..] + tasks[..i]
  }

  /** Where the ring visits the `j`th of `n` tasks, starting from the `i`th. */
  ghost function Place(i: nat, j: nat, n: nat): (q: nat)
    requires i < n && j < n && j != i
    ensures q < n - 1
  {
    if j > i then j - i - 1 else n - i - 1 + j
  }

  lemma OtherAt<T>(tasks: seq<T>, i: nat, j: nat)
    requires i < |tasks| && j < |tasks| && j != i
    ensures Others(tasks, i)[Place(i, j, |tasks|)] == tasks[j]
  {
  }

  /** How many of the first `n` are true. */
  ghost function Count(waits: seq<bool>, n: nat): nat
    requires n <= |waits|
  {
    if n == 0 then 0 else Count(waits, n - 1) + if waits[n - 1] then 1 else 0
  }

  lemma CountStep(waits: seq<bool>, p: nat)
    ensures Count(waits, 0) == 0
    ensures p < |waits| ==> Count(waits, p + 1) == Count(waits, p) + if waits[p] then 1 else 0
  {
  }

  lemma {:induction false} CountGrows(waits: seq<bool>, m: nat, n: nat)
    requires m <= n <= |waits|
    ensures Count(waits, m) <= Count(waits, n)
  {
    if m < n {
      CountGrows(waits, m, n - 1);
    }
  }

  /** Stopping after `p` because the limit is reached, or at the end, has woken the first `limit`. */
  lemma FirstWoken(waits: seq<bool>, limit: nat, p: nat)
    requires p <= |waits| && Count(waits, p) <= limit && (p == |waits| || Count(waits, p) == limit)
    ensures forall q | 0 <= q < |waits| && waits[q] :: Count(waits, q) < limit <==> q < p
    ensures Count(waits, p) == if Count(waits, |waits|) < limit then Count(waits, |waits|) else limit
  {
    CountGrows(waits, p, |waits|);
    forall q | 0 <= q < |waits| && waits[q] ensures Count(waits, q) < limit <==> q < p {
      if q < p {
        CountGrows(waits, q + 1, p);
      } else {
        CountGrows(waits, p, q);
      }
    }
  }

  datatype Wake = Wake(uaddr: nat, bitset: bv32, count: nat)

  /** At least one task is woken, if there is one. */
  function Limit(count: nat): nat {
    if count == 0 then 1 else count
  }

  /** The bitsets have a bit in common. */
  predicate Overlap(a: bv32, b: bv32) {
    a & b != 0
  }

  /** Every nonempty bitset has one in common with the full one, and disjoint ones have none. */
  lemma OverlapIs(a: bv32, b: bv32)
    ensures Overlap(a, b) <==> a & b != 0
    ensures Overlap(a, 0xFFFF_FFFF) <==> a != 0
    ensures Overlap(a, b) <==> Overlap(b, a)
  {
    assert a & 0xFFFF_FFFF == a && a & b == b & a;
  }

  /** A wake by a task of the address space is for this one. Different address spaces share no futexes. */
  ghost predicate Waits(v: TaskView, memory: nat, wake: Wake) {
    v.memory == memory && v.futexAddr == wake.uaddr && 0 < v.blockedCount && Overlap(v.futexBitset, wake.bitset)
  }

  ghost function WaitsOf(ts: seq<TaskView>, memory: nat, wake: Wake): (waits: seq<bool>)
    ensures |waits| == |ts|
    ensures forall q | 0 <= q < |ts| :: waits[q] == Waits(ts[q], memory, wake)
  {
    seq(|ts|, q requires 0 <= q < |ts| => Waits(ts[q], memory, wake))
  }

  /** A wake by the `i`th task unblocks the first of the others that it is for. */
  ghost function AfterWake(vs: seq<TaskView>, i: nat, wake: Wake): (after: seq<TaskView>)
    requires i < |vs|
    ensures |after| == |vs|
  {
    var waits := WaitsOf(Others(vs, i), vs[i].memory, wake);
    seq(|vs|, j requires 0 <= j < |vs| =>
      if j != i && waits[Place(i, j, |vs|)] && Count(waits, Place(i, j, |vs|)) < Limit(wake.count)
      then vs[j].(blockedCount := 0) else vs[j])
  }

  ghost function AfterWakes(vs: seq<TaskView>, i: nat, wakes: seq<Wake>): (after: seq<TaskView>)
    requires i < |vs|
    ensures |after| == |vs|
  {
    if wakes == [] then vs
    else AfterWake(AfterWakes(vs, i, wakes[..|wakes| - 1]), i, wakes[|wakes| - 1])
  }

  /** How many tasks that the wake is for come before the `j`th on the way around the ring. */
  ghost function Before(vs: seq<TaskView>, i: nat, j: nat, wake: Wake): nat
    requires i < |vs| && j < |vs| && j != i
  {
    Count(WaitsOf(Others(vs, i), vs[i].memory, wake), Place(i, j, |vs|))
  }

  /**
   * A wake unblocks a task exactly if it is blocked in the waker's address space on the address, with a bitset
   * in common, and fewer than the limit come before it.
   */
  lemma WokenIff(vs: seq<TaskView>, i: nat, j: nat, wake: Wake)
    requires i < |vs| && j < |vs| && j != i
    ensures var v := vs[j];
            AfterWake(vs, i, wake)[j] == v.(
              blockedCount :=
                if v.memory == vs[i].memory && v.futexAddr == wake.uaddr && Overlap(v.futexBitset, wake.bitset)
                   && Before(vs, i, j, wake) < (if wake.count == 0 then 1 else wake.count)
                then 0 else v.blockedCount)
  {
    hide Count, Others, Overlap;
    OtherAt(vs, i, j);
  }

  /** All that a task can do to another. */
  ghost predicate AtMostUnblocked(before: TaskView, after: TaskView) {
    after == before || after == before.(blockedCount := 0)
  }

  lemma {:induction false} WakesUnblock(vs: seq<TaskView>, i: nat, wakes: seq<Wake>)
    requires i < |vs|
    ensures AfterWakes(vs, i, wakes)[i] == vs[i]
    ensures forall j | 0 <= j < |vs| :: AtMostUnblocked(vs[j], AfterWakes(vs, i, wakes)[j])
    decreases |wakes|
  {
    hide Count, WaitsOf, Others;
    if wakes != [] {
      WakesUnblock(vs, i, wakes[..|wakes| - 1]);
    }
  }

  // ---------------------------------------------------------------- one turn

  /**
   * What a task does while it has control: what it tells the executor, how it leaves its futex, whom it
   * wakes, and at which PCs it starts new tasks.
   */
  datatype Effect = Effect(
    actions: seq<Action>, blockedCount: nat, futexAddr: nat, futexBitset: bv32, wakes: seq<Wake>, clones: seq<nat>)

  /** What a task that has just got control does, at each time. */
  type Behaviour = (nat, Life) -> Effect

  /** Tasks do what lifted code and hyper calls can do, until they give up control. */
  ghost predicate Permitted(behaviour: Behaviour) {
    forall time: nat, l: Life :: ActiveOk(l) ==> IsStint(l, behaviour(time, l).actions)
  }

  /** Giving up control at once, which for a task without code means failing. */
  function ShortestStint(l: Life): seq<Action> {
    match l.control
    case Dispatching => [Missing, Fail(l.task.pc), Finish(l.task.pc)]
    case NoFunction => [Fail(l.task.pc), Finish(l.task.pc)]
    case Stopping => [Jump(l.task.pc)]
    case _ => [Finish(l.task.pc)]
  }

  /** Every task that has control can give it up. */
  lemma SomeStint(l: Life)
    requires ActiveOk(l)
    ensures IsStint(l, ShortestStint(l))
  {
    var actions := ShortestStint(l);
    if |actions| > 1 {
      var l' := Do(l, actions[0]);
      assert actions[1..] == ShortestStint(l');
      assert |actions| == 3 ==> actions[1..][1..] == ShortestStint(Do(l', actions[1]));
    }
  }

  /** What a scheduler round does with a task; a task that is run is entered in some state. */
  datatype Turn = Ran(entered: TaskView) | CountedDown | Reported

  /** The tasks that a task starts, newest first. */
  function Clones(pcs: seq<nat>, memory: nat): (created: seq<TaskView>)
    ensures |created| == |pcs|
    ensures forall k | 0 <= k < |pcs| :: created[k] == NewTask(pcs[|pcs| - 1 - k], memory)
  {
    seq(|pcs|, k requires 0 <= k < |pcs| => NewTask(pcs[|pcs| - 1 - k], memory))
  }

  /** How a task leaves itself when it gives up control. */
  function Left(v: TaskView, effect: Effect): TaskView {
    TaskView(AfterStint(Entered(v.life), effect.actions), v.memory,
             effect.blockedCount, effect.futexAddr, effect.futexBitset)
  }

  datatype TurnResult = TurnResult(created: seq<TaskView>, tasks: seq<TaskView>, turn: Turn)

  /** The turn of the `i`th task. */
  ghost function TurnAt(vs: seq<TaskView>, i: nat, behaviour: Behaviour, time: nat): (t: TurnResult)
    requires i < |vs|
    ensures |t.tasks| == |vs|
  {
    var v := vs[i];
    if !CanEnter(v.life.task) then TurnResult([], vs, Reported)
    else if v.blockedCount > 0 then
      TurnResult([], vs[i := v.(blockedCount := v.blockedCount - 1)], CountedDown)
    else
      var effect := behaviour(time, Entered(v.life));
      TurnResult(Clones(effect.clones, v.memory), AfterWakes(vs, i, effect.wakes)[i := Left(v, effect)], Ran(v))
  }

  /** No task has control: each can be entered exactly if nothing has stopped it. */
  ghost predicate AllIdle(vs: seq<TaskView>) {
    forall v <- vs :: IdleOk(v.life)
  }

  /**
   * How a task comes out of a round, given its turn and when it was. A task is run or counted down
   * exactly if nothing has stopped it. What it does when it is run is what its code does, and all that
   * others can do to it is unblock it.
   */
  ghost predicate TurnOk(behaviour: Behaviour, time: nat, before: TaskView, turn: Turn, after: TaskView) {
    match turn
    case Ran(entered) =>
      var effect := behaviour(time, Entered(before.life));
      && !Doomed(before.life.task) && entered == before.(blockedCount := 0)
      && after.life == AfterStint(Entered(before.life), effect.actions) && after.memory == before.memory
      && after.futexAddr == effect.futexAddr && after.futexBitset == effect.futexBitset
      && (after.blockedCount == effect.blockedCount || after.blockedCount == 0)
    case CountedDown =>
      && !Doomed(before.life.task) && 0 < before.blockedCount
      && AtMostUnblocked(before.(blockedCount := before.blockedCount - 1), after)
    case Reported => Doomed(before.life.task) && AtMostUnblocked(before, after)
  }

  lemma TurnIsOk(vs: seq<TaskView>, i: nat, behaviour: Behaviour, time: nat)
    requires i < |vs| && AllIdle(vs) && Permitted(behaviour)
    ensures var t := TurnAt(vs, i, behaviour, time);
            && TurnOk(behaviour, time, vs[i], t.turn, t.tasks[i])
            && (forall j | 0 <= j < |vs| && j != i :: AtMostUnblocked(vs[j], t.tasks[j]))
            && AllIdle(t.tasks) && AllIdle(t.created)
  {
    hide AfterWakes, AfterStint, Entered, IsStint, ActiveOk;
    var v := vs[i];
    assert v in vs;
    var t := TurnAt(vs, i, behaviour, time);
    if t.turn.Ran? {
      var effect := behaviour(time, Entered(v.life));
      WakesUnblock(vs, i, effect.wakes);
      EnteredIsActive(v.life);
      StintEndsIdle(Entered(v.life), effect.actions);
      forall c <- t.created ensures IdleOk(c.life) {
        var k :| 0 <= k < |t.created| && t.created[k] == c;
        NewIsIdle(effect.clones[|effect.clones| - 1 - k]);
      }
    }
    forall w <- t.tasks ensures IdleOk(w.life) {
      var j :| 0 <= j < |vs| && t.tasks[j] == w;
      assert vs[j] in vs;
    }
  }

  /** A task that is run and wakes others unblocks exactly those that its wake is for, up to the limit. */
  lemma RunningTaskWakes(vs: seq<TaskView>, i: nat, j: nat, behaviour: Behaviour, time: nat, wake: Wake)
    requires i < |vs| && j < |vs| && j != i && TurnAt(vs, i, behaviour, time).turn.Ran?
    requires behaviour(time, Entered(vs[i].life)).wakes == [wake]
    ensures var v := vs[j];
            TurnAt(vs, i, behaviour, time).tasks[j] == v.(
              blockedCount :=
                if v.memory == vs[i].memory && v.futexAddr == wake.uaddr && Overlap(v.futexBitset, wake.bitset)
                   && Before(vs, i, j, wake) < (if wake.count == 0 then 1 else wake.count)
                then 0 else v.blockedCount)
  {
    hide AfterWake, Before, Overlap, Entered, Left, Clones;
    WokenIff(vs, i, j, wake);
    assert [wake][..0] == [] && AfterWakes(vs, i, []) == vs;
  }

  // ---------------------------------------------------------------- one round

  /** The tasks created so far, those that were there at the start, and what was done with them. */
  datatype RoundState = RoundState(created: seq<TaskView>, present: seq<TaskView>, turns: seq<Turn>)
  {
    function All(): seq<TaskView> {
      created + present
    }
  }

  ghost function NextTurn(r: RoundState, behaviour: Behaviour, time: nat): (r': RoundState)
    requires |r.turns| < |r.present|
    ensures |r'.present| == |r.present| && |r'.turns| == |r.turns| + 1
  {
    var n := |r.created|;
    var t := TurnAt(r.All(), n + |r.turns|, behaviour, time);
    RoundState(t.created + t.tasks[..n], t.tasks[n..], r.turns + [t.turn])
  }

  /** A round after its first `n` turns: each task that was there at the start gets one. */
  ghost function RoundAfter(vs: seq<TaskView>, behaviour: Behaviour, start: nat, n: nat): (r: RoundState)
    requires n <= |vs|
    ensures |r.present| == |vs| && |r.turns| == n
  {
    if n == 0 then RoundState([], vs, [])
    else NextTurn(RoundAfter(vs, behaviour, start, n - 1), behaviour, start + n - 1)
  }

  /** The tasks that a task starts in its turn: if it is run, those that its code starts. */
  ghost function ClonesAt(v: TaskView, behaviour: Behaviour, time: nat, turn: Turn): seq<TaskView> {
    if turn.Ran? then Clones(behaviour(time, Entered(v.life)).clones, v.memory) else []
  }

  /** The tasks that the first `n` turns create, newest first. */
  ghost function CreatedBy(vs: seq<TaskView>, behaviour: Behaviour, start: nat, turns: seq<Turn>, n: nat): seq<TaskView>
    requires n <= |vs| && n <= |turns|
  {
    if n == 0 then []
    else
      ClonesAt(vs[n - 1], behaviour, start + n - 1, turns[n - 1]) + CreatedBy(vs, behaviour, start, turns, n - 1)
  }

  /** What has become of the tasks that were there at the start. */
  ghost predicate PresentOk(
    vs: seq<TaskView>, behaviour: Behaviour, start: nat, turns: seq<Turn>, present: seq<TaskView>)
  {
    && |turns| <= |vs| == |present|
    && (forall j | 0 <= j < |turns| :: TurnOk(behaviour, start + j, vs[j], turns[j], present[j]))
    && (forall j | |turns| <= j < |vs| :: AtMostUnblocked(vs[j], present[j]))
  }

  /** New tasks are exactly the clones of those that were run, and are not blocked. */
  ghost predicate CreatedOk(
    vs: seq<TaskView>, behaviour: Behaviour, start: nat, turns: seq<Turn>, created: seq<TaskView>)
  {
    && |turns| <= |vs| && created == CreatedBy(vs, behaviour, start, turns, |turns|)
    && forall v <- created :: v.blockedCount == 0
  }

  ghost predicate RoundSoFar(vs: seq<TaskView>, behaviour: Behaviour, start: nat, r: RoundState) {
    && PresentOk(vs, behaviour, start, r.turns, r.present)
    && CreatedOk(vs, behaviour, start, r.turns, r.created)
    && AllIdle(r.All())
  }

  lemma UnblockedTwice(a: TaskView, b: TaskView, c: TaskView)
    requires AtMostUnblocked(a, b) && AtMostUnblocked(b, c)
    ensures AtMostUnblocked(a, c)
  {
  }

  lemma TurnThenUnblocked(
    behaviour: Behaviour, time: nat, before: TaskView, turn: Turn, after: TaskView, later: TaskView)
    requires TurnOk(behaviour, time, before, turn, after) && AtMostUnblocked(after, later)
    ensures TurnOk(behaviour, time, before, turn, later)
  {
    hide AfterStint, Entered;
  }

  lemma UnblockedThenTurn(
    behaviour: Behaviour, time: nat, before: TaskView, now: TaskView, turn: Turn, after: TaskView)
    requires AtMostUnblocked(before, now) && TurnOk(behaviour, time, now, turn, after)
    ensures TurnOk(behaviour, time, before, turn, after)
  {
    hide AfterStint, Entered;
  }

  /** One more turn, for the tasks that were there at the start. */
  lemma PresentKeeps(vs: seq<TaskView>, behaviour: Behaviour, start: nat, turns: seq<Turn>, present: seq<TaskView>,
                     turn: Turn, after: seq<TaskView>)
    requires PresentOk(vs, behaviour, start, turns, present) && |turns| < |vs| == |after|
    requires TurnOk(behaviour, start + |turns|, present[|turns|], turn, after[|turns|])
    requires forall j | 0 <= j < |vs| && j != |turns| :: AtMostUnblocked(present[j], after[j])
    ensures PresentOk(vs, behaviour, start, turns + [turn], after)
  {
    hide TurnOk, AtMostUnblocked;
    var k := |turns|;
    forall j | 0 <= j < k ensures TurnOk(behaviour, start + j, vs[j], turns[j], after[j]) {
      TurnThenUnblocked(behaviour, start + j, vs[j], turns[j], present[j], after[j]);
    }
    UnblockedThenTurn(behaviour, start + k, vs[k], present[k], turn, after[k]);
    forall j | k < j < |vs| ensures AtMostUnblocked(vs[j], after[j]) {
      UnblockedTwice(vs[j], present[j], after[j]);
    }
  }

  /** And for the new ones: they are not blocked, so no wake changes them. */
  lemma CreatedKeeps(vs: seq<TaskView>, behaviour: Behaviour, start: nat, turns: seq<Turn>, created: seq<TaskView>,
                     turn: Turn, after: seq<TaskView>)
    requires CreatedOk(vs, behaviour, start, turns, created) && |turns| < |vs| && |after| == |created|
    requires forall j | 0 <= j < |created| :: AtMostUnblocked(created[j], after[j])
    ensures CreatedOk(vs, behaviour, start, turns + [turn],
                      ClonesAt(vs[|turns|], behaviour, start + |turns|, turn) + after)
  {
    hide ClonesAt, CreatedBy;
    NotBlocked(created, after);
    SameTurns(vs, behaviour, start, turns, turns + [turn], |turns|);
    ClonesAreNotBlocked(vs[|turns|], behaviour, start + |turns|, turn);
    OneMoreTurn(vs, behaviour, start, turns, turn);
  }

  lemma OneMoreTurn(vs: seq<TaskView>, behaviour: Behaviour, start: nat, turns: seq<Turn>, turn: Turn)
    requires |turns| < |vs|
    ensures CreatedBy(vs, behaviour, start, turns + [turn], |turns| + 1) ==
            ClonesAt(vs[|turns|], behaviour, start + |turns|, turn)
            + CreatedBy(vs, behaviour, start, turns + [turn], |turns|)
  {
    hide ClonesAt;
  }

  lemma NotBlocked(created: seq<TaskView>, after: seq<TaskView>)
    requires |after| == |created| && forall v <- created :: v.blockedCount == 0
    requires forall j | 0 <= j < |created| :: AtMostUnblocked(created[j], after[j])
    ensures after == created
  {
    forall j | 0 <= j < |created| ensures after[j] == created[j] {
      assert created[j] in created;
    }
  }

  lemma ClonesAreNotBlocked(v: TaskView, behaviour: Behaviour, time: nat, turn: Turn)
    ensures forall c <- ClonesAt(v, behaviour, time, turn) :: c.blockedCount == 0
  {
  }

  lemma ClonesOf(vs: seq<TaskView>, i: nat, behaviour: Behaviour, time: nat, v: TaskView)
    requires i < |vs| && AtMostUnblocked(v, vs[i])
    ensures var t := TurnAt(vs, i, behaviour, time); t.created == ClonesAt(v, behaviour, time, t.turn)
  {
  }

  lemma IdleParts(a: seq<TaskView>, b: seq<TaskView>)
    ensures AllIdle(a + b) <==> AllIdle(a) && AllIdle(b)
  {
    hide IdleOk;
    assert (forall v <- a :: v in a + b) && (forall v <- b :: v in a + b);
  }

  /** What holds of the whole list holds of its parts. */
  lemma InParts(a: seq<TaskView>, b: seq<TaskView>, after: seq<TaskView>, i: nat)
    requires |after| == |a| + |b| && |a| <= i < |after|
    requires forall j | 0 <= j < |after| && j != i :: AtMostUnblocked((a + b)[j], after[j])
    ensures forall j | 0 <= j < |b| && j != i - |a| :: AtMostUnblocked(b[j], after[|a|..][j])
    ensures forall j | 0 <= j < |a| :: AtMostUnblocked(a[j], after[..|a|][j])
  {
    hide AtMostUnblocked;
    forall j | 0 <= j < |b| && j != i - |a| ensures AtMostUnblocked(b[j], after[|a|..][j]) {
      assert (a + b)[|a| + j] == b[j];
    }
    forall j | 0 <= j < |a| ensures AtMostUnblocked(a[j], after[..|a|][j]) {
      assert (a + b)[j] == a[j];
    }
  }

  /** A turn of the next task, as it is for each part of the list. */
  lemma TurnInParts(r: RoundState, behaviour: Behaviour, time: nat)
    requires |r.turns| < |r.present| && AllIdle(r.All()) && Permitted(behaviour)
    ensures var (n, k) := (|r.created|, |r.turns|);
            var t := TurnAt(r.All(), n + k, behaviour, time);
            && TurnOk(behaviour, time, r.present[k], t.turn, t.tasks[n..][k])
            && (forall j | 0 <= j < |r.present| && j != k :: AtMostUnblocked(r.present[j], t.tasks[n..][j]))
            && (forall j | 0 <= j < n :: AtMostUnblocked(r.created[j], t.tasks[..n][j]))
            && AllIdle(NextTurn(r, behaviour, time).All())
  {
    hide TurnOk, AtMostUnblocked, AllIdle, TurnAt, Permitted;
    var (n, k) := (|r.created|, |r.turns|);
    var t := TurnAt(r.All(), n + k, behaviour, time);
    TurnIsOk(r.All(), n + k, behaviour, time);
    InParts(r.created, r.present, t.tasks, n + k);
    assert r.All()[n + k] == r.present[k] && t.tasks[n..][k] == t.tasks[n + k];
    assert t.created + t.tasks == (t.created + t.tasks[..n]) + t.tasks[n..];
    IdleParts(t.created, t.tasks);
  }

  /** One more turn keeps what the round has done so far. */
  lemma TurnKeeps(vs: seq<TaskView>, behaviour: Behaviour, start: nat, r: RoundState)
    requires RoundSoFar(vs, behaviour, start, r) && |r.turns| < |vs| == |r.present| && Permitted(behaviour)
    ensures RoundSoFar(vs, behaviour, start, NextTurn(r, behaviour, start + |r.turns|))
  {
    hide TurnOk, AtMostUnblocked, AllIdle, TurnAt, Permitted, CreatedOk, ClonesAt, RoundState.All;
    var (n, k) := (|r.created|, |r.turns|);
    AllAt(r, k);
    var t := TurnAt(r.All(), n + k, behaviour, start + k);
    TurnInParts(r, behaviour, start + k);
    ClonesOf(r.All(), n + k, behaviour, start + k, vs[k]);
    PresentKeeps(vs, behaviour, start, r.turns, r.present, t.turn, t.tasks[n..]);
    CreatedKeeps(vs, behaviour, start, r.turns, r.created, t.turn, t.tasks[..n]);
  }

  lemma AllAt(r: RoundState, k: nat)
    requires k < |r.present|
    ensures |r.All()| == |r.created| + |r.present| && r.All()[|r.created| + k] == r.present[k]
  {
  }

  lemma {:induction false} SameTurns(
    vs: seq<TaskView>, behaviour: Behaviour, start: nat, turns: seq<Turn>, more: seq<Turn>, n: nat)
    requires n <= |vs| && n <= |turns| <= |more| && more[..|turns|] == turns
    ensures CreatedBy(vs, behaviour, start, turns, n) == CreatedBy(vs, behaviour, start, more, n)
  {
    hide ClonesAt;
    if n > 0 {
      SameTurns(vs, behaviour, start, turns, more, n - 1);
      assert more[..|turns|][n - 1] == more[n - 1];
    }
  }

  /**
   * In a round, each task that was there at the start gets exactly one turn: it is run, with what its code
   * does then, or counted down, or reported if it is stopped. Apart from that it is at most unblocked. The
   * tasks created are exactly those that the code of the tasks that are run starts, in its address space.
   */
  lemma {:induction false} RoundIsOk(vs: seq<TaskView>, behaviour: Behaviour, start: nat, n: nat)
    requires n <= |vs| && AllIdle(vs) && Permitted(behaviour)
    ensures RoundSoFar(vs, behaviour, start, RoundAfter(vs, behaviour, start, n))
    decreases n
  {
    hide TurnOk, NextTurn, Permitted, AllIdle, PresentOk, CreatedOk;
    if n == 0 {
      NothingYet(vs, behaviour, start);
    } else {
      RoundIsOk(vs, behaviour, start, n - 1);
      TurnKeeps(vs, behaviour, start, RoundAfter(vs, behaviour, start, n - 1));
    }
  }

  lemma NothingYet(vs: seq<TaskView>, behaviour: Behaviour, start: nat)
    requires AllIdle(vs)
    ensures RoundSoFar(vs, behaviour, start, RoundState([], vs, []))
  {
    assert [] + vs == vs;
  }

  // ---------------------------------------------------------------- many rounds

  /** Some task was run or counted down. */
  ghost predicate Progress(turns: seq<Turn>) {
    exists turn <- turns :: !turn.Reported?
  }

  lemma ProgressMore(turns: seq<Turn>, turn: Turn)
    ensures !Progress([])
    ensures Progress(turns + [turn]) <==> Progress(turns) || !turn.Reported?
  {
    assert turn in turns + [turn] && forall t <- turns :: t in turns + [turn];
  }

  ghost function WholeRound(vs: seq<TaskView>, behaviour: Behaviour, start: nat): RoundState {
    RoundAfter(vs, behaviour, start, |vs|)
  }

  /** The tasks after a number of rounds, and the time. */
  ghost function RoundsAfter(vs: seq<TaskView>, behaviour: Behaviour, start: nat, k: nat): (seq<TaskView>, nat) {
    if k == 0 then (vs, start)
    else
      var (before, time) := RoundsAfter(vs, behaviour, start, k - 1);
      (WholeRound(before, behaviour, time).All(), time + |before|)
  }

  /** Old tasks stay at the end of the list. */
  ghost function Since(vs: seq<TaskView>, after: seq<TaskView>, j: nat): TaskView
    requires j < |vs| <= |after|
  {
    after[|after| - |vs| + j]
  }

  /** The tasks that were stopped still are, and the executor knows nothing else of them. */
  ghost predicate StoppedStay(vs: seq<TaskView>, after: seq<TaskView>) {
    && |vs| <= |after|
    && forall j | 0 <= j < |vs| && Doomed(vs[j].life.task) :: Since(vs, after, j).life == vs[j].life
  }

  /** A turn leaves a stopped task alone, and reports exactly those. */
  lemma StoppedTurn(behaviour: Behaviour, time: nat, before: TaskView, turn: Turn, after: TaskView)
    requires TurnOk(behaviour, time, before, turn, after)
    ensures Doomed(before.life.task) <==> turn.Reported?
    ensures Doomed(before.life.task) ==> after.life == before.life
  {
    hide Doomed, AfterStint, Entered;
  }

  lemma StoppedPresent(
    vs: seq<TaskView>, behaviour: Behaviour, start: nat, turns: seq<Turn>, present: seq<TaskView>, j: nat)
    requires PresentOk(vs, behaviour, start, turns, present) && |turns| == |vs| && j < |vs|
    ensures |present| == |vs| && (Doomed(vs[j].life.task) ==> present[j].life == vs[j].life)
    ensures !Progress(turns) ==> Doomed(vs[j].life.task)
  {
    hide Doomed, TurnOk;
    StoppedTurn(behaviour, start + j, vs[j], turns[j], present[j]);
    assert turns[j] in turns;
  }

  /** A round without progress has found all tasks stopped; in every round, those that are stay so. */
  lemma StoppedInRound(vs: seq<TaskView>, behaviour: Behaviour, start: nat)
    requires AllIdle(vs) && Permitted(behaviour)
    ensures var r := WholeRound(vs, behaviour, start);
            && AllIdle(r.All()) && StoppedStay(vs, r.All())
            && (!Progress(r.turns) ==>
                  r.created == [] && |r.All()| == |vs| && forall v <- r.All() :: Doomed(v.life.task))
  {
    hide AllIdle, Permitted, RoundAfter, Doomed, PresentOk, Progress;
    RoundIsOk(vs, behaviour, start, |vs|);
    var r := WholeRound(vs, behaviour, start);
    forall j | 0 <= j < |vs|
      ensures Doomed(vs[j].life.task) ==> r.present[j].life == vs[j].life
      ensures !Progress(r.turns) ==> Doomed(vs[j].life.task)
    {
      StoppedPresent(vs, behaviour, start, r.turns, r.present, j);
    }
    if !Progress(r.turns) {
      NothingCreated(vs, behaviour, start, r.turns, |vs|);
      assert r.All() == r.present;
    }
  }

  lemma {:induction false} NothingCreated(
    vs: seq<TaskView>, behaviour: Behaviour, start: nat, turns: seq<Turn>, n: nat)
    requires n <= |vs| && n <= |turns| && !Progress(turns)
    ensures CreatedBy(vs, behaviour, start, turns, n) == []
  {
    if n > 0 {
      assert turns[n - 1] in turns;
      NothingCreated(vs, behaviour, start, turns, n - 1);
    }
  }

  /** Once a task is stopped, no number of rounds runs it or changes what the executor knows of it. */
  lemma {:induction false} StoppedInRounds(vs: seq<TaskView>, behaviour: Behaviour, start: nat, k: nat)
    requires AllIdle(vs) && Permitted(behaviour)
    ensures AllIdle(RoundsAfter(vs, behaviour, start, k).0) && StoppedStay(vs, RoundsAfter(vs, behaviour, start, k).0)
    decreases k
  {
    hide AllIdle, Permitted, WholeRound, Doomed;
    if k > 0 {
      StoppedInRounds(vs, behaviour, start, k - 1);
      var (before, time) := RoundsAfter(vs, behaviour, start, k - 1);
      StoppedInRound(before, behaviour, time);
    }
  }

  /** A number of rounds is one round and then the others. */
  lemma {:induction false} FirstRound(vs: seq<TaskView>, behaviour: Behaviour, start: nat, k: nat)
    ensures RoundsAfter(vs, behaviour, start, k + 1) ==
            RoundsAfter(WholeRound(vs, behaviour, start).All(), behaviour, start + |vs|, k)
    ensures RoundsAfter(vs, behaviour, start, 1).0 == WholeRound(vs, behaviour, start).All()
    decreases k
  {
    hide WholeRound;
    if k == 0 {
      assert RoundsAfter(vs, behaviour, start, 0) == (vs, start);
    } else {
      FirstRound(vs, behaviour, start, k - 1);
    }
  }
}
