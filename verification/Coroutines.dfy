/** Switching between the scheduler's stack and the stacks of coroutines, on x86-64. */
module Coroutines {

  /** The callee-saved registers. */
  datatype Registers = Registers(rbx: nat, rbp: nat, r12: nat, r13: nat, r14: nat, r15: nat)

  /** What a side must find again when it gets back control. The return address is at `rsp`. */
  datatype Context = Context(registers: Registers, rsp: nat)

  /** Where a coroutine is: `Active` and `Paused` hold the context of the side that has no control. */
  datatype Phase = Idle | Active(resumer: Context) | Paused(coroutine: Context)

  /** The highest slot is this far below the end of a coroutine's stack, the lowest `SAVED_RSP`. */
  const SAVED_REGISTERS: nat := 120
  const SAVED_RSP: nat := 128
  const SAVED_COROUTINE: nat := 72

  type Memory = map<nat, nat>

  function Load(memory: Memory, address: nat): nat {
    if address in memory then memory[address] else 0
  }

  function Store(memory: Memory, address: nat, value: nat): Memory {
    memory[address := value]
  }

  /** The context in the slots of the stack that ends at `end`. */
  ghost function Saved(memory: Memory, end: nat): Context
    requires end >= SAVED_RSP
  {
    var slots := end - SAVED_REGISTERS;
    Context(Registers(Load(memory, slots), Load(memory, slots + 8), Load(memory, slots + 16),
                      Load(memory, slots + 24), Load(memory, slots + 32), Load(memory, slots + 40)),
            Load(memory, end - SAVED_RSP))
  }

  /** The memories differ at most in the slots of the stack that ends at `end`. */
  ghost predicate SameOutside(before: Memory, after: Memory, end: nat) {
    forall a: nat | a + SAVED_RSP < end || end < a :: Load(after, a) == Load(before, a)
  }

  /** The memory with a context in the slots. */
  ghost function WithSaved(memory: Memory, end: nat, context: Context): Memory
    requires end >= SAVED_RSP
  {
    var (r, slots) := (context.registers, end - SAVED_REGISTERS);
    var m1 := Store(memory, slots, r.rbx);
    var m2 := Store(m1, slots + 8, r.rbp);
    var m3 := Store(m2, slots + 16, r.r12);
    var m4 := Store(m3, slots + 24, r.r13);
    var m5 := Store(m4, slots + 32, r.r14);
    var m6 := Store(m5, slots + 40, r.r15);
    Store(m6, slots - 8, context.rsp)
  }

  /** What the registers hold after being exchanged with the slots one by one. */
  ghost function Loaded(memory: Memory, end: nat, context: Context): Context
    requires end >= SAVED_RSP
  {
    var (r, slots) := (context.registers, end - SAVED_REGISTERS);
    var m1 := Store(memory, slots, r.rbx);
    var m2 := Store(m1, slots + 8, r.rbp);
    var m3 := Store(m2, slots + 16, r.r12);
    var m4 := Store(m3, slots + 24, r.r13);
    var m5 := Store(m4, slots + 32, r.r14);
    var m6 := Store(m5, slots + 40, r.r15);
    Context(Registers(Load(memory, slots), Load(m1, slots + 8), Load(m2, slots + 16), Load(m3, slots + 24),
                      Load(m4, slots + 32), Load(m5, slots + 40)), Load(m6, slots - 8))
  }

  lemma LoadedIsSaved(memory: Memory, end: nat, context: Context)
    requires end >= SAVED_RSP
    ensures Loaded(memory, end, context) == Saved(memory, end)
  {
  }

  /** Each slot is loaded before it is stored to, so the exchanges one by one are one exchange. */
  lemma ExchangedWords(memory: Memory, end: nat, context: Context)
    requires end >= SAVED_RSP
    ensures Saved(WithSaved(memory, end, context), end) == context
    ensures SameOutside(memory, WithSaved(memory, end, context), end)
    ensures Load(WithSaved(memory, end, context), end - SAVED_COROUTINE) == Load(memory, end - SAVED_COROUTINE)
  {
  }

  /** The slots of the two stacks do not overlap. */
  predicate Apart(endC: nat, endD: nat) {
    endC + SAVED_RSP + 8 < endD || endD + SAVED_RSP + 8 < endC
  }

  lemma OtherSlotsStay(before: Memory, after: Memory, endC: nat, endD: nat)
    requires endC >= SAVED_RSP && endD >= SAVED_RSP && Apart(endC, endD) && SameOutside(before, after, endC)
    ensures Saved(after, endD) == Saved(before, endD)
    ensures Load(after, endD - SAVED_COROUTINE) == Load(before, endD - SAVED_COROUTINE)
  {
  }

  ghost predicate StacksOk(stackEnd: map<nat, nat>) {
    && (forall c <- stackEnd :: stackEnd[c] >= SAVED_RSP + 8)
    && (forall c <- stackEnd, d <- stackEnd | c != d :: Apart(stackEnd[c], stackEnd[d]))
  }

  /** The slots hold the context of the side that is without control, and the count is one while there are two sides. */
  ghost predicate SlotsOk(c: nat, end: nat, memory: Memory, phase: Phase, onStack: nat)
    requires end >= SAVED_RSP
  {
    if phase.Idle? then onStack == 0 else
      && onStack == 1 && Load(memory, end - SAVED_COROUTINE) == c
      && Saved(memory, end) == if phase.Active? then phase.resumer else phase.coroutine
  }

  ghost predicate AtMostOneActive(phase: map<nat, Phase>) {
    forall c <- phase, d <- phase | phase[c].Active? && phase[d].Active? :: c == d
  }

  ghost predicate NobodyActive(phase: map<nat, Phase>) {
    forall c <- phase :: !phase[c].Active?
  }

  ghost predicate AllOk(stackEnd: map<nat, nat>, memory: Memory, phase: map<nat, Phase>, onStack: map<nat, nat>) {
    && StacksOk(stackEnd) && phase.Keys == onStack.Keys == stackEnd.Keys
    && (forall c <- phase :: SlotsOk(c, stackEnd[c], memory, phase[c], onStack[c]))
    && AtMostOneActive(phase)
  }

  /** What happens to one coroutine's slots does not disturb the others. */
  lemma SwitchKeepsOk(stackEnd: map<nat, nat>, before: Memory, after: Memory, phase: map<nat, Phase>,
                      onStack: map<nat, nat>, c: nat, p: Phase, n: nat)
    requires AllOk(stackEnd, before, phase, onStack) && c in stackEnd
    requires SameOutside(before, after, stackEnd[c]) && SlotsOk(c, stackEnd[c], after, p, n)
    requires p.Active? ==> NobodyActive(phase)
    ensures AllOk(stackEnd, after, phase[c := p], onStack[c := n])
  {
    hide Saved, SameOutside, Load;
    forall d <- phase | d != c ensures SlotsOk(d, stackEnd[d], after, phase[d], onStack[d]) {
      OtherSlotsStay(before, after, stackEnd[c], stackEnd[d]);
    }
  }

  /** What the invariant says about one coroutine. */
  lemma OkAt(stackEnd: map<nat, nat>, memory: Memory, phase: map<nat, Phase>, onStack: map<nat, nat>, c: nat)
    requires AllOk(stackEnd, memory, phase, onStack) && c in phase
    ensures c in stackEnd && c in onStack && stackEnd[c] >= SAVED_RSP + 8
    ensures SlotsOk(c, stackEnd[c], memory, phase[c], onStack[c])
    ensures onStack[c := onStack[c]] == onStack
  {
  }

  class Cpu {
    /** The end of each coroutine's stack. */
    const stackEnd: map<nat, nat>

    var rbx: nat
    var rbp: nat
    var r12: nat
    var r13: nat
    var r14: nat
    var r15: nat
    var rsp: nat
    var rip: nat
    var memory: Memory
    var onStack: map<nat, nat>

    ghost var phase: map<nat, Phase>

    ghost function Current(): Context
      reads this`rbx, this`rbp, this`r12, this`r13, this`r14, this`r15, this`rsp
    {
      Context(Registers(rbx, rbp, r12, r13, r14, r15), rsp)
    }

    ghost predicate Valid()
      reads this`memory, this`phase, this`onStack
    {
      AllOk(stackEnd, memory, phase, onStack)
    }

    /** Pops the return address and goes there. */
    method Ret()
      modifies this`rip, this`rsp
      ensures rip == Load(memory, old(rsp)) && rsp == old(rsp) + 8
    {
      rip := Load(memory, rsp);
      rsp := rsp + 8;
    }

    /** Exchanges a register with a word of memory. */
    method Xchg(register: nat, address: nat) returns (loaded: nat)
      modifies this`memory
      ensures loaded == Load(old(memory), address) && memory == Store(old(memory), address, register)
    {
      loaded := Load(memory, address);
      memory := Store(memory, address, register);
    }

    /** The exchange at the heart of a switch: what is in the slots and what is in the registers trade places. */
    method Exchange(end: nat)
      requires end >= SAVED_RSP
      modifies this`rbx, this`rbp, this`r12, this`r13, this`r14, this`r15, this`rsp, this`memory
      ensures Current() == Saved(old(memory), end) && Saved(memory, end) == old(Current())
      ensures SameOutside(old(memory), memory, end)
      ensures Load(memory, end - SAVED_COROUTINE) == Load(old(memory), end - SAVED_COROUTINE)
    {
      hide Load, Store, SameOutside, Saved;
      var rdi := end - SAVED_REGISTERS;
      ExchangedWords(memory, end, Current());
      LoadedIsSaved(memory, end, Current());
      rbx := Xchg(rbx, rdi);
      rbp := Xchg(rbp, rdi + 8);
      r12 := Xchg(r12, rdi + 16);
      r13 := Xchg(r13, rdi + 24);
      r14 := Xchg(r14, rdi + 32);
      r15 := Xchg(r15, rdi + 40);
      rsp := Xchg(rsp, rdi - 8);
    }

    /** Whether a side has got back control: its registers, its stack, and the instruction after its call. */
    ghost predicate Regained(context: Context)
      reads this
    {
      Current() == context.(rsp := context.rsp + 8) && rip == Load(memory, context.rsp)
    }

    /** The coroutine gives up control: whoever started or last resumed it goes on. */
    method Pause(c: nat)
      requires Valid() && c in phase && phase[c].Active?
      modifies this
      ensures Valid() && Regained(old(phase[c].resumer))
      ensures phase == old(phase)[c := Paused(old(Current()))] && onStack == old(onStack)
      ensures SameOutside(old(memory), memory, stackEnd[c])
    {
      hide Saved, SameOutside, Load, AllOk;
      ghost var before, p := memory, Paused(Current());
      OkAt(stackEnd, memory, phase, onStack, c);
      Exchange(stackEnd[c]);
      SwitchKeepsOk(stackEnd, before, memory, phase, onStack, c, p, onStack[c]);
      phase := phase[c := p];
      Ret();
    }

    /** The scheduler gives control to a paused coroutine, which goes on where it gave it up. */
    method Resume(c: nat)
      requires Valid() && c in phase && phase[c].Paused? && NobodyActive(phase)
      modifies this
      ensures Valid() && Regained(old(phase[c].coroutine))
      ensures phase == old(phase)[c := Active(old(Current()))] && onStack == old(onStack)
      ensures SameOutside(old(memory), memory, stackEnd[c])
    {
      hide Saved, SameOutside, Load, AllOk;
      ghost var before, p := memory, Active(Current());
      OkAt(stackEnd, memory, phase, onStack, c);
      Exchange(stackEnd[c]);
      SwitchKeepsOk(stackEnd, before, memory, phase, onStack, c, p, onStack[c]);
      phase := phase[c := p];
      Ret();
    }

    /**
     * The scheduler starts a coroutine: saves its own context in the slots, and calls `entry` on the
     * coroutine's stack with `returnTo` as the return address.
     */
    method Start(c: nat, entry: nat, returnTo: nat)
      requires Valid() && c in phase && phase[c].Idle? && NobodyActive(phase)
      requires rsp >= 8 && OutsideSlots(stackEnd, rsp - 8)
      modifies this
      ensures Valid() && phase == old(phase)[c := Active(old(Current()))] && onStack == old(onStack)[c := 1]
      ensures rip == entry && rsp == stackEnd[c] - SAVED_RSP - 8 && Load(memory, rsp) == returnTo
    {
      hide Saved, SameOutside, Load, Store, AllOk;
      ghost var context := Current();
      OkAt(stackEnd, memory, phase, onStack, c);
      StartedOk(stackEnd, memory, phase, onStack, c, context, returnTo);
      onStack := onStack[c := onStack[c] + 1];
      var rdx := stackEnd[c] - SAVED_REGISTERS;
      var m := Store(memory, rsp - 8, c);
      m := Store(m, rdx + 48, Load(m, rsp - 8));
      m := Store(m, rdx, rbx);
      m := Store(m, rdx + 8, rbp);
      m := Store(m, rdx + 16, r12);
      m := Store(m, rdx + 24, r13);
      m := Store(m, rdx + 32, r14);
      m := Store(m, rdx + 40, r15);
      rdx, rsp := rsp, rdx;
      rsp := rsp - 8;
      m := Store(m, rsp, rdx);
      rsp := rsp - 8;
      m := Store(m, rsp, returnTo);
      memory, rip := m, entry;
      phase := phase[c := Active(context)];
    }

    method RestoreRegisters(end: nat)
      requires end >= SAVED_RSP
      modifies this`rbx, this`rbp, this`r12, this`r13, this`r14, this`r15
      ensures Current().registers == Saved(memory, end).registers
    {
      var rdx := end - SAVED_REGISTERS;
      rbx := Load(memory, rdx);
      rbp := Load(memory, rdx + 8);
      r12 := Load(memory, rdx + 16);
      r13 := Load(memory, rdx + 24);
      r14 := Load(memory, rdx + 32);
      r15 := Load(memory, rdx + 40);
    }

    /**
     * The function that `Start` called has returned: whoever last gave the coroutine control goes on,
     * and the coroutine can be started again.
     */
    method Finish(c: nat)
      requires Valid() && c in phase && phase[c].Active? && rsp == stackEnd[c] - SAVED_RSP
      modifies this
      ensures Valid() && Regained(old(phase[c].resumer))
      ensures phase == old(phase)[c := Idle] && onStack == old(onStack)[c := 0] && memory == old(memory)
    {
      hide SameOutside, AllOk, SlotsOk;
      hide Load, Saved;
      FinishedOk(stackEnd, memory, phase, onStack, c);
      SavedRsp(memory, stackEnd[c]);
      var rdx := rsp + 8;
      rsp := Load(memory, rsp);
      RestoreRegisters(stackEnd[c]);
      rdx := Load(memory, rdx + 48);
      onStack := onStack[rdx := onStack[rdx] - 1];
      phase := phase[c := Idle];
      Ret();
    }

    /** Any code of the side that has control, as long as it stays away from the slots. */
    method RunCode(context: Context, newMemory: Memory)
      requires Valid() && forall a: nat | !OutsideSlots(stackEnd, a) :: Load(newMemory, a) == Load(memory, a)
      modifies this
      ensures Valid() && phase == old(phase) && Current() == context && memory == newMemory
    {
      hide OutsideSlots, Load;
      CodeKeepsOk(stackEnd, memory, newMemory, phase, onStack);
      var r := context.registers;
      rbx, rbp, r12, r13, r14, r15 := r.rbx, r.rbp, r.r12, r.r13, r.r14, r.r15;
      rsp, memory := context.rsp, newMemory;
    }
  }

  lemma SavedRsp(memory: Memory, end: nat)
    requires end >= SAVED_RSP
    ensures Saved(memory, end).rsp == Load(memory, end - SAVED_RSP)
  {
  }

  /** The slots hold what finishing needs, and letting go of them leaves the others in order. */
  lemma FinishedOk(stackEnd: map<nat, nat>, memory: Memory, phase: map<nat, Phase>, onStack: map<nat, nat>, c: nat)
    requires AllOk(stackEnd, memory, phase, onStack) && c in phase && phase[c].Active?
    ensures c in stackEnd && c in onStack && stackEnd[c] >= SAVED_RSP + 8
    ensures onStack[c] == 1 && Saved(memory, stackEnd[c]) == phase[c].resumer
    ensures Load(memory, stackEnd[c] - SAVED_COROUTINE) == c
    ensures AllOk(stackEnd, memory, phase[c := Idle], onStack[c := 0])
  {
    hide Saved, Load, AllOk;
    OkAt(stackEnd, memory, phase, onStack, c);
    SwitchKeepsOk(stackEnd, memory, memory, phase, onStack, c, Idle, 0);
  }

  lemma CodeKeepsOk(
    stackEnd: map<nat, nat>, before: Memory, after: Memory, phase: map<nat, Phase>, onStack: map<nat, nat>)
    requires AllOk(stackEnd, before, phase, onStack)
    requires forall a: nat | !OutsideSlots(stackEnd, a) :: Load(after, a) == Load(before, a)
    ensures AllOk(stackEnd, after, phase, onStack)
  {
    hide Load;
    forall d <- phase ensures SlotsOk(d, stackEnd[d], after, phase[d], onStack[d]) {
      forall a: nat | stackEnd[d] - SAVED_RSP <= a <= stackEnd[d] ensures Load(after, a) == Load(before, a) {
        assert !OutsideSlots(stackEnd, a);
      }
    }
  }

  /** No stack's slots include the address. */
  ghost predicate OutsideSlots(stackEnd: map<nat, nat>, address: nat) {
    forall c <- stackEnd :: address + SAVED_RSP < stackEnd[c] || stackEnd[c] < address
  }

  /** The memory after a start: the scheduler's push, the coroutine's name, the context and the return address. */
  ghost function Started(memory: Memory, end: nat, c: nat, context: Context, returnTo: nat): Memory
    requires end >= SAVED_RSP + 8 && context.rsp >= 8
  {
    var pushed := Store(memory, context.rsp - 8, c);
    var named := Store(pushed, end - SAVED_COROUTINE, Load(pushed, context.rsp - 8));
    Store(WithSaved(named, end, context), end - SAVED_RSP - 8, returnTo)
  }

  lemma StartedOk(stackEnd: map<nat, nat>, memory: Memory, phase: map<nat, Phase>, onStack: map<nat, nat>, c: nat,
                  context: Context, returnTo: nat)
    requires AllOk(stackEnd, memory, phase, onStack) && c in phase && phase[c].Idle? && NobodyActive(phase)
    requires context.rsp >= 8 && OutsideSlots(stackEnd, context.rsp - 8)
    ensures c in stackEnd && stackEnd[c] >= SAVED_RSP + 8 && c in onStack && onStack[c] == 0
    ensures var after := Started(memory, stackEnd[c], c, context, returnTo);
            && Load(after, stackEnd[c] - SAVED_RSP - 8) == returnTo
            && AllOk(stackEnd, after, phase[c := Active(context)], onStack[c := 1])
  {
    hide Saved, SameOutside, AllOk, WithSaved;
    OkAt(stackEnd, memory, phase, onStack, c);
    var end := stackEnd[c];
    var pushed := Store(memory, context.rsp - 8, c);
    StoreOutsideKeepsOk(stackEnd, memory, phase, onStack, context.rsp - 8, c);
    var named := Store(pushed, end - SAVED_COROUTINE, c);
    ExchangedWords(named, end, context);
    var saved := WithSaved(named, end, context);
    var after := Store(saved, end - SAVED_RSP - 8, returnTo);
    NamedOutside(pushed, end, c, saved);
    SwitchKeepsOk(stackEnd, pushed, saved, phase, onStack, c, Active(context), 1);
    BelowIsOutside(stackEnd, c);
    StoreOutsideKeepsOk(stackEnd, saved, phase[c := Active(context)], onStack[c := 1], end - SAVED_RSP - 8, returnTo);
  }

  lemma StoreOutsideKeepsOk(stackEnd: map<nat, nat>, memory: Memory, phase: map<nat, Phase>, onStack: map<nat, nat>,
                            address: nat, value: nat)
    requires AllOk(stackEnd, memory, phase, onStack) && OutsideSlots(stackEnd, address)
    ensures AllOk(stackEnd, Store(memory, address, value), phase, onStack)
  {
    var after := Store(memory, address, value);
    forall d <- phase ensures SlotsOk(d, stackEnd[d], after, phase[d], onStack[d]) {
      assert SlotsOk(d, stackEnd[d], memory, phase[d], onStack[d]);
      assert forall a: nat | a != address :: Load(after, a) == Load(memory, a);
    }
  }

  lemma NamedOutside(memory: Memory, end: nat, c: nat, saved: Memory)
    requires end >= SAVED_RSP && SameOutside(Store(memory, end - SAVED_COROUTINE, c), saved, end)
    ensures SameOutside(memory, saved, end)
  {
  }

  lemma BelowIsOutside(stackEnd: map<nat, nat>, c: nat)
    requires StacksOk(stackEnd) && c in stackEnd
    ensures OutsideSlots(stackEnd, stackEnd[c] - SAVED_RSP - 8)
  {
  }
}
