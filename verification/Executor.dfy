/** The executor's table of live traces: from a task's PC to the lifted function that starts there. */
module Executor {
  import opened Options
  import opened Program
  import opened Decoder
  import opened Lifter
  import opened Interpreter

  /** A trace's PC with the hash of its instruction bytes. */
  datatype TraceId = TraceId(pc: PC, hash: nat)

  /** Everything that direct flow reaches from these PCs decodes, and direct calls do not leave them. */
  ghost predicate ClosedUnderCalls(code: Code, pcs: iset<PC>) {
    && (forall head <- pcs :: AllDecode(code, {head}))
    && (forall head <- pcs, pc: PC, target: PC |
          Reachable(code, {head}, pc) && target in TraceSuccessors(code(pc).inst) :: target in pcs)
  }

  ghost predicate Inside(code: Code, pcs: iset<PC>, trace: Trace) {
    trace.pc in pcs && ExactTrace(code, trace)
  }

  /** Traces decoded from a PC of a closed set all start in that set, and each holds its own head. */
  lemma {:induction false} DecodedTracesAreInside(code: Code, pcs: iset<PC>, start: PC, traces: seq<Trace>, n: nat)
    requires ClosedUnderCalls(code, pcs) && start in pcs
    requires CallOrder(code, start, traces) && ExactWhileDecodable(code, traces)
    requires n <= |traces|
    ensures forall i | 0 <= i < n :: Inside(code, pcs, traces[i])
  {
    hide *;
    if n > 0 {
      DecodedTracesAreInside(code, pcs, start, traces, n - 1);
      NextIsInside(code, pcs, start, traces, n - 1);
    }
  }

  lemma NextIsInside(code: Code, pcs: iset<PC>, start: PC, traces: seq<Trace>, n: nat)
    requires ClosedUnderCalls(code, pcs) && start in pcs
    requires CallOrder(code, start, traces) && ExactWhileDecodable(code, traces)
    requires n < |traces| && forall i | 0 <= i < n :: Inside(code, pcs, traces[i])
    ensures Inside(code, pcs, traces[n])
  {
    hide ExactTrace, AllDecode, CalledFrom;
    var pc := traces[n].pc;
    assert Called(code, start, traces[..n], pc);
    assert pc in pcs by {
      if pc != start {
        var caller :| caller in traces[..n] && pc in CalledFrom(code, caller.instructions.Keys);
        CalleeIsInside(code, pcs, caller, pc);
      }
    }
    assert AllTracesDecode(code, traces[..n + 1]) by {
      forall trace <- traces[..n + 1] ensures AllDecode(code, {trace.pc}) {
        assert trace.pc in pcs;
      }
    }
  }

  lemma CalleeIsInside(code: Code, pcs: iset<PC>, caller: Trace, target: PC)
    requires ClosedUnderCalls(code, pcs) && caller.pc in pcs && ExactTrace(code, caller)
    requires target in CalledFrom(code, caller.instructions.Keys)
    ensures target in pcs
  {
    hide Reachable, AllDecode;
    var pc: PC :| pc in caller.instructions && code(pc).ok && target in TraceSuccessors(code(pc).inst);
    assert Reachable(code, {caller.pc}, pc);
  }

  /** In a closed set, every decoded trace holds its own head: nothing that is left over is in the way. */
  lemma NothingInTheWayInside(code: Code, pcs: iset<PC>, start: PC, traces: seq<Trace>)
    requires ClosedUnderCalls(code, pcs) && start in pcs
    requires CallOrder(code, start, traces) && ExactWhileDecodable(code, traces) && AsDecoded(code, traces)
    ensures NothingInTheWay(code, traces)
  {
    hide ClosedUnderCalls, CallOrder, ExactWhileDecodable, AsDecoded, NothingInTheWay;
    DecodedTracesAreInside(code, pcs, start, traces, |traces|);
    TracesHoldHeadsIff(code, traces);
  }

  /** A function lifted from a trace with this head; the trace need not hold it. */
  ghost predicate LiftedFor(code: Code, fn: Function, pc: PC) {
    fn.trace.pc == pc && FromCode(fn.trace, code) && WellLifted(fn.trace, fn.declared, fn.blocks)
  }

  ghost predicate HoldsHead(fn: Function) {
    fn.trace.pc in fn.trace.instructions
  }

  class Executor {
    const code: Code
    const hash: Trace -> nat

    /** Lifted functions by the PC of their trace; code versioning is off, so all versions are equal. */
    var liveTraces: map<PC, Function>

    /** Lifted functions by trace id, from this run and from earlier ones. */
    var codeCache: map<TraceId, Function>

    /** The trace heads marked in the address space. */
    var heads: set<PC>

    ghost predicate Valid()
      reads this
    {
      && (forall pc <- liveTraces :: LiftedFor(code, liveTraces[pc], pc))
      && (forall id <- codeCache :: LiftedFor(code, codeCache[id], id.pc))
      && heads <= liveTraces.Keys
    }

    /** Every function there is holds its own head, and with that is a good one for its PC. */
    ghost predicate AllHoldHeads()
      reads this
    {
      && (forall pc <- liveTraces :: HoldsHead(liveTraces[pc]))
      && (forall id <- codeCache :: HoldsHead(codeCache[id]))
    }

    ghost predicate LiveHoldHeads()
      reads this
    {
      forall pc <- liveTraces :: HoldsHead(liveTraces[pc])
    }

    /** Starts from what the code cache and the index hold on disk. */
    constructor (code: Code, hash: Trace -> nat, index: map<PC, Function>, codeCache: map<TraceId, Function>)
      requires forall pc <- index :: LiftedFor(code, index[pc], pc)
      requires forall id <- codeCache :: LiftedFor(code, codeCache[id], id.pc)
      ensures Valid() && this.code == code && liveTraces == index && this.codeCache == codeCache && heads == {}
    {
      this.code := code;
      this.hash := hash;
      this.liveTraces := index;
      this.codeCache := codeCache;
      this.heads := {};
    }

    function IdOf(trace: Trace): TraceId {
      TraceId(trace.pc, hash(trace))
    }

    /** The trace's function is live, and in the code cache under the trace's id. */
    ghost predicate Cached(trace: Trace)
      reads this`liveTraces, this`codeCache
    {
      && trace.pc in liveTraces && IdOf(trace) in codeCache && liveTraces[trace.pc] == codeCache[IdOf(trace)]
    }

    /** Nothing in the code cache is changed or lost. */
    twostate predicate KeepsCached()
      reads this`codeCache
    {
      forall id <- old(codeCache) :: id in codeCache && codeCache[id] == old(codeCache)[id]
    }

    twostate predicate KeepsLive()
      reads this
    {
      forall p <- old(liveTraces) :: p in liveTraces && liveTraces[p] == old(liveTraces)[p]
    }

    /**
     * The lifted function for a task's PC, decoding and lifting it first if need be. The answer is
     * the error intrinsic only for a PC that is neither live nor executable. Functions hold their heads
     * as long as nothing left over by a failed decode is in the way of a new trace's.
     */
    method FindLiftedFunction(pc: PC, canExecute: bool) returns (fn: Option<Function>, ghost traces: seq<Trace>)
      requires Valid()
      modifies this
      ensures Valid() && KeepsLive()
      ensures fn.Some? ==> LiftedFor(code, fn.value, pc) && pc in liveTraces && fn.value == liveTraces[pc]
      ensures fn.None? <==> !canExecute && pc !in old(liveTraces)
      ensures AsDecoded(code, traces)
      ensures old(AllHoldHeads()) && NothingInTheWay(code, traces) ==> AllHoldHeads()
      ensures forall pcs: iset<PC> | ClosedUnderCalls(code, pcs) && (canExecute ==> pc in pcs) ::
        NothingInTheWay(code, traces)
    {
      hide ClosedUnderCalls, AsDecoded, NothingInTheWay, WellLifted, FromCode;
      traces := [];
      NoTraces(code);
      if pc in liveTraces {
        return Some(liveTraces[pc]), traces;
      }
      if !canExecute {
        return None, traces;
      }
      traces := DecodeTracesFromTask(pc);
      fn := Some(liveTraces[pc]);
    }

    method DecodeTracesFromTask(pc: PC) returns (ghost traces: seq<Trace>)
      requires Valid()
      modifies this
      ensures Valid() && KeepsLive() && KeepsCached() && pc in liveTraces
      ensures forall trace <- traces :: trace.pc in old(liveTraces) || Cached(trace)
      ensures AsDecoded(code, traces)
      ensures old(AllHoldHeads()) && NothingInTheWay(code, traces) ==> AllHoldHeads()
      ensures forall pcs: iset<PC> | ClosedUnderCalls(code, pcs) && pc in pcs :: NothingInTheWay(code, traces)
    {
      hide ClosedUnderCalls, LiftedFor, AsDecoded, NothingInTheWay, CallOrder, ExactWhileDecodable, HoldsHead;
      var decoded, marked := DecodeTraces(code, heads, pc);
      traces := decoded;
      forall pcs: iset<PC> | ClosedUnderCalls(code, pcs) && pc in pcs ensures NothingInTheWay(code, traces) {
        NothingInTheWayInside(code, pcs, pc, traces);
      }
      TracesHoldHeadsIff(code, traces);
      Publish(decoded);
      forall p <- marked ensures p in liveTraces {
        if p !in heads {
          assert p in marked - heads;
        }
      }
      heads := marked;
    }

    /** Makes every one of the traces live. */
    method Publish(traces: seq<Trace>)
      requires Valid()
      requires forall i, j | 0 <= i < j < |traces| :: traces[i].pc != traces[j].pc
      requires forall trace <- traces :: FromCode(trace, code)
      modifies this`liveTraces, this`codeCache
      ensures Valid() && KeepsLive() && KeepsCached()
      ensures forall trace <- traces :: trace.pc in liveTraces
      ensures forall trace <- traces :: trace.pc in old(liveTraces) || Cached(trace)
      ensures old(AllHoldHeads()) && (forall i | 0 <= i < |traces| :: traces[i].pc in traces[i].instructions) ==>
        AllHoldHeads()
    {
      hide LiftedFor, FromCode;
      var missing := UseCached(traces);
      LiftMissing(missing);
    }

    /** Takes over the traces already in the code cache; returns the ones still to be lifted. */
    method UseCached(traces: seq<Trace>) returns (missing: seq<Trace>)
      requires Valid()
      requires forall i, j | 0 <= i < j < |traces| :: traces[i].pc != traces[j].pc
      modifies this`liveTraces
      ensures Valid() && KeepsLive()
      ensures forall trace <- missing :: trace in traces && trace.pc !in liveTraces && IdOf(trace) !in codeCache
      ensures forall i, j | 0 <= i < j < |missing| :: missing[i].pc != missing[j].pc
      ensures forall trace <- traces :: trace.pc in old(liveTraces) || Cached(trace) || trace in missing
      ensures old(AllHoldHeads()) ==> AllHoldHeads()
    {
      hide LiftedFor, HoldsHead;
      missing := [];
      for i := 0 to |traces|
        invariant Valid() && KeepsLive()
        invariant forall trace <- missing ::
          trace in traces[..i] && trace.pc !in liveTraces && IdOf(trace) !in codeCache
        invariant forall j, k | 0 <= j < k < |missing| :: missing[j].pc != missing[k].pc
        invariant forall j | 0 <= j < i :: traces[j].pc in old(liveTraces) || Cached(traces[j]) || traces[j] in missing
        invariant forall p <- liveTraces :: p in old(liveTraces) || exists j | 0 <= j < i :: traces[j].pc == p
        invariant old(AllHoldHeads()) ==> AllHoldHeads()
      {
        var trace := traces[i];
        assert traces[..i + 1] == traces[..i] + [trace];
        if trace.pc in liveTraces {
          continue;
        }
        if IdOf(trace) in codeCache {
          liveTraces := liveTraces[trace.pc := codeCache[IdOf(trace)]];
        } else {
          missing := missing + [trace];
        }
      }
    }

    /** Declares, lifts, caches and publishes the traces that are still missing. */
    method LiftMissing(missing: seq<Trace>)
      requires Valid()
      requires forall trace <- missing :: FromCode(trace, code) && trace.pc !in liveTraces && IdOf(trace) !in codeCache
      requires forall i, j | 0 <= i < j < |missing| :: missing[i].pc != missing[j].pc
      modifies this`liveTraces, this`codeCache
      ensures Valid() && KeepsLive() && KeepsCached()
      ensures forall trace <- missing :: Cached(trace)
      ensures old(AllHoldHeads()) && (forall trace <- missing :: trace.pc in trace.instructions) ==> AllHoldHeads()
    {
      hide LiftedFor, FromCode, HoldsHead;
      var declared := set trace <- missing :: trace.pc;
      for i := 0 to |missing|
        invariant Valid() && KeepsLive() && KeepsCached()
        invariant forall j | 0 <= j < i :: Cached(missing[j])
        invariant forall j | i <= j < |missing| :: IdOf(missing[j]) !in codeCache
        invariant old(AllHoldHeads()) && (forall trace <- missing :: trace.pc in trace.instructions) ==> AllHoldHeads()
      {
        assert missing[i] in missing;
        LiftOne(missing[i], declared);
      }
    }

    method LiftOne(trace: Trace, declared: set<PC>)
      requires Valid() && FromCode(trace, code)
      modifies this`liveTraces, this`codeCache
      ensures Valid() && Cached(trace)
      ensures liveTraces == old(liveTraces)[trace.pc := codeCache[IdOf(trace)]]
      ensures codeCache == old(codeCache)[IdOf(trace) := codeCache[IdOf(trace)]]
      ensures old(AllHoldHeads()) && trace.pc in trace.instructions ==> AllHoldHeads()
    {
      hide WellLifted, FromCode;
      var blocks := LiftTrace(trace, declared);
      var fn := Function(trace, declared, blocks);
      assert LiftedFor(code, fn, trace.pc);
      hide LiftedFor;
      codeCache := codeCache[IdOf(trace) := fn];
      liveTraces := liveTraces[trace.pc := fn];
    }
  }

  lemma NoTraces(code: Code)
    ensures AsDecoded(code, []) && NothingInTheWay(code, [])
  {
  }
}
