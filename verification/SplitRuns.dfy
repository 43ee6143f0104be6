/** Runs of a graph with blocks on its edges, against runs of the graph itself. */
module SplitRuns {
  import opened Options
  import opened ControlFlow
  import opened EdgeSplitting

  /** Both are about to enter the same block with the same values in its PHI nodes. */
  ghost predicate Together(g0: Graph, g: Graph, s0: State, s: State)
    requires ShapesOk(g0, g)
  {
    if s0.Done? then s.Done? else
      && s.At? && s.at == s0.at && s.at in g0
      && AssignPhis(g0[s0.at].phis, s0.from, s0.env, s0.temps) == AssignPhis(g[s.at].phis, s.from, s.env, s.temps)
  }

  lemma SplitIsRunnable(g0: Graph, g: Graph)
    requires ShapesOk(g0, g)
    ensures Runnable(g0) && Runnable(g)
  {
  }

  /** Operands that evaluate alike assign alike. */
  lemma {:induction false} AssignAlike(phis0: seq<Phi>, phis: seq<Phi>, from0: Id, from: Id, env: Env,
                                       temps0: map<(Id, nat), int>, temps: map<(Id, nat), int>)
    requires Paired(phis0) && Paired(phis) && |phis0| == |phis|
    requires forall k | 0 <= k < |phis| ::
      && phis0[k].dest == phis[k].dest && Incoming(phis0[k], from0).Some? && Incoming(phis[k], from).Some?
      && Eval(Incoming(phis0[k], from0).value, env, temps0) == Eval(Incoming(phis[k], from).value, env, temps)
    ensures AssignPhis(phis0, from0, env, temps0) == AssignPhis(phis, from, env, temps)
  {
    if phis != [] {
      AssignAlike(phis0[..|phis| - 1], phis[..|phis| - 1], from0, from, env, temps0, temps);
    }
  }

  /** A copied operand is there to be loaded. */
  lemma {:induction false} CopiedAt(mid: Id, copies: seq<Option<Operand>>, env: Env, temps: map<(Id, nat), int>, k: nat)
    requires k < |copies| && copies[k].Some?
    ensures Lookup(CopyTemps(mid, copies, env, temps), (mid, k)) == Eval(copies[k].value, env, temps)
  {
    var last := |copies| - 1;
    if k < last {
      CopiedAt(mid, copies[..last], env, temps, k);
    }
  }

  /** Going over an edge that has no block of its own. */
  lemma DirectEdge(g0: Graph, g: Graph, mids: map<EdgeName, Id>, b: Id, i: nat, env: Env,
                   temps0: map<(Id, nat), int>, temps: map<(Id, nat), int>)
    requires Splits(g0, g, mids) && b in g0 && i < |g0[b].succs| && (b, i) !in mids
    ensures var t := g0[b].succs[i];
            g[b].succs[i] == t && Together(g0, g, At(t, b, env, temps0), At(t, b, env, temps))
  {
    hide FirstIndex, WellFormedPhi, PhiOk, Forwards, Incoming;
    assert EdgeOk(g0, g, mids, b, i);
    var t := g0[b].succs[i];
    forall k | 0 <= k < |g0[t].phis|
      ensures var (p0, p) := (g0[t].phis[k], g[t].phis[k]);
              p0.dest == p.dest && Incoming(p, b) == Incoming(p0, b)
              && Incoming(p0, b).Some? && Incoming(p0, b).value.Value?
    {
      assert PhiOk(g0, g, t, k);
      DirectOperand(g0, g, b, t, k);
      SameDest(g0, g, t, k);
    }
    AssignAlike(g0[t].phis, g[t].phis, b, b, env, temps0, temps);
  }

  lemma SameDest(g0: Graph, g: Graph, t: Id, k: nat)
    requires ShapesOk(g0, g) && t in g0 && k < |g0[t].phis| && PhiOk(g0, g, t, k)
    ensures g0[t].phis[k].dest == g[t].phis[k].dest
  {
  }

  /** The PHI node's operand for the edge block is the value that the block loads. */
  lemma EdgeOperand(g0: Graph, g: Graph, t: Id, k: nat, m: Id)
    requires ShapesOk(g0, g) && t in g0 && k < |g0[t].phis| && PhiOk(g0, g, t, k)
    requires m !in g0 && m in g[t].phis[k].blocks
    ensures Incoming(g[t].phis[k], m) == Some(Temp(m, k))
  {
    hide WellFormed;
  }

  /** The operand of the PHI node of a well-formed graph for an edge it has. */
  lemma OriginalOperand(g0: Graph, b: Id, t: Id, k: nat)
    requires WellFormed(g0) && b in g0 && t in g0 && t in g0[b].succs && k < |g0[t].phis|
    ensures |g0[t].phis[k].blocks| == |g0[t].phis[k].operands|
    ensures Incoming(g0[t].phis[k], b).Some? && Incoming(g0[t].phis[k], b).value.Value?
  {
    NothingSplit(g0);
    assert PhiOk(g0, g0, t, k);
    DirectOperand(g0, g0, b, t, k);
  }

  /** Going over an edge by way of its block. */
  lemma SplitEdge(g0: Graph, g: Graph, mids: map<EdgeName, Id>, b: Id, i: nat, env: Env,
                  temps0: map<(Id, nat), int>, temps: map<(Id, nat), int>)
    requires Splits(g0, g, mids) && b in g0 && i < |g0[b].succs| && (b, i) in mids
    ensures var (t, m) := (g0[b].succs[i], mids[(b, i)]);
            && g[b].succs[i] == m && m in g && g[m].Edge? && g[m].to == t
            && Together(g0, g, At(t, b, env, temps0), At(t, m, env, CopyTemps(m, g[m].copies, env, temps)))
  {
    hide FirstIndex, WellFormedPhi, PhiOk, Incoming, CopyTemps;
    assert EdgeOk(g0, g, mids, b, i);
    var t, m := g0[b].succs[i], mids[(b, i)];
    var temps' := CopyTemps(m, g[m].copies, env, temps);
    forall k | 0 <= k < |g0[t].phis|
      ensures var (p0, p) := (g0[t].phis[k], g[t].phis[k]);
              && p0.dest == p.dest && Incoming(p0, b).Some? && Incoming(p, m).Some?
              && Eval(Incoming(p0, b).value, env, temps0) == Eval(Incoming(p, m).value, env, temps')
    {
      assert PhiOk(g0, g, t, k);
      SameDest(g0, g, t, k);
      OriginalOperand(g0, b, t, k);
      EdgeOperand(g0, g, t, k, m);
      CopiedAt(m, g[m].copies, env, temps, k);
    }
    AssignAlike(g0[t].phis, g[t].phis, b, m, env, temps0, temps');
  }

  function CallItems(block: Block): seq<Item>
    requires block.Edge?
  {
    match block.call case None => [] case Some(c) => [Covered(c)]
  }

  /** A step of the original is one step over a direct edge, or two over an edge with a block. */
  lemma StepTogether(g0: Graph, g: Graph, mids: map<EdgeName, Id>, sem: Semantics, s0: State, s: State)
    requires Splits(g0, g, mids) && Together(g0, g, s0, s) && s0.At?
    requires Runnable(g0) && Runnable(g)
    ensures var (s0', items) := Step(g0, sem, s0);
            var (s', items') := Step(g, sem, s);
            && |items| == 1 && items[0].Visit? && items[0].block == s0.at && items' == items
            && var e := (s0.at, items[0].choice);
               if e in mids then
                 var m := mids[e];
                 && m in g && g[m].Edge? && s'.At? && s'.at == m
                 && Step(g, sem, s').1 == CallItems(g[m]) && Together(g0, g, s0', Step(g, sem, s').0)
               else
                 Together(g0, g, s0', s')
  {
    hide AssignPhis, CopyTemps, Incoming, PhiOk, WellFormedPhi, Forwards, Paired;
    var b := s0.at;
    var left := sem.body(b, AssignPhis(g0[b].phis, s0.from, s0.env, s0.temps));
    var i := sem.choose(b, left);
    if i < |g0[b].succs| {
      if (b, i) in mids {
        SplitEdge(g0, g, mids, b, i, left, s0.temps, s.temps);
      } else {
        DirectEdge(g0, g, mids, b, i, left, s0.temps, s.temps);
      }
    }
  }

  /** What a run of the split graph records: each visit, then the call of the block on the edge taken, if any. */
  ghost function Decorate(g: Graph, mids: map<EdgeName, Id>, log: seq<Item>): seq<Item> {
    if log == [] then [] else
      var last := log[|log| - 1];
      Decorate(g, mids, log[..|log| - 1]) + [last] + CallsAfter(g, mids, last)
  }

  ghost function CallsAfter(g: Graph, mids: map<EdgeName, Id>, item: Item): seq<Item> {
    if item.Visit? && (item.block, item.choice) in mids then
      var m := mids[(item.block, item.choice)];
      if m in g && g[m].Edge? then CallItems(g[m]) else []
    else
      []
  }

  /**
   * Every run of the original graph has a run of the split graph that visits the same blocks with
   * the same PHI values and choices, and in between makes exactly the calls on the edges taken.
   */
  lemma {:induction false} RunsTogether(g0: Graph, g: Graph, mids: map<EdgeName, Id>, sem: Semantics,
                                        s0: State, s: State, n: nat)
    returns (m: nat)
    requires Splits(g0, g, mids) && Together(g0, g, s0, s)
    ensures Runnable(g0) && Runnable(g) && n <= m <= 2 * n
    ensures var ((a0, log0), (a, log)) := (Run(g0, sem, s0, n), Run(g, sem, s, m));
            Together(g0, g, a0, a) && log == Decorate(g, mids, log0)
  {
    hide Splits, ShapesOk, Together, CallItems;
    SplitShapes(g0, g, mids);
    SplitIsRunnable(g0, g);
    if n == 0 {
      return 0;
    }
    m := RunsTogether(g0, g, mids, sem, s0, s, n - 1);
    var k := StepsTogether(g0, g, mids, sem, s0, s, n - 1, m);
    m := m + k;
  }

  lemma StepsTogether(g0: Graph, g: Graph, mids: map<EdgeName, Id>, sem: Semantics,
                      s0: State, s: State, n: nat, m: nat)
    returns (k: nat)
    requires Splits(g0, g, mids) && ShapesOk(g0, g) && Runnable(g0) && Runnable(g)
    requires var ((a0, log0), (a, log)) := (Run(g0, sem, s0, n), Run(g, sem, s, m));
             Together(g0, g, a0, a) && log == Decorate(g, mids, log0)
    ensures 1 <= k <= 2
    ensures var ((a0, log0), (a, log)) := (Run(g0, sem, s0, n + 1), Run(g, sem, s, m + k));
            Together(g0, g, a0, a) && log == Decorate(g, mids, log0)
  {
    hide Splits, ShapesOk, Together, CallItems, Decorate, Step, Run, Runnable;
    var (a0, log0) := Run(g0, sem, s0, n);
    var (a, log) := Run(g, sem, s, m);
    RunMore(g0, sem, s0, n);
    RunMore(g, sem, s, m);
    if a0.Done? {
      BothDone(g0, g, a0, a);
      DoneStays(g0, sem);
      DoneStays(g, sem);
      assert log + [] == log && log0 + [] == log0;
      return 1;
    }
    StepTogether(g0, g, mids, sem, a0, a);
    var (_, items) := Step(g0, sem, a0);
    DecorateMore(g, mids, log0, items[0]);
    assert items == [items[0]];
    k := 1;
    if (a0.at, items[0].choice) in mids {
      RunMore(g, sem, s, m + 1);
      k := 2;
    }
  }

  lemma RunMore(g: Graph, sem: Semantics, s: State, n: nat)
    requires Runnable(g)
    ensures var (before, log) := Run(g, sem, s, n);
            var (after, items) := Step(g, sem, before);
            Run(g, sem, s, n + 1) == (after, log + items)
  {
  }

  lemma DoneStays(g: Graph, sem: Semantics)
    requires Runnable(g)
    ensures Step(g, sem, Done) == (Done, [])
  {
  }

  lemma DecorateMore(g: Graph, mids: map<EdgeName, Id>, log: seq<Item>, item: Item)
    ensures Decorate(g, mids, log + [item]) == Decorate(g, mids, log) + [item] + CallsAfter(g, mids, item)
  {
    assert (log + [item])[..|log|] == log;
  }

  lemma SplitShapes(g0: Graph, g: Graph, mids: map<EdgeName, Id>)
    requires Splits(g0, g, mids)
    ensures ShapesOk(g0, g)
  {
  }

  lemma BothDone(g0: Graph, g: Graph, s0: State, s: State)
    requires ShapesOk(g0, g) && Together(g0, g, s0, s) && s0.Done?
    ensures s.Done?
  {
  }

  ghost function Visits(log: seq<Item>): seq<Item> {
    if log == [] then []
    else Visits(log[..|log| - 1]) + if log[|log| - 1].Visit? then [log[|log| - 1]] else []
  }

  lemma VisitsMore(log: seq<Item>, item: Item)
    ensures Visits(log + [item]) == Visits(log) + if item.Visit? then [item] else []
  {
    assert (log + [item])[..|log|] == log;
  }

  /** Leaving the calls out gives back the original's visits. */
  lemma {:induction false} VisitsOfDecorated(g: Graph, mids: map<EdgeName, Id>, log: seq<Item>)
    requires forall item <- log :: item.Visit?
    ensures Visits(Decorate(g, mids, log)) == log
  {
    hide Visits, CallsAfter, Decorate;
    if log == [] {
      NoVisits(g, mids);
    } else {
      var rest, last := log[..|log| - 1], log[|log| - 1];
      assert log == rest + [last];
      VisitsOfDecorated(g, mids, rest);
      DecorateMore(g, mids, rest, last);
      var decorated, calls := Decorate(g, mids, rest), CallsAfter(g, mids, last);
      VisitsMore(decorated, last);
      NoVisitInCalls(g, mids, last);
      if calls == [] {
        assert decorated + [last] + calls == decorated + [last];
      } else {
        assert calls == [calls[0]] && calls[0] in calls;
        VisitsMore(decorated + [last], calls[0]);
        assert log + [] == log;
      }
    }
  }

  lemma NoVisits(g: Graph, mids: map<EdgeName, Id>)
    ensures Visits(Decorate(g, mids, [])) == []
  {
  }

  lemma NoVisitInCalls(g: Graph, mids: map<EdgeName, Id>, item: Item)
    ensures |CallsAfter(g, mids, item)| <= 1
    ensures forall call <- CallsAfter(g, mids, item) :: call.Covered?
  {
  }
}
