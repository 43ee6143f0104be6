/** Putting blocks on edges, with the PHI nodes repaired, does not change what a graph computes. */
module EdgeSplitting {
  import opened Options
  import opened ControlFlow

  type EdgeName = (Id, nat)

  // ---------------------------------------------------------------- splitting one edge

  /** Redirects the first entry for `from`, if there is one, to the edge block. */
  function RedirectPhi(phi: Phi, from: Id, mid: Id, k: nat): Phi
    requires |phi.blocks| == |phi.operands|
  {
    match FirstIndex(phi.blocks, from)
    case None => phi
    case Some(j) => phi.(blocks := phi.blocks[j := mid], operands := phi.operands[j := Temp(mid, k)])
  }

  function RedirectPhis(phis: seq<Phi>, from: Id, mid: Id): (r: seq<Phi>)
    requires Paired(phis)
    ensures |r| == |phis|
    ensures forall k | 0 <= k < |phis| :: r[k] == RedirectPhi(phis[k], from, mid, k)
  {
    seq(|phis|, k requires 0 <= k < |phis| && Paired(phis) => RedirectPhi(phis[k], from, mid, k))
  }

  function Copies(phis: seq<Phi>, from: Id): (r: seq<Option<Operand>>)
    requires Paired(phis)
    ensures |r| == |phis|
    ensures forall k | 0 <= k < |phis| :: r[k] == Incoming(phis[k], from)
  {
    seq(|phis|, k requires 0 <= k < |phis| && Paired(phis) => Incoming(phis[k], from))
  }

  /** A new block in front of `to`, to be used on an edge from `from`. */
  function WithEdgeBlock(g: Graph, from: Id, to: Id, mid: Id): Graph
    requires to in g && g[to].Original? && Paired(g[to].phis)
  {
    var phis := g[to].phis;
    g[to := g[to].(phis := RedirectPhis(phis, from, mid))][mid := Edge(Copies(phis, from), None, to)]
  }

  function WithSuccessor(g: Graph, from: Id, i: nat, to: Id): Graph
    requires from in g && g[from].Original? && i < |g[from].succs|
  {
    g[from := g[from].(succs := g[from].succs[i := to])]
  }

  function WithCall(g: Graph, mid: Id, call: Call): Graph
    requires mid in g && g[mid].Edge?
  {
    g[mid := g[mid].(call := Some(call))]
  }

  // ---------------------------------------------------------------- what splitting keeps

  ghost predicate ShapeOk(a: Block, b: Block) {
    && a.Original? && b.Original? && a.insertable == b.insertable && a.kind == b.kind
    && |a.succs| == |b.succs| && |a.phis| == |b.phis| && Paired(a.phis) && Paired(b.phis)
  }

  /** Each entry is as it was or comes from an edge block. */
  ghost predicate EntriesOk(g0: Graph, p0: Phi, p: Phi, k: nat) {
    && p.dest == p0.dest && |p.blocks| == |p.operands| == |p0.blocks| == |p0.operands|
    && (forall j | 0 <= j < |p.blocks| ::
          if p.blocks[j] in g0
          then p.blocks[j] == p0.blocks[j] && p.operands[j] == p0.operands[j]
          else p.operands[j] == Temp(p.blocks[j], k))
  }

  /** There is an entry for each direct edge to the PHI node's block. */
  ghost predicate CountsOk(g0: Graph, g: Graph, t: Id, p: Phi)
    requires forall b <- g0 :: b in g && g[b].Original?
  {
    forall b <- g0 :: multiset(p.blocks)[b] == multiset(g[b].succs)[t]
  }

  ghost predicate PhiOk(g0: Graph, g: Graph, t: Id, k: nat)
    requires forall b <- g0 :: b in g && g0[b].Original? && g[b].Original?
    requires t in g0 && k < |g0[t].phis| == |g[t].phis|
  {
    EntriesOk(g0, g0[t].phis[k], g[t].phis[k], k) && CountsOk(g0, g, t, g[t].phis[k])
  }

  /** The block `m` leads on to `t` and hands its PHI nodes what `b` would have. */
  ghost predicate Forwards(g0: Graph, g: Graph, b: Id, t: Id, m: Id)
    requires t in g0 && t in g && g0[t].Original? && g[t].Original? && |g0[t].phis| == |g[t].phis| && Paired(g0[t].phis)
  {
    && m !in g0 && m in g && g[m].Edge? && g[m].to == t && |g[m].copies| == |g[t].phis|
    && forall k | 0 <= k < |g[t].phis| ::
         g[m].copies[k] == Incoming(g0[t].phis[k], b) && m in g[t].phis[k].blocks
  }

  ghost predicate ShapesOk(g0: Graph, g: Graph) {
    && WellFormed(g0)
    && (forall b <- g0 :: b in g && ShapeOk(g0[b], g[b]))
    && (forall b <- g | b !in g0 :: g[b].Edge?)
  }

  ghost predicate EdgeOk(g0: Graph, g: Graph, mids: map<EdgeName, Id>, b: Id, i: nat)
    requires ShapesOk(g0, g) && b in g0 && i < |g0[b].succs|
  {
    var t := g0[b].succs[i];
    if (b, i) in mids
    then g[b].succs[i] == mids[(b, i)] && Forwards(g0, g, b, t, mids[(b, i)])
    else g[b].succs[i] == t
  }

  /** `g` is `g0` with blocks put on the edges that `mids` names. */
  ghost predicate Splits(g0: Graph, g: Graph, mids: map<EdgeName, Id>) {
    && ShapesOk(g0, g)
    && (forall b, i | b in g0 && 0 <= i < |g0[b].succs| :: EdgeOk(g0, g, mids, b, i))
    && (forall t, k | t in g0 && 0 <= k < |g0[t].phis| :: PhiOk(g0, g, t, k))
    && (forall e <- mids :: e.0 in g0 && e.1 < |g0[e.0].succs|)
    && (forall e <- mids, f <- mids | mids[e] == mids[f] :: e == f)
  }

  /** A well-formed graph is itself split on no edge. */
  lemma NothingSplit(g: Graph)
    requires WellFormed(g)
    ensures Splits(g, g, map[])
  {
    forall b <- g ensures ShapeOk(g[b], g[b]) {
      PhisArePaired(g, b);
    }
    forall t, k | t in g && 0 <= k < |g[t].phis| ensures PhiOk(g, g, t, k) {
      assert WellFormedPhi(g, t, g[t].phis[k]);
    }
  }

  lemma PhisArePaired(g: Graph, t: Id)
    requires WellFormed(g) && t in g
    ensures Paired(g[t].phis)
  {
    forall k | 0 <= k < |g[t].phis| ensures |g[t].phis[k].blocks| == |g[t].phis[k].operands| {
      assert WellFormedPhi(g, t, g[t].phis[k]);
    }
  }

  /** Entries that are as they were give the operand they gave. */
  lemma SameIncoming(p0: Phi, p: Phi, b: Id)
    requires |p.blocks| == |p.operands| == |p0.blocks| == |p0.operands| && b in p.blocks
    requires forall j | 0 <= j < |p.blocks| && p.blocks[j] == b ::
      p0.blocks[j] == b && p.operands[j] == p0.operands[j]
    requires forall i, j | 0 <= i < |p0.blocks| && 0 <= j < |p0.blocks| && p0.blocks[i] == p0.blocks[j] ::
      p0.operands[i] == p0.operands[j]
    ensures b in p0.blocks && Incoming(p, b) == Incoming(p0, b) && Incoming(p0, b).Some?
  {
    var j := FirstIndex(p.blocks, b).value;
    assert p0.blocks[j] == b;
  }

  /** While a direct edge remains, the PHI nodes it leads to still get the original operand for it. */
  lemma DirectOperand(g0: Graph, g: Graph, b: Id, t: Id, k: nat)
    requires ShapesOk(g0, g) && b in g0 && t in g0 && t in g[b].succs
    requires k < |g0[t].phis| && PhiOk(g0, g, t, k)
    ensures var (p0, p) := (g0[t].phis[k], g[t].phis[k]);
            && b in p.blocks && Incoming(p, b) == Incoming(p0, b)
            && Incoming(p0, b).Some? && Incoming(p0, b).value.Value?
  {
    hide FirstIndex;
    var p0, p := g0[t].phis[k], g[t].phis[k];
    assert multiset(p.blocks)[b] > 0;
    assert WellFormedPhi(g0, t, p0);
    SameIncoming(p0, p, b);
    var j := FirstIndex(p0.blocks, b).value;
    assert p0.operands[j].Value?;
  }

  // ---------------------------------------------------------------- splitting keeps it

  /** The graph after putting the block `mid` on the `i`th edge out of `from`. */
  function Split(g: Graph, from: Id, i: nat, mid: Id): Graph
    requires from in g && g[from].Original? && i < |g[from].succs|
    requires var to := g[from].succs[i]; to in g && g[to].Original? && Paired(g[to].phis)
    requires mid != from
  {
    WithSuccessor(WithEdgeBlock(g, from, g[from].succs[i], mid), from, i, mid)
  }

  ghost predicate CanSplit(g0: Graph, g: Graph, mids: map<EdgeName, Id>, from: Id, i: nat, mid: Id) {
    && Splits(g0, g, mids) && from in g0 && i < |g0[from].succs| && (from, i) !in mids && mid !in g
    && g0[from].succs[i] in g0 && g[from].succs[i] == g0[from].succs[i]
  }

  lemma RedirectKeepsPairs(phis: seq<Phi>, from: Id, mid: Id)
    requires Paired(phis)
    ensures Paired(RedirectPhis(phis, from, mid))
  {
    hide FirstIndex;
  }

  /** What a split changes, block by block. */
  lemma SplitBlocks(g0: Graph, g: Graph, from: Id, i: nat, to: Id, mid: Id)
    requires ShapesOk(g0, g) && from in g0 && to in g0 && i < |g0[from].succs| && g[from].succs[i] == to && mid !in g
    ensures var h := Split(g, from, i, mid);
            && ShapesOk(g0, h)
            && h[from].succs == g[from].succs[i := mid]
            && h[to].phis == RedirectPhis(g[to].phis, from, mid)
            && mid in h && h[mid] == Edge(Copies(g[to].phis, from), None, to)
            && (forall b <- g0 | b != from :: h[b].succs == g[b].succs)
            && (forall b <- g0 | b != to :: h[b].phis == g[b].phis)
            && (forall m <- g | m !in g0 :: m in h && h[m] == g[m])
  {
    hide FirstIndex, WellFormed, RedirectPhi, Paired, Incoming, RedirectPhis, Copies;
    RedirectKeepsPairs(g[to].phis, from, mid);
    var h := Split(g, from, i, mid);
    forall b <- h ensures b in g0 ==> ShapeOk(g0[b], h[b]) {
      assert b in g0 ==> ShapeOk(g0[b], g[b]);
    }
  }

  lemma ReplacedCount(s: seq<Id>, i: nat, x: Id, y: Id)
    requires i < |s|
    ensures multiset(s[i := x])[y] == multiset(s)[y] + (if x == y then 1 else 0) - (if s[i] == y then 1 else 0)
  {
    assert s[i] in multiset(s);
  }

  lemma RedirectedEntries(g0: Graph, p0: Phi, p: Phi, from: Id, mid: Id, k: nat)
    requires EntriesOk(g0, p0, p, k) && mid !in g0
    ensures EntriesOk(g0, p0, RedirectPhi(p, from, mid, k), k)
  {
    hide FirstIndex;
  }

  lemma RedirectedCounts(g0: Graph, g: Graph, h: Graph, from: Id, i: nat, t: Id, p: Phi, q: Phi, mid: Id)
    requires ShapesOk(g0, g) && ShapesOk(g0, h) && from in g0 && i < |g[from].succs| && mid !in g0 && t in g0
    requires h[from].succs == g[from].succs[i := mid]
    requires forall b <- g0 | b != from :: h[b].succs == g[b].succs
    requires CountsOk(g0, g, t, p)
    requires if g[from].succs[i] == t
             then exists j :: 0 <= j < |p.blocks| && p.blocks[j] == from && q.blocks == p.blocks[j := mid]
             else q == p
    ensures CountsOk(g0, h, t, q)
  {
    hide FirstIndex, WellFormed;
    var succs := g[from].succs;
    ReplacedCount(succs, i, mid, t);
    if succs[i] == t {
      var j :| 0 <= j < |p.blocks| && p.blocks[j] == from && q.blocks == p.blocks[j := mid];
      forall b <- g0 ensures multiset(q.blocks)[b] == multiset(h[b].succs)[t] {
        ReplacedCount(p.blocks, j, mid, b);
      }
    }
  }

  /** Redirecting one entry keeps a PHI node in step with the edges. */
  lemma RedirectedPhiOk(g0: Graph, g: Graph, h: Graph, from: Id, i: nat, t: Id, k: nat, mid: Id)
    requires ShapesOk(g0, g) && ShapesOk(g0, h) && from in g0 && i < |g0[from].succs| && mid !in g0
    requires t in g0 && k < |g0[t].phis| && PhiOk(g0, g, t, k)
    requires h[from].succs == g[from].succs[i := mid]
    requires forall b <- g0 | b != from :: h[b].succs == g[b].succs
    requires h[t].phis[k] == if g[from].succs[i] == t then RedirectPhi(g[t].phis[k], from, mid, k) else g[t].phis[k]
    ensures PhiOk(g0, h, t, k)
  {
    hide FirstIndex, WellFormed, EntriesOk, CountsOk;
    var p0, p := g0[t].phis[k], g[t].phis[k];
    if g[from].succs[i] == t {
      DirectOperand(g0, g, from, t, k);
      RedirectedEntries(g0, p0, p, from, mid, k);
      var j := FirstIndex(p.blocks, from).value;
      assert h[t].phis[k].blocks == p.blocks[j := mid];
    }
    RedirectedCounts(g0, g, h, from, i, t, p, h[t].phis[k], mid);
  }

  /** The new block hands on what the PHI nodes used to get over its edge. */
  lemma NewForwards(g0: Graph, g: Graph, from: Id, i: nat, to: Id, mid: Id)
    requires ShapesOk(g0, g) && from in g0 && to in g0 && i < |g0[from].succs| && g[from].succs[i] == to && mid !in g
    requires forall k | 0 <= k < |g0[to].phis| :: PhiOk(g0, g, to, k)
    ensures ShapesOk(g0, Split(g, from, i, mid)) && Forwards(g0, Split(g, from, i, mid), from, to, mid)
  {
    hide FirstIndex, WellFormed, PhiOk, Split;
    var h := Split(g, from, i, mid);
    SplitBlocks(g0, g, from, i, to, mid);
    forall k | 0 <= k < |g[to].phis|
      ensures h[mid].copies[k] == Incoming(g0[to].phis[k], from) && mid in h[to].phis[k].blocks
    {
      DirectOperand(g0, g, from, to, k);
      var j := FirstIndex(g[to].phis[k].blocks, from).value;
      assert h[to].phis[k].blocks[j] == mid;
    }
  }

  /** Blocks already on edges keep working. */
  lemma OldForwards(g0: Graph, g: Graph, from: Id, i: nat, to: Id, mid: Id, b: Id, t: Id, m: Id)
    requires ShapesOk(g0, g) && from in g0 && to in g0 && i < |g0[from].succs| && g[from].succs[i] == to && mid !in g
    requires t in g0 && Forwards(g0, g, b, t, m)
    ensures ShapesOk(g0, Split(g, from, i, mid)) && Forwards(g0, Split(g, from, i, mid), b, t, m)
  {
    hide FirstIndex, WellFormed, Split;
    var h := Split(g, from, i, mid);
    SplitBlocks(g0, g, from, i, to, mid);
    if t == to {
      forall k | 0 <= k < |g[t].phis| ensures m in h[t].phis[k].blocks {
        var j :| 0 <= j < |g[t].phis[k].blocks| && g[t].phis[k].blocks[j] == m;
        assert h[t].phis[k].blocks[j] == m;
      }
    }
  }

  lemma MidsAreBlocks(g0: Graph, g: Graph, mids: map<EdgeName, Id>)
    requires Splits(g0, g, mids)
    ensures forall e <- mids :: mids[e] in g && mids[e] !in g0 && g[mids[e]].Edge?
  {
    hide WellFormed, PhiOk, Paired;
    forall e <- mids ensures mids[e] in g && mids[e] !in g0 && g[mids[e]].Edge? {
      assert EdgeOk(g0, g, mids, e.0, e.1);
    }
  }

  lemma SplitEdgesOk(g0: Graph, g: Graph, mids: map<EdgeName, Id>, from: Id, i: nat, mid: Id, b: Id, j: nat)
    requires CanSplit(g0, g, mids, from, i, mid) && b in g0 && j < |g0[b].succs|
    ensures ShapesOk(g0, Split(g, from, i, mid))
    ensures EdgeOk(g0, Split(g, from, i, mid), mids[(from, i) := mid], b, j)
  {
    hide FirstIndex, WellFormedPhi, PhiOk, Split, Forwards, Paired;
    var to := g0[from].succs[i];
    SplitBlocks(g0, g, from, i, to, mid);
    NewForwards(g0, g, from, i, to, mid);
    assert EdgeOk(g0, g, mids, b, j);
    if (b, j) in mids {
      OldForwards(g0, g, from, i, to, mid, b, g0[b].succs[j], mids[(b, j)]);
    }
  }

  /** Splitting an edge that has no block yet keeps the invariant. */
  lemma SplitKeeps(g0: Graph, g: Graph, mids: map<EdgeName, Id>, from: Id, i: nat, mid: Id)
    requires CanSplit(g0, g, mids, from, i, mid)
    ensures Splits(g0, Split(g, from, i, mid), mids[(from, i) := mid])
  {
    hide FirstIndex, WellFormedPhi, PhiOk, Split, Forwards, Paired, EdgeOk;
    var h, to, mids' := Split(g, from, i, mid), g0[from].succs[i], mids[(from, i) := mid];
    SplitBlocks(g0, g, from, i, to, mid);
    MidsAreBlocks(g0, g, mids);
    forall b, j | b in g0 && 0 <= j < |g0[b].succs| ensures EdgeOk(g0, h, mids', b, j) {
      SplitEdgesOk(g0, g, mids, from, i, mid, b, j);
    }
    forall t, k | t in g0 && 0 <= k < |g0[t].phis| ensures PhiOk(g0, h, t, k) {
      RedirectedPhiOk(g0, g, h, from, i, t, k, mid);
    }
  }

  lemma StillDirect(g0: Graph, g: Graph, mids: map<EdgeName, Id>, from: Id, i: nat)
    requires Splits(g0, g, mids) && from in g0 && i < |g0[from].succs| && (from, i) !in mids
    ensures g0[from].succs[i] in g0 && g[from].succs[i] == g0[from].succs[i]
  {
    hide WellFormedPhi, PhiOk, Forwards, Paired;
    assert EdgeOk(g0, g, mids, from, i);
  }

  lemma CallForwards(g0: Graph, g: Graph, h: Graph, b: Id, t: Id, m: Id)
    requires t in g0 && t in g && t in h && g0[t].Original? && g[t].Original? && |g0[t].phis| == |g[t].phis|
    requires Paired(g0[t].phis) && h[t] == g[t] && Forwards(g0, g, b, t, m)
    requires m in h && h[m].Edge? && h[m].to == g[m].to && h[m].copies == g[m].copies
    ensures Forwards(g0, h, b, t, m)
  {
  }

  /** What an edge block calls makes no difference to where it leads. */
  lemma CallKeeps(g0: Graph, g: Graph, mids: map<EdgeName, Id>, mid: Id, call: Call)
    requires Splits(g0, g, mids) && mid in g && mid !in g0
    ensures Splits(g0, WithCall(g, mid, call), mids)
  {
    hide FirstIndex, WellFormedPhi, EntriesOk, Incoming, Paired, Forwards;
    var h := WithCall(g, mid, call);
    assert forall b <- g0 :: h[b] == g[b];
    MidsAreBlocks(g0, g, mids);
    forall b, j | b in g0 && 0 <= j < |g0[b].succs| ensures EdgeOk(g0, h, mids, b, j) {
      assert EdgeOk(g0, g, mids, b, j);
      if (b, j) in mids {
        CallForwards(g0, g, h, b, g0[b].succs[j], mids[(b, j)]);
      }
    }
    forall t, k | t in g0 && 0 <= k < |g0[t].phis| ensures PhiOk(g0, h, t, k) {
      assert PhiOk(g0, g, t, k);
    }
  }
}
