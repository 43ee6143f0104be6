/** Branch coverage: gives each edge out of a conditional branch or switch a block that reports it. */
module Coverage {
  import opened Options
  import opened ControlFlow
  import opened EdgeSplitting
  import opened SplitRuns

  /** Locations are 32-bit and wrap around. */
  const LOCATIONS: nat := 0x1_0000_0000

  /** Whether the instrumentation puts a block on the edge; the last edge of a switch never gets one. */
  ghost predicate Instruments(g: Graph, b: Id, i: nat) {
    && WellFormed(g) && b in g && i < |g[b].succs| && g[g[b].succs[i]].insertable
    && (g[b].kind.Branch? || (g[b].kind.Switch? && i + 1 < |g[b].succs|))
  }

  /** Each edge with a block has a number of its own. */
  ghost predicate Numbered(mids: map<EdgeName, Id>, number: map<EdgeName, nat>, drawn: nat) {
    && number.Keys == mids.Keys
    && (forall e <- number :: number[e] < drawn)
    && (forall e <- number, f <- number | number[e] == number[f] :: e == f)
  }

  ghost predicate Unused(number: map<EdgeName, nat>, n: nat) {
    forall e <- number :: number[e] != n
  }

  lemma NumberMore(mids: map<EdgeName, Id>, number: map<EdgeName, nat>, drawn: nat, e: EdgeName, mid: Id, n: nat)
    requires Numbered(mids, number, drawn) && e !in mids && n < drawn && Unused(number, n)
    ensures Numbered(mids[e := mid], number[e := n], drawn)
  {
  }

  lemma StillUnused(number: map<EdgeName, nat>, e: EdgeName, n: nat, other: nat)
    requires Unused(number, other) && n != other
    ensures Unused(number[e := n], other)
  {
  }

  lemma DrawMore(mids: map<EdgeName, Id>, number: map<EdgeName, nat>, drawn: nat, more: nat)
    requires Numbered(mids, number, drawn) && drawn <= more
    ensures Numbered(mids, number, more) && forall n | drawn <= n :: Unused(number, n)
  {
  }

  /** The switch's cases so far have blocks and the numbers from `d` on. */
  ghost predicate HaveBlocks(mids: map<EdgeName, Id>, number: map<EdgeName, nat>, b: Id, cases: seq<nat>,
                             made: seq<Id>, d: nat, before: map<EdgeName, Id>)
  {
    && |made| == |cases|
    && (forall e :: e in mids <==> e in before || (e.0 == b && e.1 in cases))
    && (forall j | 0 <= j < |cases| ::
          && (b, cases[j]) in mids && mids[(b, cases[j])] == made[j]
          && (b, cases[j]) in number && number[(b, cases[j])] == d + j)
  }

  lemma HaveMoreBlocks(mids: map<EdgeName, Id>, number: map<EdgeName, nat>, b: Id, cases: seq<nat>,
                       made: seq<Id>, d: nat, before: map<EdgeName, Id>, i: nat, mid: Id)
    requires HaveBlocks(mids, number, b, cases, made, d, before) && i !in cases
    ensures HaveBlocks(mids[(b, i) := mid], number[(b, i) := d + |cases|], b, cases + [i], made + [mid], d, before)
  {
    assert forall k | 0 <= k < |cases| :: cases[k] in cases;
  }

  class BranchCoverage {
    var blocks: Graph
    /** Names for new blocks. */
    var nextId: Id
    var loc: nat

    ghost const source: Graph
    ghost const start: nat
    /** How many locations have been used. */
    ghost var drawn: nat
    ghost var mids: map<EdgeName, Id>
    /** Which of the locations used is the edge's. */
    ghost var number: map<EdgeName, nat>

    ghost function Location(n: nat): nat {
      (start + n) % LOCATIONS
    }

    ghost function Locations(n: nat, count: nat): seq<nat> {
      seq<nat>(count, j requires 0 <= j => Location(n + j))
    }

    ghost predicate Valid()
      reads this
    {
      && Splits(source, blocks, mids)
      && (forall b <- blocks :: b < nextId)
      && loc == Location(drawn)
      && Numbered(mids, number, drawn)
    }

    /** What the edge's block calls. */
    ghost function CallOf(e: EdgeName): Option<Call>
      reads this`blocks, this`mids
    {
      if e in mids && mids[e] in blocks && blocks[mids[e]].Edge? then blocks[mids[e]].call else None
    }

    /** The edge's block reports the edge's location. */
    ghost predicate Reports(e: EdgeName)
      reads this
    {
      e in number && CallOf(e).Some? && CallOf(e).value.here == Location(number[e])
    }

    /** Edges that had a block before keep it, with its number and its call. */
    twostate predicate KeepsEdges()
      reads this
    {
      forall e <- old(mids) ::
        && e in mids && mids[e] == old(mids)[e] && CallOf(e) == old(CallOf(e))
        && (e in old(number) ==> e in number && number[e] == old(number)[e])
    }

    constructor (blocks: Graph, nextId: Id, loc: nat)
      requires WellFormed(blocks) && (forall b <- blocks :: b < nextId) && loc < LOCATIONS
      ensures Valid() && this.blocks == source == blocks && mids == map[] && drawn == 0
    {
      this.blocks, this.nextId, this.loc := blocks, nextId, loc;
      source, start, drawn, mids, number := blocks, loc, 0, map[], map[];
      new;
      NothingSplit(blocks);
    }

    method NextLocation() returns (l: nat)
      requires loc == Location(drawn)
      modifies this`loc, this`drawn
      ensures l == Location(old(drawn)) && drawn == old(drawn) + 1 && loc == Location(drawn)
    {
      l := loc;
      loc := (loc + 1) % LOCATIONS;
      drawn := drawn + 1;
    }

    /** Makes a block in front of `to` and redirects one entry for `from` of each PHI node to it. */
    method BlockForEdge(from: Id, to: Id) returns (mid: Id)
      requires to in blocks && blocks[to].Original? && Paired(blocks[to].phis)
      requires forall b <- blocks :: b < nextId
      modifies this`blocks, this`nextId
      ensures mid == old(nextId) && nextId == mid + 1
      ensures blocks == WithEdgeBlock(old(blocks), from, to, mid)
      ensures forall b <- blocks :: b < nextId
    {
      hide FirstIndex;
      mid := nextId;
      nextId := nextId + 1;
      var phis, copies := blocks[to].phis, [];
      ghost var before := phis;
      for k := 0 to |phis|
        invariant |phis| == |before| && |copies| == k
        invariant forall j | 0 <= j < k :: phis[j] == RedirectPhi(before[j], from, mid, j)
        invariant forall j | 0 <= j < k :: copies[j] == Incoming(before[j], from)
        invariant forall j | k <= j < |phis| :: phis[j] == before[j]
      {
        var phi := phis[k];
        var index := FirstIndex(phi.blocks, from);
        if index.Some? {
          var j := index.value;
          copies := copies + [Some(phi.operands[j])];
          phis := phis[k := phi.(blocks := phi.blocks[j := mid], operands := phi.operands[j := Temp(mid, k)])];
        } else {
          copies := copies + [None];
        }
      }
      assert phis == RedirectPhis(before, from, mid) && copies == Copies(before, from);
      blocks := blocks[to := blocks[to].(phis := phis)];
      blocks := blocks[mid := Edge(copies, None, to)];
    }

    /** Puts a new block on an edge that has none. */
    method SplitEdge(from: Id, i: nat) returns (mid: Id)
      requires Splits(source, blocks, mids) && (forall b <- blocks :: b < nextId)
      requires from in source && i < |source[from].succs| && (from, i) !in mids
      modifies this`blocks, this`nextId, this`mids
      ensures Splits(source, blocks, mids) && (forall b <- blocks :: b < nextId)
      ensures mids == old(mids)[(from, i) := mid] && mid !in old(blocks)
      ensures mid in blocks && mid !in source && blocks[mid].Edge?
      ensures forall m <- old(blocks) | m !in source :: m in blocks && blocks[m] == old(blocks)[m]
    {
      hide Splits, FirstIndex, WellFormed, WithEdgeBlock, WithSuccessor, Split;
      StillDirect(source, blocks, mids, from, i);
      SplitShapes(source, blocks, mids);
      ghost var g := blocks;
      ghost var to := g[from].succs[i];
      EdgeBlockKeeps(source, g, from, to, nextId);
      SplitBlocks(source, g, from, i, to, nextId);
      SplitKeeps(source, g, mids, from, i, nextId);
      mid := BlockForEdge(from, blocks[from].succs[i]);
      SplitIs(g, from, i, mid);
      blocks := WithSuccessor(blocks, from, i, mid);
      mids := mids[(from, i) := mid];
    }

    method CreateCall(mid: Id, call: Call)
      requires Splits(source, blocks, mids) && mid in blocks && mid !in source && blocks[mid].Edge?
      modifies this`blocks
      ensures Splits(source, blocks, mids)
      ensures blocks == WithCall(old(blocks), mid, call)
    {
      CallKeeps(source, blocks, mids, mid, call);
      blocks := WithCall(blocks, mid, call);
    }

    /** Puts a block on the edge and gives the edge the `n`th location. */
    method NumberEdge(from: Id, i: nat, ghost n: nat) returns (mid: Id)
      requires Valid() && from in source && i < |source[from].succs| && (from, i) !in mids
      requires n < drawn && Unused(number, n)
      modifies this`blocks, this`nextId, this`mids, this`number
      ensures Valid() && KeepsEdges()
      ensures mids == old(mids)[(from, i) := mid] && number == old(number)[(from, i) := n]
      ensures mid in blocks && mid !in source && blocks[mid].Edge?
    {
      hide Splits, WellFormed, Numbered;
      MidsAreBlocks(source, blocks, mids);
      mid := SplitEdge(from, i);
      NumberMore(old(mids), number, drawn, (from, i), mid, n);
      number := number[(from, i) := n];
    }

    /** Whether the block can take a call: all but those that must start with a special instruction. */
    predicate ShouldInstrumentEdge(to: Id)
      requires to in blocks && blocks[to].Original?
      reads this`blocks
    {
      blocks[to].insertable
    }

    /** A direct edge of the current graph is the one the source has. */
    lemma CurrentEdge(b: Id, i: nat)
      requires Valid() && b in source && i < |source[b].succs| && (b, i) !in mids
      ensures b in blocks && blocks[b].Original? && |blocks[b].succs| == |source[b].succs|
      ensures blocks[b].succs[i] == source[b].succs[i] && WellFormed(source) && source[b].succs[i] in source
      ensures blocks[b].kind == source[b].kind
      ensures blocks[b].succs[i] in blocks && blocks[blocks[b].succs[i]].Original?
      ensures blocks[blocks[b].succs[i]].insertable == source[source[b].succs[i]].insertable
    {
      hide PhiOk, EdgeOk, WellFormedPhi, Paired;
      StillDirect(source, blocks, mids, b, i);
      SplitShapes(source, blocks, mids);
    }

    /** Gives each side of a conditional branch its own location; the call also names the other side's. */
    method InstrumentBranch(b: Id)
      requires Valid() && b in source && source[b].kind.Branch?
      requires forall e <- mids :: e.0 != b
      modifies this
      ensures Valid() && KeepsEdges() && drawn == old(drawn) + 2
      ensures forall e :: e in mids <==> e in old(mids) || (e.0 == b && Instruments(source, b, e.1))
      ensures var (l0, l1) := (Location(old(drawn)), Location(old(drawn) + 1));
              && ((b, 0) in mids ==>
                    (b, 0) in number && number[(b, 0)] == old(drawn) && CallOf((b, 0)) == Some(CoverBranch(l0, l1)))
              && ((b, 1) in mids ==>
                    (b, 1) in number && number[(b, 1)] == old(drawn) + 1 && CallOf((b, 1)) == Some(CoverBranch(l1, l0)))
    {
      hide Splits, WellFormed, Location, Numbered, Unused, CallOf;
      BranchHasTwoSides(b);
      ghost var d := drawn;
      DrawMore(mids, number, d, d + 2);
      var l0 := NextLocation();
      var l1 := NextLocation();
      StillUnused(number, (b, 0), d, d + 1);
      CoverSide(b, 0, CoverBranch(l0, l1), d);
      CoverSide(b, 1, CoverBranch(l1, l0), d + 1);
    }

    /** Instruments one side of a branch, if its target can be instrumented. */
    method CoverSide(b: Id, i: nat, call: Call, ghost n: nat)
      requires Valid() && b in source && source[b].kind.Branch? && i < |source[b].succs| && (b, i) !in mids
      requires n < drawn && Unused(number, n)
      modifies this`blocks, this`nextId, this`mids, this`number
      ensures Valid() && KeepsEdges()
      ensures mids.Keys == old(mids).Keys + if Instruments(source, b, i) then {(b, i)} else {}
      ensures number == if Instruments(source, b, i) then old(number)[(b, i) := n] else old(number)
      ensures Instruments(source, b, i) ==> CallOf((b, i)) == Some(call)
    {
      hide Splits, WellFormed, Location, Numbered, Unused, CallOf;
      CurrentEdge(b, i);
      if ShouldInstrumentEdge(blocks[b].succs[i]) {
        CoverEdge(b, i, call, n);
      }
    }

    lemma BranchHasTwoSides(b: Id)
      requires Valid() && b in source && source[b].kind.Branch?
      ensures |source[b].succs| == 2
    {
      hide PhiOk, EdgeOk, WellFormedPhi, Paired;
    }

    method CoverEdge(from: Id, i: nat, call: Call, ghost n: nat)
      requires Valid() && from in source && i < |source[from].succs| && (from, i) !in mids
      requires n < drawn && Unused(number, n)
      modifies this`blocks, this`nextId, this`mids, this`number
      ensures Valid() && KeepsEdges()
      ensures mids.Keys == old(mids).Keys + {(from, i)} && number == old(number)[(from, i) := n]
      ensures CallOf((from, i)) == Some(call)
    {
      hide Splits, WellFormed, Location, Numbered;
      var mid := NumberEdge(from, i, n);
      OwnBlock((from, i));
      CreateCall(mid, call);
    }

    /** Gives each instrumented case of a switch a location; every call also names the whole list. */
    method InstrumentSwitch(b: Id)
      requires Valid() && b in source && source[b].kind.Switch?
      requires forall e <- mids :: e.0 != b
      modifies this
      ensures Valid() && KeepsEdges()
      ensures forall e :: e in mids <==> e in old(mids) || (e.0 == b && Instruments(source, b, e.1))
      ensures var cases := Indexes(source, b, |source[b].succs|);
              && drawn == old(drawn) + |cases|
              && forall j | 0 <= j < |cases| ::
                   && (b, cases[j]) in number && number[(b, cases[j])] == old(drawn) + j
                   && CallOf((b, cases[j])) ==
                      Some(CoverSwitch(Location(old(drawn) + j), Locations(old(drawn), |cases|)))
    {
      hide Splits, WellFormed, Location, Numbered, CallOf, Locations, Indexes, Instruments;
      SwitchHasDefault(b);
      ghost var n := |source[b].succs|;
      ghost var cases := Indexes(source, b, n);
      LastCaseIsLeftOut(source, b);
      IndexesAre(source, b, n);
      var locs, made := SplitCases(b);
      LocationsAre(old(drawn), |cases|);
      CallCases(b, cases, locs, made);
    }

    lemma SwitchHasDefault(b: Id)
      requires Valid() && b in source && source[b].kind.Switch?
      ensures source[b].Original? && |source[b].succs| >= 1
    {
      hide PhiOk, EdgeOk, WellFormedPhi, Paired;
    }

    lemma LocationsAre(d: nat, n: nat)
      ensures |Locations(d, n)| == n && forall j | 0 <= j < n :: Locations(d, n)[j] == Location(d + j)
    {
    }

    /** Puts a block on one case's edge. */
    method SplitCase(b: Id, i: nat, ghost cases: seq<nat>, ghost made: seq<Id>, ghost d: nat,
                     ghost before: map<EdgeName, Id>)
      returns (mid: Id, l: nat)
      requires Valid() && b in source && i < |source[b].succs| && (b, i) !in mids && i !in cases
      requires HaveBlocks(mids, number, b, cases, made, d, before) && drawn == d + |cases|
      modifies this
      ensures Valid() && KeepsEdges()
      ensures HaveBlocks(mids, number, b, cases + [i], made + [mid], d, before)
      ensures drawn == d + |cases| + 1 && l == Location(d + |cases|)
    {
      hide Splits, WellFormed, Location, Numbered, CallOf, Unused, HaveBlocks;
      DrawMore(mids, number, drawn, drawn + 1);
      l := NextLocation();
      mid := NumberEdge(b, i, d + |cases|);
      HaveMoreBlocks(old(mids), old(number), b, cases, made, d, before, i, mid);
    }

    method SplitCases(b: Id) returns (locs: seq<nat>, made: seq<Id>)
      requires Valid() && b in source && source[b].kind.Switch? && |source[b].succs| >= 1
      requires forall e <- mids :: e.0 != b
      modifies this
      ensures Valid() && KeepsEdges()
      ensures var cases := Indexes(source, b, |source[b].succs| - 1);
              && HaveBlocks(mids, number, b, cases, made, old(drawn), old(mids))
              && drawn == old(drawn) + |cases| && locs == Locations(old(drawn), |cases|)
    {
      hide Splits, WellFormed, Location, Numbered, CallOf, Instruments, Unused, Indexes;
      locs, made := [], [];
      ghost var d, cases := drawn, [];
      CurrentEdge(b, 0);
      IndexesAre(source, b, 0);
      var n := |blocks[b].succs| - 1;
      for i := 0 to n
        invariant Valid() && KeepsEdges()
        invariant cases == Indexes(source, b, i) && forall k <- cases :: k < i
        invariant HaveBlocks(mids, number, b, cases, made, d, old(mids)) && drawn == d + |cases|
        invariant |locs| == |cases| && forall j | 0 <= j < |cases| :: locs[j] == Location(d + j)
      {
        CurrentEdge(b, i);
        CaseIs(source, b, i);
        if ShouldInstrumentEdge(blocks[b].succs[i]) {
          var mid, l := SplitCase(b, i, cases, made, d, old(mids));
          locs, made := locs + [l], made + [mid];
          cases := cases + [i];
        }
      }
    }

    /** Adds the calls, once all of the switch's locations are known. */
    method CallCases(b: Id, ghost cases: seq<nat>, locs: seq<nat>, made: seq<Id>)
      requires Valid() && |locs| == |made| == |cases|
      requires forall j, k | 0 <= j < k < |cases| :: cases[j] != cases[k]
      requires forall j | 0 <= j < |cases| :: (b, cases[j]) in mids && mids[(b, cases[j])] == made[j]
      modifies this`blocks
      ensures Valid()
      ensures forall e <- mids | e.0 != b :: CallOf(e) == old(CallOf(e))
      ensures forall j | 0 <= j < |cases| :: CallOf((b, cases[j])) == Some(CoverSwitch(locs[j], locs))
    {
      hide Splits, WellFormed, Location, Numbered;
      MidsAreBlocks(source, blocks, mids);
      OwnBlocks();
      for j := 0 to |made|
        invariant Splits(source, blocks, mids) && blocks.Keys == old(blocks).Keys
        invariant forall e <- mids :: blocks[mids[e]].Edge?
        invariant forall e <- mids | e.0 != b :: CallOf(e) == old(CallOf(e))
        invariant forall k | 0 <= k < j :: CallOf((b, cases[k])) == Some(CoverSwitch(locs[k], locs))
      {
        CreateCall(made[j], CoverSwitch(locs[j], locs));
      }
    }

    /** Every instrumented edge of the blocks done so far has a block that reports it. */
    ghost predicate Covers(done: set<Id>)
      reads this
    {
      && (forall e :: e in mids <==> e.0 in done && Instruments(source, e.0, e.1))
      && (forall e <- mids :: Reports(e))
    }

    method InstrumentNextBranch(b: Id, ghost done: set<Id>)
      requires Valid() && b in source && b !in done && Covers(done) && source[b].kind.Branch?
      modifies this
      ensures Valid() && Covers(done + {b})
    {
      hide Splits, WellFormed, Location, Numbered, CallOf;
      ghost var d := drawn;
      BranchHasTwoSides(b);
      InstrumentBranch(b);
      forall e <- mids ensures Reports(e) {
        if e in old(mids) {
          assert old(Reports(e));
        } else {
          assert e == (b, 0) || e == (b, 1);
        }
      }
    }

    method InstrumentNextSwitch(b: Id, ghost done: set<Id>)
      requires Valid() && b in source && b !in done && Covers(done) && source[b].kind.Switch?
      modifies this
      ensures Valid() && Covers(done + {b})
    {
      hide Splits, WellFormed, Location, Numbered, CallOf, Indexes, Locations;
      SwitchHasDefault(b);
      ghost var cases := Indexes(source, b, |source[b].succs|);
      IndexesAre(source, b, |source[b].succs|);
      InstrumentSwitch(b);
      forall e <- mids ensures Reports(e) {
        if e in old(mids) {
          assert old(Reports(e));
        } else {
          assert e.0 == b && e.1 in cases;
          var j :| 0 <= j < |cases| && cases[j] == e.1;
          assert e == (b, cases[j]);
        }
      }
    }

    /**
     * Instruments a function, given its blocks in order: first its branches, then its switches.
     * Afterwards exactly the edges to be instrumented have blocks, and each reports its location.
     */
    method InstrumentTrace(order: seq<Id>, naked: bool) returns (changed: bool)
      requires Valid() && mids == map[] && blocks == source
      requires forall b :: b in order <==> b in source
      requires forall i, j | 0 <= i < j < |order| :: order[i] != order[j]
      modifies this
      ensures changed == !naked && Valid()
      ensures naked ==> unchanged(this)
      ensures !naked ==> Covers(source.Keys)
    {
      hide Splits, WellFormed, Location, Numbered, CallOf, Instruments;
      if naked {
        return false;
      }
      AllOriginal();
      var branches, switches := Collect(order);
      ghost var done: set<Id> := {};
      NothingCovered();
      for i := 0 to |branches|
        invariant Valid() && Covers(done)
        invariant forall b :: b in done <==> b in branches[..i]
      {
        assert branches[i] in branches;
        InstrumentNextBranch(branches[i], done);
        done := done + {branches[i]};
      }
      for i := 0 to |switches|
        invariant Valid() && Covers(done)
        invariant forall b :: b in done <==> b in branches || b in switches[..i]
      {
        assert switches[i] in switches;
        InstrumentNextSwitch(switches[i], done);
        done := done + {switches[i]};
      }
      OthersHaveNone(done);
      changed := true;
    }

    /** The branches and the switches of the function, in order. */
    method Collect(order: seq<Id>) returns (branches: seq<Id>, switches: seq<Id>)
      requires blocks == source && (forall b <- source :: source[b].Original?) && (forall b <- order :: b in source)
      requires forall i, j | 0 <= i < j < |order| :: order[i] != order[j]
      ensures forall b :: b in branches <==> b in order && source[b].kind.Branch?
      ensures forall b :: b in switches <==> b in order && source[b].kind.Switch?
      ensures forall i, j | 0 <= i < j < |branches| :: branches[i] != branches[j]
      ensures forall i, j | 0 <= i < j < |switches| :: switches[i] != switches[j]
    {
      branches, switches := [], [];
      for i := 0 to |order|
        invariant forall b :: b in branches <==> b in order[..i] && source[b].kind.Branch?
        invariant forall b :: b in switches <==> b in order[..i] && source[b].kind.Switch?
        invariant forall i, j | 0 <= i < j < |branches| :: branches[i] != branches[j]
        invariant forall i, j | 0 <= i < j < |switches| :: switches[i] != switches[j]
      {
        if blocks[order[i]].kind.Branch? {
          branches := branches + [order[i]];
        } else if blocks[order[i]].kind.Switch? {
          switches := switches + [order[i]];
        }
      }
    }

    lemma AllOriginal()
      requires Valid()
      ensures forall b <- source :: source[b].Original?
    {
      hide PhiOk, EdgeOk, WellFormedPhi, Paired;
    }

    lemma NothingCovered()
      requires mids == map[]
      ensures Covers({})
    {
    }

    lemma OthersHaveNone(done: set<Id>)
      requires Valid() && Covers(done)
      requires forall b <- source | source[b].kind.Branch? || source[b].kind.Switch? :: b in done
      requires forall b <- done :: b in source
      ensures Covers(source.Keys)
    {
      hide Splits, Reports;
      forall e ensures e in mids <==> e.0 in source && Instruments(source, e.0, e.1) {
      }
    }

    /** As long as the 32-bit counter has not gone all the way round, no two edges report the same location. */
    lemma DistinctReports(e: EdgeName, f: EdgeName)
      requires Valid() && drawn <= LOCATIONS && e in mids && f in mids && e != f && Reports(e) && Reports(f)
      ensures CallOf(e).value.here != CallOf(f).value.here
    {
      hide Splits, CallOf, Location;
      var a, b := number[e], number[f];
      if a < b {
        NoWrap(start, a, b);
      } else {
        NoWrap(start, b, a);
      }
      assert Location(a) != Location(b) by {
        LocationIs(a);
        LocationIs(b);
      }
    }

    lemma LocationIs(n: nat)
      ensures Location(n) == (start + n) % LOCATIONS
    {
    }

    /** A traversed edge is followed by exactly one call, with the edge's location, if it is instrumented. */
    lemma OneReportPerEdge(b: Id, env: Env, i: nat)
      requires Valid() && Covers(source.Keys)
      ensures CallsAfter(blocks, mids, Visit(b, env, i)) ==
              if Instruments(source, b, i) then [Covered(CallOf((b, i)).value)] else []
      ensures Instruments(source, b, i) ==> Reports((b, i))
    {
      hide Splits, WellFormed;
      MidsAreBlocks(source, blocks, mids);
      if Instruments(source, b, i) {
        assert (b, i) in mids;
      } else {
        assert (b, i) !in mids;
      }
    }

    /**
     * Running the instrumented function visits the blocks of the original with the same PHI values
     * and choices, and in between makes exactly the calls on the edges taken.
     */
    lemma InstrumentedRun(sem: Semantics, entry: Id, env: Env, n: nat) returns (m: nat)
      requires Valid() && entry in source && source[entry].phis == []
      ensures Runnable(source) && Runnable(blocks) && n <= m <= 2 * n
      ensures var s := At(entry, entry, env, map[]);
              var ((_, log0), (_, log)) := (Run(source, sem, s, n), Run(blocks, sem, s, m));
              log == Decorate(blocks, mids, log0) && Visits(log) == log0
    {
      hide Splits, WellFormed, Run, Decorate, Visits, Together;
      SplitShapes(source, blocks, mids);
      var s := At(entry, entry, env, map[]);
      SameEntry(source, blocks, s);
      m := RunsTogether(source, blocks, mids, sem, s, s, n);
      AllOriginal();
      OnlyVisits(source, sem, s, n);
      VisitsOfDecorated(blocks, mids, Run(source, sem, s, n).1);
    }

    /** Every case of a switch is reported only if the last one cannot be instrumented: that one is left out. */
    lemma SwitchIsCoveredIff(b: Id)
      requires Valid() && Covers(source.Keys) && b in source && source[b].kind.Switch?
      ensures source[b].Original? && |source[b].succs| >= 1 && forall s <- source[b].succs :: s in source
      ensures var succs := source[b].succs;
              (forall i | 0 <= i < |succs| && source[succs[i]].insertable :: (b, i) in mids) <==>
              !source[succs[|succs| - 1]].insertable
    {
      hide PhiOk, EdgeOk, WellFormedPhi, Paired, Reports;
      var succs := source[b].succs;
      assert (b, |succs| - 1) !in mids;
      forall i | 0 <= i < |succs| - 1 && source[succs[i]].insertable ensures (b, i) in mids {
        assert Instruments(source, b, i);
      }
    }

    lemma OwnBlocks()
      requires Valid()
      ensures forall e <- mids, f <- mids | mids[e] == mids[f] :: e == f
    {
    }

    /** No other edge shares an edge's block. */
    lemma OwnBlock(e: EdgeName)
      requires Valid() && e in mids
      ensures forall f <- mids | f != e :: mids[f] != mids[e]
    {
    }
  }

  /** The first `n` edges out of the block that get one of their own. */
  ghost function Indexes(g: Graph, b: Id, n: nat): seq<nat> {
    if n == 0 then [] else Indexes(g, b, n - 1) + if Instruments(g, b, n - 1) then [n - 1] else []
  }

  lemma {:induction false} IndexesAre(g: Graph, b: Id, n: nat)
    ensures n == 0 ==> Indexes(g, b, n) == []
    ensures forall i: nat :: i in Indexes(g, b, n) <==> i < n && Instruments(g, b, i)
    ensures forall j, k | 0 <= j < k < |Indexes(g, b, n)| :: Indexes(g, b, n)[j] != Indexes(g, b, n)[k]
  {
    hide Instruments;
    if n > 0 {
      IndexesAre(g, b, n - 1);
      if Instruments(g, b, n - 1) {
        AddedLast(Indexes(g, b, n - 1), n - 1);
      } else {
        assert Indexes(g, b, n) == Indexes(g, b, n - 1);
      }
    }
  }

  lemma AddedLast(s: seq<nat>, n: nat)
    requires (forall j, k | 0 <= j < k < |s| :: s[j] != s[k]) && n !in s
    ensures forall j, k | 0 <= j < k < |s + [n]| :: (s + [n])[j] != (s + [n])[k]
    ensures forall i :: i in s + [n] <==> i in s || i == n
  {
    assert forall j | 0 <= j < |s| :: s[j] in s;
  }

  lemma LastCaseIsLeftOut(g: Graph, b: Id)
    requires b in g && g[b].Original? && g[b].kind.Switch? && |g[b].succs| >= 1
    ensures Indexes(g, b, |g[b].succs|) == Indexes(g, b, |g[b].succs| - 1)
    ensures forall i: nat :: Instruments(g, b, i) ==> i < |g[b].succs|
  {
  }

  lemma CaseIs(g: Graph, b: Id, i: nat)
    requires WellFormed(g) && b in g && g[b].kind.Switch? && i + 1 < |g[b].succs| && g[b].succs[i] in g
    ensures Indexes(g, b, i + 1) == Indexes(g, b, i) + if g[g[b].succs[i]].insertable then [i] else []
  {
  }

  lemma EdgeBlockKeeps(g0: Graph, g: Graph, from: Id, to: Id, mid: Id)
    requires ShapesOk(g0, g) && from in g0 && to in g0 && mid !in g
    ensures var h := WithEdgeBlock(g, from, to, mid);
            && h.Keys == g.Keys + {mid} && h[from].Original? && h[from].succs == g[from].succs
  {
    hide FirstIndex, WellFormed, Incoming, RedirectPhi;
  }

  lemma SplitIs(g: Graph, from: Id, i: nat, mid: Id)
    requires from in g && g[from].Original? && i < |g[from].succs| && mid != from
    requires var to := g[from].succs[i]; to in g && g[to].Original? && Paired(g[to].phis)
    ensures WithEdgeBlock(g, from, g[from].succs[i], mid)[from].Original?
    ensures |WithEdgeBlock(g, from, g[from].succs[i], mid)[from].succs| == |g[from].succs|
    ensures Split(g, from, i, mid) == WithSuccessor(WithEdgeBlock(g, from, g[from].succs[i], mid), from, i, mid)
    ensures Split(g, from, i, mid).Keys == g.Keys + {mid}
  {
    hide FirstIndex, Incoming, RedirectPhi;
  }

  lemma NoWrap(s: nat, a: nat, b: nat)
    requires a < b < a + LOCATIONS
    ensures (s + a) % LOCATIONS != (s + b) % LOCATIONS
  {
    var p, q := (s + a) / LOCATIONS, (s + b) / LOCATIONS;
    assert s + a == p * LOCATIONS + (s + a) % LOCATIONS && s + b == q * LOCATIONS + (s + b) % LOCATIONS;
    assert p <= q <= p + 1;
  }

  lemma SameEntry(g0: Graph, g: Graph, s: State)
    requires ShapesOk(g0, g) && s.At? && s.at in g0 && g0[s.at].phis == []
    ensures Together(g0, g, s, s)
  {
    hide WellFormed;
  }

  lemma {:induction false} OnlyVisits(g: Graph, sem: Semantics, s: State, n: nat)
    requires Runnable(g) && forall b <- g :: g[b].Original?
    ensures forall item <- Run(g, sem, s, n).1 :: item.Visit?
  {
    if n > 0 {
      OnlyVisits(g, sem, s, n - 1);
    }
  }
}
