/** Lists of extents that tile an address space, and taking an interval out of such a list. */
module Tiling {
  import opened Options
  import opened Pages
  import opened MappedRanges

  // ---------------------------------------------------------------- tilings

  ghost predicate AllProper(vs: seq<Extent>) {
    forall v <- vs :: v.Proper()
  }

  /** Sorted by address, and pairwise disjoint. */
  ghost predicate Ordered(vs: seq<Extent>) {
    forall i, j | 0 <= i < j < |vs| :: vs[i].limit <= vs[j].base
  }

  /** Pairwise disjoint, in any order. */
  ghost predicate Disjoint(vs: seq<Extent>) {
    forall i, j | 0 <= i < j < |vs| :: vs[i].limit <= vs[j].base || vs[j].limit <= vs[i].base
  }

  /** An extent of the list holds address `a`, and a read there finds `x`. */
  ghost predicate Holds(vs: seq<Extent>, a: nat, x: Option<Byte>)
    requires AllProper(vs)
  {
    exists v <- vs :: v.Contains(a) && v.ByteAt(a) == x
  }

  ghost predicate Covered(vs: seq<Extent>, a: nat) {
    exists v <- vs :: v.Contains(a)
  }

  ghost predicate CoversExactly(vs: seq<Extent>, top: nat) {
    forall a: nat :: Covered(vs, a) <==> a < top
  }

  /** The list is sorted, disjoint and covers exactly [0, top). */
  ghost predicate Tiled(vs: seq<Extent>, top: nat) {
    AllProper(vs) && Ordered(vs) && CoversExactly(vs, top)
  }

  /** As `Tiled`, but in any order: sorting by base makes it a tiling. */
  ghost predicate TiledInAnyOrder(vs: seq<Extent>, top: nat) {
    AllProper(vs) && Disjoint(vs) && CoversExactly(vs, top)
  }

  // ---------------------------------------------------------------- memory as a map

  /** The plain address-to-byte map that a list of extents stands for. */
  ghost function Memory(vs: seq<Extent>): map<nat, Byte>
    requires AllProper(vs)
  {
    map a | a in Domain(vs) :: ByteIn(vs, a)
  }

  ghost function Domain(vs: seq<Extent>): set<nat> {
    set v, a | v in vs && v.valid && v.base <= a < v.limit && v.Contains(a) :: a
  }

  ghost function ByteIn(vs: seq<Extent>, a: nat): Byte
    requires AllProper(vs) && a in Domain(vs)
  {
    var v :| v in vs && v.valid && v.Contains(a);
    v.bytes[a - v.base]
  }

  /** In a disjoint list, an address is in at most one extent. */
  lemma UniqueAt(vs: seq<Extent>, v: Extent, w: Extent, a: nat)
    requires AllProper(vs) && Disjoint(vs) && v in vs && w in vs && v.Contains(a) && w.Contains(a)
    ensures v == w
  {
    var i :| 0 <= i < |vs| && vs[i] == v;
    var j :| 0 <= j < |vs| && vs[j] == w;
  }

  lemma HoldsIs(vs: seq<Extent>, v: Extent, a: nat, x: Option<Byte>)
    requires AllProper(vs) && Disjoint(vs) && v in vs && v.Contains(a)
    ensures Holds(vs, a, x) <==> v.ByteAt(a) == x
  {
    if Holds(vs, a, x) {
      var w :| w in vs && w.Contains(a) && w.ByteAt(a) == x;
      UniqueAt(vs, v, w, a);
    }
  }

  /** The map says exactly what the extents hold. */
  lemma MemoryHolds(vs: seq<Extent>, a: nat)
    requires AllProper(vs) && Disjoint(vs)
    ensures a in Memory(vs) <==> exists b: Byte :: Holds(vs, a, Some(b))
    ensures a in Memory(vs) ==> forall b: Byte :: Holds(vs, a, Some(b)) <==> b == Memory(vs)[a]
  {
    hide Disjoint;
    if a in Domain(vs) {
      var v :| v in vs && v.valid && v.Contains(a) && Memory(vs)[a] == v.bytes[a - v.base];
      forall b: Byte ensures Holds(vs, a, Some(b)) <==> b == Memory(vs)[a] {
        HoldsIs(vs, v, a, Some(b));
      }
      assert Holds(vs, a, Some(Memory(vs)[a]));
    }
  }

  /** Two lists that hold the same bytes everywhere stand for the same map. */
  lemma SameHoldsSameMemory(vs: seq<Extent>, ws: seq<Extent>)
    requires AllProper(vs) && Disjoint(vs) && AllProper(ws) && Disjoint(ws)
    requires forall a: nat, b: Byte :: Holds(vs, a, Some(b)) <==> Holds(ws, a, Some(b))
    ensures Memory(vs) == Memory(ws)
  {
    hide Holds, Memory, Disjoint, AllProper;
    forall a: nat
      ensures a in Memory(vs) <==> a in Memory(ws)
      ensures a in Memory(vs) ==> Memory(vs)[a] == Memory(ws)[a]
    {
      MemoryHolds(vs, a);
      MemoryHolds(ws, a);
    }
  }

  // ---------------------------------------------------------------- removing an interval

  /** The copy of part of an extent; a range that ends before it starts has no bytes. */
  function Cut(v: Extent, lo: nat, hi: nat): Extent
    requires v.Proper()
  {
    if v.base <= lo <= hi <= v.limit then v.Slice(lo, hi) else Extent(lo, hi, v.valid, v.filePos, [])
  }

  /** What is kept of one map when [base, limit) is removed. */
  function Remainder(v: Extent, base: nat, limit: nat): seq<Extent>
    requires v.Proper()
  {
    if v.limit <= base || v.base >= limit then [v]
    else if v.base >= base && v.limit <= limit then []
    else if v.base < base && v.limit > limit then [Cut(v, v.base, base), Cut(v, limit, v.limit)]
    else if v.base == base then [Cut(v, limit, v.limit)]
    else [Cut(v, v.base, base)]
  }

  function RemoveRange(vs: seq<Extent>, base: nat, limit: nat): seq<Extent>
    requires forall i | 0 <= i < |vs| :: vs[i].Proper()
  {
    if vs == [] then []
    else RemoveRange(vs[..|vs| - 1], base, limit) + Remainder(vs[|vs| - 1], base, limit)
  }

  /** The map starts inside the interval and ends beyond it: no branch of `Remainder` is right for it. */
  predicate Straddles(v: Extent, base: nat, limit: nat) {
    base < v.base < limit < v.limit
  }

  ghost predicate NoStraddle(vs: seq<Extent>, base: nat, limit: nat) {
    forall v <- vs :: !Straddles(v, base, limit)
  }

  // ---------------------------------------------------------------- what removal keeps

  /** A piece of `v` that lies outside [base, limit) and agrees with `v`. */
  ghost predicate PieceOf(p: Extent, v: Extent, base: nat, limit: nat)
    requires v.Proper()
  {
    && p.Proper()
    && v.base <= p.base && p.limit <= v.limit
    && (p.limit <= base || limit <= p.base)
    && p.valid == v.valid && p.filePos == v.filePos
    && forall a: nat | p.Contains(a) :: p.ByteAt(a) == v.ByteAt(a)
  }

  lemma RemainderPieces(v: Extent, base: nat, limit: nat)
    requires v.Proper() && base < limit && !Straddles(v, base, limit)
    ensures Ordered(Remainder(v, base, limit))
    ensures forall p <- Remainder(v, base, limit) :: PieceOf(p, v, base, limit)
  {
  }

  lemma RemainderCovers(v: Extent, base: nat, limit: nat, a: nat)
    requires v.Proper() && base < limit && !Straddles(v, base, limit)
    requires v.Contains(a) && !(base <= a < limit)
    ensures Covered(Remainder(v, base, limit), a)
  {
    var ps := Remainder(v, base, limit);
    if v.limit <= base || v.base >= limit {
      assert ps[0].Contains(a);
    } else if v.base < base && v.limit > limit {
      assert ps[0].Contains(a) || ps[1].Contains(a);
    } else {
      assert ps[0].Contains(a);
    }
  }

  /** Every piece comes from one of the maps, and the pieces of a sorted list are sorted. */
  lemma {:induction false} RemovePieces(vs: seq<Extent>, base: nat, limit: nat)
    requires AllProper(vs) && Ordered(vs) && base < limit && NoStraddle(vs, base, limit)
    ensures Ordered(RemoveRange(vs, base, limit))
    ensures forall p <- RemoveRange(vs, base, limit) :: exists v <- vs :: PieceOf(p, v, base, limit)
  {
    hide Remainder, Straddles, PieceOf;
    if vs != [] {
      var n := |vs| - 1;
      var rest, last := vs[..n], vs[n];
      RemovePieces(rest, base, limit);
      RemainderPieces(last, base, limit);
      var left, right := RemoveRange(rest, base, limit), Remainder(last, base, limit);
      forall p, q | p in left && q in right ensures p.limit <= q.base {
        PiecesStayApart(rest, last, base, limit, p, q);
      }
      forall p <- left + right ensures exists v <- vs :: PieceOf(p, v, base, limit) {
        if p in left {
          var v :| v in rest && PieceOf(p, v, base, limit);
          assert v in vs;
        } else {
          assert PieceOf(p, last, base, limit);
        }
      }
    }
  }

  lemma PiecesStayApart(rest: seq<Extent>, last: Extent, base: nat, limit: nat, p: Extent, q: Extent)
    requires AllProper(rest + [last]) && Ordered(rest + [last])
    requires exists v <- rest :: PieceOf(p, v, base, limit)
    requires PieceOf(q, last, base, limit)
    ensures p.limit <= q.base
  {
    var v :| v in rest && PieceOf(p, v, base, limit);
    var i :| 0 <= i < |rest| && rest[i] == v;
    assert (rest + [last])[i].limit <= (rest + [last])[|rest|].base;
  }

  lemma {:induction false} RemoveCovers(vs: seq<Extent>, base: nat, limit: nat, v: Extent, a: nat)
    requires AllProper(vs) && base < limit && NoStraddle(vs, base, limit)
    requires v in vs && v.Contains(a) && !(base <= a < limit)
    ensures Covered(RemoveRange(vs, base, limit), a)
  {
    hide Remainder, Straddles;
    var n := |vs| - 1;
    var left, right := RemoveRange(vs[..n], base, limit), Remainder(vs[n], base, limit);
    if v == vs[n] {
      RemainderCovers(v, base, limit, a);
      var p :| p in right && p.Contains(a);
      assert p in left + right;
    } else {
      assert v in vs[..n];
      RemoveCovers(vs[..n], base, limit, v, a);
      var p :| p in left && p.Contains(a);
      assert p in left + right;
    }
  }

  lemma RemoveIsProper(vs: seq<Extent>, base: nat, limit: nat)
    requires AllProper(vs) && Ordered(vs) && base < limit && NoStraddle(vs, base, limit)
    ensures AllProper(RemoveRange(vs, base, limit))
  {
    hide RemoveRange, Straddles;
    RemovePieces(vs, base, limit);
  }

  /** Outside the interval nothing changes; inside it, nothing is left. */
  lemma RemoveHolds(vs: seq<Extent>, base: nat, limit: nat, a: nat, x: Option<Byte>)
    requires AllProper(vs) && Ordered(vs) && base < limit && NoStraddle(vs, base, limit)
    requires AllProper(RemoveRange(vs, base, limit))
    ensures Holds(RemoveRange(vs, base, limit), a, x) <==> Holds(vs, a, x) && !(base <= a < limit)
  {
    hide RemoveRange, Straddles;
    RemovePieces(vs, base, limit);
    var ps := RemoveRange(vs, base, limit);
    if Holds(ps, a, x) {
      var p :| p in ps && p.Contains(a) && p.ByteAt(a) == x;
      var v :| v in vs && PieceOf(p, v, base, limit);
      assert v.Contains(a) && v.ByteAt(a) == x;
    }
    if Holds(vs, a, x) && !(base <= a < limit) {
      var v :| v in vs && v.Contains(a) && v.ByteAt(a) == x;
      RemoveCovers(vs, base, limit, v, a);
      var p :| p in ps && p.Contains(a);
      var w :| w in vs && PieceOf(p, w, base, limit);
      UniqueAt(vs, v, w, a);
      assert p.ByteAt(a) == x;
    }
  }

  lemma NewIsApart(vs: seq<Extent>, new_: Extent)
    requires AllProper(vs) && Ordered(vs) && new_.Proper() && NoStraddle(vs, new_.base, new_.limit)
    ensures AllProper(RemoveRange(vs, new_.base, new_.limit) + [new_])
    ensures Disjoint(RemoveRange(vs, new_.base, new_.limit) + [new_])
  {
    hide RemoveRange, Straddles;
    RemovePieces(vs, new_.base, new_.limit);
    forall p <- RemoveRange(vs, new_.base, new_.limit)
      ensures p.limit <= new_.base || new_.limit <= p.base
    {
      var v :| v in vs && PieceOf(p, v, new_.base, new_.limit);
    }
  }

  /** The memory after laying one extent over it: its bytes if it is valid, nothing if it is not. */
  ghost function Overlay(memory: map<nat, Byte>, v: Extent): map<nat, Byte>
    requires v.Proper()
  {
    (memory - (set a | v.base <= a < v.limit && v.Contains(a))) +
    (if v.valid then map a | v.base <= a < v.limit && v.Contains(a) :: v.bytes[a - v.base] else map[])
  }

  lemma SpliceHolds(vs: seq<Extent>, new_: Extent, ws: seq<Extent>, a: nat, x: Option<Byte>)
    requires AllProper(vs) && Ordered(vs) && new_.Proper() && NoStraddle(vs, new_.base, new_.limit)
    requires AllProper(ws)
    requires forall v :: v in ws <==> v in RemoveRange(vs, new_.base, new_.limit) + [new_]
    ensures Holds(ws, a, x) <==> if new_.Contains(a) then x == new_.ByteAt(a) else Holds(vs, a, x)
  {
    hide RemoveRange, Straddles;
    var ps := RemoveRange(vs, new_.base, new_.limit);
    RemoveIsProper(vs, new_.base, new_.limit);
    RemoveHolds(vs, new_.base, new_.limit, a, x);
    assert Holds(ws, a, x) <==> Holds(ps, a, x) || (new_.Contains(a) && new_.ByteAt(a) == x) by {
      if Holds(ps, a, x) {
        var p :| p in ps && p.Contains(a) && p.ByteAt(a) == x;
        assert p in ps + [new_];
      }
      if new_.Contains(a) {
        assert new_ in ps + [new_];
      }
    }
  }

  /**
   * Replacing [base, limit) by one new extent: the result tiles the same space, and memory is the
   * old memory with the new extent laid over it.
   */
  lemma SpliceTiles(vs: seq<Extent>, new_: Extent, ws: seq<Extent>, top: nat)
    requires Tiled(vs, top) && new_.Proper() && new_.limit <= top && NoStraddle(vs, new_.base, new_.limit)
    requires Ordered(ws)
    requires forall v :: v in ws <==> v in RemoveRange(vs, new_.base, new_.limit) + [new_]
    ensures Tiled(ws, top)
    ensures Memory(ws) == Overlay(Memory(vs), new_)
  {
    hide RemoveRange, Straddles;
    NewIsApart(vs, new_);
    assert AllProper(ws);
    SpliceCovers(vs, new_, ws, top);
    SpliceMemory(vs, new_, ws);
  }

  lemma SpliceCovers(vs: seq<Extent>, new_: Extent, ws: seq<Extent>, top: nat)
    requires Tiled(vs, top) && new_.Proper() && new_.limit <= top && NoStraddle(vs, new_.base, new_.limit)
    requires AllProper(ws)
    requires forall v :: v in ws <==> v in RemoveRange(vs, new_.base, new_.limit) + [new_]
    ensures CoversExactly(ws, top)
  {
    hide RemoveRange, Straddles;
    forall a: nat ensures Covered(ws, a) <==> a < top {
      CoveredMeansHolds(ws, a);
      CoveredMeansHolds(vs, a);
      assert Covered(vs, a) <==> a < top;
      if new_.Contains(a) {
        SpliceHolds(vs, new_, ws, a, new_.ByteAt(a));
      } else if Covered(vs, a) {
        var x :| Holds(vs, a, x);
        SpliceHolds(vs, new_, ws, a, x);
      } else if Covered(ws, a) {
        var x :| Holds(ws, a, x);
        SpliceHolds(vs, new_, ws, a, x);
      }
    }
  }

  lemma CoveredMeansHolds(vs: seq<Extent>, a: nat)
    requires AllProper(vs)
    ensures Covered(vs, a) <==> exists x :: Holds(vs, a, x)
  {
    if Covered(vs, a) {
      var v :| v in vs && v.Contains(a);
      assert Holds(vs, a, v.ByteAt(a));
    }
  }

  lemma SpliceMemory(vs: seq<Extent>, new_: Extent, ws: seq<Extent>)
    requires AllProper(vs) && Ordered(vs) && new_.Proper() && NoStraddle(vs, new_.base, new_.limit)
    requires AllProper(ws) && Ordered(ws)
    requires forall v :: v in ws <==> v in RemoveRange(vs, new_.base, new_.limit) + [new_]
    ensures Memory(ws) == Overlay(Memory(vs), new_)
  {
    hide RemoveRange, Straddles, Holds, Memory;
    var before, after := Memory(vs), Overlay(Memory(vs), new_);
    forall a: nat
      ensures a in Memory(ws) <==> a in after
      ensures a in after ==> Memory(ws)[a] == after[a]
    {
      MemoryHolds(vs, a);
      MemoryHolds(ws, a);
      forall b: Byte ensures Holds(ws, a, Some(b)) <==>
          if new_.Contains(a) then Some(b) == new_.ByteAt(a) else Holds(vs, a, Some(b)) {
        SpliceHolds(vs, new_, ws, a, Some(b));
      }
      if a in after {
        assert Holds(ws, a, Some(after[a]));
      }
    }
  }

  // ---------------------------------------------------------------- when removal goes wrong

  lemma {:induction false} RemoveOrigin(vs: seq<Extent>, base: nat, limit: nat, p: Extent) returns (v: Extent)
    requires AllProper(vs) && p in RemoveRange(vs, base, limit)
    ensures v in vs && p in Remainder(v, base, limit)
  {
    hide Remainder;
    var n := |vs| - 1;
    if p in Remainder(vs[n], base, limit) {
      v := vs[n];
    } else {
      v := RemoveOrigin(vs[..n], base, limit, p);
    }
  }

  /** A straddling map loses its part beyond the interval: the first address past the end is in no range. */
  lemma StraddleLosesMemory(vs: seq<Extent>, new_: Extent, top: nat)
    requires Tiled(vs, top) && new_.Proper() && !NoStraddle(vs, new_.base, new_.limit)
    ensures !Covered(RemoveRange(vs, new_.base, new_.limit) + [new_], new_.limit)
    ensures Covered(vs, new_.limit)
  {
    var lost := new_.limit;
    var v :| v in vs && Straddles(v, new_.base, new_.limit);
    forall p <- RemoveRange(vs, new_.base, new_.limit) ensures !p.Contains(lost) {
      var w := RemoveOrigin(vs, new_.base, new_.limit, p);
      if p.Contains(lost) {
        UniqueAt(vs, v, w, lost);
      }
    }
  }

  /**
   * A map or unmap step leaves a tiling of the same space exactly when no existing map starts inside
   * the new interval, after its base, and ends beyond it.
   */
  lemma MapStepTilesIffNoStraddle(vs: seq<Extent>, new_: Extent, top: nat)
    requires Tiled(vs, top) && new_.Proper() && new_.limit <= top
    ensures TiledInAnyOrder(RemoveRange(vs, new_.base, new_.limit) + [new_], top) <==>
            NoStraddle(vs, new_.base, new_.limit)
  {
    hide RemoveRange, Straddles;
    var ws := RemoveRange(vs, new_.base, new_.limit) + [new_];
    if NoStraddle(vs, new_.base, new_.limit) {
      NewIsApart(vs, new_);
      SpliceCovers(vs, new_, ws, top);
    } else {
      StraddleLosesMemory(vs, new_, top);
    }
  }

  // ---------------------------------------------------------------- writing to one extent

  /** The list with the bytes of one extent replaced. */
  ghost function WithBytes(vs: seq<Extent>, i: nat, bytes: seq<Byte>): seq<Extent>
    requires i < |vs|
  {
    vs[i := vs[i].(bytes := bytes)]
  }

  lemma WithBytesTiles(vs: seq<Extent>, i: nat, bytes: seq<Byte>, top: nat)
    requires Tiled(vs, top) && i < |vs| && |bytes| == |vs[i].bytes|
    ensures Tiled(WithBytes(vs, i, bytes), top)
  {
    var ws := WithBytes(vs, i, bytes);
    forall j | 0 <= j < |vs| ensures ws[j].Proper() && ws[j].base == vs[j].base && ws[j].limit == vs[j].limit {
      assert vs[j] in vs;
    }
    forall a: nat ensures Covered(ws, a) <==> Covered(vs, a) {
      if Covered(vs, a) {
        var j :| 0 <= j < |vs| && vs[j].Contains(a);
        assert ws[j] in ws && ws[j].Contains(a);
      }
      if Covered(ws, a) {
        var j :| 0 <= j < |ws| && ws[j].Contains(a);
        assert vs[j] in vs && vs[j].Contains(a);
      }
    }
  }

  /** Memory changes exactly inside that extent. */
  lemma WithBytesMemory(vs: seq<Extent>, i: nat, bytes: seq<Byte>, top: nat)
    requires Tiled(vs, top) && i < |vs| && |bytes| == |vs[i].bytes| && vs[i].valid
    ensures Tiled(WithBytes(vs, i, bytes), top)
    ensures Memory(WithBytes(vs, i, bytes)).Keys == Memory(vs).Keys
    ensures forall a: nat | vs[i].Contains(a) :: a in Memory(vs) && Memory(vs)[a] == vs[i].bytes[a - vs[i].base]
    ensures forall a <- Memory(vs) :: Memory(WithBytes(vs, i, bytes))[a] ==
              if vs[i].Contains(a) then bytes[a - vs[i].base] else Memory(vs)[a]
  {
    WithBytesTiles(vs, i, bytes, top);
    var ws := WithBytes(vs, i, bytes);
    forall a: nat
      ensures a in Memory(ws) <==> a in Memory(vs)
      ensures vs[i].Contains(a) ==> a in Memory(vs) && Memory(vs)[a] == vs[i].bytes[a - vs[i].base]
      ensures a in Memory(vs) ==> Memory(ws)[a] == if vs[i].Contains(a) then bytes[a - vs[i].base] else Memory(vs)[a]
    {
      WithBytesAt(vs, i, bytes, top, a);
    }
  }

  lemma WithBytesAt(vs: seq<Extent>, i: nat, bytes: seq<Byte>, top: nat, a: nat)
    requires Tiled(vs, top) && i < |vs| && |bytes| == |vs[i].bytes| && vs[i].valid
    requires Tiled(WithBytes(vs, i, bytes), top)
    ensures a in Memory(WithBytes(vs, i, bytes)) <==> a in Memory(vs)
    ensures vs[i].Contains(a) ==> a in Memory(vs) && Memory(vs)[a] == vs[i].bytes[a - vs[i].base]
    ensures a in Memory(vs) ==>
      Memory(WithBytes(vs, i, bytes))[a] == if vs[i].Contains(a) then bytes[a - vs[i].base] else Memory(vs)[a]
  {
    var ws := WithBytes(vs, i, bytes);
    hide Memory, CoversExactly;
    if j :| 0 <= j < |vs| && vs[j].Contains(a) {
      MemoryAt(vs, j, a);
      MemoryAt(ws, j, a);
      assert j != i ==> !vs[i].Contains(a);
    } else {
      NotInMemory(vs, a);
      NotInMemory(ws, a);
    }
  }

  /** What memory holds at an address of the `j`th extent. */
  lemma MemoryAt(vs: seq<Extent>, j: nat, a: nat)
    requires AllProper(vs) && Ordered(vs) && j < |vs| && vs[j].Contains(a)
    ensures a in Memory(vs) <==> vs[j].valid
    ensures a in Memory(vs) ==> Memory(vs)[a] == vs[j].bytes[a - vs[j].base]
  {
    hide Holds, Memory;
    assert Disjoint(vs);
    MemoryHolds(vs, a);
    forall x: Option<Byte> ensures Holds(vs, a, x) <==> vs[j].ByteAt(a) == x {
      HoldsIs(vs, vs[j], a, x);
    }
    if vs[j].valid {
      assert Holds(vs, a, vs[j].ByteAt(a));
    }
  }

  /** Every address of memory is in one of the valid extents. */
  lemma ExtentOf(vs: seq<Extent>, a: nat) returns (j: nat)
    requires AllProper(vs) && a in Memory(vs)
    ensures j < |vs| && vs[j].valid && vs[j].base <= a < vs[j].limit
  {
    var v :| v in vs && v.valid && v.base <= a < v.limit && v.Contains(a);
    j :| 0 <= j < |vs| && vs[j] == v;
  }

  lemma NotInMemory(vs: seq<Extent>, a: nat)
    requires AllProper(vs) && forall v <- vs :: !v.Contains(a)
    ensures a !in Memory(vs)
  {
  }

  // ---------------------------------------------------------------- uniform permissions

  ghost function Grant(pages: set<nat>, changed: set<nat>, allow: bool): set<nat> {
    if allow then pages + changed else pages - changed
  }

  /** The pages of each valid extent are all in the set, or none of them is. */
  ghost predicate UniformIn(vs: seq<Extent>, pages: set<nat>) {
    forall v <- vs, p: nat, q: nat |
      v.valid && IsPage(p) && IsPage(q) && v.Contains(p) && v.Contains(q) :: p in pages <==> q in pages
  }

  /** A map or unmap step keeps permissions uniform. */
  lemma SpliceKeepsUniform(vs: seq<Extent>, new_: Extent, ws: seq<Extent>, pages: set<nat>, allow: bool)
    requires AllProper(vs) && Ordered(vs) && new_.Proper() && NoStraddle(vs, new_.base, new_.limit)
    requires forall v :: v in ws <==> v in RemoveRange(vs, new_.base, new_.limit) + [new_]
    requires UniformIn(vs, pages)
    ensures UniformIn(ws, Grant(pages, PagesOf(new_.base, new_.limit), allow))
  {
    hide RemoveRange, Straddles, IsPage;
    RemovePieces(vs, new_.base, new_.limit);
    forall w <- ws, p: nat, q: nat | w.valid && IsPage(p) && IsPage(q) && w.Contains(p) && w.Contains(q)
      ensures p in Grant(pages, PagesOf(new_.base, new_.limit), allow)
         <==> q in Grant(pages, PagesOf(new_.base, new_.limit), allow)
    {
      if w != new_ {
        var v :| v in vs && PieceOf(w, v, new_.base, new_.limit);
        assert v.Contains(p) && v.Contains(q);
      }
    }
  }

  /** If a page of a valid extent is in the one set, all of its pages are in the other. */
  ghost predicate CheckedIn(vs: seq<Extent>, some: set<nat>, all: set<nat>) {
    forall v <- vs, p: nat, q: nat |
      v.valid && IsPage(p) && IsPage(q) && v.Contains(p) && v.Contains(q) :: p in some ==> q in all
  }

  /** A map or unmap step keeps that, too. */
  lemma SpliceKeepsChecked(vs: seq<Extent>, new_: Extent, ws: seq<Extent>, some: set<nat>, all: set<nat>, allow: bool)
    requires AllProper(vs) && Ordered(vs) && new_.Proper() && NoStraddle(vs, new_.base, new_.limit)
    requires forall v :: v in ws <==> v in RemoveRange(vs, new_.base, new_.limit) + [new_]
    requires CheckedIn(vs, some, all)
    ensures var pages := PagesOf(new_.base, new_.limit);
            CheckedIn(ws, Grant(some, pages, allow), Grant(all, pages, allow))
  {
    hide RemoveRange, Straddles, IsPage;
    var pages := PagesOf(new_.base, new_.limit);
    RemovePieces(vs, new_.base, new_.limit);
    forall w <- ws, p: nat, q: nat | w.valid && IsPage(p) && IsPage(q) && w.Contains(p) && w.Contains(q)
      ensures p in Grant(some, pages, allow) ==> q in Grant(all, pages, allow)
    {
      if w != new_ {
        var v :| v in vs && PieceOf(w, v, new_.base, new_.limit);
        assert v.Contains(p) && v.Contains(q);
      }
    }
  }

  /** Some page of the extent is inside [base, limit) and some page is outside. */
  ghost predicate IsCut(v: Extent, base: nat, limit: nat) {
    exists p: nat, q: nat ::
      && IsPage(p) && IsPage(q) && v.Contains(p) && v.Contains(q)
      && base <= p < limit && !(base <= q < limit)
  }

  ghost predicate AlreadyGranted(v: Extent, pages: set<nat>, allow: bool) {
    forall p: nat | IsPage(p) && v.Contains(p) :: p in pages <==> allow
  }

  /** Every valid extent that [base, limit) cuts has the permission already, or lacks it already. */
  ghost predicate KeepsUniform(vs: seq<Extent>, pages: set<nat>, base: nat, limit: nat, allow: bool) {
    forall v <- vs | v.valid && IsCut(v, base, limit) :: AlreadyGranted(v, pages, allow)
  }

  /**
   * Changing permissions keeps them uniform exactly when every valid map that the change cuts had
   * those permissions already.
   */
  lemma ProtectKeepsUniformIff(vs: seq<Extent>, pages: set<nat>, base: nat, limit: nat, allow: bool)
    requires UniformIn(vs, pages)
    ensures UniformIn(vs, Grant(pages, PagesOf(base, limit), allow)) <==> KeepsUniform(vs, pages, base, limit, allow)
  {
    hide IsPage;
    var after := Grant(pages, PagesOf(base, limit), allow);
    if UniformIn(vs, after) {
      forall v <- vs | v.valid && IsCut(v, base, limit) ensures AlreadyGranted(v, pages, allow) {
        var p: nat, q: nat :| IsPage(p) && IsPage(q) && v.Contains(p) && v.Contains(q)
                              && base <= p < limit && !(base <= q < limit);
        assert p in after <==> allow;
        assert q in after <==> q in pages;
      }
    }
    if KeepsUniform(vs, pages, base, limit, allow) {
      forall v <- vs, p: nat, q: nat | v.valid && IsPage(p) && IsPage(q) && v.Contains(p) && v.Contains(q)
        ensures p in after <==> q in after
      {
        if base <= p < limit && !(base <= q < limit) {
          assert IsCut(v, base, limit);
        }
        if base <= q < limit && !(base <= p < limit) {
          assert IsCut(v, base, limit);
        }
      }
    }
  }

  // ---------------------------------------------------------------- holes

  /** `n` bytes from `start` on lie inside one invalid extent and inside [lo, hi). */
  ghost predicate Fits(v: Extent, lo: nat, hi: nat, n: nat, start: nat) {
    !v.valid && v.base <= start && start + n <= v.limit && lo <= start && start + n <= hi
  }

  ghost predicate NoneFits(vs: seq<Extent>, lo: nat, hi: nat, n: nat) {
    forall v <- vs, start: nat :: !Fits(v, lo, hi, n, start)
  }

  /** The interval is inside one invalid extent, and no invalid extent allows a higher start. */
  ghost predicate HighestFit(vs: seq<Extent>, lo: nat, hi: nat, n: nat, start: nat) {
    && (exists v <- vs :: Fits(v, lo, hi, n, start))
    && (forall v <- vs, other: nat :: Fits(v, lo, hi, n, other) ==> other <= start)
  }

  /** In a tiling, each extent ends where the next one starts, and the last one ends at the top. */
  lemma Adjacent(vs: seq<Extent>, top: nat, i: nat)
    requires Tiled(vs, top) && i < |vs|
    ensures i + 1 < |vs| ==> vs[i].limit == vs[i + 1].base
    ensures vs[i].limit <= top
  {
    assert vs[i] in vs && vs[i].Contains(vs[i].limit - 1);
    assert Covered(vs, vs[i].limit - 1);
    if i + 1 < |vs| {
      var end := vs[i].limit;
      assert vs[i + 1] in vs && vs[i + 1].Contains(vs[i + 1].base) && Covered(vs, vs[i + 1].base);
      assert end <= vs[i + 1].base && Covered(vs, end);
      var j :| 0 <= j < |vs| && vs[j].base <= end < vs[j].limit && vs[j].Contains(end);
      assert i < j;
      assert vs[i + 1].base <= end;
    }
  }

  lemma TiledIsNotEmpty(vs: seq<Extent>, top: nat)
    requires Tiled(vs, top) && 0 < top
    ensures vs != []
  {
    assert Covered(vs, 0);
  }

  lemma LastEndsAtTop(vs: seq<Extent>, top: nat)
    requires Tiled(vs, top) && vs != []
    ensures vs[|vs| - 1].limit == top
  {
    var last := vs[|vs| - 1];
    Adjacent(vs, top, |vs| - 1);
    assert last in vs;
    forall v <- vs ensures !v.Contains(last.limit) {
      var j :| 0 <= j < |vs| && vs[j] == v;
      assert j < |vs| - 1 ==> v.limit <= last.base;
    }
    assert !Covered(vs, last.limit);
  }

  lemma NoRoom(vs: seq<Extent>, lo: nat, hi: nat, n: nat)
    requires 0 < n && (lo >= hi || n > hi - lo)
    ensures NoneFits(vs, lo, hi, n)
  {
  }

  lemma NoneFitsNowhere(lo: nat, hi: nat, n: nat)
    ensures NoneFits([], lo, hi, n)
  {
  }

  lemma NoneFitsFrom(vs: seq<Extent>, i: nat, lo: nat, hi: nat, n: nat)
    requires i < |vs| && NoneFits(vs[i + 1..], lo, hi, n)
    requires forall start: nat :: !Fits(vs[i], lo, hi, n, start)
    ensures NoneFits(vs[i..], lo, hi, n)
  {
    assert vs[i..] == [vs[i]] + vs[i + 1..];
  }

  lemma LaterDoesNotFit(vs: seq<Extent>, i: nat, j: nat, lo: nat, hi: nat, n: nat, start: nat)
    requires i < j < |vs| && NoneFits(vs[i + 1..], lo, hi, n)
    ensures !Fits(vs[j], lo, hi, n, start)
  {
    assert vs[i + 1..][j - i - 1] == vs[j];
  }

  lemma NothingInValid(vs: seq<Extent>, i: nat, lo: nat, hi: nat, n: nat)
    requires i < |vs| && NoneFits(vs[i + 1..], lo, hi, n) && vs[i].valid
    ensures NoneFits(vs[i..], lo, hi, n)
  {
    NoneFitsFrom(vs, i, lo, hi, n);
  }

  lemma NothingHere(vs: seq<Extent>, i: nat, lo: nat, hi: nat, n: nat)
    requires i < |vs| && NoneFits(vs[i + 1..], lo, hi, n) && 0 < n
    requires
      || vs[i].valid
      || vs[i].base >= hi
      || (if hi < vs[i].limit then hi else vs[i].limit) - (if lo < vs[i].base then vs[i].base else lo) < n
    ensures NoneFits(vs[i..], lo, hi, n)
  {
    NoneFitsFrom(vs, i, lo, hi, n);
  }

  /** If an extent ends below `lo`, or is valid and starts below it, nothing fits in it or before it. */
  lemma NothingBelow(vs: seq<Extent>, top: nat, i: nat, lo: nat, hi: nat, n: nat)
    requires Tiled(vs, top) && i < |vs| && 0 < n && NoneFits(vs[i + 1..], lo, hi, n)
    requires if vs[i].valid then vs[i].base < lo else vs[i].limit < lo
    ensures NoneFits(vs, lo, hi, n)
  {
    hide CoversExactly;
    assert vs[i] in vs;
    forall v <- vs, start: nat ensures !Fits(v, lo, hi, n, start) {
      var j :| 0 <= j < |vs| && vs[j] == v;
      if j > i {
        LaterDoesNotFit(vs, i, j, lo, hi, n, start);
      } else {
        assert j < i ==> vs[j].limit <= vs[i].base;
      }
    }
  }

  /** The end of the usable part of an invalid extent, where nothing fits further up. */
  lemma HoleHere(vs: seq<Extent>, top: nat, i: nat, lo: nat, hi: nat, n: nat)
    requires Tiled(vs, top) && i < |vs| && 0 < n && NoneFits(vs[i + 1..], lo, hi, n) && !vs[i].valid
    requires (if hi < vs[i].limit then hi else vs[i].limit) - (if lo < vs[i].base then vs[i].base else lo) >= n
    ensures HighestFit(vs, lo, hi, n, (if hi < vs[i].limit then hi else vs[i].limit) - n)
  {
    hide CoversExactly;
    var hole := (if hi < vs[i].limit then hi else vs[i].limit) - n;
    assert vs[i] in vs && Fits(vs[i], lo, hi, n, hole);
    forall v <- vs, other: nat ensures Fits(v, lo, hi, n, other) ==> other <= hole {
      var j :| 0 <= j < |vs| && vs[j] == v;
      if j > i {
        LaterDoesNotFit(vs, i, j, lo, hi, n, other);
      } else {
        assert j < i ==> vs[j].limit <= vs[i].base;
      }
    }
  }

  /** A hole inside one invalid extent: mapping there splits that extent and straddles nothing. */
  lemma HoleIsUnmapped(vs: seq<Extent>, lo: nat, hi: nat, n: nat, start: nat, top: nat)
    requires Tiled(vs, top) && 0 < n
    requires exists v <- vs :: Fits(v, lo, hi, n, start)
    ensures NoStraddle(vs, start, start + n) && start + n <= top
    ensures forall a: nat | start <= a < start + n :: a !in Memory(vs)
  {
    var v :| v in vs && Fits(v, lo, hi, n, start);
    var i :| 0 <= i < |vs| && vs[i] == v;
    Adjacent(vs, top, i);
    forall w <- vs ensures !Straddles(w, start, start + n) {
      var j :| 0 <= j < |vs| && vs[j] == w;
    }
    hide Memory, CoversExactly;
    forall a: nat | start <= a < start + n ensures a !in Memory(vs) {
      MemoryAt(vs, i, a);
    }
  }

  /** Once an extent with exactly these bounds is in the tiling, the interval straddles nothing. */
  lemma OwnIntervalIsClear(vs: seq<Extent>, v: Extent, top: nat)
    requires Tiled(vs, top) && v in vs
    ensures NoStraddle(vs, v.base, v.limit)
  {
    hide CoversExactly;
    var i :| 0 <= i < |vs| && vs[i] == v;
    forall w <- vs ensures !Straddles(w, v.base, v.limit) {
      var j :| 0 <= j < |vs| && vs[j] == w;
    }
  }

  // ---------------------------------------------------------------- clones of a tiling

  /**
   * Ranges that may have grown, as clones of copy-on-write ranges can: they tile the space exactly
   * when none of them has.
   */
  lemma GrownTilesIffSame(vs: seq<Extent>, ws: seq<Extent>, top: nat)
    requires Tiled(vs, top) && |ws| == |vs| && AllProper(ws)
    requires forall i | 0 <= i < |vs| :: ws[i].base <= vs[i].base && vs[i].limit <= ws[i].limit
    ensures TiledInAnyOrder(ws, top) <==>
            forall i | 0 <= i < |vs| :: ws[i].base == vs[i].base && ws[i].limit == vs[i].limit
  {
    if forall i | 0 <= i < |vs| :: ws[i].base == vs[i].base && ws[i].limit == vs[i].limit {
      forall a: nat ensures Covered(ws, a) <==> Covered(vs, a) {
        SameBoundsCover(vs, ws, a);
        SameBoundsCover(ws, vs, a);
      }
    } else {
      var i :| 0 <= i < |vs| && !(ws[i].base == vs[i].base && ws[i].limit == vs[i].limit);
      GrownOverlaps(vs, ws, top, i);
    }
  }

  lemma SameBoundsCover(vs: seq<Extent>, ws: seq<Extent>, a: nat)
    requires |vs| == |ws|
    requires forall i | 0 <= i < |vs| :: ws[i].base == vs[i].base && ws[i].limit == vs[i].limit
    ensures Covered(vs, a) ==> Covered(ws, a)
  {
    if Covered(vs, a) {
      var i :| 0 <= i < |vs| && vs[i].base <= a < vs[i].limit && vs[i].Contains(a);
      assert ws[i] in ws && ws[i].Contains(a);
    }
  }

  /** A range that has grown overlaps its neighbour, or reaches beyond the top. */
  lemma GrownOverlaps(vs: seq<Extent>, ws: seq<Extent>, top: nat, i: nat)
    requires Tiled(vs, top) && |ws| == |vs| && AllProper(ws) && i < |vs|
    requires forall i | 0 <= i < |vs| :: ws[i].base <= vs[i].base && vs[i].limit <= ws[i].limit
    requires ws[i].base != vs[i].base || ws[i].limit != vs[i].limit
    ensures !TiledInAnyOrder(ws, top)
  {
    forall j | 0 <= j < |vs| ensures vs[j].base < vs[j].limit {
      assert vs[j] in vs;
    }
    Adjacent(vs, top, i);
    if ws[i].base < vs[i].base {
      FirstStartsAtZero(vs, top);
      Adjacent(vs, top, i - 1);
      assert !(ws[i - 1].limit <= ws[i].base || ws[i].limit <= ws[i - 1].base);
    } else if i + 1 < |vs| {
      assert !(ws[i].limit <= ws[i + 1].base || ws[i + 1].limit <= ws[i].base);
    } else {
      LastEndsAtTop(vs, top);
      assert ws[i] in ws && ws[i].Contains(top) && Covered(ws, top);
    }
  }

  lemma FirstStartsAtZero(vs: seq<Extent>, top: nat)
    requires Tiled(vs, top) && vs != []
    ensures vs[0].base == 0
  {
    assert vs[0] in vs && vs[0].Contains(vs[0].base) && Covered(vs, vs[0].base);
    assert Covered(vs, 0);
    var j :| 0 <= j < |vs| && vs[j].base <= 0 < vs[j].limit && vs[j].Contains(0);
  }
}
