/** Lists of ranges: sorting them, indexing their pages and taking an interval out of them. */
module RangeLists {
  import opened Pages
  import opened MappedRanges
  import opened Tiling
  import opened RangeCache

  /** Each range is well formed and shares only the given roots, none of which is in the list itself. */
  ghost predicate RangesOk(maps: seq<MappedRange>, roots: set<MappedRange>)
    reads maps, roots
  {
    && (forall r <- maps :: r !in roots && (r.parent != null ==> r.parent in roots))
    && (forall r <- maps :: r.Ok())
  }

  ghost function Views(maps: seq<MappedRange>, roots: set<MappedRange>): (vs: seq<Extent>)
    requires RangesOk(maps, roots)
    reads maps, roots
    ensures |vs| == |maps|
    ensures forall i | 0 <= i < |maps| :: vs[i] == maps[i].View()
  {
    seq(|maps|, i requires 0 <= i < |maps| && RangesOk(maps, roots) reads maps, roots => maps[i].View())
  }

  /** Valid ranges consist of whole pages, and every range starts on a page. */
  ghost predicate OnPages(maps: seq<MappedRange>) {
    forall r <- maps :: IsPage(r.base) && (r.valid ==> IsPage(r.limit))
  }

  /** The index has exactly those of `pages` that lie in a valid range. */
  ghost predicate Indexes(index: Index, maps: seq<MappedRange>, pages: set<nat>) {
    && (forall page <- index :: page in pages && IsPage(page) && index[page] in maps
                                && index[page].valid && index[page].Contains(page))
    && (forall r <- maps, page <- pages :: r.valid && r.Contains(page) && IsPage(page) ==> page in index)
  }

  /** The pages of the range are all in the set, or none of them is. */
  predicate AllOrNone(r: MappedRange, pages: set<nat>) {
    forall p: nat | r.base <= p < r.limit && IsPage(p) :: p in pages <==> r.base in pages
  }

  predicate SomePage(r: MappedRange, pages: set<nat>) {
    exists p: nat | r.base <= p < r.limit && IsPage(p) :: p in pages
  }

  predicate EveryPage(r: MappedRange, pages: set<nat>) {
    forall p: nat | r.base <= p < r.limit && IsPage(p) :: p in pages
  }

  ghost predicate ByBase(maps: seq<MappedRange>) {
    forall i, j | 0 <= i < j < |maps| :: maps[i].base <= maps[j].base
  }

  ghost predicate NoDuplicates(maps: seq<MappedRange>) {
    forall i, j | 0 <= i < j < |maps| :: maps[i] != maps[j]
  }

  /** Sorts ranges by base address. */
  method SortByBase(maps: seq<MappedRange>) returns (sorted: seq<MappedRange>)
    ensures ByBase(sorted)
    ensures forall r :: r in sorted <==> r in maps
    ensures NoDuplicates(maps) ==> NoDuplicates(sorted)
  {
    sorted := [];
    for n := 0 to |maps|
      invariant ByBase(sorted)
      invariant forall r :: r in sorted <==> r in maps[..n]
      invariant NoDuplicates(maps) ==> NoDuplicates(sorted)
    {
      assert maps[..n + 1] == maps[..n] + [maps[n]];
      assert NoDuplicates(maps) ==> maps[n] !in maps[..n];
      hide ByBase, NoDuplicates;
      sorted := InsertByBase(sorted, maps[n]);
    }
    assert maps[..|maps|] == maps;
  }

  method InsertByBase(sorted: seq<MappedRange>, r: MappedRange) returns (longer: seq<MappedRange>)
    requires ByBase(sorted)
    ensures ByBase(longer)
    ensures forall x :: x in longer <==> x in sorted || x == r
    ensures NoDuplicates(sorted) && r !in sorted ==> NoDuplicates(longer)
  {
    hide NoDuplicates;
    var i := |sorted|;
    while i > 0 && sorted[i - 1].base > r.base
      invariant 0 <= i <= |sorted|
      invariant forall j | i <= j < |sorted| :: sorted[j].base > r.base
    {
      i := i - 1;
    }
    longer := InsertAt(sorted, i, r);
    InsertedMembers(sorted, i, r);
    InsertedNoDuplicates(sorted, i, r);
    InsertedByBase(sorted, i, r);
  }

  function InsertAt(s: seq<MappedRange>, i: nat, r: MappedRange): seq<MappedRange>
    requires i <= |s|
  {
    s[..i] + [r] + s[i..]
  }

  lemma InsertedMembers(s: seq<MappedRange>, i: nat, r: MappedRange)
    requires i <= |s|
    ensures forall x :: x in InsertAt(s, i, r) <==> x in s || x == r
  {
    assert s == s[..i] + s[i..];
  }

  lemma InsertedNoDuplicates(s: seq<MappedRange>, i: nat, r: MappedRange)
    requires i <= |s|
    ensures NoDuplicates(s) && r !in s ==> NoDuplicates(InsertAt(s, i, r))
  {
  }

  lemma InsertedByBase(s: seq<MappedRange>, i: nat, r: MappedRange)
    requires i <= |s| && ByBase(s)
    requires i > 0 ==> s[i - 1].base <= r.base
    requires forall j | i <= j < |s| :: s[j].base > r.base
    ensures ByBase(InsertAt(s, i, r))
  {
    forall j | 0 <= j < i ensures s[j].base <= r.base {
      assert j < i - 1 ==> s[j].base <= s[i - 1].base;
    }
  }

  /** The pages that a range puts into an index. */
  ghost predicate PageOf(page: nat, r: MappedRange, pages: set<nat>) {
    page in pages && IsPage(page) && r.valid && r.Contains(page)
  }

  /** Adds the pages of one range to an index. */
  method IndexRange(before: Index, r: MappedRange, pages: set<nat>) returns (index: Index)
    requires IsPage(r.base) && r.valid
    ensures forall page: nat :: page in index <==> page in before || PageOf(page, r, pages)
    ensures forall page <- index :: index[page] == if PageOf(page, r, pages) then r else before[page]
  {
    index := before;
    var a := r.base;
    while a < r.limit
      invariant IsPage(a) && r.base <= a
      invariant forall page: nat :: page in index <==> page in before || (PageOf(page, r, pages) && page < a)
      invariant forall page <- index :: index[page] == if PageOf(page, r, pages) && page < a then r else before[page]
    {
      assert forall page: nat | IsPage(page) && a <= page < a + PAGE_SIZE :: page == a;
      if a in pages {
        index := index[a := r];
      }
      a := a + PAGE_SIZE;
    }
  }

  /** Indexes the pages of the valid ranges. */
  method BuildIndex(maps: seq<MappedRange>, pages: set<nat>) returns (index: Index)
    requires OnPages(maps)
    ensures Indexes(index, maps, pages)
  {
    hide IsPage;
    index := map[];
    for i := 0 to |maps|
      invariant Indexes(index, maps[..i], pages)
    {
      assert maps[..i + 1] == maps[..i] + [maps[i]];
      if maps[i].valid {
        index := IndexRange(index, maps[i], pages);
      }
    }
    assert maps[..|maps|] == maps;
  }

  // ---------------------------------------------------------------- removing a range

  /** Takes [base, limit) out of a list of ranges, copying the parts of split ranges that stay. */
  method RemoveRanges(maps: seq<MappedRange>, ghost roots: set<MappedRange>, base: nat, limit: nat)
    returns (pieces: seq<MappedRange>)
    requires RangesOk(maps, roots) && OnPages(maps) && IsPage(base) && IsPage(limit) && base < limit
    requires NoStraddle(Views(maps, roots), base, limit)
    ensures RangesOk(pieces, roots) && OnPages(pieces)
    ensures Views(pieces, roots) == RemoveRange(Views(maps, roots), base, limit)
    ensures forall r <- pieces :: r in maps || fresh(r)
  {
    hide RangesOk, OnPages, RemoveRange;
    pieces := [];
    ghost var views := Views(maps, roots);
    NothingRemoved(roots, views, base, limit);
    for i := 0 to |maps|
      invariant RangesOk(maps, roots) && Views(maps, roots) == views
      invariant RangesOk(pieces, roots) && OnPages(pieces)
      invariant Views(pieces, roots) == RemoveRange(views[..i], base, limit)
      invariant forall r <- pieces :: r in maps || fresh(r)
    {
      pieces := RemoveNext(maps, roots, pieces, i, base, limit);
    }
    assert views[..|maps|] == views;
  }

  lemma NothingRemoved(roots: set<MappedRange>, views: seq<Extent>, base: nat, limit: nat)
    requires AllProper(views) && base < limit && NoStraddle(views, base, limit)
    ensures RangesOk([], roots) && OnPages([]) && Views([], roots) == RemoveRange(views[..0], base, limit)
  {
  }

  method RemoveNext(maps: seq<MappedRange>, ghost roots: set<MappedRange>, pieces: seq<MappedRange>, i: nat,
                    base: nat, limit: nat)
    returns (more: seq<MappedRange>)
    requires RangesOk(maps, roots) && OnPages(maps) && IsPage(base) && IsPage(limit) && base < limit && i < |maps|
    requires NoStraddle(Views(maps, roots), base, limit)
    requires RangesOk(pieces, roots) && OnPages(pieces)
    requires Views(pieces, roots) == RemoveRange(Views(maps, roots)[..i], base, limit)
    ensures RangesOk(maps, roots) && Views(maps, roots) == old(Views(maps, roots))
    ensures RangesOk(more, roots) && OnPages(more)
    ensures Views(more, roots) == RemoveRange(Views(maps, roots)[..i + 1], base, limit)
    ensures forall r <- more :: r in pieces || r in maps || fresh(r)
  {
    hide MappedRange.Bytes, MappedRange.Ok, IsPage, Remainder;
    ghost var views := Views(maps, roots);
    assert views[..i + 1][..i] == views[..i];
    assert !Straddles(views[i], base, limit);
    var kept := KeepOutside(maps[i], roots, base, limit);
    JoinViews(pieces, kept, roots);
    more := pieces + kept;
  }

  /** What is kept of one range. */
  method KeepOutside(r: MappedRange, ghost roots: set<MappedRange>, base: nat, limit: nat)
    returns (kept: seq<MappedRange>)
    requires RangesOk([r], roots) && r.Ok() && OnPages([r]) && IsPage(base) && IsPage(limit) && base < limit
    requires !Straddles(r.View(), base, limit)
    ensures RangesOk(kept, roots) && OnPages(kept)
    ensures Views(kept, roots) == Remainder(r.View(), base, limit)
    ensures forall k <- kept :: k == r || fresh(k)
  {
    hide RangesOk, MappedRange.Bytes, MappedRange.Ok, IsPage;
    if r.limit <= base || r.base >= limit {
      kept := [r];
    } else if r.base >= base && r.limit <= limit {
      kept := [];
      NoViews(roots);
    } else if r.base < base && r.limit > limit {
      var left := CopyPart(r, roots, r.base, base);
      var right := CopyPart(r, roots, limit, r.limit);
      JoinViews([left], [right], roots);
      kept := [left] + [right];
    } else if r.base == base {
      var right := CopyPart(r, roots, limit, r.limit);
      kept := [right];
    } else {
      var left := CopyPart(r, roots, r.base, base);
      kept := [left];
    }
  }

  method CopyPart(r: MappedRange, ghost roots: set<MappedRange>, lo: nat, hi: nat) returns (piece: MappedRange)
    requires RangesOk([r], roots) && r.Ok() && r.base <= lo < hi <= r.limit
    ensures fresh(piece) && RangesOk([piece], roots)
    ensures Views([piece], roots) == [Cut(r.View(), lo, hi)]
    ensures piece.base == lo && piece.limit == hi && piece.valid == r.valid
  {
    assert r in [r];
    hide MappedRange.Bytes, MappedRange.Ok;
    piece := r.Copy(lo, hi);
  }

  lemma NoViews(roots: set<MappedRange>)
    ensures RangesOk([], roots) && Views([], roots) == []
  {
  }

  /** Takes the interval of `range` out of a tiling and adds `range` at the end. */
  method RemoveAndAdd(maps: seq<MappedRange>, ghost roots: set<MappedRange>, range: MappedRange)
    returns (unsorted: seq<MappedRange>)
    requires RangesOk(maps, roots) && OnPages(maps) && Ordered(Views(maps, roots))
    requires RangesOk([range], roots) && range.Ok() && IsPage(range.base) && IsPage(range.limit)
    requires NoStraddle(Views(maps, roots), range.base, range.limit)
    ensures RangesOk(unsorted, roots) && OnPages(unsorted) && Disjoint(Views(unsorted, roots))
    ensures Views(unsorted, roots) == RemoveRange(Views(maps, roots), range.base, range.limit) + [range.View()]
    ensures forall r <- unsorted :: r == range || r in maps || fresh(r)
  {
    hide MappedRange.Bytes, MappedRange.Ok, IsPage, NoStraddle, RemoveRange, Disjoint, Ordered;
    ghost var before, added := Views(maps, roots), range.View();
    NewIsApart(before, added);
    var pieces := RemoveRanges(maps, roots, range.base, range.limit);
    JoinViews(pieces, [range], roots);
    assert Views([range], roots) == [added];
    unsorted := pieces + [range];
  }

  lemma JoinViews(maps: seq<MappedRange>, more: seq<MappedRange>, roots: set<MappedRange>)
    requires RangesOk(maps, roots) && RangesOk(more, roots)
    ensures RangesOk(maps + more, roots)
    ensures Views(maps + more, roots) == Views(maps, roots) + Views(more, roots)
  {
  }

  // ---------------------------------------------------------------- writing to one range

  /** Writes to the `i`th range: its own bytes change and nothing else does, shared roots included. */
  method WriteTo(maps: seq<MappedRange>, ghost roots: set<MappedRange>, ghost i: nat,
                 r: MappedRange, a: nat, bytes: seq<Byte>)
    requires RangesOk(maps, roots) && NoDuplicates(maps) && i < |maps| && maps[i] == r
    requires r.valid && r.base <= a && a + |bytes| <= r.limit
    modifies r
    ensures RangesOk(maps, roots)
    ensures |old(Views(maps, roots))[i].bytes| == r.limit - r.base
    ensures Views(maps, roots) ==
            WithBytes(old(Views(maps, roots)), i, Patch(old(Views(maps, roots))[i].bytes, a - r.base, bytes))
  {
    assert r.Ok();
    hide MappedRange.Bytes;
    ghost var before := Views(maps, roots);
    r.WriteBytes(a, bytes);
    assert RangesOk(maps, roots);
    hide MappedRange.Ok, Patch;
    forall j | 0 <= j < |maps| && j != i ensures maps[j].View() == before[j] {
      assert maps[j] != r;
    }
  }

  /** Gives a range an array of its own: no range reads any differently. */
  method MaterializeIn(maps: seq<MappedRange>, ghost roots: set<MappedRange>, r: MappedRange)
    requires RangesOk(maps, roots) && r in maps && r.valid
    modifies r
    ensures RangesOk(maps, roots) && Views(maps, roots) == old(Views(maps, roots))
  {
    assert r.Ok();
    hide MappedRange.Bytes;
    ghost var before := Views(maps, roots);
    r.Materialize();
    assert RangesOk(maps, roots);
    hide MappedRange.Ok;
    forall j | 0 <= j < |maps| ensures maps[j].View() == before[j] {
    }
  }

  // ---------------------------------------------------------------- cloning

  /** What a clone of the range looks like: a copy-on-write range's clone spans its whole root. */
  ghost function ClonedView(r: MappedRange, roots: set<MappedRange>): Extent
    requires (r.parent != null ==> r.parent in roots) && r.Ok()
    reads r, roots
  {
    if r.kind == CopyOnWrite then r.parent.View() else r.View()
  }

  /** Clones one range of a list. The list reads as before; a new root may stand behind the range. */
  method CloneOne(maps: seq<MappedRange>, ghost roots: set<MappedRange>, r: MappedRange)
    returns (clone: MappedRange, ghost newRoots: set<MappedRange>)
    requires RangesOk(maps, roots) && r in maps
    modifies (if r.valid then {r} else {})
    ensures roots <= newRoots && fresh(newRoots - roots)
    ensures RangesOk(maps, newRoots) && Views(maps, newRoots) == old(Views(maps, roots))
    ensures RangesOk([clone], newRoots) && Views([clone], newRoots) == [old(ClonedView(r, roots))]
    ensures if r.valid then fresh(clone) else clone == r
    ensures clone.valid == r.valid
    ensures forall s <- maps | s != r :: ClonedView(s, newRoots) == old(ClonedView(s, roots))
  {
    newRoots := roots;
    if !r.valid {
      return r, roots;
    }
    hide MappedRange.Bytes;
    ghost var before := Views(maps, roots);
    clone := r.Clone();
    if r.parent != null {
      newRoots := roots + {r.parent};
    }
    assert RangesOk(maps, newRoots);
    assert RangesOk([clone], newRoots);
    hide MappedRange.Ok;
    forall j | 0 <= j < |maps| ensures maps[j].View() == before[j] {
    }
  }

  ghost function ClonedViews(maps: seq<MappedRange>, roots: set<MappedRange>): (vs: seq<Extent>)
    requires RangesOk(maps, roots)
    reads maps, roots
    ensures |vs| == |maps| && forall i | 0 <= i < |maps| :: vs[i] == ClonedView(maps[i], roots)
  {
    seq(|maps|, i requires 0 <= i < |maps| && RangesOk(maps, roots) reads maps, roots => ClonedView(maps[i], roots))
  }

  /** More roots make no difference to ranges that are not among them. */
  lemma MoreRoots(maps: seq<MappedRange>, roots: set<MappedRange>, newRoots: set<MappedRange>)
    requires RangesOk(maps, roots) && roots <= newRoots && forall r <- maps :: r !in newRoots
    ensures RangesOk(maps, newRoots) && Views(maps, newRoots) == Views(maps, roots)
  {
    hide MappedRange.Bytes, MappedRange.Ok;
  }

  /** The first `i` ranges of the list have been cloned, and the list itself reads as before. */
  ghost predicate Cloning(maps: seq<MappedRange>, clones: seq<MappedRange>, roots: set<MappedRange>,
                          views: seq<Extent>, target: seq<Extent>, i: nat)
    requires i <= |maps| == |target|
    reads maps, clones, roots
  {
    && RangesOk(maps, roots) && Views(maps, roots) == views
    && RangesOk(clones, roots) && Views(clones, roots) == target[..i]
    && forall j | i <= j < |maps| :: ClonedView(maps[j], roots) == target[j]
  }

  method CloneNext(maps: seq<MappedRange>, ghost roots: set<MappedRange>, clones: seq<MappedRange>, i: nat,
                   ghost views: seq<Extent>, ghost target: seq<Extent>)
    returns (clone: MappedRange, ghost newRoots: set<MappedRange>)
    requires NoDuplicates(maps) && i < |maps| == |target| && Cloning(maps, clones, roots, views, target, i)
    requires forall r <- clones :: r.valid ==> r !in maps
    modifies (if maps[i].valid then {maps[i]} else {})
    ensures roots <= newRoots && fresh(newRoots - roots)
    ensures Cloning(maps, clones + [clone], newRoots, views, target, i + 1)
    ensures if clone.valid then fresh(clone) else clone == maps[i]
  {
    hide MappedRange.Bytes, MappedRange.Ok, MappedRange.View, ClonedView;
    clone, newRoots := CloneOne(maps, roots, maps[i]);
    MoreRoots(clones, roots, newRoots);
    JoinViews(clones, [clone], newRoots);
    assert target[..i + 1] == target[..i] + [target[i]];
  }

  /** Clones every valid range of a list and shares the invalid ones. */
  method CloneRanges(maps: seq<MappedRange>, ghost roots: set<MappedRange>)
    returns (clones: seq<MappedRange>, ghost newRoots: set<MappedRange>)
    requires RangesOk(maps, roots) && NoDuplicates(maps)
    modifies set r | r in maps && r.valid
    ensures roots <= newRoots && fresh(newRoots - roots)
    ensures RangesOk(maps, newRoots) && Views(maps, newRoots) == old(Views(maps, roots))
    ensures RangesOk(clones, newRoots) && Views(clones, newRoots) == old(ClonedViews(maps, roots))
    ensures forall r <- clones :: if r.valid then fresh(r) else r in maps
  {
    hide MappedRange.Bytes, MappedRange.Ok, MappedRange.View, ClonedView;
    clones, newRoots := [], roots;
    ghost var views, target := Views(maps, roots), ClonedViews(maps, roots);
    NoViews(roots);
    for i := 0 to |maps|
      invariant roots <= newRoots && fresh(newRoots - roots)
      invariant Cloning(maps, clones, newRoots, views, target, i)
      invariant forall r <- clones :: if r.valid then fresh(r) else r in maps
    {
      var clone, more := CloneNext(maps, newRoots, clones, i, views, target);
      clones, newRoots := clones + [clone], more;
    }
    assert target[..|maps|] == target;
  }

  /** No copy-on-write range has been split off from a larger one. */
  predicate Whole(maps: seq<MappedRange>, ghost roots: set<MappedRange>)
    requires RangesOk(maps, roots)
    reads maps, roots
  {
    forall r <- maps :: r.SpansParent()
  }

  lemma WholeClones(maps: seq<MappedRange>, roots: set<MappedRange>)
    requires RangesOk(maps, roots) && Whole(maps, roots)
    ensures ClonedViews(maps, roots) == Views(maps, roots)
  {
    hide RangesOk;
    forall i | 0 <= i < |maps| ensures ClonedViews(maps, roots)[i] == Views(maps, roots)[i] {
      assert maps[i] in maps && maps[i].SpansParent();
      RangeOk(maps, roots, maps[i]);
    }
  }

  lemma RangeOk(maps: seq<MappedRange>, roots: set<MappedRange>, r: MappedRange)
    requires RangesOk(maps, roots) && r in maps
    ensures (r.parent != null ==> r.parent in roots) && r.Ok()
  {
    hide MappedRange.Ok;
  }

  /** The clones of a tiling's ranges tile the space exactly when no copy-on-write range has been split. */
  lemma ClonesTileIffWhole(maps: seq<MappedRange>, roots: set<MappedRange>, top: nat)
    requires RangesOk(maps, roots) && Tiled(Views(maps, roots), top)
    ensures TiledInAnyOrder(ClonedViews(maps, roots), top) <==> Whole(maps, roots)
  {
    hide MappedRange.Bytes, Tiled, TiledInAnyOrder;
    var vs, ws := Views(maps, roots), ClonedViews(maps, roots);
    forall i | 0 <= i < |maps|
      ensures ws[i].Proper() && ws[i].base <= vs[i].base && vs[i].limit <= ws[i].limit
      ensures maps[i].SpansParent() <==> ws[i].base == vs[i].base && ws[i].limit == vs[i].limit
    {
      RangeOk(maps, roots, maps[i]);
    }
    GrownTilesIffSame(vs, ws, top);
  }
}
