/** The zone allocator: recycles freed blocks by size, splits them if they are much too large. */
module ZoneAllocators {
  import opened Allocators
  import opened Zones

  /** A base of zero stands for no block. */
  datatype Allocation = Allocation(base: nat, size: nat)

  type FreeList = map<nat, seq<nat>>

  function Listed(free: FreeList, size: nat): seq<nat> {
    if size in free then free[size] else []
  }

  function Push(free: FreeList, size: nat, base: nat): FreeList {
    free[size := Listed(free, size) + [base]]
  }

  function Pop(free: FreeList, size: nat): FreeList
    requires Listed(free, size) != []
  {
    free[size := free[size][..|free[size]| - 1]]
  }

  lemma PushListed(free: FreeList, size: nat, base: nat, s: nat, b: nat)
    ensures multiset(Listed(Push(free, size, base), s))[b] ==
            multiset(Listed(free, s))[b] + if b == base && s == size then 1 else 0
  {
  }

  lemma PopListed(free: FreeList, size: nat, s: nat, b: nat)
    requires Listed(free, size) != []
    ensures var all := Listed(free, size);
            multiset(Listed(Pop(free, size), s))[b] ==
            multiset(Listed(free, s))[b] - if b == all[|all| - 1] && s == size then 1 else 0
  {
    var all := free[size];
    assert all == all[..|all| - 1] + [all[|all| - 1]];
  }

  /** The free list is exactly the free parts. */
  ghost predicate ListsFree(free: FreeList, parts: seq<Part>) {
    forall s: nat, b: nat :: multiset(Listed(free, s))[b] == multiset(parts)[Part(b, s, Free)]
  }

  /** All blocks start on cache lines and are whole numbers of them. */
  ghost predicate OnLines(parts: seq<Part>) {
    forall p <- parts | !p.use.Padding? :: p.base % CACHE_LINE == 0 && p.size % CACHE_LINE == 0
  }

  /** The live blocks are those from before and the given one. */
  ghost predicate AddsLive(before: seq<Part>, after: seq<Part>, alloc: Allocation) {
    forall s: nat, b: nat ::
      multiset(after)[Part(b, s, Live)] ==
      multiset(before)[Part(b, s, Live)] + if alloc == Allocation(b, s) then 1 else 0
  }

  /** The smallest listed size that is large enough has a block left; larger sizes are not looked at. */
  ghost predicate HasRoom(free: FreeList, size: nat) {
    exists k <- free :: IsBest(free, size, k)
  }

  ghost predicate IsBest(free: FreeList, size: nat, key: nat) {
    key in free && size <= key && free[key] != [] && forall j <- free | size <= j :: key <= j
  }

  /**
   * The block freed last among those of a size, as it is, or, if more than a page of it would be wasted, as
   * much of its upper end as is needed.
   */
  ghost predicate IsRecycled(free: FreeList, key: nat, size: nat, alloc: Allocation)
    requires size <= key
  {
    var listed := Listed(free, key);
    listed != [] &&
    var last := listed[|listed| - 1];
    alloc == if key > size + SPLIT_SIZE then Allocation(last + key - size, size) else Allocation(last, key)
  }

  /** The last block on the list for a size is a free part. */
  lemma ListedPart(free: FreeList, parts: seq<Part>, size: nat) returns (i: nat)
    requires ListsFree(free, parts) && Listed(free, size) != []
    ensures i < |parts| && parts[i].size == size && LastListed(free, parts[i])
  {
    var base := free[size][|free[size]| - 1];
    assert multiset(Listed(free, size))[base] > 0;
    assert Part(base, size, Free) in parts;
    i :| 0 <= i < |parts| && parts[i] == Part(base, size, Free);
  }

  lemma ReplaceOnLines(parts: seq<Part>, i: nat, pieces: seq<Part>)
    requires i < |parts| && OnLines(parts) && OnLines(pieces)
    ensures OnLines(Replace(parts, i, pieces))
  {
  }

  /** Whether the counts of free and live parts change as the free list and the live blocks do. */
  lemma ReplaceFree(free: FreeList, parts: seq<Part>, i: nat, pieces: seq<Part>, after: FreeList, alloc: Allocation)
    requires i < |parts| && ListsFree(free, parts) && parts[i].use == Free
    requires forall s: nat, b: nat ::
      multiset(Listed(after, s))[b] ==
      multiset(Listed(free, s))[b] - (if Part(b, s, Free) == parts[i] then 1 else 0)
      + multiset(pieces)[Part(b, s, Free)]
    requires forall s: nat, b: nat ::
      multiset(pieces)[Part(b, s, Live)] == if alloc == Allocation(b, s) then 1 else 0
    ensures ListsFree(after, Replace(parts, i, pieces)) && AddsLive(parts, Replace(parts, i, pieces), alloc)
  {
    hide Listed, Replace;
    forall s: nat, b: nat
      ensures multiset(Listed(after, s))[b] == multiset(Replace(parts, i, pieces))[Part(b, s, Free)]
    {
      ReplaceCounts(parts, i, pieces, Part(b, s, Free));
    }
    forall s: nat, b: nat
      ensures multiset(Replace(parts, i, pieces))[Part(b, s, Live)] ==
              multiset(parts)[Part(b, s, Live)] + if alloc == Allocation(b, s) then 1 else 0
    {
      ReplaceCounts(parts, i, pieces, Part(b, s, Live));
    }
  }

  ghost predicate LastListed(free: FreeList, part: Part) {
    var all := Listed(free, part.size);
    part.use == Free && all != [] && all[|all| - 1] == part.base
  }

  /** Handing out a free part as it is. */
  lemma ReusePart(free: FreeList, parts: seq<Part>, i: nat, from: nat, to: nat)
    requires Tiles(parts, from, to) && ListsFree(free, parts) && i < |parts| && LastListed(free, parts[i])
    ensures var (base, size) := (parts[i].base, parts[i].size);
            var after := Replace(parts, i, [Part(base, size, Live)]);
            && Tiles(after, from, to) && ListsFree(Pop(free, size), after)
            && AddsLive(parts, after, Allocation(base, size)) && (OnLines(parts) ==> OnLines(after))
  {
    hide Listed, Pop, Replace, ListsFree, AddsLive, OnLines;
    var live := Part(parts[i].base, parts[i].size, Live);
    assert [live][..0] == [];
    ReplaceTiles(parts, i, [live], from, to);
    assert OnLines(parts) ==> OnLines([live]) by { PieceOnLines(parts, i, live); }
    if OnLines(parts) {
      ReplaceOnLines(parts, i, [live]);
    }
    forall s: nat, b: nat
      ensures multiset(Listed(Pop(free, live.size), s))[b] ==
              multiset(Listed(free, s))[b] - if Part(b, s, Free) == parts[i] then 1 else 0
    {
      PopListed(free, live.size, s, b);
    }
    ReplaceFree(free, parts, i, [live], Pop(free, live.size), Allocation(live.base, live.size));
  }

  lemma PieceOnLines(parts: seq<Part>, i: nat, piece: Part)
    requires i < |parts| && !parts[i].use.Padding?
    requires piece.base % CACHE_LINE == parts[i].base % CACHE_LINE
    requires piece.size % CACHE_LINE == parts[i].size % CACHE_LINE
    ensures OnLines(parts) ==> OnLines([piece])
  {
    assert parts[i] in parts;
  }

  /** A free part with its upper end handed out. */
  ghost function SplitPieces(part: Part, size: nat): seq<Part>
    requires size <= part.size
  {
    var diff := part.size - size;
    [Part(part.base, diff, Free), Part(part.base + diff, size, Live)]
  }

  /** What the pieces of a split part are. */
  lemma PiecesAre(part: Part, size: nat)
    requires size <= part.size
    ensures var (pieces, diff) := (SplitPieces(part, size), part.size - size);
            && Tiles(pieces, part.base, part.base + part.size)
            && (forall s: nat, b: nat ::
                  multiset(pieces)[Part(b, s, Free)] == if b == part.base && s == diff then 1 else 0)
            && (forall s: nat, b: nat ::
                  multiset(pieces)[Part(b, s, Live)] ==
                  if Allocation(part.base + diff, size) == Allocation(b, s) then 1 else 0)
  {
    hide Tiles;
    var diff := part.size - size;
    var lower, upper := Part(part.base, diff, Free), Part(part.base + diff, size, Live);
    TwoTile(lower, upper);
    forall piece: Part
      ensures multiset(SplitPieces(part, size))[piece] ==
              (if piece == lower then 1 else 0) + if piece == upper then 1 else 0
    {
      CountOfTwo(lower, upper, piece);
    }
  }

  /** Both ends of a split block are on lines if the block was and the size is a whole number of lines. */
  lemma PiecesOnLines(part: Part, size: nat)
    requires size <= part.size && part.base % CACHE_LINE == part.size % CACHE_LINE == 0
    ensures OnLines(SplitPieces(part, size)) <==> size % CACHE_LINE == 0
  {
    var pieces := SplitPieces(part, size);
    assert pieces[0] in pieces && pieces[1] in pieces;
  }

  /** Handing out the upper end of a free part. */
  lemma SplitPart(free: FreeList, parts: seq<Part>, i: nat, size: nat, from: nat, to: nat)
    requires Tiles(parts, from, to) && ListsFree(free, parts) && i < |parts| && LastListed(free, parts[i])
    requires size <= parts[i].size
    ensures var (base, key) := (parts[i].base, parts[i].size);
            var after := Replace(parts, i, SplitPieces(parts[i], size));
            && Tiles(after, from, to) && ListsFree(Push(Pop(free, key), key - size, base), after)
            && AddsLive(parts, after, Allocation(base + (key - size), size))
            && (OnLines(parts) && size % CACHE_LINE == 0 ==> OnLines(after))
  {
    hide Listed, Pop, Push, Replace, ListsFree, AddsLive, OnLines, Tiles, SplitPieces;
    var (base, key) := (parts[i].base, parts[i].size);
    var diff := key - size;
    var pieces := SplitPieces(parts[i], size);
    PiecesAre(parts[i], size);
    ReplaceTiles(parts, i, pieces, from, to);
    if OnLines(parts) && size % CACHE_LINE == 0 {
      PartOnLines(parts, i);
      PiecesOnLines(parts[i], size);
      ReplaceOnLines(parts, i, pieces);
    }
    var after := Push(Pop(free, key), diff, base);
    forall s: nat, b: nat
      ensures multiset(Listed(after, s))[b] ==
              multiset(Listed(free, s))[b] - (if Part(b, s, Free) == parts[i] then 1 else 0)
              + multiset(pieces)[Part(b, s, Free)]
    {
      PopListed(free, key, s, b);
      PushListed(Pop(free, key), diff, base, s, b);
    }
    ReplaceFree(free, parts, i, pieces, after, Allocation(base + diff, size));
  }

  lemma PartOnLines(parts: seq<Part>, i: nat)
    requires i < |parts| && OnLines(parts) && !parts[i].use.Padding?
    ensures parts[i].base % CACHE_LINE == parts[i].size % CACHE_LINE == 0
  {
    assert parts[i] in parts;
  }

  lemma TwoTile(a: Part, b: Part)
    requires a.base + a.size == b.base
    ensures Tiles([a, b], a.base, b.base + b.size)
  {
    assert [a, b][..1] == [a] && [a][..0] == [];
  }

  lemma CountOfTwo(a: Part, b: Part, part: Part)
    ensures multiset([a, b])[part] == (if part == a then 1 else 0) + if part == b then 1 else 0
  {
  }

  /** A new block at the end of the area, after what alignment skips. */
  lemma AppendPart(free: FreeList, parts: seq<Part>, block: nat, size: nat, from: nat, to: nat)
    requires Tiles(parts, from, to) && ListsFree(free, parts) && to <= block
    ensures var after := parts + [Part(to, block - to, Padding), Part(block, size, Live)];
            && Tiles(after, from, block + size) && ListsFree(free, after)
            && AddsLive(parts, after, Allocation(block, size))
            && (OnLines(parts) && block % CACHE_LINE == 0 && size % CACHE_LINE == 0 ==> OnLines(after))
  {
    hide Listed, Tiles;
    var pad, live := Part(to, block - to, Padding), Part(block, size, Live);
    TwoTile(pad, live);
    TilesJoin(parts, [pad, live], from, to, block + size);
    forall part: Part ensures multiset(parts + [pad, live])[part] ==
      multiset(parts)[part] + (if part == pad then 1 else 0) + if part == live then 1 else 0
    {
      CountOfTwo(pad, live, part);
    }
  }

  /** Freeing a live part. */
  lemma FreePart(free: FreeList, parts: seq<Part>, i: nat, from: nat, to: nat)
    requires Tiles(parts, from, to) && ListsFree(free, parts) && i < |parts| && parts[i].use == Live
    ensures var (base, size) := (parts[i].base, parts[i].size);
            var after := Replace(parts, i, [Part(base, size, Free)]);
            && Tiles(after, from, to) && ListsFree(Push(free, size, base), after)
            && AddsLive(after, parts, Allocation(base, size)) && (OnLines(parts) ==> OnLines(after))
  {
    hide Listed, Push, Replace, OnLines;
    var freed := Part(parts[i].base, parts[i].size, Free);
    var after := Replace(parts, i, [freed]);
    assert [freed][..0] == [];
    ReplaceTiles(parts, i, [freed], from, to);
    if OnLines(parts) {
      PieceOnLines(parts, i, freed);
      ReplaceOnLines(parts, i, [freed]);
    }
    forall part: Part ensures multiset(after)[part] ==
      multiset(parts)[part] - (if part == parts[i] then 1 else 0) + if part == freed then 1 else 0
    {
      ReplaceCounts(parts, i, [freed], part);
    }
    forall s: nat, b: nat
      ensures multiset(Listed(Push(free, freed.size, freed.base), s))[b] == multiset(after)[Part(b, s, Free)]
    {
      PushListed(free, freed.size, freed.base, s, b);
    }
  }

  class ZoneAllocator {
    const allocator: AreaAllocator
    var freeList: FreeList
    ghost var parts: seq<Part>

    ghost predicate Valid()
      reads this, allocator
    {
      && allocator.Valid() && Tiles(parts, allocator.hostBase, allocator.Top())
      && ListsFree(freeList, parts) && (allocator.base == 0 ==> parts == [])
    }

    constructor (pageSize: nat, hostBase: nat)
      requires 0 < pageSize && 0 < hostBase
      ensures Valid() && fresh(allocator) && parts == [] && allocator.hostBase == hostBase
    {
      allocator := new AreaAllocator(pageSize, hostBase);
      freeList, parts := map[], [];
    }

    /** The smallest size on the free list that is large enough, even if no block of it is left. */
    method LowerBound(size: nat) returns (found: bool, key: nat)
      ensures found <==> exists k <- freeList :: size <= k
      ensures found ==> key in freeList && size <= key && forall k <- freeList | size <= k :: key <= k
    {
      found, key := false, 0;
      var rest := freeList.Keys;
      ghost var seen: set<nat> := {};
      while rest != {}
        invariant seen + rest == freeList.Keys
        invariant found ==> key in seen && size <= key
        invariant forall k <- seen | size <= k :: found && key <= k
        decreases rest
      {
        var k :| k in rest;
        rest := rest - {k};
        seen := seen + {k};
        if size <= k && (!found || k < key) {
          found, key := true, k;
        }
      }
    }

    /** A new block from the area. */
    method AllocateNew(size: nat) returns (alloc: Allocation)
      requires Valid()
      modifies this`parts, allocator
      ensures Valid() && alloc.size == size && AddsLive(old(parts), parts, alloc)
      ensures old(allocator.Top()) <= alloc.base && allocator.Top() == alloc.base + size
      ensures allocator.hostBase <= alloc.base && alloc.base + size <= allocator.limit
      ensures forall a <- old(allocator.contents) ::
        a in allocator.contents && allocator.contents[a] == old(allocator.contents)[a]
      ensures old(OnLines(parts)) && size % CACHE_LINE == 0 ==> OnLines(parts)
    {
      hide Tiles, ListsFree, OnLines, AddsLive, IsMultiple;
      ghost var top := allocator.Top();
      var block := allocator.Allocate(size, CACHE_LINE);
      MultipleOfLine(block);
      AppendPart(freeList, parts, block, size, allocator.hostBase, top);
      parts := parts + [Part(top, block - top, Padding), Part(block, size, Live)];
      alloc := Allocation(block, size);
    }

    /** The last freed block of a size, or the upper end of it if it is much larger than needed. */
    method Recycle(key: nat, size: nat) returns (alloc: Allocation)
      requires Valid() && size <= key && Listed(freeList, key) != []
      modifies this
      ensures Valid() && AddsLive(old(parts), parts, alloc)
      ensures IsRecycled(old(freeList), key, size, alloc)
      ensures allocator.hostBase <= alloc.base && alloc.base + alloc.size <= allocator.limit
      ensures old(OnLines(parts)) && size % CACHE_LINE == 0 ==> OnLines(parts)
    {
      hide Tiles, ListsFree, OnLines, AddsLive, SplitPieces, Replace;
      ghost var i := ListedPart(freeList, parts, key);
      ghost var part := parts[i];
      ReusePart(freeList, parts, i, allocator.hostBase, allocator.Top());
      SplitPart(freeList, parts, i, size, allocator.hostBase, allocator.Top());
      TilesAround(parts, i, allocator.hostBase, allocator.Top());
      var listed := freeList[key];
      var base := listed[|listed| - 1];
      freeList := freeList[key := listed[..|listed| - 1]];
      var diff := key - size;
      if diff > SPLIT_SIZE {
        freeList := freeList[diff := Listed(freeList, diff) + [base]];
        parts := Replace(parts, i, SplitPieces(part, size));
        alloc := Allocation(base + diff, size);
      } else {
        parts := Replace(parts, i, [Part(base, key, Live)]);
        alloc := Allocation(base, key);
      }
    }

    /** Hands out a zeroed block of at least `size` bytes; no other byte changes. */
    method Allocate(size: nat) returns (alloc: Allocation)
      requires Valid()
      modifies this, allocator
      ensures Valid() && AddsLive(old(parts), parts, alloc)
      ensures size <= alloc.size <= size + SPLIT_SIZE
      ensures old(HasRoom(freeList, size)) ==>
        exists key :: IsBest(old(freeList), size, key) && IsRecycled(old(freeList), key, size, alloc)
      ensures if old(HasRoom(freeList, size)) then allocator.Top() == old(allocator.Top())
              else alloc.size == size && old(allocator.Top()) <= alloc.base && allocator.Top() == alloc.base + size
      ensures Zeroed(allocator.contents, alloc.base, alloc.base + size)
      ensures SameOutside(old(allocator.contents), allocator.contents, alloc.base, alloc.base + size)
      ensures old(OnLines(parts)) && size % CACHE_LINE == 0 ==> OnLines(parts)
    {
      hide Tiles, ListsFree, OnLines, AddsLive;
      var found, key := LowerBound(size);
      if found && freeList[key] != [] {
        alloc := Recycle(key, size);
      } else {
        alloc := AllocateNew(size);
      }
      Zero(alloc.base, size);
    }

    method Zero(base: nat, size: nat)
      requires Valid() && allocator.hostBase <= base && base + size <= allocator.limit
      modifies allocator`contents
      ensures Valid() && Zeroed(allocator.contents, base, base + size)
      ensures SameOutside(old(allocator.contents), allocator.contents, base, base + size)
    {
      hide Tiles, ListsFree;
      for a := base to base + size
        invariant allocator.contents.Keys == old(allocator.contents).Keys
        invariant Zeroed(allocator.contents, base, a)
        invariant SameOutside(old(allocator.contents), allocator.contents, base, a)
      {
        allocator.contents := allocator.contents[a := 0];
      }
    }

    /** Puts a block back on the list for its size. */
    method FreeBlock(alloc: Allocation) returns (reset: Allocation)
      requires Valid() && (alloc.base != 0 ==> Part(alloc.base, alloc.size, Live) in parts)
      modifies this
      ensures Valid() && reset == Allocation(0, 0)
      ensures if alloc.base == 0 then parts == old(parts) else AddsLive(parts, old(parts), alloc)
      ensures old(OnLines(parts)) ==> OnLines(parts)
    {
      hide Tiles, ListsFree, OnLines, AddsLive, Replace;
      if alloc.base != 0 {
        ghost var i :| 0 <= i < |parts| && parts[i] == Part(alloc.base, alloc.size, Live);
        FreePart(freeList, parts, i, allocator.hostBase, allocator.Top());
        freeList := freeList[alloc.size := Listed(freeList, alloc.size) + [alloc.base]];
        parts := Replace(parts, i, [Part(alloc.base, alloc.size, Free)]);
      }
      reset := Allocation(0, 0);
    }

    /** At any time, live, free and skipped bytes add up to what has been handed out by the area. */
    lemma Conserved()
      requires Valid()
      ensures Total(parts, Live) + Total(parts, Free) + Total(parts, Padding) == allocator.Top() - allocator.hostBase
      ensures forall i, j | 0 <= i < j < |parts| :: parts[i].base + parts[i].size <= parts[j].base
      ensures forall p <- parts :: allocator.hostBase <= p.base && p.base + p.size <= allocator.Top()
    {
      BytesAreConserved(parts, allocator.hostBase, allocator.Top());
      PartsAreDisjoint(parts, allocator.hostBase, allocator.Top());
    }
  }

  lemma MultipleOfLine(a: nat)
    ensures IsMultiple(a, CACHE_LINE) ==> a % CACHE_LINE == 0
  {
    if IsMultiple(a, CACHE_LINE) {
      var k: nat :| Times(k, CACHE_LINE) == a;
      assert a == k * 64;
    }
  }
}
