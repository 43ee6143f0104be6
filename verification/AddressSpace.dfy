/** An emulated address space: a tiling of ranges behind a page index and two range caches. */
module AddressSpaces {
  import opened Options
  import opened Pages
  import opened MappedRanges
  import opened Tiling
  import opened RangeCache
  import opened RangeLists
  import opened ByteAccess

  /** The ranges of a tiling do not overlap, so each is in the list once. */
  lemma RangesAreApart(maps: seq<MappedRange>, roots: set<MappedRange>)
    requires RangesOk(maps, roots) && Disjoint(Views(maps, roots))
    ensures NoDuplicates(maps)
    ensures forall r, s | r in maps && s in maps && r != s :: r.limit <= s.base || s.limit <= r.base
  {
    hide MappedRange.Bytes;
    var vs := Views(maps, roots);
    assert forall i | 0 <= i < |maps| :: vs[i].base == maps[i].base && vs[i].limit == maps[i].limit && vs[i].Proper();
  }

  /** An index built from disjoint ranges is a good one to cache. */
  lemma IndexIsGood(index: Index, maps: seq<MappedRange>, pages: set<nat>)
    requires Indexes(index, maps, pages)
    requires forall r, s | r in maps && s in maps && r != s :: r.limit <= s.base || s.limit <= r.base
    ensures GoodIndex(index)
  {
  }

  /** Reordering ranges does not change what is in them, and sorting disjoint ranges orders them. */
  lemma SortedViews(maps: seq<MappedRange>, sorted: seq<MappedRange>, roots: set<MappedRange>)
    requires RangesOk(maps, roots) && Disjoint(Views(maps, roots))
    requires ByBase(sorted) && NoDuplicates(sorted) && forall r :: r in sorted <==> r in maps
    ensures RangesOk(sorted, roots) && Ordered(Views(sorted, roots))
    ensures forall v :: v in Views(sorted, roots) <==> v in Views(maps, roots)
  {
    hide MappedRange.Bytes;
    assert RangesOk(sorted, roots);
    RangesAreApart(maps, roots);
    SameViews(maps, sorted, roots);
    SameViews(sorted, maps, roots);
    forall i, j | 0 <= i < j < |sorted| ensures sorted[i].limit <= sorted[j].base {
      assert sorted[i] in maps && sorted[j] in maps && sorted[i] != sorted[j];
      assert sorted[i].Ok() && sorted[j].Ok();
    }
  }

  lemma SameViews(maps: seq<MappedRange>, others: seq<MappedRange>, roots: set<MappedRange>)
    requires RangesOk(maps, roots) && RangesOk(others, roots) && forall r <- maps :: r in others
    ensures forall v <- Views(maps, roots) :: v in Views(others, roots)
  {
    hide MappedRange.Bytes;
    forall v <- Views(maps, roots) ensures v in Views(others, roots) {
      var i :| 0 <= i < |maps| && Views(maps, roots)[i] == v;
      assert maps[i] in maps;
      var j :| 0 <= j < |others| && others[j] == maps[i];
      assert Views(others, roots)[j] == v;
    }
  }

  /** What the search for a hole finds at one range: nothing, nothing here or below, or a place. */
  datatype Room = NotHere | Below | At(start: nat)

  class AddressSpace {
    /** One less than the number of addresses; the last address is never mapped. */
    const mask: nat

    /** The sentinel: an invalid range that stands for all unmapped memory. */
    const invalid: MappedRange

    const cache: array<MappedRange?>
    const wnxCache: array<MappedRange?>

    var maps: seq<MappedRange>
    var pageToMap: Index
    var wnxPageToMap: Index
    var readable: set<nat>
    var writable: set<nat>
    var executable: set<nat>

    /** The shared arrays behind this space's copy-on-write ranges. */
    ghost var roots: set<MappedRange>

    /** The ranges as values. */
    ghost var views: seq<Extent>

    /** Addresses wrap at the size of the space. */
    function Masked(address: nat): (a: nat)
      ensures a <= mask && (address <= mask ==> a == address)
    {
      address % (mask + 1)
    }

    /** Pages with some permission: these are indexed, and can be read. */
    function Accessible(): set<nat>
      reads this`readable, this`writable, this`executable
    {
      readable + writable + executable
    }

    /** Pages that the fast path for writes is for. */
    function WritableOnly(): set<nat>
      reads this`writable, this`executable
    {
      writable - executable
    }

    ghost predicate MapsOk()
      reads this, maps, roots
    {
      RangesOk(maps, roots) && OnPages(maps) && views == Views(maps, roots) && Tiled(views, mask)
    }

    ghost predicate CachesAllocated() {
      cache != wnxCache && cache.Length == wnxCache.Length == CACHE_SIZE + 1
    }

    ghost predicate LookupsOk()
      reads this`maps, this`pageToMap, this`wnxPageToMap, this`readable, this`writable, this`executable
      reads cache, wnxCache
    {
      && Indexes(pageToMap, maps, Accessible()) && Fresh(cache[..], pageToMap)
      && Indexes(wnxPageToMap, maps, WritableOnly()) && Fresh(wnxCache[..], wnxPageToMap)
    }

    ghost predicate Valid()
      reads this, cache, wnxCache, invalid, maps, roots
    {
      && 0 < mask < ADDRESS_LIMIT && IsPage(mask + 1)
      && !invalid.valid && invalid.parent == null && invalid.Ok() && invalid !in roots
      && CachesAllocated()
      && MapsOk()
      && LookupsOk()
    }

    /** The plain address-to-byte map that this space implements. */
    ghost function Memory(): map<nat, Byte>
      reads this`views
    {
      if AllProper(views) then Tiling.Memory(views) else map[]
    }

    /** Each valid range is accessible as a whole or not at all. */
    ghost predicate UniformAccess()
      reads this`views, this`readable, this`writable, this`executable
    {
      UniformIn(views, Accessible())
    }

    /** Each valid range is writable and not executable as a whole, or nowhere. */
    ghost predicate UniformWrites()
      reads this`views, this`writable, this`executable
    {
      UniformIn(views, WritableOnly())
    }

    /** A valid range with a page that is writable and not executable is writable as a whole. */
    ghost predicate CheckedWrites()
      reads this`views, this`writable, this`executable
    {
      CheckedIn(views, WritableOnly(), writable)
    }

    constructor (mask: nat)
      requires 0 < mask < ADDRESS_LIMIT && IsPage(mask + 1)
      ensures Valid() && fresh(cache) && fresh(wnxCache) && fresh(invalid)
      ensures this.mask == mask && Memory() == map[] && roots == {}
      ensures forall r <- maps :: fresh(r) && r.base == 0
      ensures readable == writable == executable == {}
    {
      hide *;
      var sentinel := new MappedRange.CreateInvalid(0, mask, 0);
      this.mask, invalid := mask, sentinel;
      cache := new MappedRange?[CACHE_SIZE + 1](i => null);
      wnxCache := new MappedRange?[CACHE_SIZE + 1](i => null);
      roots := {};
      new;
      Start();
    }

    /** The initial map list: one invalid range for the whole space. */
    method Start()
      requires 0 < mask < ADDRESS_LIMIT && IsPage(mask + 1)
      requires cache != wnxCache && cache.Length == wnxCache.Length == CACHE_SIZE + 1
      requires !invalid.valid && invalid.parent == null && invalid.Ok() && roots == {}
      requires invalid.base == 0 && invalid.limit == mask
      modifies this, cache, wnxCache
      ensures Valid() && Memory() == map[] && roots == {}
      ensures forall r :: r in maps <==> r == invalid
      ensures readable == writable == executable == {}
    {
      hide MappedRange.Ok, MappedRange.View, LookupsOk, Tiling.Memory, Ordered, CoversExactly, AllProper, Disjoint,
           RangesOk, Views, OnPages;
      ghost var v := invalid.View();
      OneInvalidRange(v);
      OneRange(invalid);
      CreatePageToRangeMap([invalid], {}, {}, {});
      Reordered([v], views, mask);
    }

    // -------------------------------------------------------------- changing the map list

    /** Installs a new map list and permissions with their page indexes, and drops both caches. */
    method Install(maps: seq<MappedRange>, pageToMap: Index, wnxPageToMap: Index,
                   readable: set<nat>, writable: set<nat>, executable: set<nat>, ghost views: seq<Extent>)
      requires CachesAllocated()
      requires Indexes(pageToMap, maps, readable + writable + executable)
      requires Indexes(wnxPageToMap, maps, writable - executable)
      modifies this, cache, wnxCache
      ensures this.maps == maps && this.views == views && roots == old(roots)
      ensures this.readable == readable && this.writable == writable && this.executable == executable
      ensures LookupsOk()
    {
      hide Indexes;
      for i := 0 to cache.Length
        modifies cache, wnxCache
        invariant forall j | 0 <= j < i :: cache[j] == wnxCache[j] == null
      {
        cache[i], wnxCache[i] := null, null;
      }
      this.maps, this.pageToMap, this.wnxPageToMap := maps, pageToMap, wnxPageToMap;
      this.readable, this.writable, this.executable := readable, writable, executable;
      this.views := views;
    }

    /** Sorts a new map list, indexes its pages under the given permissions and installs it all. */
    method CreatePageToRangeMap(unsorted: seq<MappedRange>,
                                readable: set<nat>, writable: set<nat>, executable: set<nat>)
      requires CachesAllocated()
      requires RangesOk(unsorted, roots) && OnPages(unsorted) && Disjoint(Views(unsorted, roots))
      modifies this, cache, wnxCache
      ensures LookupsOk() && roots == old(roots)
      ensures this.readable == readable && this.writable == writable && this.executable == executable
      ensures forall r :: r in maps <==> r in unsorted
      ensures RangesOk(maps, roots) && OnPages(maps) && views == Views(maps, roots) && Ordered(views)
      ensures forall v :: v in views <==> v in old(Views(unsorted, roots))
    {
      hide MappedRange.Bytes, MappedRange.Ok, Disjoint, Ordered, Indexes, IsPage;
      RangesAreApart(unsorted, roots);
      var sorted := SortByBase(unsorted);
      SortedViews(unsorted, sorted, roots);
      var index := BuildIndex(sorted, readable + writable + executable);
      var wnxIndex := BuildIndex(sorted, writable - executable);
      Install(sorted, index, wnxIndex, readable, writable, executable, Views(sorted, roots));
    }

    /** Changes the permissions of all pages of [start, start + size), whatever is mapped there. */
    method SetPermissions(start: nat, size: nat, canRead: bool, canWrite: bool, canExec: bool)
      requires Valid()
      requires size + PAGE_SIZE <= ADDRESS_LIMIT
      requires AlignDownToPage(start) + RoundUpToPage(size) < ADDRESS_LIMIT
      modifies this, cache, wnxCache
      ensures Valid() && roots == old(roots)
      ensures forall r :: r in maps <==> r in old(maps)
      ensures Memory() == old(Memory())
      ensures var base := AlignDownToPage(start);
              var pages := PagesOf(base, base + RoundUpToPage(size));
              && readable == Grant(old(readable), pages, canRead)
              && writable == Grant(old(writable), pages, canWrite)
              && executable == Grant(old(executable), pages, canExec)
      ensures old(UniformAccess()) ==>
        var base := AlignDownToPage(start);
        UniformAccess() <==>
        KeepsUniform(old(views), old(Accessible()), base, base + RoundUpToPage(size), canRead || canWrite || canExec)
      ensures old(UniformWrites()) ==>
        var base := AlignDownToPage(start);
        UniformWrites() <==>
        KeepsUniform(old(views), old(WritableOnly()), base, base + RoundUpToPage(size), canWrite && !canExec)
    {
      hide MappedRange.Ok, RangesOk, Views, OnPages, LookupsOk, Tiling.Memory, Ordered, CoversExactly, AllProper, Grant,
           UniformIn, KeepsUniform;
      ghost var before := views;
      var base := AlignDownToPage(start);
      var limit := base + RoundUpToPage(size);
      var reads_ := GrantPages(readable, base, limit, canRead);
      var writes := GrantPages(writable, base, limit, canWrite);
      var executes := GrantPages(executable, base, limit, canExec);
      OrderedIsDisjoint(before);
      ProtectedUniform(before, readable, writable, executable, base, limit, canRead, canWrite, canExec);
      CreatePageToRangeMap(maps, reads_, writes, executes);
      Reordered(before, views, mask);
      SameUniform(before, views, reads_ + writes + executes);
      SameUniform(before, views, writes - executes);
    }

    /** No map starts inside [base, limit), after its base, and ends beyond it. */
    predicate StraddlesNoMap(base: nat, limit: nat)
      reads this`maps
    {
      forall r <- maps :: !(base < r.base < limit < r.limit)
    }

    lemma StraddlesNoMapIsNoStraddle(base: nat, limit: nat)
      requires MapsOk()
      ensures StraddlesNoMap(base, limit) <==> NoStraddle(views, base, limit)
    {
      hide MappedRange.Ok, MappedRange.View, Tiled;
      forall i | 0 <= i < |maps| ensures views[i].base == maps[i].base && views[i].limit == maps[i].limit {
      }
      if StraddlesNoMap(base, limit) {
        forall v <- views ensures !Straddles(v, base, limit) {
          var i :| 0 <= i < |views| && views[i] == v;
          assert maps[i] in maps;
        }
      }
      if NoStraddle(views, base, limit) {
        forall r <- maps ensures !(base < r.base < limit < r.limit) {
          var i :| 0 <= i < |maps| && maps[i] == r;
          assert views[i] in views && !Straddles(views[i], base, limit);
        }
      }
    }

    /** Uniform access, said of the maps themselves, which writing does not change. */
    predicate AccessIsUniform()
      reads this`maps, this`readable, this`writable, this`executable
    {
      forall r <- maps | r.valid :: AllOrNone(r, Accessible())
    }

    lemma AccessIsUniformIff()
      requires MapsOk()
      ensures AccessIsUniform() <==> UniformAccess()
    {
      hide MappedRange.Bytes, MappedRange.Ok, MappedRange.View, Tiled, IsPage;
      MapsUniformIff(maps, roots, views, Accessible());
    }

    /** A map or unmap step: takes the new range's interval out of the list and adds the range. */
    method Splice(range: MappedRange, canAccess: bool)
      requires Valid()
      requires range.Ok() && RangesOk([range], roots)
      requires IsPage(range.base) && IsPage(range.limit) && range.limit <= mask
      requires NoStraddle(views, range.base, range.limit)
      modifies this, cache, wnxCache
      ensures Valid() && roots == old(roots)
      ensures forall r <- maps :: r == range || r in old(maps) || fresh(r)
      ensures range.View() in views
      ensures Memory() == Overlay(old(Memory()), range.View())
      ensures old(UniformAccess()) ==> UniformAccess()
      ensures old(UniformWrites()) ==> UniformWrites()
      ensures old(CheckedWrites()) ==> CheckedWrites()
      ensures var pages := PagesOf(range.base, range.limit);
              && readable == Grant(old(readable), pages, canAccess)
              && writable == Grant(old(writable), pages, canAccess)
              && executable == Grant(old(executable), pages, false)
    {
      hide MappedRange.Ok, RangesOk, Views, OnPages, LookupsOk, Tiling.Memory, Ordered,
           CoversExactly, AllProper, Grant, RemoveRange, NoStraddle, Overlay, UniformIn, CheckedIn;
      ghost var before, added := views, range.View();
      var reads_ := GrantPages(readable, range.base, range.limit, canAccess);
      var writes := GrantPages(writable, range.base, range.limit, canAccess);
      var executes := GrantPages(executable, range.base, range.limit, false);
      var unsorted := RemoveAndAdd(maps, roots, range);
      ghost var spliced := Views(unsorted, roots);
      CreatePageToRangeMap(unsorted, reads_, writes, executes);
      SplicedTiles(before, added, spliced, views, mask);
      GrantedAccess(old(readable), old(writable), old(executable), PagesOf(range.base, range.limit),
                    canAccess, canAccess, false);
      SplicedUniform(before, added, spliced, views, old(Accessible()), canAccess);
      SplicedUniform(before, added, spliced, views, old(WritableOnly()), canAccess);
      SplicedChecked(before, added, spliced, views, old(WritableOnly()), old(writable), canAccess);
    }

    /** Maps zeroed, readable and writable memory. */
    method AddMap(start: nat, size: nat, offset: nat)
      requires Valid() && 0 < size && size + PAGE_SIZE <= ADDRESS_LIMIT
      requires AlignDownToPage(start) + RoundUpToPage(size) <= mask
      requires NoStraddle(views, AlignDownToPage(start), AlignDownToPage(start) + RoundUpToPage(size))
      modifies this, cache, wnxCache
      ensures Valid() && roots == old(roots)
      ensures forall r <- maps :: r in old(maps) || fresh(r)
      ensures var base := AlignDownToPage(start);
              var n := RoundUpToPage(size);
              var pages := PagesOf(base, base + n);
              && Extent(base, base + n, true, offset - base, Zeroes(n)) in views
              && Memory() == Overlay(old(Memory()), Extent(base, base + n, true, offset - base, Zeroes(n)))
              && readable == Grant(old(readable), pages, true)
              && writable == Grant(old(writable), pages, true)
              && executable == Grant(old(executable), pages, false)
      ensures old(UniformAccess()) ==> UniformAccess()
      ensures old(UniformWrites()) ==> UniformWrites()
      ensures old(CheckedWrites()) ==> CheckedWrites()
    {
      hide NoStraddle, UniformAccess, UniformWrites, CheckedWrites, MapsOk, LookupsOk, Tiling.Memory, Overlay, Grant;
      var base := AlignDownToPage(start);
      var range := new MappedRange.Create(base, base + RoundUpToPage(size), offset);
      Splice(range, true);
    }

    /** Unmaps memory. */
    method RemoveMap(start: nat, size: nat)
      requires Valid() && 0 < size && size + PAGE_SIZE <= ADDRESS_LIMIT
      requires AlignDownToPage(start) + RoundUpToPage(size) <= mask
      requires NoStraddle(views, AlignDownToPage(start), AlignDownToPage(start) + RoundUpToPage(size))
      modifies this, cache, wnxCache
      ensures Valid() && roots == old(roots)
      ensures forall r <- maps :: r in old(maps) || fresh(r)
      ensures var base := AlignDownToPage(start);
              var n := RoundUpToPage(size);
              var pages := PagesOf(base, base + n);
              && Extent(base, base + n, false, 0 - base, []) in views
              && Memory() == Overlay(old(Memory()), Extent(base, base + n, false, 0 - base, []))
              && readable == Grant(old(readable), pages, false)
              && writable == Grant(old(writable), pages, false)
              && executable == Grant(old(executable), pages, false)
      ensures old(UniformAccess()) ==> UniformAccess()
      ensures old(UniformWrites()) ==> UniformWrites()
      ensures old(CheckedWrites()) ==> CheckedWrites()
    {
      hide NoStraddle, UniformAccess, UniformWrites, CheckedWrites, MapsOk, LookupsOk, Tiling.Memory, Overlay, Grant;
      var base := AlignDownToPage(start);
      var range := new MappedRange.CreateInvalid(base, base + RoundUpToPage(size), 0);
      Splice(range, false);
    }

    // -------------------------------------------------------------- finding ranges

    /** What the invariant says about the page indexes: answers are valid ranges of whole pages that are in memory. */
    lemma IndexedRanges()
      requires Valid()
      ensures GoodIndex(pageToMap) && GoodIndex(wnxPageToMap)
      ensures forall r <- pageToMap.Values :: r in maps && r.valid
      ensures forall r <- wnxPageToMap.Values :: r in maps && r.valid
      ensures Backed(Memory(), pageToMap) && Backed(Memory(), wnxPageToMap)
    {
      hide MappedRange.Bytes, MappedRange.Ok, CoversExactly, IsPage, Tiling.Memory;
      OrderedIsDisjoint(views);
      RangesAreApart(maps, roots);
      IndexIsGood(pageToMap, maps, Accessible());
      IndexIsGood(wnxPageToMap, maps, WritableOnly());
      forall r <- maps, a: nat | r.valid && r.Contains(a) ensures a in Memory() {
        RangeInMemory(r, a);
      }
    }

    /** A valid range's bytes are what memory holds at its addresses. */
    lemma RangeInMemory(r: MappedRange, a: nat)
      requires MapsOk() && r in maps && r.valid && r.Contains(a)
      ensures r.Ok() && a in Memory() && Memory()[a] == r.Bytes()[a - r.base]
    {
      hide MappedRange.Bytes, CoversExactly, Tiling.Memory, Ordered, OnPages, MappedRange.Ok;
      var j :| 0 <= j < |maps| && maps[j] == r;
      assert r.Ok() && views[j] == r.View();
      MemoryAt(views, j, a);
    }

    lemma RangeIsOk(r: MappedRange)
      requires MapsOk() && r in maps
      ensures r.Ok()
    {
      hide MappedRange.Ok, Tiled, OnPages;
    }

    lemma RangeBytes(r: MappedRange)
      requires MapsOk() && r in maps && r.valid
      ensures r.Ok() && |r.Bytes()| == r.limit - r.base
      ensures forall a: nat | r.base <= a < r.limit :: a in Memory() && Memory()[a] == r.Bytes()[a - r.base]
    {
      hide MapsOk, Memory, MappedRange.Ok, MappedRange.Bytes;
      RangeIsOk(r);
      forall a: nat | r.base <= a < r.limit ensures a in Memory() && Memory()[a] == r.Bytes()[a - r.base] {
        RangeInMemory(r, a);
      }
    }

    /** The one valid range that holds the address. */
    ghost predicate IsRangeOf(r: MappedRange, a: nat)
      reads this`maps
    {
      r in maps && r.valid && r.Contains(a) && forall s <- maps | s.valid && s.Contains(a) :: s == r
    }

    /** What a scan of the maps for a page with one of the given permissions finds. */
    ghost predicate IsScan(r: MappedRange, page: nat, pages: set<nat>)
      reads this`maps
    {
      if page in pages && exists s <- maps :: s.valid && s.Contains(page) then IsRangeOf(r, page) else r == invalid
    }

    /** A lookup is never stale, and is a scan of the maps if the index is uniform. */
    lemma LookupScans(cache: Cache, index: Index, pages: set<nat>, page: nat)
      requires Valid() && Fresh(cache, index) && GoodIndex(index) && Indexes(index, maps, pages)
      ensures var r := Lookup(cache, index, invalid, page).0;
              && (r == invalid || IsRangeOf(r, page))
              && (IsPage(page) && Uniform(index) ==> IsScan(r, page, pages))
    {
      hide LookupsOk, Lookup, Tiled, IsPage, RangesOk, Views, OnPages, Fresh, GoodIndex;
      MapsAreApart();
      LookupIsFresh(cache, index, invalid, page);
    }

    /**
     * Finds the range of a page: the sentinel, or the one valid range that holds it. With uniform
     * access it is what a scan of the maps finds.
     */
    method FindRangeAligned(page: nat) returns (r: MappedRange)
      requires Valid()
      modifies cache
      ensures Valid()
      ensures (r, cache[..]) == Lookup(old(cache[..]), pageToMap, invalid, page)
      ensures r == invalid || IsRangeOf(r, page)
      ensures IsPage(page) && UniformAccess() ==> IsScan(r, page, Accessible())
    {
      hide MapsOk, Lookup, Indexes, GoodIndex, Backed, MappedRange.Ok, IsPage, IsRangeOf, IsScan, UniformAccess,
           Uniform;
      IndexedRanges();
      IndexesAreUniformIff();
      LookupIsFresh(cache[..], pageToMap, invalid, page);
      LookupScans(cache[..], pageToMap, Accessible(), page);
      r := FindIn(cache, pageToMap, page);
    }

    /** The same for pages that are writable and not executable. */
    method FindWnxRangeAligned(page: nat) returns (r: MappedRange)
      requires Valid()
      modifies wnxCache
      ensures Valid()
      ensures (r, wnxCache[..]) == Lookup(old(wnxCache[..]), wnxPageToMap, invalid, page)
      ensures r == invalid || IsRangeOf(r, page)
      ensures IsPage(page) && UniformWrites() ==> IsScan(r, page, WritableOnly())
    {
      hide MapsOk, Lookup, Indexes, GoodIndex, Backed, MappedRange.Ok, IsPage, IsRangeOf, IsScan, UniformWrites,
           Uniform;
      IndexedRanges();
      IndexesAreUniformIff();
      LookupIsFresh(wnxCache[..], wnxPageToMap, invalid, page);
      LookupScans(wnxCache[..], wnxPageToMap, WritableOnly(), page);
      r := FindIn(wnxCache, wnxPageToMap, page);
    }

    method FindIn(cache: array<MappedRange?>, index: Index, page: nat) returns (r: MappedRange)
      requires cache.Length == CACHE_SIZE + 1
      modifies cache
      ensures (r, cache[..]) == Lookup(old(cache[..]), index, invalid, page)
    {
      if cache[CACHE_SIZE] != null && cache[CACHE_SIZE].Contains(page) {
        return cache[CACHE_SIZE];
      }
      var slot := Slot(page);
      if cache[slot] != null && cache[slot].Contains(page) {
        cache[CACHE_SIZE] := cache[slot];
        return cache[slot];
      }
      if page in index {
        cache[CACHE_SIZE] := index[page];
        cache[slot] := index[page];
        return index[page];
      }
      return invalid;
    }

    // -------------------------------------------------------------- reading

    /** What the page loop reads from [a, end), and the cache it leaves behind. */
    ghost function LoopReads(a: nat, end: nat): (Option<seq<Byte>>, Cache)
      requires Valid()
      reads this, cache, wnxCache, invalid, maps, roots
    {
      IndexedRanges();
      LoopRead(Memory(), pageToMap, invalid, cache[..], a, end)
    }

    /** Reads [a, stop) from a range that holds it. */
    method ReadRange(r: MappedRange, a: nat, stop: nat) returns (bytes: seq<Byte>)
      requires MapsOk() && r in maps && r.valid && r.base <= a <= stop <= r.limit
      ensures forall b | a <= b < stop :: b in Memory()
      ensures bytes == Slice(Memory(), a, stop)
    {
      hide *;
      RangeBytes(r);
      bytes := r.ReadBytes(a, stop);
    }

    /** Reads the part of [a, end) that is on the first page. */
    method ReadPage(a: nat, end: nat) returns (ok: bool, bytes: seq<Byte>)
      requires Valid() && a < end
      modifies cache
      ensures Valid()
      ensures ok ==> old(LoopReads(a, end)) == Prepend(bytes, LoopReads(PageEnd(a, end), end))
      ensures !ok ==> old(LoopReads(a, end)) == (None, cache[..])
    {
      hide MapsOk, LookupsOk, AlignDownToPage, PageEnd, GoodIndex, Lookup, Tiling.Memory, IsPage, MappedRange.Ok,
           Backed;
      IndexedRanges();
      FoundRange(a);
      var r := FindRangeAligned(AlignDownToPage(a));
      ok, bytes := r.valid, [];
      if ok {
        PageIsBacked(Memory(), pageToMap, r, a, end);
        bytes := ReadRange(r, a, PageEnd(a, end));
      }
    }

    /** The range found for the page of `a`: the sentinel, or a valid range of the list that holds the page. */
    lemma FoundRange(a: nat)
      requires Valid()
      ensures |cache[..]| == CACHE_SIZE + 1
      ensures var (r, cache') := Lookup(cache[..], pageToMap, invalid, AlignDownToPage(a));
              && Fresh(cache', pageToMap)
              && (r.valid ==> r in pageToMap.Values && r in maps && r.Contains(AlignDownToPage(a)))
              && (!r.valid ==> AlignDownToPage(a) !in pageToMap)
    {
      hide MapsOk, AlignDownToPage, Lookup, Tiling.Memory, IsPage, MappedRange.Ok, Indexes;
      IndexedRanges();
      LookupIsFresh(cache[..], pageToMap, invalid, AlignDownToPage(a));
    }

    /** Reads `size` bytes, page by page. */
    method TryReadBytes(address: nat, size: nat) returns (result: Option<seq<Byte>>)
      requires Valid() && Masked(address) + size + PAGE_SIZE <= ADDRESS_LIMIT
      modifies cache
      ensures Valid()
      ensures var a := Masked(address);
              (result, cache[..]) == old(LoopReads(a, a + size))
    {
      hide MapsOk, LookupsOk, MappedRange.Ok, IsPage, Memory, Masked;
      var a := Masked(address);
      var end := a + size;
      var bytes: seq<Byte> := [];
      ghost var before := LoopReads(a, end);
      PrependNothing(before);
      while a < end
        invariant Valid()
        invariant before == Prepend(bytes, LoopReads(a, end))
      {
        var ok, chunk := ReadPage(a, end);
        if !ok {
          return None;
        }
        a := PageEnd(a, end);
        PrependTwice(bytes, chunk, LoopReads(a, end));
        bytes := bytes + chunk;
      }
      assert bytes + [] == bytes;
      result := Some(bytes);
    }

    /**
     * Reads a 2, 4 or 8 byte value: directly when it lies within one page of one range, by the page
     * loop otherwise. The result and the cache are the page loop's in every case.
     */
    method TryRead(address: nat, size: nat) returns (result: Option<nat>)
      requires Valid() && 0 < size <= 8 && Masked(address) + size + PAGE_SIZE <= ADDRESS_LIMIT
      modifies cache
      ensures Valid()
      ensures var a := Masked(address);
              var (bytes, cache') := old(LoopReads(a, a + size));
              && cache[..] == cache'
              && result == match bytes case None => None case Some(bs) => Some(LittleEndian(bs))
    {
      var a := Masked(address);
      hide MapsOk, LookupsOk, Masked, AlignDownToPage, PageEnd, GoodIndex, Lookup, Memory, IsPage, MappedRange.Ok,
           Backed, LittleEndian, LoopRead;
      IndexedRanges();
      FoundRange(a);
      ReadStep(a, a + size);
      var r := FindRangeAligned(AlignDownToPage(a));
      if !r.valid {
        return None;
      }
      var last := a + size - 1;
      if r.base <= a && last < r.limit && AlignDownToPage(a) == AlignDownToPage(last) {
        var bytes := ReadRange(r, a, a + size);
        return Some(LittleEndian(bytes));
      }
      assert Masked(a) == a;
      var bytes := TryReadBytes(a, size);
      result := match bytes case None => None case Some(bs) => Some(LittleEndian(bs));
    }

    /** What the page loop does from here, in terms of its first lookup. */
    lemma ReadStep(a: nat, end: nat)
      requires Valid() && a < end && |cache[..]| == CACHE_SIZE + 1
      ensures var (r, cache') := Lookup(cache[..], pageToMap, invalid, AlignDownToPage(a));
              && Fresh(cache', pageToMap) && Backed(Memory(), pageToMap) && GoodIndex(pageToMap)
              && (!r.valid ==> LoopReads(a, end) == (None, cache'))
              && LoopReads(a, end) == LoopRead(Memory(), pageToMap, invalid, cache', a, end)
              && (r.valid && AlignDownToPage(a) == AlignDownToPage(end - 1) ==>
                    && (forall b | a <= b < end :: b in Memory())
                    && LoopReads(a, end) == (Some(Slice(Memory(), a, end)), cache'))
    {
      hide MapsOk, AlignDownToPage, PageEnd, GoodIndex, Lookup, Memory, IsPage, MappedRange.Ok, Backed, Indexes;
      IndexedRanges();
      LoopReadAfterLookup(Memory(), pageToMap, invalid, cache[..], a, end);
      if AlignDownToPage(a) == AlignDownToPage(end - 1) {
        LoopReadOnePage(Memory(), pageToMap, invalid, cache[..], a, end);
      }
    }

    /** A lookup for one of the given pages can find a range, though the page itself may not be one of them. */
    predicate MayBeFound(page: nat, pages: set<nat>)
      reads this`maps
    {
      exists r <- maps :: r.valid && r.Contains(page) && SomePage(r, pages)
    }

    /** Which pages the caches can have a range for, said of the maps themselves. */
    lemma CanBeFoundIff(page: nat)
      requires Valid() && IsPage(page)
      ensures CanBeFound(pageToMap, page) <==> MayBeFound(page, Accessible())
      ensures CanBeFound(wnxPageToMap, page) <==> MayBeFound(page, WritableOnly())
      ensures MayBeFound(page, Accessible()) ==> (page in pageToMap <==> page in Accessible())
    {
      hide MapsOk, LookupsOk, IsPage, MappedRange.Ok, Accessible, WritableOnly, CanBeFound;
      MapsAreApart();
      LookupsAre();
      FoundIff(pageToMap, maps, Accessible(), page);
      FoundIff(wnxPageToMap, maps, WritableOnly(), page);
    }

    lemma LookupsAre()
      requires Valid()
      ensures Indexes(pageToMap, maps, Accessible()) && Indexes(wnxPageToMap, maps, WritableOnly())
    {
      hide MapsOk, Indexes;
    }

    /**
     * If each page of [a, end) is in a map with an accessible page, then all of these pages are
     * accessible themselves.
     */
    predicate ReadIsSure(a: nat, end: nat)
      reads this`maps, this`readable, this`writable, this`executable
    {
      (forall page: nat | AlignDownToPage(a) <= page < end && Touches(a, end, page) :: MayBeFound(page, Accessible()))
      ==> forall page: nat | AlignDownToPage(a) <= page < end && Touches(a, end, page) :: page in Accessible()
    }

    lemma ReadIsSureIff(a: nat, end: nat)
      requires Valid()
      ensures ReadIsSure(a, end) <==> SureRead(pageToMap, a, end)
    {
      hide MapsOk, LookupsOk, IsPage, MappedRange.Ok, Accessible, CanBeFound, MayBeFound, AlignDownToPage;
      forall page: nat | Touches(a, end, page)
        ensures CanBeFound(pageToMap, page) <==> MayBeFound(page, Accessible())
        ensures MayBeFound(page, Accessible()) ==> (page in pageToMap <==> page in Accessible())
      {
        CanBeFoundIff(page);
      }
    }

    /** Reading [a, end) gives what the plain byte map holds, whatever was looked up before. */
    ghost predicate ReadIsAlwaysFlat(a: nat, end: nat)
      requires Valid()
      reads this, cache, wnxCache, invalid, maps, roots
    {
      IndexedRanges();
      forall pages: seq<nat> ::
        CacheStaysFresh(EmptyCache(), pageToMap, invalid, pages);
        LoopRead(Memory(), pageToMap, invalid, CacheAfter(EmptyCache(), pageToMap, invalid, pages), a, end).0
        == FlatRead(Memory(), Accessible(), a, end)
    }

    /** A sure read is that of the plain byte map, whatever is in the cache. */
    lemma SureReadIsFlat(a: nat, end: nat)
      requires Valid() && ReadIsSure(a, end)
      ensures LoopReads(a, end).0 == FlatRead(Memory(), Accessible(), a, end)
      ensures ReadIsAlwaysFlat(a, end)
    {
      hide MapsOk, AlignDownToPage, GoodIndex, Lookup, Memory, IsPage, MappedRange.Ok, Backed, LoopRead, FlatRead,
           SureRead, ReadIsSure;
      IndexedRanges();
      IndexIsFor();
      ReadIsSureIff(a, end);
      LoopReadIsFlatRead(Memory(), Accessible(), pageToMap, invalid, cache[..], a, end);
      forall pages: seq<nat>
        ensures Fresh(CacheAfter(EmptyCache(), pageToMap, invalid, pages), pageToMap)
        ensures LoopRead(Memory(), pageToMap, invalid, CacheAfter(EmptyCache(), pageToMap, invalid, pages), a, end).0
             == FlatRead(Memory(), Accessible(), a, end)
      {
        CacheStaysFresh(EmptyCache(), pageToMap, invalid, pages);
        LoopReadIsFlatRead(Memory(), Accessible(), pageToMap, invalid,
                           CacheAfter(EmptyCache(), pageToMap, invalid, pages), a, end);
      }
    }

    /**
     * A read inside a map that has an accessible page succeeds after a read of that page, whether or
     * not its own pages are accessible.
     */
    lemma StaleRead(r: MappedRange, a: nat, end: nat, page: nat)
      requires Valid() && r in maps && r.valid && r.base <= a && end <= r.limit && SomePage(r, Accessible())
      requires Touches(a, end, page) && page !in Accessible()
      ensures !ReadIsAlwaysFlat(a, end)
    {
      hide MapsOk, LookupsOk, Memory, MappedRange.Ok, Fresh, LoopRead, FlatRead, AlignDownToPage, IsPage,
           GoodIndex, Backed, Touches, Accessible;
      IndexedRanges();
      EmptyCacheIsFresh(pageToMap);
      var known := IndexedPage(r);
      CacheStaysFresh(EmptyCache(), pageToMap, invalid, [known]);
      CachedLast(pageToMap, invalid, known);
      var cache := CacheAfter(EmptyCache(), pageToMap, invalid, [known]);
      RangeEnds(r);
      LastRangeIsRead(Memory(), pageToMap, invalid, cache, r, a, end);
      var bad := ByteOn(a, end, page);
      NothingRead(Memory(), Accessible(), a, end, bad);
    }

    lemma IndexedPage(r: MappedRange) returns (known: nat)
      requires Valid() && r in maps && r.valid && SomePage(r, Accessible())
      ensures known in pageToMap && pageToMap[known] == r
    {
      hide MapsOk, Fresh, MappedRange.Ok, IsPage, Accessible;
      MapsAreApart();
      known :| r.base <= known < r.limit && IsPage(known) && known in Accessible();
      assert r.Contains(known);
    }

    /** Inside one map, the condition for a read to be that of the plain byte map is exact. */
    lemma ReadInMapIff(r: MappedRange, a: nat, end: nat)
      requires Valid() && r in maps && r.valid && r.base <= a < end <= r.limit
      ensures ReadIsAlwaysFlat(a, end) <==> ReadIsSure(a, end)
      ensures ReadIsSure(a, end) <==>
        (SomePage(r, Accessible()) ==> forall page: nat | Touches(a, end, page) :: page in Accessible())
    {
      hide MapsOk, LookupsOk, IsPage, MappedRange.Ok, Accessible, SomePage, AlignDownToPage;
      RangeEnds(r);
      forall page: nat | Touches(a, end, page)
        ensures MayBeFound(page, Accessible()) <==> SomePage(r, Accessible())
      {
        AlignDownStaysAbove(r.base, a);
        OnlyRange(r, page, Accessible());
      }
      NextPage(a, end);
      if ReadIsSure(a, end) {
        SureReadIsFlat(a, end);
      } else {
        var page: nat :| Touches(a, end, page) && page !in Accessible();
        StaleRead(r, a, end, page);
      }
    }

    lemma OnlyRange(r: MappedRange, page: nat, pages: set<nat>)
      requires MapsOk() && r in maps && r.valid && r.Contains(page)
      ensures MayBeFound(page, pages) <==> SomePage(r, pages)
    {
      hide MapsOk, SomePage;
      MapsAreApart();
    }

    lemma FoundFor(page: nat, pages: set<nat>) returns (r: MappedRange)
      requires MayBeFound(page, pages)
      ensures r in maps && r.valid && r.Contains(page) && SomePage(r, pages)
    {
      r :| r in maps && r.valid && r.Contains(page) && SomePage(r, pages);
    }

    /** All pages of [lo, hi) that a lookup can find a range for are accessible. */
    predicate AccessIsUniformOn(lo: nat, hi: nat)
      reads this`maps, this`readable, this`writable, this`executable
    {
      forall page: nat | AlignDownToPage(lo) <= page < hi && Touches(lo, hi, page) && MayBeFound(page, Accessible()) ::
        page in Accessible()
    }

    /** All reads inside [lo, hi) are always those of the plain byte map exactly if access is uniform on it. */
    lemma ReadsWithinAreFlatIff(lo: nat, hi: nat)
      requires Valid()
      ensures (forall a: nat, end: nat | lo <= a && end <= hi :: ReadIsAlwaysFlat(a, end)) <==>
              AccessIsUniformOn(lo, hi)
    {
      hide MapsOk, LookupsOk, IsPage, MappedRange.Ok, Accessible, ReadIsAlwaysFlat, SomePage;
      if AccessIsUniformOn(lo, hi) {
        forall a: nat, end: nat | lo <= a && end <= hi ensures ReadIsAlwaysFlat(a, end) {
          AlignDownGrows(lo, a);
          SureReadIsFlat(a, end);
        }
      } else {
        var page: nat :| Touches(lo, hi, page) && MayBeFound(page, Accessible()) && page !in Accessible();
        var r := FoundFor(page, Accessible());
        var b := ByteOn(lo, hi, page);
        RangeEnds(r);
        PageInside(r.limit, b);
        StaleRead(r, b, b + 1, page);
      }
    }

    /** Whatever was looked up before, reads are those of the plain byte map. */
    ghost predicate ReadsAreAlwaysFlat()
      requires Valid()
      reads this, cache, wnxCache, invalid, maps, roots
    {
      forall a: nat, end: nat :: ReadIsAlwaysFlat(a, end)
    }

    /** With uniform access, every read is sure. */
    lemma UniformReadIsSure(a: nat, end: nat)
      requires MapsOk() && AccessIsUniform()
      ensures ReadIsSure(a, end)
    {
      hide MapsOk, IsPage, Accessible, AlignDownToPage;
      forall page: nat | Touches(a, end, page) && MayBeFound(page, Accessible()) ensures page in Accessible() {
        var r :| r in maps && r.valid && r.Contains(page) && SomePage(r, Accessible());
        assert AllOrNone(r, Accessible());
      }
    }

    /** Reads are always those of the plain byte map exactly if access is uniform. */
    lemma ReadsAreAlwaysFlatIff()
      requires Valid()
      ensures ReadsAreAlwaysFlat() <==> UniformAccess()
    {
      hide MapsOk, LookupsOk, IsPage, MappedRange.Ok, Accessible, ReadIsAlwaysFlat, UniformAccess, AllOrNone, SomePage,
           AlignDownToPage, ReadIsSure;
      AccessIsUniformIff();
      if AccessIsUniform() {
        forall a: nat, end: nat ensures ReadIsAlwaysFlat(a, end) {
          UniformReadIsSure(a, end);
          SureReadIsFlat(a, end);
        }
      } else {
        var r :| r in maps && r.valid && !AllOrNone(r, Accessible());
        RangeEnds(r);
        var page := MixedRange(r, Accessible());
        NextPage(page, page + 1);
        StaleRead(r, page, page + 1, page);
      }
    }

    lemma IndexIsFor()
      requires Valid()
      ensures IndexFor(pageToMap, Memory(), Accessible())
    {
      hide MapsOk, AlignDownToPage, Memory, IsPage, MappedRange.Ok;
      forall b <- Memory() | AlignDownToPage(b) in Accessible() ensures AlignDownToPage(b) in pageToMap {
        var r := MemoryIsInRange(b);
      }
    }

    /** Every mapped address is in a valid range, together with its page. */
    lemma MemoryIsInRange(a: nat) returns (r: MappedRange)
      requires MapsOk() && a in Memory()
      ensures r in maps && r.valid && r.Contains(a) && r.Contains(AlignDownToPage(a))
    {
      hide MappedRange.Bytes, MappedRange.Ok, MappedRange.View, CoversExactly, Ordered, Tiling.Memory, IsPage,
           AlignDownToPage;
      var j := ExtentOf(views, a);
      r := maps[j];
      assert r in maps && r.base <= a < r.limit;
      AlignDownStaysAbove(r.base, a);
    }

    lemma MapsAreApart()
      requires MapsOk()
      ensures forall r, s | r in maps && s in maps && r != s :: r.limit <= s.base || s.limit <= r.base
      ensures forall r <- maps :: r.base < r.limit
    {
      hide MappedRange.Bytes, CoversExactly;
      OrderedIsDisjoint(views);
      RangesAreApart(maps, roots);
    }

    /** What makes each page index uniform, and with that its cache transparent. */
    lemma IndexesAreUniformIff()
      requires Valid()
      ensures Uniform(pageToMap) <==> UniformAccess()
      ensures Uniform(wnxPageToMap) <==> UniformWrites()
    {
      hide MappedRange.Bytes, MappedRange.Ok, MappedRange.View, Tiled, IsPage, OnPages, UniformIn, Uniform, Indexes,
           AllOrNone;
      MapsAreApart();
      MapsUniformIff(maps, roots, views, Accessible());
      MapsUniformIff(maps, roots, views, WritableOnly());
      IndexUniformIff(pageToMap, maps, Accessible());
      IndexUniformIff(wnxPageToMap, maps, WritableOnly());
    }

    // -------------------------------------------------------------- writing

    /** Writes bytes to a range that holds them all. */
    method WriteRange(r: MappedRange, a: nat, bytes: seq<Byte>)
      requires Valid() && r in maps && r.valid && r.base <= a && a + |bytes| <= r.limit
      modifies r, this`views
      ensures Valid()
      ensures forall b | a <= b < a + |bytes| :: b in old(Memory())
      ensures Memory() == Update(old(Memory()), a, bytes)
    {
      hide MappedRange.Ok, RangesOk, Views, NoDuplicates, Tiled, Memory, LookupsOk, Patch, IsPage, OnPages;
      ghost var before := views;
      ghost var i := IndexOf(r);
      WrittenMemory(before, i, a, bytes, mask);
      WriteTo(maps, roots, i, r, a, bytes);
      views := WithBytes(before, i, Patch(before[i].bytes, a - r.base, bytes));
      assert MapsOk();
      MemoryOf();
    }

    /** Where a range is in the list. */
    lemma IndexOf(r: MappedRange) returns (i: nat)
      requires MapsOk() && r in maps && r.valid
      ensures i < |maps| && maps[i] == r && NoDuplicates(maps) && |views| == |maps|
      ensures views[i].base == r.base && views[i].limit == r.limit && views[i].valid
      ensures |views[i].bytes| == r.limit - r.base
      ensures AllProper(views) && Memory() == Tiling.Memory(views)
    {
      i :| 0 <= i < |maps| && maps[i] == r;
      hide MappedRange.Bytes, MappedRange.Ok, Tiling.Memory, CoversExactly;
      OrderedIsDisjoint(views);
      RangesAreApart(maps, roots);
    }

    lemma MemoryOf()
      requires MapsOk()
      ensures AllProper(views) && Memory() == Tiling.Memory(views)
    {
    }

    /** The valid ranges, which are the only ones that writing changes. */
    ghost function Owned(): set<MappedRange>
      reads this`maps
    {
      set r | r in maps && r.valid
    }

    lemma WritableIsIndexed(a: nat)
      requires Valid() && a in Memory() && AlignDownToPage(a) in writable
      ensures AlignDownToPage(a) in pageToMap
    {
      hide MapsOk, AlignDownToPage, Memory, MappedRange.Ok, Fresh;
      var r := MemoryIsInRange(a);
    }

    /** Writes the part of the bytes that goes to the first page. */
    method WritePage(a: nat, bytes: seq<Byte>) returns (ok: bool, k: nat)
      requires Valid() && bytes != []
      modifies cache, this`views, Owned()
      ensures Valid()
      ensures ok ==>
        && 0 < k <= |bytes|
        && FlatWrite(old(Memory()), writable, a, bytes) == FlatWrite(Memory(), writable, a + k, bytes[k..])
      ensures !ok ==> FlatWrite(old(Memory()), writable, a, bytes) == (Memory(), false)
    {
      hide MapsOk, LookupsOk, AlignDownToPage, PageEnd, GoodIndex, Lookup, Memory, IsPage, MappedRange.Ok, Backed,
           Update;
      var page := AlignDownToPage(a);
      if page !in writable {
        return false, 0;
      }
      IndexedRanges();
      FoundRange(a);
      if a in Memory() {
        WritableIsIndexed(a);
      }
      ghost var before := Memory();
      var r := FindRangeAligned(page);
      if !r.valid {
        return false, 0;
      }
      var end := a + |bytes|;
      PageIsBacked(before, pageToMap, r, a, end);
      SamePage(a, end);
      k := PageEnd(a, end) - a;
      FlatWriteStretch(before, writable, a, bytes, k);
      WriteRange(r, a, bytes[..k]);
      ok := true;
    }

    /** Writes bytes page by page, checking each page's write permission first. */
    method TryWriteBytes(address: nat, bytes: seq<Byte>) returns (ok: bool)
      requires Valid() && Masked(address) + |bytes| + PAGE_SIZE <= ADDRESS_LIMIT
      modifies cache, this`views, Owned()
      ensures Valid()
      ensures (Memory(), ok) == FlatWrite(old(Memory()), writable, Masked(address), bytes)
    {
      hide MapsOk, LookupsOk, Memory, IsPage, MappedRange.Ok, Masked;
      var a, rest := Masked(address), bytes;
      while rest != []
        invariant Valid()
        invariant FlatWrite(old(Memory()), writable, Masked(address), bytes) == FlatWrite(Memory(), writable, a, rest)
        decreases |rest|
      {
        var more, k := WritePage(a, rest);
        if !more {
          return false;
        }
        a, rest := a + k, rest[k..];
      }
      ok := true;
    }

    /** Gives a range an array of its own; memory stays the same. */
    method MaterializeRange(r: MappedRange)
      requires Valid() && r in maps && r.valid
      modifies r
      ensures Valid()
    {
      hide RangesOk, Views, OnPages, LookupsOk, Tiled, MappedRange.Ok, IsPage;
      MaterializeIn(maps, roots, r);
    }

    /** All pages of the ranges that the fast path for writes can find are writable. */
    ghost predicate WritesAreChecked()
      reads this`wnxPageToMap, this`writable
    {
      forall r <- wnxPageToMap.Values, page: nat | IsPage(page) && r.Contains(page) :: page in writable
    }

    /** Whatever was looked up before, the fast path for writes finds a range only for writable pages. */
    ghost predicate FastPathIsChecked()
      reads this`wnxPageToMap, this`writable
    {
      forall pages: seq<nat>, page: nat | IsPage(page) ::
        Lookup(CacheAfter(EmptyCache(), wnxPageToMap, invalid, pages), wnxPageToMap, invalid, page).0.valid ==>
          page in writable
    }

    /** The same, said of the maps themselves. */
    predicate StoresAreChecked()
      reads this`maps, this`writable, this`executable
    {
      forall r <- maps | r.valid && SomePage(r, WritableOnly()) :: EveryPage(r, writable)
    }

    lemma StoresAreCheckedIff()
      requires Valid()
      ensures StoresAreChecked() <==> WritesAreChecked()
    {
      hide MapsOk, Fresh, MappedRange.Ok, IsPage;
      MapsAreApart();
      if StoresAreChecked() {
        forall r <- wnxPageToMap.Values, page: nat | IsPage(page) && r.Contains(page) ensures page in writable {
          var known :| known in wnxPageToMap && wnxPageToMap[known] == r;
          assert r.base <= known < r.limit && IsPage(known) && known in WritableOnly();
          assert SomePage(r, WritableOnly()) && EveryPage(r, writable);
        }
      }
      if WritesAreChecked() {
        forall r <- maps | r.valid && SomePage(r, WritableOnly()) ensures EveryPage(r, writable) {
          var p: nat :| r.base <= p < r.limit && IsPage(p) && p in WritableOnly();
          assert p in wnxPageToMap && wnxPageToMap[p] == r && r in wnxPageToMap.Values;
          forall q: nat | r.base <= q < r.limit && IsPage(q) ensures q in writable {
            assert r.Contains(q);
          }
        }
      }
    }

    /** And said of the extents of the maps. */
    lemma CheckedWritesIff()
      requires MapsOk()
      ensures StoresAreChecked() <==> CheckedWrites()
    {
      hide MappedRange.Bytes, MappedRange.Ok, MappedRange.View, Tiled, IsPage;
      MapsCheckedIff(maps, roots, views, WritableOnly(), writable);
    }

    /** The fast path for writes respects write permission exactly if no range it can find has a page without it. */
    lemma FastPathIsCheckedIff()
      requires Valid()
      ensures FastPathIsChecked() <==> WritesAreChecked()
    {
      hide MapsOk, LookupsOk, Lookup, IsPage, Backed, MappedRange.Ok;
      IndexedRanges();
      var index := wnxPageToMap;
      if WritesAreChecked() {
        forall pages: seq<nat>, page: nat | IsPage(page)
          ensures Lookup(CacheAfter(EmptyCache(), index, invalid, pages), index, invalid, page).0.valid ==>
                    page in writable
        {
          CacheStaysFresh(EmptyCache(), index, invalid, pages);
          LookupIsFresh(CacheAfter(EmptyCache(), index, invalid, pages), index, invalid, page);
        }
      } else {
        var r, page: nat :| r in index.Values && IsPage(page) && r.Contains(page) && page !in writable;
        var known :| known in index && index[known] == r;
        StaleAfter(index, invalid, r, known, page);
      }
    }

    /**
     * The fast path for writes cannot be taken for [a, a + size), or the page is writable: the access
     * crosses pages, or no map that holds the page has a page that is writable and not executable.
     */
    predicate StoreIsSure(a: nat, size: nat)
      requires 0 < size
      reads this`maps, this`writable, this`executable
    {
      || AlignDownToPage(a) != AlignDownToPage(a + size - 1)
      || AlignDownToPage(a) in writable
      || !MayBeFound(AlignDownToPage(a), WritableOnly())
    }

    /** Whatever was looked up before, the fast path is taken for [a, a + size) only if the page is writable. */
    ghost predicate StoreIsAlwaysChecked(a: nat, size: nat)
      requires 0 < size
      reads this`wnxPageToMap, this`writable
    {
      forall pages: seq<nat> ::
        var cache := CacheAfter(EmptyCache(), wnxPageToMap, invalid, pages);
        WritesDirectly(Lookup(cache, wnxPageToMap, invalid, AlignDownToPage(a)).0, a, size) ==>
          AlignDownToPage(a) in writable
    }

    /** The condition for a typed write to respect write permission is exact, for each write. */
    lemma StoreIsAlwaysCheckedIff(a: nat, size: nat)
      requires Valid() && 0 < size
      ensures StoreIsAlwaysChecked(a, size) <==> StoreIsSure(a, size)
    {
      hide MapsOk, LookupsOk, Lookup, IsPage, Backed, MappedRange.Ok, WritableOnly, MayBeFound, GoodIndex;
      var (index, page) := (wnxPageToMap, AlignDownToPage(a));
      IndexedRanges();
      CanBeFoundIff(page);
      if StoreIsSure(a, size) {
        forall pages: seq<nat>
          ensures
            var r := Lookup(CacheAfter(EmptyCache(), index, invalid, pages), index, invalid, page).0;
            WritesDirectly(r, a, size) ==> page in writable
        {
          CacheStaysFresh(EmptyCache(), index, invalid, pages);
          LookupIsFresh(CacheAfter(EmptyCache(), index, invalid, pages), index, invalid, page);
        }
      } else {
        var r :| r in index.Values && r.Contains(page);
        var known :| known in index && index[known] == r;
        StaleAfter(index, invalid, r, known, page);
        RangeEnds(r);
        PageInside(r.limit, a + size - 1);
        assert WritesDirectly(r, a, size);
      }
    }

    /** If no map that is writable in part can be found, every typed write respects write permission. */
    lemma CheckedStoreIsSure(a: nat, size: nat)
      requires MapsOk() && StoresAreChecked() && 0 < size
      ensures StoreIsSure(a, size)
    {
      hide MapsOk, IsPage, WritableOnly, SomePage, AlignDownToPage;
      var page := AlignDownToPage(a);
      assert IsPage(page);
      if MayBeFound(page, WritableOnly()) {
        var r := FoundFor(page, WritableOnly());
        assert EveryPage(r, writable);
      }
    }

    /** The range found in the write cache: the sentinel, or a valid range of the list that holds the page. */
    lemma FoundWnxRange(a: nat)
      requires Valid()
      ensures |wnxCache[..]| == CACHE_SIZE + 1
      ensures var (r, _) := Lookup(wnxCache[..], wnxPageToMap, invalid, AlignDownToPage(a));
              r.valid ==>
                && r in maps && r in wnxPageToMap.Values && r.Contains(AlignDownToPage(a))
                && MayBeFound(AlignDownToPage(a), WritableOnly())
    {
      hide MapsOk, AlignDownToPage, Lookup, Memory, IsPage, MappedRange.Ok, Backed, MayBeFound, WritableOnly;
      IndexedRanges();
      CanBeFoundIff(AlignDownToPage(a));
      LookupIsFresh(wnxCache[..], wnxPageToMap, invalid, AlignDownToPage(a));
    }

    /** Whether the fast path for writes is taken, given the range found. */
    predicate WritesDirectly(r: MappedRange, a: nat, size: nat)
      requires 0 < size
    {
      r.valid && r.base <= a && a + size - 1 < r.limit && AlignDownToPage(a) == AlignDownToPage(a + size - 1)
    }

    /**
     * Writes a 1, 2, 4 or 8 byte value: directly when it lies within one page of the range that the
     * write cache finds, by the page loop otherwise. If the write is sure, success and memory are the
     * page loop's, whatever is in the cache.
     */
    method TryWrite(address: nat, value: nat, size: nat) returns (ok: bool)
      requires Valid() && 0 < size <= 8 && Masked(address) + size + PAGE_SIZE <= ADDRESS_LIMIT
      modifies cache, wnxCache, this`views, Owned()
      ensures Valid()
      ensures var (a, bytes) := (Masked(address), ToBytes(value, size));
              var (r, cache') := Lookup(old(wnxCache[..]), wnxPageToMap, invalid, AlignDownToPage(a));
              && wnxCache[..] == cache'
              && if WritesDirectly(r, a, size) then ok && Memory() == Update(old(Memory()), a, bytes)
                 else (Memory(), ok) == FlatWrite(old(Memory()), writable, a, bytes)
      ensures StoreIsSure(Masked(address), size) ==>
        (Memory(), ok) == FlatWrite(old(Memory()), writable, Masked(address), ToBytes(value, size))
    {
      hide MapsOk, LookupsOk, AlignDownToPage, PageEnd, GoodIndex, Lookup, Memory, IsPage, MappedRange.Ok, Backed,
           Update, Masked, ToBytes, MayBeFound, WritableOnly;
      var a, bytes := Masked(address), ToBytes(value, size);
      FoundWnxRange(a);
      var r := FindWnxRangeAligned(AlignDownToPage(a));
      if r.valid {
        MaterializeRange(r);
        var last := a + size - 1;
        if r.base <= a && last < r.limit && AlignDownToPage(a) == AlignDownToPage(last) {
          WriteDirectly(r, a, bytes);
          return true;
        }
      }
      assert Masked(a) == a;
      ok := TryWriteBytes(a, bytes);
    }

    /** Writes bytes that lie within one page of one range, without looking at permissions. */
    method WriteDirectly(r: MappedRange, a: nat, bytes: seq<Byte>)
      requires Valid() && bytes != [] && r in maps && r.valid && r.base <= a && a + |bytes| <= r.limit
      requires AlignDownToPage(a) == AlignDownToPage(a + |bytes| - 1)
      modifies r, this`views
      ensures Valid() && Memory() == Update(old(Memory()), a, bytes)
      ensures AlignDownToPage(a) in writable ==>
        (Memory(), true) == FlatWrite(old(Memory()), writable, a, bytes)
    {
      hide MapsOk, LookupsOk, Memory, IsPage, MappedRange.Ok, Update;
      ghost var before := Memory();
      forall b | a <= b < a + |bytes| ensures AlignDownToPage(b) == AlignDownToPage(a) {
      }
      hide AlignDownToPage;
      WriteRange(r, a, bytes);
      if AlignDownToPage(a) in writable {
        FlatWriteStretch(before, writable, a, bytes, |bytes|);
        assert bytes[..|bytes|] == bytes;
      }
    }

    /**
     * Where the condition fails, so does the agreement: after a write to an indexed page of the map,
     * the write succeeds, and the page loop's would not.
     */
    method WriteUnchecked(known: nat, a: nat, value: nat, size: nat) returns (ok: bool)
      requires Valid() && 0 < size <= 8
      requires AlignDownToPage(a) == AlignDownToPage(a + size - 1) && AlignDownToPage(a) !in writable
      requires known in wnxPageToMap && wnxPageToMap[known].Contains(AlignDownToPage(a))
      modifies cache, wnxCache, this`views, Owned()
      ensures Valid() && ok
      ensures !FlatWrite(old(Memory()), writable, a, ToBytes(value, size)).1
    {
      hide MapsOk, LookupsOk, PageEnd, GoodIndex, Memory, MappedRange.Ok, Backed, Update, FastPathIsChecked, ToBytes,
           AlignDownToPage, IsPage, Masked, MayBeFound, Lookup;
      StaleWrite(known, a, size);
      var _ := TryWrite(known, 0, 1);
      ok := TryWrite(a, value, size);
    }

    /** The second of two lookups, of pages of one range, finds the range that the first one found. */
    lemma StaleWrite(known: nat, a: nat, size: nat)
      requires Valid() && 0 < size && AlignDownToPage(a) == AlignDownToPage(a + size - 1)
      requires known in wnxPageToMap && wnxPageToMap[known].Contains(AlignDownToPage(a))
      ensures AlignDownToPage(known) == known && Masked(known) == known && Masked(a) == a
      ensures known + 1 + PAGE_SIZE <= ADDRESS_LIMIT && a + size + PAGE_SIZE <= ADDRESS_LIMIT
      ensures |wnxCache[..]| == CACHE_SIZE + 1
      ensures var (_, cache') := Lookup(wnxCache[..], wnxPageToMap, invalid, known);
              && |cache'| == CACHE_SIZE + 1
              && WritesDirectly(Lookup(cache', wnxPageToMap, invalid, AlignDownToPage(a)).0, a, size)
    {
      hide MapsOk, Memory, Backed, MappedRange.Ok;
      var r := wnxPageToMap[known];
      IndexedRanges();
      RangeEnds(r);
      PageInside(r.limit, a + size - 1);
      LookupIsFresh(wnxCache[..], wnxPageToMap, invalid, known);
    }

    /** The map behind an extent. */
    lemma RangeWith(v: Extent) returns (r: MappedRange)
      requires MapsOk() && v in views
      ensures r in maps && r.base == v.base && r.limit == v.limit && r.valid == v.valid
    {
      hide MappedRange.Bytes, MappedRange.Ok, Tiled, OnPages;
      var i :| 0 <= i < |views| && views[i] == v;
      r := maps[i];
    }

    /** A writable, non-executable page of a map is indexed with it. */
    lemma IndexedAt(r: MappedRange, page: nat)
      requires Valid() && r in maps && r.valid && r.Contains(page) && IsPage(page) && page in WritableOnly()
      ensures page in wnxPageToMap && wnxPageToMap[page] == r
    {
      hide MapsOk, Fresh, MappedRange.Ok, IsPage;
      MapsAreApart();
    }

    lemma RangeEnds(r: MappedRange)
      requires Valid() && r in maps
      ensures IsPage(r.base)
      ensures r.valid ==> IsPage(r.limit) && r.limit <= mask
      ensures r.valid ==> r.limit + PAGE_SIZE <= ADDRESS_LIMIT
    {
      hide MappedRange.Bytes, MappedRange.Ok, LookupsOk, CoversExactly, Ordered;
      var i :| 0 <= i < |maps| && maps[i] == r;
      Adjacent(views, mask, i);
    }

    // -------------------------------------------------------------- cloning

    /** A space over given ranges. */
    constructor FromRanges(mask: nat, invalid: MappedRange, ranges: seq<MappedRange>, ghost roots: set<MappedRange>,
                           readable: set<nat>, writable: set<nat>, executable: set<nat>)
      requires 0 < mask < ADDRESS_LIMIT && IsPage(mask + 1)
      requires !invalid.valid && invalid.parent == null && invalid.Ok() && invalid !in roots
      requires RangesOk(ranges, roots) && OnPages(ranges) && Tiled(Views(ranges, roots), mask)
      ensures Valid() && fresh(cache) && fresh(wnxCache)
      ensures this.mask == mask && this.invalid == invalid && this.roots == roots
      ensures this.readable == readable && this.writable == writable && this.executable == executable
      ensures forall r :: r in maps <==> r in ranges
      ensures Memory() == Tiling.Memory(Views(ranges, roots))
      ensures forall v :: v in views <==> v in Views(ranges, roots)
    {
      hide *;
      this.mask, this.invalid := mask, invalid;
      cache := new MappedRange?[CACHE_SIZE + 1](i => null);
      wnxCache := new MappedRange?[CACHE_SIZE + 1](i => null);
      this.roots := roots;
      new;
      StartFrom(ranges, readable, writable, executable);
    }

    method StartFrom(ranges: seq<MappedRange>, readable: set<nat>, writable: set<nat>, executable: set<nat>)
      requires 0 < mask < ADDRESS_LIMIT && IsPage(mask + 1)
      requires cache != wnxCache && cache.Length == wnxCache.Length == CACHE_SIZE + 1
      requires !invalid.valid && invalid.parent == null && invalid.Ok() && invalid !in roots
      requires RangesOk(ranges, roots) && OnPages(ranges) && Tiled(Views(ranges, roots), mask)
      modifies this, cache, wnxCache
      ensures Valid() && roots == old(roots)
      ensures this.readable == readable && this.writable == writable && this.executable == executable
      ensures forall r :: r in maps <==> r in ranges
      ensures Memory() == Tiling.Memory(old(Views(ranges, roots)))
      ensures forall v :: v in views <==> v in old(Views(ranges, roots))
    {
      hide MappedRange.Ok, MappedRange.View, LookupsOk, Tiling.Memory, Ordered, CoversExactly, AllProper, Disjoint,
           RangesOk, Views, OnPages, IsPage;
      ghost var before := Views(ranges, roots);
      OrderedIsDisjoint(before);
      CreatePageToRangeMap(ranges, readable, writable, executable);
      Reordered(before, views, mask);
    }

    /** Clones the ranges of this space; what they hold stays the same. */
    method CloneMaps() returns (clones: seq<MappedRange>)
      requires Valid() && Whole(maps, roots)
      modifies this`roots, Owned()
      ensures Valid() && old(roots) <= roots && fresh(roots - old(roots))
      ensures RangesOk(clones, roots) && OnPages(clones) && Views(clones, roots) == views
      ensures forall r <- clones :: if r.valid then fresh(r) else r in maps
    {
      hide MappedRange.Ok, MappedRange.View, LookupsOk, Tiled, Whole, RangesOk, Views, OnPages, IsPage, NoDuplicates,
           ClonedViews, Disjoint;
      EachOnce();
      WholeClones(maps, roots);
      ghost var newRoots;
      clones, newRoots := CloneRanges(maps, roots);
      SameViewsOnPages(maps, clones, newRoots);
      roots := newRoots;
    }

    lemma EachOnce()
      requires MapsOk()
      ensures NoDuplicates(maps)
    {
      hide MappedRange.Ok, MappedRange.View, NoDuplicates;
      OrderedIsDisjoint(views);
      RangesAreApart(maps, roots);
    }

    /**
     * Makes a copy of this space that shares the arrays behind its ranges until either side writes.
     * The list of maps must not hold part of a split copy-on-write range.
     */
    method Clone() returns (child: AddressSpace)
      requires Valid() && Whole(maps, roots)
      modifies this`roots, Owned()
      ensures Valid() && old(roots) <= roots && fresh(roots - old(roots))
      ensures fresh(child) && fresh(child.cache) && fresh(child.wnxCache) && child.Valid()
      ensures child.mask == mask && child.invalid == invalid && child.roots == roots
      ensures child.Memory() == Memory()
      ensures child.readable == readable && child.writable == writable && child.executable == executable
      ensures forall r <- child.maps :: if r.valid then fresh(r) else r in maps
      ensures UniformAccess() ==> child.UniformAccess()
      ensures UniformWrites() ==> child.UniformWrites()
      ensures CheckedWrites() ==> child.CheckedWrites()
    {
      hide MappedRange.Ok, MappedRange.View, LookupsOk, Tiling.Memory, Tiled, Whole, RangesOk, Views, OnPages, IsPage,
           UniformIn, CheckedIn, AllProper;
      var clones := CloneMaps();
      MemoryOf();
      child := new AddressSpace.FromRanges(mask, invalid, clones, roots, readable, writable, executable);
      SameUniform(views, child.views, Accessible());
      SameUniform(views, child.views, WritableOnly());
      SameChecked(views, child.views, WritableOnly(), writable);
    }

    // -------------------------------------------------------------- finding room

    /**
     * The room is at the top of the space: the last range is invalid and has room for `n` bytes, and
     * the bound is behind it. The range ends at the last address, which is not the end of a page.
     */
    predicate RoomAtTop(lo: nat, hi: nat, n: nat)
      reads this`maps
    {
      maps != [] && hi > mask &&
      var last := maps[|maps| - 1];
      !last.valid && (if lo < last.base then last.base else lo) + n <= mask
    }

    /**
     * Finds room for `size` bytes in [min, max): the highest place that any single invalid range
     * allows, or nothing if none has room. The place is on a page exactly if it is not at the top of
     * the space. A size whose rounding wraps around is given a place of no bytes.
     */
    method FindHole(min: nat, max: nat, size: nat) returns (found: bool, hole: nat)
      requires Valid() && size < ADDRESS_LIMIT
      ensures size == 0 ==> !found
      ensures var (lo, hi, n) := (AlignDownToPage(min), AlignDownToPage(max), RoundUpToPage(size));
              && (found ==> lo <= hole && hole + n <= hi && hole + n <= mask)
              && (n > 0 ==>
                    && (found ==> HighestFit(views, lo, hi, n, hole))
                    && (found ==> (IsPage(hole) <==> !RoomAtTop(lo, hi, n)))
                    && (!found ==> NoneFits(views, lo, hi, n)))
      ensures !found ==> hole == 0
    {
      hide AlignDownToPage, RoundUpToPage, MapsOk, LookupsOk, HighestFit, NoneFits, Tiled, MappedRange.Ok, RoomAtTop;
      hole := 0;
      if size == 0 {
        return false, 0;
      }
      var lo, hi, n := AlignDownToPage(min), AlignDownToPage(max), RoundUpToPage(size);
      if lo >= hi || n > hi - lo {
        if n > 0 {
          NoRoom(views, lo, hi, n);
        }
        return false, 0;
      }
      NoneFitsNowhere(lo, hi, n);
      SameLength();
      assert views[|maps|..] == [];
      var i := |maps|;
      while i > 0
        invariant 0 <= i <= |maps|
        invariant n > 0 ==> NoneFits(views[i..], lo, hi, n)
      {
        i := i - 1;
        var room := RoomAt(i, lo, hi, n);
        match room {
          case NotHere =>
          case Below => return false, 0;
          case At(start) => return true, start;
        }
      }
      assert views[0..] == views;
      return false, 0;
    }

    /** Looks for room in the `i`th range, or below it if it is valid, after all higher ones. */
    method RoomAt(i: nat, lo: nat, hi: nat, n: nat) returns (room: Room)
      requires MapsOk() && i < |maps| && lo < hi && |views| == |maps|
      requires IsPage(lo) && IsPage(hi) && IsPage(n) && IsPage(mask + 1)
      requires n > 0 ==> NoneFits(views[i + 1..], lo, hi, n)
      ensures room.NotHere? && n > 0 ==> NoneFits(views[i..], lo, hi, n)
      ensures room.Below? && n > 0 ==> NoneFits(views, lo, hi, n)
      ensures room.At? ==> lo <= room.start && room.start + n <= hi && room.start + n <= mask
      ensures room.At? && n > 0 ==>
        HighestFit(views, lo, hi, n, room.start) && (IsPage(room.start) <==> !RoomAtTop(lo, hi, n))
    {
      hide MapsOk, HighestFit, NoneFits, Tiled, MappedRange.Ok, RoomAtTop;
      SameLength();
      var r := maps[i];
      Bounds(i);
      var highBase, lowLimit;
      if !r.valid {
        highBase, lowLimit := r.limit, r.base;
      } else if i == 0 {
        if n > 0 {
          NothingInValid(views, 0, lo, hi, n);
          assert views[0..] == views;
        }
        return Below;
      } else {
        highBase, lowLimit := r.base, maps[i - 1].limit;
        Bounds(i - 1);
        Adjacent(views, mask, i - 1);
      }
      if highBase < lo {
        if n > 0 {
          NothingBelow(views, mask, i, lo, hi, n);
        }
        return Below;
      }
      assert lowLimit <= highBase;
      if lowLimit >= hi {
        if n > 0 {
          NothingHere(views, i, lo, hi, n);
        }
        return NotHere;
      }
      var allocMax := if hi < highBase then hi else highBase;
      var allocMin := if lo < lowLimit then lowLimit else lo;
      var available := allocMax - allocMin;
      if available < n {
        NothingHere(views, i, lo, hi, n);
        return NotHere;
      }
      if n > 0 {
        HoleHere(views, mask, i, lo, hi, n);
        OnPageIff(i, lo, hi, n, allocMax - n);
      }
      return At(allocMax - n);
    }

    /** Which places are on a page. */
    lemma OnPageIff(i: nat, lo: nat, hi: nat, n: nat, start: nat)
      requires MapsOk() && i < |maps| && 0 < n && |views| == |maps| && NoneFits(views[i + 1..], lo, hi, n)
      requires IsPage(hi) && IsPage(n) && IsPage(mask + 1) && !maps[i].valid
      requires start + n == if hi < maps[i].limit then hi else maps[i].limit
      requires start >= lo && start >= maps[i].base
      ensures IsPage(start) <==> !RoomAtTop(lo, hi, n)
    {
      hide MapsOk, MappedRange.Ok, Tiled;
      Bounds(i);
      Bounds(|maps| - 1);
      if i < |maps| - 1 {
        var last := maps[|maps| - 1];
        InnerEndsOnPage(i);
        assert views[i + 1..][|maps| - i - 2] == views[|maps| - 1];
        assert !Fits(views[|maps| - 1], lo, hi, n, if lo < last.base then last.base else lo);
      } else {
        EndsAtTop();
      }
    }

    lemma InnerEndsOnPage(i: nat)
      requires MapsOk() && i + 1 < |maps|
      ensures IsPage(maps[i].limit) && maps[|maps| - 1].limit == mask
    {
      hide MappedRange.Bytes, IsPage, CoversExactly, Ordered;
      assert maps[i + 1] in maps && maps[i].Ok() && maps[i + 1].Ok();
      Adjacent(views, mask, i);
      EndsAtTop();
    }

    lemma EndsAtTop()
      requires MapsOk() && maps != []
      ensures maps[|maps| - 1].limit == mask
    {
      hide MappedRange.Bytes, IsPage, CoversExactly, Ordered;
      LastEndsAtTop(views, mask);
      assert maps[|maps| - 1] in maps && views[|maps| - 1].limit == maps[|maps| - 1].limit;
    }

    lemma SameLength()
      requires MapsOk()
      ensures |views| == |maps| && Tiled(views, mask)
    {
    }

    /** The bounds of the `i`th range, which starts on a page and ends on one or at the top. */
    lemma Bounds(i: nat)
      requires MapsOk() && i < |maps|
      ensures |views| == |maps|
      ensures views[i].base == maps[i].base && views[i].limit == maps[i].limit && views[i].valid == maps[i].valid
      ensures maps[i].base < maps[i].limit
      ensures IsPage(maps[i].limit) || maps[i].limit == mask
      ensures maps[i].limit <= mask
    {
      hide MappedRange.Bytes, IsPage, CoversExactly, Ordered;
      assert maps[i] in maps && maps[i].Ok();
      Adjacent(views, mask, i);
      if i + 1 < |maps| {
        assert maps[i + 1] in maps;
      } else {
        LastEndsAtTop(views, mask);
      }
    }
  }

  /** In a new space, a hole of a page that may go up to the top is not on a page. */
  method UnalignedHole() returns (space: AddressSpace, found: bool, hole: nat)
    ensures space.Valid() && found && !IsPage(hole)
  {
    hide AddressSpace.MapsOk, AddressSpace.LookupsOk, AddressSpace.Memory, MappedRange.Ok, IsPage, NoneFits, HighestFit,
         AlignDownToPage, RoundUpToPage, AddressSpace.RoomAtTop;
    TwoPages();
    space := new AddressSpace(0xFFFF_FFFF);
    NewSpaceHasRoom(space);
    found, hole := space.FindHole(0, 0x1_0000_0000, PAGE_SIZE);
  }

  lemma NewSpaceHasRoom(space: AddressSpace)
    requires space.Valid() && space.mask == 0xFFFF_FFFF && space.Memory() == map[]
    requires forall r <- space.maps :: r.base == 0
    ensures AlignDownToPage(0x1_0000_0000) == 0x1_0000_0000
    ensures space.RoomAtTop(0, 0x1_0000_0000, PAGE_SIZE) && !NoneFits(space.views, 0, 0x1_0000_0000, PAGE_SIZE)
  {
    hide AddressSpace.MapsOk, AddressSpace.LookupsOk, AddressSpace.Memory, MappedRange.Ok, Tiled;
    space.SameLength();
    TiledIsNotEmpty(space.views, space.mask);
    var i := |space.maps| - 1;
    var last := space.maps[i];
    space.EndsAtTop();
    space.Bounds(i);
    if last.valid {
      space.RangeInMemory(last, 0);
      assert false;
    }
    assert space.views[i] in space.views && Fits(space.views[i], 0, 0x1_0000_0000, PAGE_SIZE, 0);
  }

  /**
   * Taking write permission from the second page of a two-page map does not keep it from being
   * written to: a write to the first page opens the way.
   */
  method ReadOnlyPageIsWritten(value: nat) returns (space: AddressSpace, ok: bool)
    ensures space.Valid() && PAGE_SIZE !in space.writable && ok
  {
    hide AddressSpace.MapsOk, AddressSpace.LookupsOk, AddressSpace.Memory, MappedRange.Ok, Overlay, UniformIn,
         KeepsUniform, FlatWrite, IsPage, PagesOf, NoStraddle, AlignDownToPage, RoundUpToPage, Zeroes;
    TwoPages();
    space := new AddressSpace(0xFFFF_FFFF);
    NothingMapped(space);
    ghost var r := MapAndProtect(space);
    space.IndexedAt(r, 0);
    ok := space.WriteUnchecked(0, PAGE_SIZE, value, 1);
  }

  /** A new map of two pages, the second of which becomes read-only. */
  method MapAndProtect(space: AddressSpace) returns (ghost r: MappedRange)
    requires space.Valid() && 2 * PAGE_SIZE <= space.mask && NoStraddle(space.views, 0, 2 * PAGE_SIZE)
    modifies space, space.cache, space.wnxCache
    ensures space.Valid() && r in space.maps && r.valid && r.base == 0 && r.limit == 2 * PAGE_SIZE
    ensures 0 in space.WritableOnly() && PAGE_SIZE !in space.writable
    ensures forall t <- space.maps :: t in old(space.maps) || fresh(t)
  {
    hide AddressSpace.MapsOk, AddressSpace.LookupsOk, AddressSpace.Memory, MappedRange.Ok, Overlay, UniformIn,
         KeepsUniform, IsPage, PagesOf, NoStraddle, AlignDownToPage, RoundUpToPage, Zeroes;
    TwoPages();
    space.AddMap(0, 2 * PAGE_SIZE, 0);
    r := space.RangeWith(Extent(0, 2 * PAGE_SIZE, true, 0, Zeroes(2 * PAGE_SIZE)));
    space.SetPermissions(PAGE_SIZE, PAGE_SIZE, true, false, false);
  }

  lemma TwoPages()
    ensures AlignDownToPage(0) == 0 && RoundUpToPage(2 * PAGE_SIZE) == 2 * PAGE_SIZE
    ensures AlignDownToPage(PAGE_SIZE) == PAGE_SIZE && RoundUpToPage(PAGE_SIZE) == PAGE_SIZE
    ensures IsPage(0) && IsPage(PAGE_SIZE) && IsPage(0x1_0000_0000)
    ensures 0 in PagesOf(0, 2 * PAGE_SIZE) && 0 !in PagesOf(PAGE_SIZE, 2 * PAGE_SIZE)
    ensures PAGE_SIZE in PagesOf(PAGE_SIZE, 2 * PAGE_SIZE)
  {
  }

  /** No map straddles anything if all start at zero. */
  lemma NothingMapped(space: AddressSpace)
    requires space.Valid() && forall r <- space.maps :: r.base == 0
    ensures NoStraddle(space.views, 0, 2 * PAGE_SIZE)
  {
    hide MappedRange.Ok, AddressSpace.LookupsOk, AddressSpace.MapsOk, NoStraddle;
    space.StraddlesNoMapIsNoStraddle(0, 2 * PAGE_SIZE);
  }

  /** Adds the pages of [base, limit) to a permission set, or takes them out of it. */
  method GrantPages(before: set<nat>, base: nat, limit: nat, allow: bool) returns (after: set<nat>)
    requires IsPage(base)
    ensures after == Grant(before, PagesOf(base, limit), allow)
  {
    after := before;
    var a := base;
    while a < limit
      invariant base <= a && IsPage(a)
      invariant after == Grant(before, PagesOf(base, if a < limit then a else limit), allow)
    {
      assert forall page: nat | IsPage(page) && a <= page < a + PAGE_SIZE :: page == a;
      after := if allow then after + {a} else after - {a};
      a := a + PAGE_SIZE;
    }
  }

  lemma WrittenMemory(vs: seq<Extent>, i: nat, a: nat, bytes: seq<Byte>, top: nat)
    requires Tiled(vs, top) && i < |vs| && vs[i].valid && vs[i].base <= a && a + |bytes| <= vs[i].limit
    requires |vs[i].bytes| == vs[i].limit - vs[i].base
    ensures var ws := WithBytes(vs, i, Patch(vs[i].bytes, a - vs[i].base, bytes));
            && Tiled(ws, top)
            && (forall b | a <= b < a + |bytes| :: b in Tiling.Memory(vs))
            && Tiling.Memory(ws) == Update(Tiling.Memory(vs), a, bytes)
  {
    hide Ordered, CoversExactly, AllProper, Tiling.Memory, Update, WithBytes;
    var patched := Patch(vs[i].bytes, a - vs[i].base, bytes);
    WithBytesMemory(vs, i, patched, top);
    forall b | a <= b < a + |bytes| ensures b in Tiling.Memory(vs) {
      assert vs[i].Contains(b);
    }
    UpdateAt(Tiling.Memory(vs), a, bytes);
  }

  lemma SplicedTiles(vs: seq<Extent>, new_: Extent, spliced: seq<Extent>, ws: seq<Extent>, top: nat)
    requires Tiled(vs, top) && new_.Proper() && new_.limit <= top && NoStraddle(vs, new_.base, new_.limit)
    requires spliced == RemoveRange(vs, new_.base, new_.limit) + [new_]
    requires Ordered(ws) && forall v :: v in ws <==> v in spliced
    ensures Tiled(ws, top) && new_ in ws && Tiling.Memory(ws) == Overlay(Tiling.Memory(vs), new_)
  {
    hide *;
    assert new_ in spliced;
    SpliceTiles(vs, new_, ws, top);
  }

  lemma SplicedUniform(vs: seq<Extent>, new_: Extent, spliced: seq<Extent>, ws: seq<Extent>,
                       pages: set<nat>, allow: bool)
    requires AllProper(vs) && Ordered(vs) && new_.Proper() && NoStraddle(vs, new_.base, new_.limit)
    requires spliced == RemoveRange(vs, new_.base, new_.limit) + [new_]
    requires forall v :: v in ws <==> v in spliced
    ensures UniformIn(vs, pages) ==> UniformIn(ws, Grant(pages, PagesOf(new_.base, new_.limit), allow))
  {
    hide *;
    if UniformIn(vs, pages) {
      SpliceKeepsUniform(vs, new_, ws, pages, allow);
    }
  }

  lemma SplicedChecked(vs: seq<Extent>, new_: Extent, spliced: seq<Extent>, ws: seq<Extent>,
                       some: set<nat>, all: set<nat>, allow: bool)
    requires AllProper(vs) && Ordered(vs) && new_.Proper() && NoStraddle(vs, new_.base, new_.limit)
    requires spliced == RemoveRange(vs, new_.base, new_.limit) + [new_]
    requires forall v :: v in ws <==> v in spliced
    ensures CheckedIn(vs, some, all) ==>
      var pages := PagesOf(new_.base, new_.limit); CheckedIn(ws, Grant(some, pages, allow), Grant(all, pages, allow))
  {
    hide *;
    if CheckedIn(vs, some, all) {
      SpliceKeepsChecked(vs, new_, ws, some, all, allow);
    }
  }

  lemma SameChecked(vs: seq<Extent>, ws: seq<Extent>, some: set<nat>, all: set<nat>)
    requires forall v :: v in vs <==> v in ws
    ensures CheckedIn(vs, some, all) <==> CheckedIn(ws, some, all)
  {
  }

  lemma SameViewsOnPages(maps: seq<MappedRange>, others: seq<MappedRange>, roots: set<MappedRange>)
    requires RangesOk(maps, roots) && RangesOk(others, roots) && Views(maps, roots) == Views(others, roots)
    requires OnPages(maps)
    ensures OnPages(others)
  {
    hide MappedRange.Bytes, MappedRange.Ok, MappedRange.View, IsPage;
    forall r <- others ensures IsPage(r.base) && (r.valid ==> IsPage(r.limit)) {
      var i :| 0 <= i < |others| && others[i] == r;
      assert maps[i] in maps && Views(maps, roots)[i].base == r.base && Views(maps, roots)[i].limit == r.limit;
    }
  }

  lemma SameUniform(vs: seq<Extent>, ws: seq<Extent>, pages: set<nat>)
    requires forall v :: v in ws <==> v in vs
    ensures UniformIn(vs, pages) <==> UniformIn(ws, pages)
  {
    hide IsPage;
  }

  /** Uniformity said of the maps, by the permission of their first pages. */
  lemma MapsUniformIff(maps: seq<MappedRange>, roots: set<MappedRange>, views: seq<Extent>, pages: set<nat>)
    requires RangesOk(maps, roots) && OnPages(maps) && views == Views(maps, roots) && AllProper(views)
    ensures (forall r <- maps | r.valid :: AllOrNone(r, pages)) <==> UniformIn(views, pages)
  {
    hide MappedRange.Bytes, MappedRange.Ok, MappedRange.View, IsPage;
    if UniformIn(views, pages) {
      forall r <- maps | r.valid ensures AllOrNone(r, pages) {
        var i :| 0 <= i < |maps| && maps[i] == r;
        assert views[i] in views && views[i].Contains(r.base);
        forall p: nat | r.base <= p < r.limit && IsPage(p) ensures p in pages <==> r.base in pages {
          assert views[i].Contains(p);
        }
      }
    }
    if forall r <- maps | r.valid :: AllOrNone(r, pages) {
      forall v <- views, p: nat, q: nat | v.valid && IsPage(p) && IsPage(q) && v.Contains(p) && v.Contains(q)
        ensures p in pages <==> q in pages
      {
        var i :| 0 <= i < |views| && views[i] == v;
        assert maps[i] in maps && AllOrNone(maps[i], pages);
      }
    }
  }

  lemma MapsCheckedIff(maps: seq<MappedRange>, roots: set<MappedRange>, views: seq<Extent>,
                       some: set<nat>, all: set<nat>)
    requires RangesOk(maps, roots) && views == Views(maps, roots) && AllProper(views)
    ensures (forall r <- maps | r.valid && SomePage(r, some) :: EveryPage(r, all)) <==> CheckedIn(views, some, all)
  {
    hide MappedRange.Bytes, MappedRange.Ok, MappedRange.View, IsPage;
    if CheckedIn(views, some, all) {
      forall r <- maps | r.valid && SomePage(r, some) ensures EveryPage(r, all) {
        var i :| 0 <= i < |maps| && maps[i] == r;
        var p: nat :| r.base <= p < r.limit && IsPage(p) && p in some;
        assert views[i] in views && views[i].Contains(p);
        forall q: nat | r.base <= q < r.limit && IsPage(q) ensures q in all {
          assert views[i].Contains(q);
        }
      }
    }
    if forall r <- maps | r.valid && SomePage(r, some) :: EveryPage(r, all) {
      forall v <- views, p: nat, q: nat | v.valid && IsPage(p) && IsPage(q) && v.Contains(p) && v.Contains(q)
        ensures p in some ==> q in all
      {
        var i :| 0 <= i < |views| && views[i] == v;
        assert maps[i] in maps && (p in some ==> SomePage(maps[i], some));
      }
    }
  }

  /** A range that is not accessible as a whole or not at all has pages of both kinds. */
  lemma MixedRange(r: MappedRange, pages: set<nat>) returns (page: nat)
    requires !AllOrNone(r, pages) && IsPage(r.base)
    ensures SomePage(r, pages) && r.base <= page < r.limit && IsPage(page) && page !in pages
    ensures AlignDownToPage(page) == page
  {
    var p: nat :| r.base <= p < r.limit && IsPage(p) && !(p in pages <==> r.base in pages);
    page := if p in pages then r.base else p;
  }

  /** Some lookup finds a range for a page exactly if a map with an indexed page holds it. */
  lemma FoundIff(index: Index, maps: seq<MappedRange>, pages: set<nat>, page: nat)
    requires Indexes(index, maps, pages) && IsPage(page)
    requires forall r, s | r in maps && s in maps && r != s :: r.limit <= s.base || s.limit <= r.base
    ensures CanBeFound(index, page) <==> exists r <- maps :: r.valid && r.Contains(page) && SomePage(r, pages)
    ensures CanBeFound(index, page) ==> (page in index <==> page in pages)
  {
    hide IsPage;
    if CanBeFound(index, page) {
      var r :| r in index.Values && r.Contains(page);
      var known :| known in index && index[known] == r;
      assert r.base <= known < r.limit && SomePage(r, pages);
    }
    if r :| r in maps && r.valid && r.Contains(page) && SomePage(r, pages) {
      var known: nat :| r.base <= known < r.limit && IsPage(known) && known in pages;
      assert r.Contains(known);
      assert known in index && index[known] == r && r in index.Values;
    }
  }

  /** An index is uniform exactly if the permission it is for is uniform on the maps. */
  lemma IndexUniformIff(index: Index, maps: seq<MappedRange>, pages: set<nat>)
    requires Indexes(index, maps, pages) && OnPages(maps) && forall r <- maps :: r.base < r.limit
    requires forall r, s | r in maps && s in maps && r != s :: r.limit <= s.base || s.limit <= r.base
    ensures Uniform(index) <==> forall r <- maps | r.valid :: AllOrNone(r, pages)
  {
    hide IsPage;
    if Uniform(index) {
      forall r <- maps, p: nat | r.valid && r.base <= p < r.limit && IsPage(p) ensures p in pages <==> r.base in pages {
        if p in pages {
          assert p in index && index[p] == r && r in index.Values && r.Contains(r.base);
        }
        if r.base in pages {
          assert r.base in index && index[r.base] == r && r in index.Values && r.Contains(p);
        }
      }
    }
    if forall r <- maps | r.valid :: AllOrNone(r, pages) {
      forall r <- index.Values, p: nat | IsPage(p) && r.Contains(p) ensures p in index {
        var known :| known in index && index[known] == r;
        assert AllOrNone(r, pages);
      }
    }
  }

  /** What a change of permissions does to the pages with some permission and to the writable ones. */
  lemma GrantedAccess(readable: set<nat>, writable: set<nat>, executable: set<nat>, pages: set<nat>,
                      canRead: bool, canWrite: bool, canExec: bool)
    ensures var (r, w, x) := (Grant(readable, pages, canRead), Grant(writable, pages, canWrite),
                              Grant(executable, pages, canExec));
            && r + w + x == Grant(readable + writable + executable, pages, canRead || canWrite || canExec)
            && w - x == Grant(writable - executable, pages, canWrite && !canExec)
  {
  }

  lemma ProtectedUniform(vs: seq<Extent>, readable: set<nat>, writable: set<nat>, executable: set<nat>,
                         base: nat, limit: nat, canRead: bool, canWrite: bool, canExec: bool)
    ensures var pages := PagesOf(base, limit);
            var (r, w, x) := (Grant(readable, pages, canRead), Grant(writable, pages, canWrite),
                              Grant(executable, pages, canExec));
            && (UniformIn(vs, readable + writable + executable) ==>
                  (UniformIn(vs, r + w + x) <==>
                   KeepsUniform(vs, readable + writable + executable, base, limit, canRead || canWrite || canExec)))
            && (UniformIn(vs, writable - executable) ==>
                  (UniformIn(vs, w - x) <==>
                   KeepsUniform(vs, writable - executable, base, limit, canWrite && !canExec)))
  {
    hide UniformIn, KeepsUniform, Grant;
    GrantedAccess(readable, writable, executable, PagesOf(base, limit), canRead, canWrite, canExec);
    if UniformIn(vs, readable + writable + executable) {
      ProtectKeepsUniformIff(vs, readable + writable + executable, base, limit, canRead || canWrite || canExec);
    }
    if UniformIn(vs, writable - executable) {
      ProtectKeepsUniformIff(vs, writable - executable, base, limit, canWrite && !canExec);
    }
  }

  lemma OrderedIsDisjoint(vs: seq<Extent>)
    requires Ordered(vs)
    ensures Disjoint(vs)
  {
  }

  /** The same extents in order again make the same tiling. */
  lemma Reordered(vs: seq<Extent>, ws: seq<Extent>, top: nat)
    requires Tiled(vs, top) && Ordered(ws) && forall v :: v in ws <==> v in vs
    ensures Tiled(ws, top) && Tiling.Memory(ws) == Tiling.Memory(vs)
  {
    assert AllProper(ws);
    forall a: nat ensures Covered(ws, a) <==> Covered(vs, a) {
    }
    OrderedIsDisjoint(vs);
    OrderedIsDisjoint(ws);
    SameHoldsSameMemory(vs, ws);
  }

  lemma OneRange(r: MappedRange)
    requires r.Ok() && r.parent == null && IsPage(r.base) && !r.valid
    ensures RangesOk([r], {}) && OnPages([r]) && Views([r], {}) == [r.View()] && Disjoint([r.View()])
  {
    hide MappedRange.Bytes, MappedRange.Ok;
  }

  lemma OneInvalidRange(v: Extent)
    requires v.Proper() && !v.valid && v.base == 0
    ensures Tiled([v], v.limit) && Tiling.Memory([v]) == map[]
  {
    forall a: nat ensures Covered([v], a) <==> a < v.limit {
      assert v in [v];
    }
  }
}
