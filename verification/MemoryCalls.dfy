/** The address choice and the map steps of the mmap and munmap system calls. */
module MemoryCalls {
  import opened Options
  import opened Pages
  import opened MappedRanges
  import opened Tiling
  import opened ByteAccess
  import opened RangeLists
  import opened AddressSpaces

  const MMAP_MIN_ADDRESS: nat := 65536
  const ENOMEM: int := 12
  const EINVAL: int := 22

  /** `n` zero bytes from `base` on. */
  ghost function ZeroMap(base: nat, n: nat): map<nat, Byte> {
    map a | base <= a < base + n && Within(base, n, a) :: 0
  }

  predicate Within(base: nat, n: nat, a: nat) {
    base <= a < base + n
  }

  /** No byte of [base, base + n) is in memory. */
  ghost predicate Unmapped(memory: map<nat, Byte>, base: nat, n: nat) {
    forall a <- memory :: !Within(base, n, a)
  }

  lemma OverlayZeroes(memory: map<nat, Byte>, base: nat, n: nat, filePos: int)
    requires Unmapped(memory, base, n) && 0 < n
    ensures Overlay(memory, Extent(base, base + n, true, filePos, Zeroes(n))) == memory + ZeroMap(base, n)
  {
  }

  lemma OverlayNothing(memory: map<nat, Byte>, base: nat, n: nat, filePos: int)
    requires Unmapped(memory, base, n) && 0 < n
    ensures Overlay(memory + ZeroMap(base, n), Extent(base, base + n, false, filePos, [])) == memory
  {
  }

  /**
   * An mmap that leaves the choice of address to the kernel: finds a hole between the minimum mmap
   * address and `max`, and maps zeroed memory there. Nothing that was mapped before changes.
   */
  method Mmap(space: AddressSpace, size: nat, max: nat) returns (result: int)
    requires space.Valid() && size < ADDRESS_LIMIT && AlignDownToPage(max) <= space.mask
    modifies space, space.cache, space.wnxCache
    ensures space.Valid() && space.roots == old(space.roots)
    ensures forall r <- space.maps :: r in old(space.maps) || fresh(r)
    ensures RoundUpToPage(size) == 0 <==> result == -EINVAL
    ensures result == -ENOMEM <==>
      RoundUpToPage(size) > 0
      && NoneFits(old(space.views), MMAP_MIN_ADDRESS, AlignDownToPage(max), RoundUpToPage(size))
    ensures result < 0 ==> space.Memory() == old(space.Memory()) && space.views == old(space.views)
    ensures result == -EINVAL || result == -ENOMEM || result >= MMAP_MIN_ADDRESS
    ensures result >= 0 ==>
      var n := RoundUpToPage(size);
      && IsPage(result) && result + n <= max
      && Unmapped(old(space.Memory()), result, n)
      && space.Memory() == old(space.Memory()) + ZeroMap(result, n)
      && Extent(result, result + n, true, 0 - result, Zeroes(n)) in space.views
      && space.readable == Grant(old(space.readable), PagesOf(result, result + n), true)
      && space.writable == Grant(old(space.writable), PagesOf(result, result + n), true)
      && space.executable == Grant(old(space.executable), PagesOf(result, result + n), false)
    ensures old(space.UniformAccess()) ==> space.UniformAccess()
    ensures old(space.UniformWrites()) ==> space.UniformWrites()
  {
    hide Overlay, ZeroMap, Unmapped, AlignDownToPage, RoundUpToPage, NoneFits, Grant,
         AddressSpace.MapsOk, AddressSpace.LookupsOk, AddressSpace.Memory, AddressSpace.UniformAccess,
         AddressSpace.UniformWrites;
    var n := RoundUpToPage(size);
    if n == 0 {
      return -EINVAL;
    }
    Aligned(n);
    Aligned(MMAP_MIN_ADDRESS);
    var found, hole := space.FindHole(MMAP_MIN_ADDRESS, max, n);
    if !found {
      return -ENOMEM;
    }
    Aligned(hole);
    ghost var before := space.Memory();
    RoomFor(space, AlignDownToPage(max), n, hole);
    space.AddMap(hole, n, 0);
    ghost var origin: int := hole;
    OverlayZeroes(before, hole, n, -origin);
    result := hole;
  }

  lemma Aligned(n: nat)
    requires IsPage(n)
    ensures AlignDownToPage(n) == n
    ensures n + PAGE_SIZE <= ADDRESS_LIMIT ==> RoundUpToPage(n) == n
  {
  }

  lemma RoomFor(space: AddressSpace, hi: nat, n: nat, hole: nat)
    requires space.Valid() && 0 < n && HighestFit(space.views, MMAP_MIN_ADDRESS, hi, n, hole)
    ensures NoStraddle(space.views, hole, hole + n) && hole + n <= space.mask
    ensures Unmapped(space.Memory(), hole, n)
    ensures MMAP_MIN_ADDRESS <= hole && hole + n <= hi
    ensures !NoneFits(space.views, MMAP_MIN_ADDRESS, hi, n)
  {
    hide Tiled, Tiling.Memory, AddressSpace.LookupsOk, RangesOk;
    HoleIsUnmapped(space.views, MMAP_MIN_ADDRESS, hi, n, hole, space.mask);
    space.MemoryOf();
  }

  /** An munmap: refuses an unaligned address or an empty range, and unmaps otherwise. */
  method Munmap(space: AddressSpace, address: nat, size: nat) returns (result: int)
    requires space.Valid() && size < ADDRESS_LIMIT
    requires RoundUpToPage(size) > 0 && IsPage(address) ==>
      && address + RoundUpToPage(size) <= space.mask
      && NoStraddle(space.views, address, address + RoundUpToPage(size))
    modifies space, space.cache, space.wnxCache
    ensures space.Valid() && space.roots == old(space.roots)
    ensures forall r <- space.maps :: r in old(space.maps) || fresh(r)
    ensures result == if IsPage(address) && RoundUpToPage(size) > 0 then 0 else -EINVAL
    ensures result < 0 ==> space.Memory() == old(space.Memory()) && space.views == old(space.views)
    ensures result == 0 ==>
      var n := RoundUpToPage(size);
      && space.Memory() == Overlay(old(space.Memory()), Extent(address, address + n, false, 0 - address, []))
      && space.readable == Grant(old(space.readable), PagesOf(address, address + n), false)
      && space.writable == Grant(old(space.writable), PagesOf(address, address + n), false)
      && space.executable == Grant(old(space.executable), PagesOf(address, address + n), false)
    ensures old(space.UniformAccess()) ==> space.UniformAccess()
    ensures old(space.UniformWrites()) ==> space.UniformWrites()
  {
    hide Overlay, NoStraddle, Grant, RoundUpToPage,
         AddressSpace.MapsOk, AddressSpace.LookupsOk, AddressSpace.Memory, AddressSpace.UniformAccess,
         AddressSpace.UniformWrites;
    if address != AlignDownToPage(address) {
      return -EINVAL;
    }
    var n := RoundUpToPage(size);
    if n == 0 {
      return -EINVAL;
    }
    Aligned(n);
    Aligned(address);
    space.RemoveMap(address, n);
    result := 0;
  }

  /** What a read of [a, end) finds according to memory and permissions alone. */
  ghost function Reads(space: AddressSpace, a: nat, end: nat): Option<seq<Byte>>
    reads space
  {
    FlatRead(space.Memory(), space.Accessible(), a, end)
  }

  /** Permissions of pages that hold no memory do not matter to reads. */
  lemma {:induction false} ReadsIgnoreUnmapped(
    memory: map<nat, Byte>, pages: set<nat>, others: set<nat>, a: nat, end: nat)
    requires forall b <- memory :: AlignDownToPage(b) in pages <==> AlignDownToPage(b) in others
    ensures FlatRead(memory, pages, a, end) == FlatRead(memory, others, a, end)
    decreases end - a
  {
    hide AlignDownToPage;
    if a < end {
      ReadsIgnoreUnmapped(memory, pages, others, a + 1, end);
    }
  }

  lemma PagesOfUnmapped(memory: map<nat, Byte>, base: nat, n: nat, b: nat)
    requires Unmapped(memory, base, n) && IsPage(base) && IsPage(n) && b in memory
    ensures AlignDownToPage(b) !in PagesOf(base, base + n)
  {
    assert !Within(base, n, b);
    if b >= base + n {
      AlignDownStaysAbove(base + n, b);
    }
  }

  /** With uniform access, what the space reads is what memory and permissions say. */
  lemma SpaceReads(space: AddressSpace)
    requires space.Valid() && space.UniformAccess()
    ensures forall a: nat, end: nat :: space.LoopReads(a, end).0 == Reads(space, a, end)
  {
    hide AddressSpace.MapsOk, AddressSpace.LookupsOk, AddressSpace.Memory, AddressSpace.UniformAccess, FlatRead,
         LoopRead, AddressSpace.ReadIsSure, AddressSpace.AccessIsUniform;
    space.AccessIsUniformIff();
    forall a: nat, end: nat ensures space.LoopReads(a, end).0 == Reads(space, a, end) {
      space.UniformReadIsSure(a, end);
      space.SureReadIsFlat(a, end);
    }
  }

  /**
   * Mapping memory where the kernel likes and unmapping it again is invisible: memory is the same,
   * and so is every read of it, through the caches too if access is uniform.
   */
  method MmapThenMunmap(space: AddressSpace, size: nat, max: nat) returns (address: int, result: int)
    requires space.Valid() && size < ADDRESS_LIMIT && AlignDownToPage(max) <= space.mask
    modifies space, space.cache, space.wnxCache
    ensures space.Valid() && space.Memory() == old(space.Memory())
    ensures address >= 0 ==> result == 0
    ensures address >= 0 ==> forall a, end :: Reads(space, a, end) == old(Reads(space, a, end))
    ensures old(space.UniformAccess()) ==> space.UniformAccess()
    ensures old(space.UniformWrites()) ==> space.UniformWrites()
    ensures address >= 0 && old(space.UniformAccess()) ==>
      forall a: nat, end: nat :: space.LoopReads(a, end).0 == old(space.LoopReads(a, end).0)
  {
    hide AddressSpace.MapsOk, AddressSpace.LookupsOk, AddressSpace.Memory, AddressSpace.UniformAccess,
         AddressSpace.UniformWrites, LoopRead, FlatRead;
    if space.UniformAccess() {
      SpaceReads(space);
    }
    address, result := MapAndUnmap(space, size, max);
    if space.UniformAccess() {
      SpaceReads(space);
    }
  }

  method MapAndUnmap(space: AddressSpace, size: nat, max: nat) returns (address: int, result: int)
    requires space.Valid() && size < ADDRESS_LIMIT && AlignDownToPage(max) <= space.mask
    modifies space, space.cache, space.wnxCache
    ensures space.Valid() && space.Memory() == old(space.Memory())
    ensures address >= 0 ==> result == 0
    ensures address >= 0 ==> forall a, end :: Reads(space, a, end) == old(Reads(space, a, end))
    ensures old(space.UniformAccess()) ==> space.UniformAccess()
    ensures old(space.UniformWrites()) ==> space.UniformWrites()
  {
    hide Overlay, ZeroMap, Unmapped, AlignDownToPage, RoundUpToPage, NoneFits, NoStraddle, FlatRead, Tiled,
         AddressSpace.LookupsOk, AddressSpace.Memory, AddressSpace.UniformAccess, AddressSpace.UniformWrites, RangesOk,
         OnPages;
    ghost var before, pages := space.Memory(), space.Accessible();
    address := Mmap(space, size, max);
    result := -1;
    if address >= 0 {
      var n := RoundUpToPage(size);
      ghost var origin: int := address;
      OwnIntervalIsClear(space.views, Extent(address, address + n, true, -origin, Zeroes(n)), space.mask);
      EndsBelowTop(space, Extent(address, address + n, true, -origin, Zeroes(n)));
      result := Munmap(space, address, size);
      OverlayNothing(before, address, n, -origin);
      forall a, end ensures Reads(space, a, end) == FlatRead(before, pages, a, end) {
        forall b <- before ensures AlignDownToPage(b) in pages <==> AlignDownToPage(b) in space.Accessible() {
          PagesOfUnmapped(before, address, n, b);
        }
        ReadsIgnoreUnmapped(before, pages, space.Accessible(), a, end);
      }
    }
  }

  lemma EndsBelowTop(space: AddressSpace, v: Extent)
    requires space.Valid() && v in space.views
    ensures v.limit <= space.mask
  {
    hide AddressSpace.LookupsOk, RangesOk, OnPages;
    var i :| 0 <= i < |space.views| && space.views[i] == v;
    Adjacent(space.views, space.mask, i);
  }
}
