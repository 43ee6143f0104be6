/** A bump allocator over growing memory, and a zone allocator that recycles and splits its blocks. */
module Allocators {
  import opened Pages

  /** Recycled blocks are split if more than this many bytes would be wasted. */
  const SPLIT_SIZE: nat := 4096

  const CACHE_LINE: nat := 64

  predicate Between(a: nat, from: nat, to: nat) {
    from <= a < to
  }

  /** Fresh pages from the host. */
  function ZeroPages(from: nat, to: nat): map<nat, nat> {
    map a | from <= a < to && Between(a, from, to) :: 0
  }

  lemma ZeroPagesAre(from: nat, to: nat)
    ensures forall a :: a in ZeroPages(from, to) <==> from <= a < to
    ensures forall a <- ZeroPages(from, to) :: ZeroPages(from, to)[a] == 0
  {
    assert forall a: nat :: Between(a, from, to) <==> from <= a < to;
  }

  function Times(k: nat, unit: nat): nat {
    k * unit
  }

  ghost predicate IsMultiple(a: nat, unit: nat) {
    exists k: nat :: Times(k, unit) == a
  }

  /** Skipping what is missing to the next multiple gets there. */
  lemma AlignedUp(a: nat, align: nat)
    requires align > 0
    ensures IsMultiple(if a % align == 0 then a else a + (align - a % align), align)
  {
    var q := a / align;
    assert a == q * align + a % align;
    if a % align == 0 {
      assert Times(q, align) == a;
    } else {
      assert Times(q + 1, align) == q * align + align;
    }
  }

  lemma RoundedUp(n: nat, unit: nat)
    requires unit > 0
    ensures IsMultiple(RoundUp(n, unit), unit) && IsMultiple(0, unit) && IsMultiple(unit, unit)
  {
    var top := n + (unit - 1);
    assert top == (top / unit) * unit + top % unit;
    assert Times(top / unit, unit) == RoundUp(n, unit) && Times(0, unit) == 0 && Times(1, unit) == unit;
  }

  lemma SumIsMultiple(a: nat, b: nat, unit: nat)
    requires IsMultiple(a, unit) && IsMultiple(b, unit)
    ensures IsMultiple(a + b, unit)
  {
    var j: nat :| Times(j, unit) == a;
    var k: nat :| Times(k, unit) == b;
    assert Times(j + k, unit) == j * unit + k * unit;
  }

  /** Bytes in [from, to) are zero. */
  ghost predicate Zeroed(contents: map<nat, nat>, from: nat, to: nat) {
    forall a | from <= a < to :: a in contents && contents[a] == 0
  }

  /** Only bytes in [from, to) differ, and none is lost. */
  ghost predicate SameOutside(before: map<nat, nat>, after: map<nat, nat>, from: nat, to: nat) {
    forall a <- before :: a in after && (a < from || to <= a ==> after[a] == before[a])
  }

  class AreaAllocator {
    /** A power of two. */
    const pageSize: nat
    /** Where the host puts the area. */
    const hostBase: nat

    /** Zero until the first allocation. */
    var base: nat
    var bump: nat
    var limit: nat

    /** The host memory behind the area. */
    var contents: map<nat, nat>

    ghost predicate Valid()
      reads this
    {
      && 0 < pageSize && 0 < hostBase
      && (base == 0 ==> bump == limit == 0)
      && (base != 0 ==> base == hostBase)
      && base <= bump <= limit && IsMultiple(limit - base, pageSize)
      && forall a :: a in contents <==> base <= a < limit
    }

    constructor (pageSize: nat, hostBase: nat)
      requires 0 < pageSize && 0 < hostBase
      ensures Valid() && base == 0 && this.hostBase == hostBase
    {
      this.pageSize, this.hostBase := pageSize, hostBase;
      base, bump, limit, contents := 0, 0, 0, map[];
      RoundedUp(0, pageSize);
    }

    /** The start of the unused part: where the next allocation goes, but for alignment. */
    ghost function Top(): nat
      reads this
    {
      if base == 0 then hostBase else bump
    }

    /** The first pages, enough for `size` bytes. */
    method Start(size: nat)
      requires Valid() && base == 0
      modifies this
      ensures Valid() && base == bump == hostBase && limit <= base + size + pageSize
      ensures forall a <- contents :: contents[a] == 0
    {
      hide ZeroPages, IsMultiple;
      RoundedUp(size, pageSize);
      var allocSize := if size > pageSize then RoundUp(size, pageSize) else pageSize;
      base := hostBase;
      bump := base;
      limit := base + allocSize;
      ZeroPagesAre(base, limit);
      contents := ZeroPages(base, limit);
    }

    /** More pages, right behind the ones there are, so that `end` is inside the area. */
    method Grow(end: nat)
      requires Valid() && base != 0 && end >= limit
      modifies this`limit, this`contents
      ensures Valid() && end <= limit <= end + pageSize
      ensures forall a <- old(contents) :: a in contents && contents[a] == old(contents)[a]
      ensures forall a <- contents | a !in old(contents) :: contents[a] == 0
    {
      hide ZeroPages, IsMultiple;
      var missing := end - limit;
      RoundedUp(missing, pageSize);
      var allocSize := RoundUp(missing, pageSize);
      if allocSize == 0 {
        allocSize := pageSize;
      }
      SumIsMultiple(limit - base, allocSize, pageSize);
      ZeroPagesAre(limit, limit + allocSize);
      contents := contents + ZeroPages(limit, limit + allocSize);
      limit := limit + allocSize;
    }

    /** Hands out the next `size` bytes after aligning, and grows the area if it is full. */
    method Allocate(size: nat, align: nat) returns (block: nat)
      requires Valid()
      modifies this
      ensures Valid() && base == hostBase && bump == block + size
      ensures limit == old(limit) || limit <= bump + pageSize
      ensures old(Top()) <= block && (if align == 0 then block == old(Top()) else block < old(Top()) + align)
      ensures align > 0 ==> IsMultiple(block, align)
      ensures forall a <- old(contents) :: a in contents && contents[a] == old(contents)[a]
      ensures forall a <- contents | a !in old(contents) :: contents[a] == 0
    {
      hide IsMultiple;
      if base == 0 {
        Start(size);
      }
      var alignMissing := if align > 0 then bump % align else 0;
      if align > 0 {
        AlignedUp(bump, align);
      }
      block := if alignMissing > 0 then bump + (align - alignMissing) else bump;
      if block + size >= limit {
        Grow(block + size);
      }
      bump := block + size;
    }

    method FreeAll()
      requires Valid()
      modifies this
      ensures Valid() && bump == base && base == old(base) && limit == old(limit) && contents == old(contents)
    {
      bump := base;
    }
  }
}
