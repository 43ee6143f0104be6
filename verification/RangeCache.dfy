/**
 * The direct-mapped cache in front of the page index: 256 entries keyed by page number, and one
 * more entry for the range found last.
 */
module RangeCache {
  import opened Pages
  import opened MappedRanges

  const CACHE_SIZE: nat := 256

  type Cache = seq<MappedRange?>
  type Index = map<nat, MappedRange>

  function Slot(page: nat): (i: nat)
    ensures i < CACHE_SIZE
  {
    (page / PAGE_SIZE) % CACHE_SIZE
  }

  /** Finds the range of a page: last range, cache slot, page index, sentinel. Also gives the new cache. */
  function Lookup(cache: Cache, index: Index, sentinel: MappedRange, page: nat): (MappedRange, Cache)
    requires |cache| == CACHE_SIZE + 1
  {
    var last, hit := cache[CACHE_SIZE], cache[Slot(page)];
    if last != null && last.Contains(page) then (last, cache)
    else if hit != null && hit.Contains(page) then (hit, cache[CACHE_SIZE := hit])
    else if page in index then
      (index[page], cache[CACHE_SIZE := index[page]][Slot(page) := index[page]])
    else (sentinel, cache)
  }

  /** The range of a page according to the page index alone. */
  function Scan(index: Index, sentinel: MappedRange, page: nat): MappedRange {
    if page in index then index[page] else sentinel
  }

  function EmptyCache(): Cache {
    seq(CACHE_SIZE + 1, i => null)
  }

  /** Nothing is cached but ranges that the index holds. */
  ghost predicate Fresh(cache: Cache, index: Index) {
    |cache| == CACHE_SIZE + 1 && forall r <- cache :: r != null ==> r in index.Values
  }

  lemma EmptyCacheIsFresh(index: Index)
    ensures Fresh(EmptyCache(), index)
  {
  }

  /** The index maps pages to the ranges that hold them, and the ranges do not overlap. */
  ghost predicate GoodIndex(index: Index) {
    && (forall page <- index :: index[page].Contains(page))
    && (forall page <- index, r <- index.Values :: r.Contains(page) ==> r == index[page])
  }

  /** Each indexed range has all of its pages in the index, or, put differently, none is left out. */
  ghost predicate Uniform(index: Index) {
    forall r <- index.Values, page: nat :: IsPage(page) && r.Contains(page) ==> page in index
  }

  /** A lookup answers with the sentinel or an indexed range that holds the page, and keeps the cache fresh. */
  lemma LookupIsFresh(cache: Cache, index: Index, sentinel: MappedRange, page: nat)
    requires Fresh(cache, index) && GoodIndex(index)
    ensures var (r, cache') := Lookup(cache, index, sentinel, page);
            && Fresh(cache', index)
            && ((r == sentinel && page !in index && cache' == cache) || (r in index.Values && r.Contains(page)))
            && (page in index ==> r == index[page])
  {
  }

  /** Looking the same page up again gives the same range and leaves the cache alone. */
  lemma LookupTwice(cache: Cache, index: Index, sentinel: MappedRange, page: nat)
    requires Fresh(cache, index) && GoodIndex(index)
    ensures var (r, cache') := Lookup(cache, index, sentinel, page);
            Fresh(cache', index) && Lookup(cache', index, sentinel, page) == (r, cache')
  {
    LookupIsFresh(cache, index, sentinel, page);
  }

  /** The cache after looking up a run of pages. */
  function CacheAfter(cache: Cache, index: Index, sentinel: MappedRange, pages: seq<nat>): (c: Cache)
    requires |cache| == CACHE_SIZE + 1
    ensures |c| == CACHE_SIZE + 1
  {
    if pages == [] then cache
    else Lookup(CacheAfter(cache, index, sentinel, pages[..|pages| - 1]), index, sentinel, pages[|pages| - 1]).1
  }

  lemma {:induction false} CacheStaysFresh(cache: Cache, index: Index, sentinel: MappedRange, pages: seq<nat>)
    requires Fresh(cache, index) && GoodIndex(index)
    ensures Fresh(CacheAfter(cache, index, sentinel, pages), index)
  {
    hide Lookup, GoodIndex;
    if pages != [] {
      var before := pages[..|pages| - 1];
      CacheStaysFresh(cache, index, sentinel, before);
      LookupIsFresh(CacheAfter(cache, index, sentinel, before), index, sentinel, pages[|pages| - 1]);
    }
  }

  /** Whatever was looked up before, the cached answer for every page is the one of the index. */
  ghost predicate Transparent(index: Index, sentinel: MappedRange) {
    forall pages: seq<nat>, page: nat | IsPage(page) ::
      Lookup(CacheAfter(EmptyCache(), index, sentinel, pages), index, sentinel, page).0 == Scan(index, sentinel, page)
  }

  /**
   * The cache is transparent exactly when every indexed range has all of its pages indexed: a hit
   * tests only whether the range contains the page.
   */
  lemma TransparentIffUniform(index: Index, sentinel: MappedRange)
    requires GoodIndex(index) && sentinel !in index.Values
    ensures Transparent(index, sentinel) <==> Uniform(index)
  {
    if Uniform(index) {
      forall pages: seq<nat>, page: nat | IsPage(page)
        ensures Lookup(CacheAfter(EmptyCache(), index, sentinel, pages), index, sentinel, page).0
             == Scan(index, sentinel, page)
      {
        CacheStaysFresh(EmptyCache(), index, sentinel, pages);
        LookupIsFresh(CacheAfter(EmptyCache(), index, sentinel, pages), index, sentinel, page);
      }
    } else {
      var r, page: nat :| r in index.Values && IsPage(page) && r.Contains(page) && page !in index;
      var known :| known in index && index[known] == r;
      StaleAfter(index, sentinel, r, known, page);
    }
  }

  /** After looking up an indexed page of a range, every other page of the range is found too. */
  lemma StaleAfter(index: Index, sentinel: MappedRange, r: MappedRange, known: nat, page: nat)
    requires known in index && index[known] == r && r.Contains(page)
    ensures Lookup(CacheAfter(EmptyCache(), index, sentinel, [known]), index, sentinel, page).0 == r
  {
    assert [known][..0] == [];
    assert CacheAfter(EmptyCache(), index, sentinel, [known]) == Lookup(EmptyCache(), index, sentinel, known).1;
  }

  /** The range of the page looked up last is the one found last. */
  lemma CachedLast(index: Index, sentinel: MappedRange, known: nat)
    requires known in index
    ensures CacheAfter(EmptyCache(), index, sentinel, [known])[CACHE_SIZE] == index[known]
  {
    assert [known][..0] == [];
    assert CacheAfter(EmptyCache(), index, sentinel, [known]) == Lookup(EmptyCache(), index, sentinel, known).1;
  }
}
