/** What the page loops over bytes read and write, as functions of memory and of the range cache. */
module ByteAccess {
  import opened Options
  import opened Pages
  import opened MappedRanges
  import opened RangeCache

  type Memory = map<nat, Byte>

  /** The indexed ranges are valid, consist of whole pages, and are all in memory. */
  ghost predicate Backed(memory: Memory, index: Index) {
    forall r <- index.Values ::
      r.valid && IsPage(r.limit) && forall a: nat | r.Contains(a) :: a in memory
  }

  /** The bytes of memory in [a, stop). */
  ghost function Slice(memory: Memory, a: nat, stop: nat): (s: seq<Byte>)
    requires a <= stop && forall b | a <= b < stop :: b in memory
    ensures |s| == stop - a && forall i | 0 <= i < |s| :: s[i] == memory[a + i]
  {
    seq(stop - a, i requires 0 <= i < stop - a => memory[a + i])
  }

  /** Where the part of [a, end) on the first page ends. */
  function PageEnd(a: nat, end: nat): (stop: nat)
    ensures a < end ==> a < stop <= end
  {
    var next := AlignDownToPage(a) + PAGE_SIZE;
    if next < end then next else end
  }

  function Prepend(bytes: seq<Byte>, result: (Option<seq<Byte>>, Cache)): (Option<seq<Byte>>, Cache) {
    (match result.0 case None => None case Some(rest) => Some(bytes + rest), result.1)
  }

  lemma PrependNothing(result: (Option<seq<Byte>>, Cache))
    ensures Prepend([], result) == result
  {
    if result.0.Some? {
      assert [] + result.0.value == result.0.value;
    }
  }

  lemma PrependTwice(first: seq<Byte>, second: seq<Byte>, result: (Option<seq<Byte>>, Cache))
    ensures Prepend(first, Prepend(second, result)) == Prepend(first + second, result)
  {
    if result.0.Some? {
      assert first + (second + result.0.value) == first + second + result.0.value;
    }
  }

  // ---------------------------------------------------------------- reading

  /** The pages of an indexed range lie wholly inside it. */
  lemma PageIsBacked(memory: Memory, index: Index, r: MappedRange, a: nat, end: nat)
    requires Backed(memory, index) && r in index.Values && r.Contains(AlignDownToPage(a)) && a < end
    ensures r.base <= a && PageEnd(a, end) <= r.limit
    ensures forall b | a <= b < PageEnd(a, end) :: b in memory
  {
    forall b | a <= b < PageEnd(a, end) ensures b in memory {
      assert r.Contains(b);
    }
  }

  /** Reads [a, end) page by page: the result, and the cache that the lookups leave behind. */
  ghost function LoopRead(memory: Memory, index: Index, sentinel: MappedRange, cache: Cache, a: nat, end: nat)
    : (Option<seq<Byte>>, Cache)
    requires Backed(memory, index) && GoodIndex(index) && !sentinel.valid && Fresh(cache, index)
    decreases end - a
  {
    if a >= end then (Some([]), cache)
    else
      var (r, cache') := Lookup(cache, index, sentinel, AlignDownToPage(a));
      LookupIsFresh(cache, index, sentinel, AlignDownToPage(a));
      if !r.valid then (None, cache')
      else
        PageIsBacked(memory, index, r, a, end);
        var stop := PageEnd(a, end);
        Prepend(Slice(memory, a, stop), LoopRead(memory, index, sentinel, cache', stop, end))
  }

  /** Starting over after the first lookup changes nothing. */
  lemma LoopReadAfterLookup(memory: Memory, index: Index, sentinel: MappedRange, cache: Cache, a: nat, end: nat)
    requires Backed(memory, index) && GoodIndex(index) && !sentinel.valid && Fresh(cache, index)
    requires a < end
    ensures var cache' := Lookup(cache, index, sentinel, AlignDownToPage(a)).1;
            && Fresh(cache', index)
            && LoopRead(memory, index, sentinel, cache, a, end) == LoopRead(memory, index, sentinel, cache', a, end)
  {
    hide AlignDownToPage, PageEnd;
    LookupIsFresh(cache, index, sentinel, AlignDownToPage(a));
    LookupTwice(cache, index, sentinel, AlignDownToPage(a));
    hide Lookup, GoodIndex, Fresh, Backed;
  }

  /** Reads [a, end) from a plain byte map: every byte must be mapped and its page accessible. */
  ghost function FlatRead(memory: Memory, pages: set<nat>, a: nat, end: nat): Option<seq<Byte>>
    decreases end - a
  {
    if a >= end then Some([])
    else if a !in memory || AlignDownToPage(a) !in pages then None
    else match FlatRead(memory, pages, a + 1, end)
      case None => None
      case Some(rest) => Some([memory[a]] + rest)
  }

  /** The index holds exactly the given pages, as far as they are in memory. */
  ghost predicate IndexFor(index: Index, memory: Memory, pages: set<nat>) {
    && (forall page <- index :: page in pages)
    && (forall a <- memory :: AlignDownToPage(a) in pages ==> AlignDownToPage(a) in index)
  }

  /** Reading a stretch that is all there, and what follows it. */
  lemma {:induction false} FlatReadStretch(memory: Memory, pages: set<nat>, a: nat, stop: nat, end: nat)
    requires a <= stop <= end && forall b | a <= b < stop :: b in memory && AlignDownToPage(b) in pages
    ensures FlatRead(memory, pages, a, end) ==
      match FlatRead(memory, pages, stop, end)
      case None => None
      case Some(rest) => Some(Slice(memory, a, stop) + rest)
    decreases stop - a
  {
    hide AlignDownToPage;
    var rest := FlatRead(memory, pages, stop, end);
    if a < stop {
      FlatReadStretch(memory, pages, a + 1, stop, end);
      assert Slice(memory, a, stop) == [memory[a]] + Slice(memory, a + 1, stop);
      if rest.Some? {
        assert [memory[a]] + (Slice(memory, a + 1, stop) + rest.value) == Slice(memory, a, stop) + rest.value;
      }
    } else if rest.Some? {
      assert Slice(memory, a, stop) + rest.value == rest.value;
    }
  }

  /** The page holds part of [a, end). */
  predicate Touches(a: nat, end: nat, page: nat) {
    a < end && IsPage(page) && AlignDownToPage(a) <= page < end
  }

  /** Some lookup can find a range for the page, even if the index has none. */
  ghost predicate CanBeFound(index: Index, page: nat) {
    exists r <- index.Values :: r.Contains(page)
  }

  /** If a range can be found for each page of [a, end), then all of these pages are indexed. */
  ghost predicate SureRead(index: Index, a: nat, end: nat) {
    (forall page: nat | Touches(a, end, page) :: CanBeFound(index, page)) ==>
      forall page: nat | Touches(a, end, page) :: page in index
  }

  /** As long as the access stays inside the range found last, nothing else is looked at. */
  lemma {:induction false} LastRangeIsRead(memory: Memory, index: Index, sentinel: MappedRange, cache: Cache,
                                           r: MappedRange, a: nat, end: nat)
    requires Backed(memory, index) && GoodIndex(index) && !sentinel.valid && Fresh(cache, index)
    requires r in index.Values && cache[CACHE_SIZE] == r && IsPage(r.base) && r.base <= a && end <= r.limit
    ensures LoopRead(memory, index, sentinel, cache, a, end).0.Some?
    decreases end - a
  {
    hide GoodIndex, AlignDownToPage, PageEnd, IsPage;
    if a < end {
      AlignDownStaysAbove(r.base, a);
      assert r.Contains(AlignDownToPage(a));
      LastRangeIsRead(memory, index, sentinel, cache, r, PageEnd(a, end), end);
    }
  }

  /** One byte that cannot be read is enough for nothing to be read. */
  lemma {:induction false} NothingRead(memory: Memory, pages: set<nat>, a: nat, end: nat, bad: nat)
    requires a <= bad < end && (bad !in memory || AlignDownToPage(bad) !in pages)
    ensures FlatRead(memory, pages, a, end).None?
    decreases end - a
  {
    hide AlignDownToPage;
    if a < bad {
      NothingRead(memory, pages, a + 1, end, bad);
    }
  }

  lemma SamePage(a: nat, end: nat)
    requires a < end
    ensures forall b | a <= b < PageEnd(a, end) :: AlignDownToPage(b) == AlignDownToPage(a)
  {
  }

  /** The pages of [a, end) are that of `a` and those of what is behind it. */
  lemma NextPage(a: nat, end: nat)
    requires a < end
    ensures IsPage(AlignDownToPage(a)) && Touches(a, end, AlignDownToPage(a))
    ensures forall page: nat | page != AlignDownToPage(a) ::
      Touches(a, end, page) <==> Touches(PageEnd(a, end), end, page)
    ensures !Touches(PageEnd(a, end), end, AlignDownToPage(a))
  {
    var (first, stop) := (AlignDownToPage(a), PageEnd(a, end));
    assert stop < end ==> stop == first + PAGE_SIZE == AlignDownToPage(stop);
  }

  /** A byte of [a, end) on a page of it. */
  lemma ByteOn(a: nat, end: nat, page: nat) returns (b: nat)
    requires Touches(a, end, page)
    ensures a <= b < end && AlignDownToPage(b) == page
  {
    b := if a < page then page else a;
    if page <= a {
      AlignDownStaysAbove(page, a);
    }
  }

  /** If all pages are indexed, the page loop reads what the plain byte map holds. */
  lemma {:induction false} IndexedReadIsFlat(memory: Memory, pages: set<nat>, index: Index,
                                             sentinel: MappedRange, cache: Cache, a: nat, end: nat)
    requires Backed(memory, index) && GoodIndex(index) && !sentinel.valid && Fresh(cache, index)
    requires IndexFor(index, memory, pages) && forall page: nat | Touches(a, end, page) :: page in index
    ensures LoopRead(memory, index, sentinel, cache, a, end).0 == FlatRead(memory, pages, a, end)
    decreases end - a
  {
    hide Lookup, AlignDownToPage, PageEnd, IsPage, Touches;
    if a < end {
      var page := AlignDownToPage(a);
      var (r, cache') := Lookup(cache, index, sentinel, page);
      NextPage(a, end);
      LookupIsFresh(cache, index, sentinel, page);
      var stop := PageEnd(a, end);
      PageIsBacked(memory, index, r, a, end);
      SamePage(a, end);
      FlatReadStretch(memory, pages, a, stop, end);
      hide Backed, GoodIndex;
      IndexedReadIsFlat(memory, pages, index, sentinel, cache', stop, end);
    }
  }

  /** If no lookup can find a range for one of the pages, the page loop fails. */
  lemma {:induction false} UnfoundReadFails(memory: Memory, index: Index, sentinel: MappedRange, cache: Cache,
                                            a: nat, end: nat, page: nat)
    requires Backed(memory, index) && GoodIndex(index) && !sentinel.valid && Fresh(cache, index)
    requires Touches(a, end, page) && !CanBeFound(index, page)
    ensures LoopRead(memory, index, sentinel, cache, a, end).0.None?
    decreases end - a
  {
    hide Lookup, AlignDownToPage, PageEnd, IsPage, Backed;
    NextPage(a, end);
    var (r, cache') := Lookup(cache, index, sentinel, AlignDownToPage(a));
    LookupIsFresh(cache, index, sentinel, AlignDownToPage(a));
    if r.valid {
      UnfoundReadFails(memory, index, sentinel, cache', PageEnd(a, end), end, page);
    }
  }

  /**
   * The page loop reads exactly what the plain byte map says, whatever is in the cache, if all pages
   * of the access are indexed, or there is one that no lookup finds a range for.
   */
  lemma LoopReadIsFlatRead(memory: Memory, pages: set<nat>, index: Index,
                           sentinel: MappedRange, cache: Cache, a: nat, end: nat)
    requires Backed(memory, index) && GoodIndex(index) && !sentinel.valid && Fresh(cache, index)
    requires IndexFor(index, memory, pages) && SureRead(index, a, end)
    ensures LoopRead(memory, index, sentinel, cache, a, end).0 == FlatRead(memory, pages, a, end)
  {
    hide LoopRead, FlatRead, Touches, Fresh, Backed, AlignDownToPage;
    if page: nat :| Touches(a, end, page) && !CanBeFound(index, page) {
      UnfoundReadFails(memory, index, sentinel, cache, a, end, page);
      var b := ByteOn(a, end, page);
      assert page !in index;
      NothingRead(memory, pages, a, end, b);
    } else {
      IndexedReadIsFlat(memory, pages, index, sentinel, cache, a, end);
    }
  }

  // ---------------------------------------------------------------- writing

  /** Writes bytes one by one to a plain byte map, until one is not mapped or its page is not writable. */
  ghost function FlatWrite(memory: Memory, pages: set<nat>, a: nat, bytes: seq<Byte>): (Memory, bool)
    decreases |bytes|
  {
    if bytes == [] then (memory, true)
    else if a !in memory || AlignDownToPage(a) !in pages then (memory, false)
    else FlatWrite(memory[a := bytes[0]], pages, a + 1, bytes[1..])
  }

  ghost function Update(memory: Memory, a: nat, bytes: seq<Byte>): Memory
    decreases |bytes|
  {
    if bytes == [] then memory else Update(memory[a := bytes[0]], a + 1, bytes[1..])
  }

  lemma {:induction false} UpdateAt(memory: Memory, a: nat, bytes: seq<Byte>)
    requires forall b | a <= b < a + |bytes| :: b in memory
    ensures Update(memory, a, bytes).Keys == memory.Keys
    ensures forall b <- memory ::
      Update(memory, a, bytes)[b] == if a <= b < a + |bytes| then bytes[b - a] else memory[b]
    decreases |bytes|
  {
    if bytes != [] {
      UpdateAt(memory[a := bytes[0]], a + 1, bytes[1..]);
      assert memory[a := bytes[0]].Keys == memory.Keys;
    }
  }

  /** Writing a stretch that is mapped and writable, and what follows it. */
  lemma {:induction false} FlatWriteStretch(memory: Memory, pages: set<nat>, a: nat, bytes: seq<Byte>, k: nat)
    requires k <= |bytes|
    requires forall b | a <= b < a + k :: b in memory && AlignDownToPage(b) in pages
    ensures FlatWrite(memory, pages, a, bytes) ==
            FlatWrite(Update(memory, a, bytes[..k]), pages, a + k, bytes[k..])
    decreases k
  {
    hide AlignDownToPage;
    if k > 0 {
      FlatWriteStretch(memory[a := bytes[0]], pages, a + 1, bytes[1..], k - 1);
      assert bytes[..k][1..] == bytes[1..][..k - 1];
      assert bytes[1..][k - 1..] == bytes[k..];
    } else {
      assert bytes[..0] == [] && bytes[0..] == bytes;
    }
  }

  // ---------------------------------------------------------------- typed values

  /** The value of bytes in memory order, least significant first. */
  function LittleEndian(bytes: seq<Byte>): nat {
    if bytes == [] then 0 else bytes[0] + 256 * LittleEndian(bytes[1..])
  }

  /** The `n` low bytes of a value, least significant first. */
  function ToBytes(value: nat, n: nat): (bytes: seq<Byte>)
    ensures |bytes| == n
  {
    if n == 0 then [] else [value % 256] + ToBytes(value / 256, n - 1)
  }

  lemma {:induction false} LittleEndianOfToBytes(value: nat, n: nat)
    ensures n == 1 && value < 0x100 ==> LittleEndian(ToBytes(value, n)) == value
    ensures n == 2 && value < 0x1_0000 ==> LittleEndian(ToBytes(value, n)) == value
    ensures n == 4 && value < 0x1_0000_0000 ==> LittleEndian(ToBytes(value, n)) == value
    ensures n == 8 && value < 0x1_0000_0000_0000_0000 ==> LittleEndian(ToBytes(value, n)) == value
  {
    ToBytesValue(value, n);
    assert Power256(1) == 0x100;
    assert Power256(2) == 0x1_0000;
    assert Power256(4) == 0x100 * (0x100 * Power256(2));
    assert Power256(8) == 0x100 * (0x100 * (0x100 * (0x100 * Power256(4))));
  }

  function Power256(n: nat): (p: nat)
    ensures p > 0
  {
    if n == 0 then 1 else 256 * Power256(n - 1)
  }

  /** Dropping a byte and then some is dropping one more. */
  lemma DropByte(value: nat, b: nat)
    requires b > 0
    ensures value / (256 * b) == value / 256 / b
  {
    var q := value / 256;
    var (t, u) := (q / b, q % b);
    assert q == b * t + u;
    assert (256 * b) * t == 256 * (b * t);
    QuotientIs(value, 256 * b, t, 256 * u + value % 256);
  }

  lemma QuotientIs(value: nat, d: nat, q: nat, r: nat)
    requires d > 0 && r < d && value == d * q + r
    ensures value / d == q
  {
    var k := value / d;
    assert value == d * k + value % d;
    if k < q {
      TimesGrows(d, k + 1, q);
    } else if q < k {
      TimesGrows(d, q + 1, k);
    }
  }

  lemma TimesGrows(d: nat, a: nat, b: nat)
    requires a <= b
    ensures d * a <= d * b
  {
  }

  lemma {:induction false} ToBytesValue(value: nat, n: nat)
    ensures value < Power256(n) ==> LittleEndian(ToBytes(value, n)) == value
  {
    if n > 0 {
      ToBytesValue(value / 256, n - 1);
    }
  }

  /** The byte of a value at a place: place zero is the least significant. */
  function ByteOf(value: nat, i: nat): Byte
  {
    value / Power256(i) % 256
  }

  lemma ByteOfNext(value: nat, i: nat)
    ensures ByteOf(value, i + 1) == ByteOf(value / 256, i)
  {
    assert Power256(i + 1) == 256 * Power256(i);
    DropByte(value, Power256(i));
  }

  /** The byte at each address is the byte of the value at that place. */
  lemma {:induction false} LittleEndianAt(bytes: seq<Byte>, i: nat)
    requires i < |bytes|
    ensures ByteOf(LittleEndian(bytes), i) == bytes[i]
    decreases i
  {
    var rest := LittleEndian(bytes[1..]);
    assert LittleEndian(bytes) % 256 == bytes[0] && LittleEndian(bytes) / 256 == rest;
    if i > 0 {
      LittleEndianAt(bytes[1..], i - 1);
      ByteOfNext(LittleEndian(bytes), i - 1);
    }
  }

  lemma {:induction false} LittleEndianFits(bytes: seq<Byte>)
    ensures LittleEndian(bytes) < Power256(|bytes|)
    decreases |bytes|
  {
    if bytes != [] {
      LittleEndianFits(bytes[1..]);
    }
  }

  lemma {:induction false} ToBytesAt(value: nat, n: nat, i: nat)
    requires i < n
    ensures ToBytes(value, n)[i] == ByteOf(value, i)
    decreases n
  {
    if i > 0 {
      ToBytesAt(value / 256, n - 1, i - 1);
      ByteOfNext(value, i - 1);
    }
  }

  /** Within one page, the page loop takes a single step. */
  lemma LoopReadOnePage(memory: Memory, index: Index, sentinel: MappedRange, cache: Cache, a: nat, end: nat)
    requires Backed(memory, index) && GoodIndex(index) && !sentinel.valid && Fresh(cache, index)
    requires a < end && AlignDownToPage(a) == AlignDownToPage(end - 1)
    ensures PageEnd(a, end) == end
    ensures var (r, cache') := Lookup(cache, index, sentinel, AlignDownToPage(a));
            r.valid ==>
              && (forall b | a <= b < end :: b in memory)
              && LoopRead(memory, index, sentinel, cache, a, end) == (Some(Slice(memory, a, end)), cache')
  {
    LookupIsFresh(cache, index, sentinel, AlignDownToPage(a));
    var (r, cache') := Lookup(cache, index, sentinel, AlignDownToPage(a));
    if r.valid {
      PageIsBacked(memory, index, r, a, end);
      assert Slice(memory, a, end) + [] == Slice(memory, a, end);
    }
  }
}
