/** A cache of fixed-size entries kept in a memory-mapped file. */
module FileCache {
  import opened Pages

  const MAX_FILE_SIZE: nat := 64 * 1024 * 1024

  type Entry = seq<Byte>

  lemma RoundUpIsWhole(size: nat)
    ensures RoundUp(size, PAGE_SIZE) % PAGE_SIZE == 0
  {
  }

  /** Rounding up gives the smallest whole number of pages. */
  lemma RoundUpIsLeast(size: nat, pages: nat)
    requires size <= pages && pages % PAGE_SIZE == 0
    ensures RoundUp(size, PAGE_SIZE) <= pages
  {
  }

  lemma RoundUpGrows(a: nat, b: nat)
    requires a <= b
    ensures RoundUp(a, PAGE_SIZE) <= RoundUp(b, PAGE_SIZE)
  {
  }

  lemma {:induction false} TimesGrows(a: nat, b: nat, n: nat)
    requires a <= b
    ensures a * n <= b * n
  {
    assert b * n == a * n + (b - a) * n;
    assert (b - a) * n >= 0;
  }

  /** The quotient is the one whole number of entries that fits. */
  lemma QuotientIs(size: nat, n: nat, k: nat)
    requires n > 0 && k * n <= size < (k + 1) * n
    ensures size / n == k
  {
    var q := size / n;
    assert q * n <= size < (q + 1) * n;
    if q < k {
      TimesGrows(q + 1, k, n);
    } else if k < q {
      TimesGrows(k + 1, q, n);
    }
  }

  lemma QuotientFits(size: nat, n: nat)
    requires n > 0
    ensures size / n * n <= size < (size / n + 1) * n
  {
  }

  /** What resizing a file does: cuts it off, or adds zeroes. */
  function Resize(file: seq<Byte>, size: nat): (r: seq<Byte>)
    ensures |r| == size
    ensures forall i | 0 <= i < size && i < |file| :: r[i] == file[i]
  {
    if size <= |file| then file[..size] else file + seq(size - |file|, i => 0 as Byte)
  }

  /** Where the `i`th entry starts. */
  function Offset(i: nat, n: nat): nat {
    i * n
  }

  lemma Offsets(i: nat, j: nat, n: nat)
    ensures Offset(0, n) == 0 && Offset(i + 1, n) == Offset(i, n) + n
    ensures i <= j ==> Offset(i, n) <= Offset(j, n)
    ensures Offset(i + j, n) == Offset(i, n) + Offset(j, n)
  {
    if i <= j {
      TimesGrows(i, j, n);
    }
  }

  /** The first `count` entries of a file. */
  ghost function Entries(file: seq<Byte>, n: nat, count: nat): (es: seq<Entry>)
    requires Offset(count, n) <= |file|
    ensures |es| == count
  {
    if count == 0 then [] else
      Offsets(count - 1, count, n);
      Entries(file, n, count - 1) + [file[Offset(count - 1, n)..Offset(count, n)]]
  }

  /** Entries depend only on their own bytes. */
  lemma {:induction false} SameEntries(a: seq<Byte>, b: seq<Byte>, n: nat, count: nat)
    requires Offset(count, n) <= |a| && Offset(count, n) <= |b| && a[..Offset(count, n)] == b[..Offset(count, n)]
    ensures Entries(a, n, count) == Entries(b, n, count)
  {
    hide Offset;
    if count > 0 {
      Offsets(count - 1, count, n);
      var (from, to) := (Offset(count - 1, n), Offset(count, n));
      assert a[..from] == a[..to][..from] && b[..from] == b[..to][..from];
      assert a[from..to] == a[..to][from..] && b[from..to] == b[..to][from..];
      SameEntries(a, b, n, count - 1);
    }
  }

  /** A cache over a file of any contents. The file is mapped, so what is written to the map is in the file. */
  class FileBackedCache {
    /** The size of an entry. */
    const n: nat
    var file: seq<Byte>
    /** The number of entries, and of entries there is room for. */
    var soft: nat
    var hard: nat

    /** The size the file would have without rounding. */
    ghost var size: nat

    ghost predicate Valid()
      reads this
    {
      && 0 < n && soft <= hard && |file| == RoundUp(size, PAGE_SIZE) <= MAX_FILE_SIZE
      && Offset(soft, n) <= size < Offset(soft + 1, n)
      && Offset(hard, n) <= |file| < Offset(hard + 1, n)
    }

    ghost function Contents(): seq<Entry>
      requires Valid()
      reads this
    {
      Offsets(soft, soft, n);
      Entries(file, n, soft)
    }

    /** Opens a file: its entries are the whole ones, and it is padded to whole pages. */
    constructor Open(file: seq<Byte>, n: nat)
      requires 0 < n && |file| <= MAX_FILE_SIZE
      ensures Valid() && this.n == n && soft == |file| / n && size == |file|
      ensures Offset(soft, n) <= |file| && Contents() == Entries(file, n, soft)
    {
      var mappedSize := RoundUp(|file|, PAGE_SIZE);
      this.n, soft, hard, size := n, |file| / n, mappedSize / n, |file|;
      this.file := Resize(file, mappedSize);
      new;
      QuotientFits(|file|, n);
      QuotientFits(mappedSize, n);
      QuotientGrows(|file|, mappedSize, n);
      RoundUpIsLeast(|file|, MAX_FILE_SIZE);
      SameEntries(file, this.file, n, soft);
    }

    /** Adds entries at the end, and makes the file larger if they do not fit. */
    method Extend(entries: seq<Entry>)
      requires Valid() && forall e <- entries :: |e| == n
      requires soft + |entries| > hard ==> RoundUp(Offset(soft + |entries|, n), PAGE_SIZE) <= MAX_FILE_SIZE
      modifies this
      ensures Valid() && Contents() == old(Contents()) + entries
    {
      hide Offset, RoundUp, Entries;
      if entries == [] {
        assert Contents() + entries == Contents();
        return;
      }
      ghost var before := Contents();
      var start, newCount := soft, soft + |entries|;
      var newHardSize := RoundUp(Offset(newCount, n), PAGE_SIZE);
      NewSizes(soft, hard, n, size, |file|, newCount);
      Offsets(start, newCount, n);
      Offsets(newCount, newCount, n);
      ghost var was := file;
      if newCount > hard {
        file := Resize(file, newHardSize);
      }
      SameEntries(file, was, n, start);
      hard, soft, size := newHardSize / n, newCount, Offset(newCount, n);
      Copy(start, entries, before);
    }

    /** Copies the entries into their places. */
    method Copy(start: nat, entries: seq<Entry>, ghost before: seq<Entry>)
      requires Valid() && soft == start + |entries| && (forall e <- entries :: |e| == n)
      requires Offset(start, n) <= |file| && Entries(file, n, start) == before
      modifies this`file
      ensures Valid() && Contents() == before + entries
    {
      hide Offset, RoundUp, Entries;
      ghost var total := |file|;
      assert entries[..0] == [] && before + [] == before;
      for k := 0 to |entries|
        invariant |file| == total
        invariant Offset(start + k, n) <= total && Entries(file, n, start + k) == before + entries[..k]
      {
        Offsets(start + k, soft, n);
        Offsets(start + k + 1, soft, n);
        var at := Offset(start + k, n);
        ghost var was := file;
        file := file[..at] + entries[k] + file[at + n..];
        OneMore(was, file, n, start + k, entries[k]);
        assert entries[..k + 1] == entries[..k] + [entries[k]];
      }
      assert entries[..|entries|] == entries;
    }

    method Append(entry: Entry)
      requires Valid() && |entry| == n
      requires soft + 1 > hard ==> RoundUp(Offset(soft + 1, n), PAGE_SIZE) <= MAX_FILE_SIZE
      modifies this
      ensures Valid() && Contents() == old(Contents()) + [entry]
    {
      Extend([entry]);
    }

    /** Closes the cache: cuts off the room that is not used, unless there is none for another entry. */
    method Close() returns (closed: seq<Byte>)
      requires Valid()
      ensures |closed| <= MAX_FILE_SIZE && |closed| / n == soft
      ensures Offset(soft, n) <= |closed| && Entries(closed, n, soft) == Contents()
    {
      hide Offset, RoundUp, Entries;
      closed := file;
      Offsets(soft, hard, n);
      if soft < hard {
        closed := Resize(file, Offset(soft, n));
      }
      OffsetsAre(soft, n, |closed|);
      SameEntries(closed, file, n, soft);
    }
  }

  /** Closing and opening again gives back exactly the entries, in order. */
  method CloseAndReopen(cache: FileBackedCache) returns (again: FileBackedCache)
    requires cache.Valid()
    ensures again.Valid() && again.n == cache.n && again.Contents() == cache.Contents()
  {
    var file := cache.Close();
    again := new FileBackedCache.Open(file, cache.n);
  }

  lemma OffsetsAre(k: nat, n: nat, size: nat)
    requires n > 0 && Offset(k, n) <= size < Offset(k + 1, n)
    ensures size / n == k
  {
    QuotientIs(size, n, k);
  }

  /** The sizes after adding entries: the file is the new size rounded up, whether or not it had to grow. */
  lemma NewSizes(soft: nat, hard: nat, n: nat, size: nat, fileSize: nat, count: nat)
    requires n > 0 && soft < count && fileSize == RoundUp(size, PAGE_SIZE)
    requires Offset(soft, n) <= size < Offset(soft + 1, n) && Offset(hard, n) <= fileSize < Offset(hard + 1, n)
    ensures var newHard := RoundUp(Offset(count, n), PAGE_SIZE);
            && count <= newHard / n
            && Offset(newHard / n, n) <= newHard < Offset(newHard / n + 1, n)
            && (count <= hard ==> newHard == fileSize)
            && fileSize <= newHard
  {
    hide RoundUp;
    var newSize := Offset(count, n);
    RoundUpIsWhole(size);
    TimesGrows(soft + 1, count, n);
    RoundUpGrows(size, newSize);
    QuotientFits(RoundUp(newSize, PAGE_SIZE), n);
    QuotientIs(newSize, n, count);
    QuotientGrows(newSize, RoundUp(newSize, PAGE_SIZE), n);
    if count <= hard {
      TimesGrows(count, hard, n);
      RoundUpIsLeast(newSize, fileSize);
    }
  }

  /** Writing an entry behind the others adds it. */
  lemma OneMore(before: seq<Byte>, after: seq<Byte>, n: nat, count: nat, entry: Entry)
    requires |entry| == n && Offset(count + 1, n) <= |before| && Offset(count, n) <= |before|
    requires var at := Offset(count, n); at + n <= |before| && after == before[..at] + entry + before[at + n..]
    ensures |after| == |before| && Entries(after, n, count + 1) == Entries(before, n, count) + [entry]
  {
    hide Offset;
    var at := Offset(count, n);
    Offsets(count, count + 1, n);
    assert after[..at] == before[..at] && after[at..at + n] == entry;
    SameEntries(after, before, n, count);
  }

  lemma QuotientGrows(a: nat, b: nat, n: nat)
    requires n > 0 && a <= b
    ensures a / n <= b / n
  {
    QuotientFits(a, n);
    QuotientFits(b, n);
    if b / n < a / n {
      TimesGrows(b / n + 1, a / n, n);
    }
  }
}
