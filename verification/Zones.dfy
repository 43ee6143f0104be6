/** How a zone's blocks lie in its area: one after the other, each in use, free or lost to alignment. */
module Zones {

  datatype Use = Live | Free | Padding

  datatype Part = Part(base: nat, size: nat, use: Use)

  /** The parts lie end to end from `from` to `to`. */
  ghost predicate Tiles(parts: seq<Part>, from: nat, to: nat) {
    if parts == [] then from == to else
      var last := parts[|parts| - 1];
      last.base + last.size == to && Tiles(parts[..|parts| - 1], from, last.base)
  }

  lemma {:induction false} TilesJoin(a: seq<Part>, b: seq<Part>, from: nat, mid: nat, to: nat)
    requires Tiles(a, from, mid) && Tiles(b, mid, to)
    ensures Tiles(a + b, from, to)
  {
    if b == [] {
      assert a + b == a;
    } else {
      var last := |b| - 1;
      TilesJoin(a, b[..last], from, mid, b[last].base);
      assert (a + b)[..|a| + last] == a + b[..last];
    }
  }

  /** A tiling, around one of its parts. */
  lemma {:induction false} TilesAround(parts: seq<Part>, i: nat, from: nat, to: nat)
    requires Tiles(parts, from, to) && i < |parts|
    ensures Tiles(parts[..i], from, parts[i].base)
    ensures Tiles(parts[i + 1..], parts[i].base + parts[i].size, to)
    ensures from <= parts[i].base && parts[i].base + parts[i].size <= to
    decreases |parts|
  {
    var last := |parts| - 1;
    if i == last {
      assert parts[i + 1..] == [];
      TilesAreOrdered(parts[..last], from, parts[last].base);
    } else {
      TilesAround(parts[..last], i, from, parts[last].base);
      assert parts[..last][..i] == parts[..i];
      assert parts[i + 1..][..last - i - 1] == parts[..last][i + 1..];
    }
  }

  lemma {:induction false} TilesAreOrdered(parts: seq<Part>, from: nat, to: nat)
    requires Tiles(parts, from, to)
    ensures from <= to
  {
    if parts != [] {
      TilesAreOrdered(parts[..|parts| - 1], from, parts[|parts| - 1].base);
    }
  }

  /** Parts are disjoint and inside the area. */
  lemma PartsAreDisjoint(parts: seq<Part>, from: nat, to: nat)
    requires Tiles(parts, from, to)
    ensures forall i | 0 <= i < |parts| :: from <= parts[i].base && parts[i].base + parts[i].size <= to
    ensures forall i, j | 0 <= i < j < |parts| :: parts[i].base + parts[i].size <= parts[j].base
  {
    forall i | 0 <= i < |parts| ensures from <= parts[i].base && parts[i].base + parts[i].size <= to {
      TilesAround(parts, i, from, to);
    }
    forall i, j | 0 <= i < j < |parts| ensures parts[i].base + parts[i].size <= parts[j].base {
      TilesAround(parts, i, from, to);
      TilesAround(parts[i + 1..], j - i - 1, parts[i].base + parts[i].size, to);
    }
  }

  /** The bytes in one kind of use. */
  ghost function Total(parts: seq<Part>, use: Use): nat {
    if parts == [] then 0 else
      var last := parts[|parts| - 1];
      Total(parts[..|parts| - 1], use) + if last.use == use then last.size else 0
  }

  /** No byte of the area is lost or counted twice. */
  lemma {:induction false} BytesAreConserved(parts: seq<Part>, from: nat, to: nat)
    requires Tiles(parts, from, to)
    ensures Total(parts, Live) + Total(parts, Free) + Total(parts, Padding) == to - from
  {
    if parts != [] {
      BytesAreConserved(parts[..|parts| - 1], from, parts[|parts| - 1].base);
    }
  }

  /** The parts with other parts in place of the `i`th. */
  ghost function Replace(parts: seq<Part>, i: nat, pieces: seq<Part>): seq<Part>
    requires i < |parts|
  {
    parts[..i] + pieces + parts[i + 1..]
  }

  lemma ReplaceTiles(parts: seq<Part>, i: nat, pieces: seq<Part>, from: nat, to: nat)
    requires Tiles(parts, from, to) && i < |parts| && Tiles(pieces, parts[i].base, parts[i].base + parts[i].size)
    ensures Tiles(Replace(parts, i, pieces), from, to)
  {
    TilesAround(parts, i, from, to);
    TilesJoin(parts[..i], pieces, from, parts[i].base, parts[i].base + parts[i].size);
    TilesJoin(parts[..i] + pieces, parts[i + 1..], from, parts[i].base + parts[i].size, to);
  }

  /** How often each part occurs after a replacement. */
  lemma ReplaceCounts(parts: seq<Part>, i: nat, pieces: seq<Part>, part: Part)
    requires i < |parts|
    ensures multiset(Replace(parts, i, pieces))[part] ==
            multiset(parts)[part] - (if part == parts[i] then 1 else 0) + multiset(pieces)[part]
  {
    assert parts == parts[..i] + [parts[i]] + parts[i + 1..];
  }
}
