/** Ranges of emulated memory. A range changes kind in place as it is written to and cloned. */
module MappedRanges {
  import opened Pages
  import opened Options

  datatype Kind = Invalid | Empty | Array | CopyOnWrite

  /** A range as a value: its bounds, where it lies in its backing file, and its bytes if it is valid. */
  datatype Extent = Extent(base: nat, limit: nat, valid: bool, filePos: int, bytes: seq<Byte>)
  {
    predicate Contains(a: nat) {
      base <= a < limit
    }

    ghost predicate Proper() {
      base < limit && |bytes| == if valid then limit - base else 0
    }

    /** The part of the extent in [lo, hi). */
    function Slice(lo: nat, hi: nat): Extent
      requires Proper() && base <= lo <= hi <= limit
    {
      Extent(lo, hi, valid, filePos, if valid then bytes[lo - base..hi - base] else [])
    }

    /** What a read at `a` finds. */
    function ByteAt(a: nat): Option<Byte>
      requires Proper() && Contains(a)
    {
      if valid then Some(bytes[a - base]) else None
    }
  }

  function Zeroes(n: nat): (s: seq<Byte>)
    ensures |s| == n
    ensures forall i | 0 <= i < n :: s[i] == 0
  {
    seq(n, i => 0 as Byte)
  }

  /** `s` with `bytes` written over it from index `k` on. */
  function Patch(s: seq<Byte>, k: nat, bytes: seq<Byte>): (r: seq<Byte>)
    requires k + |bytes| <= |s|
    ensures |r| == |s|
    ensures forall i | 0 <= i < |s| :: r[i] == if k <= i < k + |bytes| then bytes[i - k] else s[i]
  {
    s[..k] + bytes + s[k + |bytes|..]
  }

  lemma PartOfPart(s: seq<Byte>, from: nat, to: nat, lo: nat, hi: nat)
    requires from <= to <= |s| && lo <= hi <= to - from
    ensures s[from..to][lo..hi] == s[from + lo..from + hi]
  {
    var part, whole := s[from..to][lo..hi], s[from + lo..from + hi];
    assert forall k | 0 <= k < hi - lo :: part[k] == s[from..to][lo + k] == whole[k];
  }

  lemma PartOfZeroes(n: nat, lo: nat, hi: nat)
    requires lo <= hi <= n
    ensures Zeroes(n)[lo..hi] == Zeroes(hi - lo)
  {
  }

  class MappedRange {
    const base: nat
    const limit: nat
    const offset: nat
    /** False exactly for the invalid kind, which no operation leaves or enters. */
    const valid: bool

    var kind: Kind
    var data: seq<Byte>
    var parent: MappedRange?

    /** An array that copy-on-write ranges can share: nothing stands behind it. */
    ghost predicate IsRoot()
      reads this
    {
      valid && kind == Array && base < limit && |data| == limit - base && parent == null
    }

    ghost predicate Ok()
      reads this, parent
    {
      && base < limit
      && (valid <==> kind != Invalid)
      && (kind == Array ==> |data| == limit - base)
      && (kind != CopyOnWrite ==> parent == null)
      && (kind == CopyOnWrite ==>
            && parent != null && parent != this && parent.IsRoot()
            && parent.base <= base && limit <= parent.limit
            && parent.offset - parent.base == offset - base)
    }

    /** Whether the range covers all of the array it shares; splitting makes ranges that do not. */
    predicate SpansParent()
      reads this, parent
    {
      kind == CopyOnWrite && parent != null ==> parent.base == base && parent.limit == limit
    }

    ghost function Bytes(): (s: seq<Byte>)
      requires Ok()
      reads this, parent
      ensures |s| == if valid then limit - base else 0
    {
      match kind
      case Invalid => []
      case Empty => Zeroes(limit - base)
      case Array => data
      case CopyOnWrite => parent.data[base - parent.base..limit - parent.base]
    }

    ghost function View(): (v: Extent)
      requires Ok()
      reads this, parent
      ensures v.Proper() && v.base == base && v.limit == limit && v.valid == valid
    {
      Extent(base, limit, valid, offset - base, Bytes())
    }

    predicate Contains(a: nat) {
      base <= a < limit
    }

    constructor Create(base: nat, limit: nat, offset: nat)
      requires base < limit
      ensures Ok() && kind == Empty
      ensures View() == Extent(base, limit, true, offset - base, Zeroes(limit - base))
      ensures this.base == base && this.limit == limit && valid && parent == null
    {
      this.base, this.limit, this.offset, this.valid := base, limit, offset, true;
      kind, data, parent := Empty, [], null;
    }

    constructor CreateInvalid(base: nat, limit: nat, offset: nat)
      requires base < limit
      ensures Ok() && kind == Invalid
      ensures View() == Extent(base, limit, false, offset - base, [])
      ensures this.base == base && this.limit == limit && !valid && parent == null
    {
      this.base, this.limit, this.offset, this.valid := base, limit, offset, false;
      kind, data, parent := Invalid, [], null;
    }

    /** An array holding `data`; used for copies and for taking over another range's data. */
    constructor CreateArray(base: nat, limit: nat, offset: nat, data: seq<Byte>)
      requires base < limit && |data| == limit - base
      ensures Ok() && IsRoot()
      ensures View() == Extent(base, limit, true, offset - base, data)
      ensures this.base == base && this.limit == limit && this.offset == offset && this.data == data
    {
      this.base, this.limit, this.offset, this.valid := base, limit, offset, true;
      this.kind, this.data, this.parent := Array, data, null;
    }

    /** A copy-on-write range over part of a root array. */
    constructor CreateCopyOnWrite(root: MappedRange, base: nat, limit: nat)
      requires root.IsRoot() && root.base <= base < limit <= root.limit
      ensures Ok() && kind == CopyOnWrite && parent == root
      ensures View() == root.View().Slice(base, limit)
      ensures this.base == base && this.limit == limit && valid
    {
      this.base, this.limit, this.offset, this.valid := base, limit, root.offset + (base - root.base), true;
      kind, data, parent := CopyOnWrite, [], root;
    }

    /** The invalid range ignores the address. */
    method Read(a: nat) returns (ok: bool, val: Byte)
      requires Ok() && (valid ==> Contains(a))
      ensures ok == valid
      ensures val == if valid then Bytes()[a - base] else 0
    {
      match kind {
        case Invalid => ok, val := false, 0;
        case Empty => ok, val := true, 0;
        case Array => ok, val := true, data[a - base];
        case CopyOnWrite => ok, val := true, parent.data[a - parent.base];
      }
    }

    /** Reads the bytes of [lo, hi) one at a time. */
    method ReadBytes(lo: nat, hi: nat) returns (bytes: seq<Byte>)
      requires Ok() && valid && base <= lo <= hi <= limit
      ensures bytes == Bytes()[lo - base..hi - base]
    {
      hide Bytes, Ok;
      bytes := [];
      for a := lo to hi
        invariant bytes == Bytes()[lo - base..a - base]
      {
        var _, val := Read(a);
        bytes := bytes + [val];
      }
    }

    method Write(a: nat, val: Byte) returns (ok: bool)
      requires Ok() && (valid ==> Contains(a))
      modifies this
      ensures Ok() && ok == valid
      ensures valid ==> kind == Array && Bytes() == old(Bytes())[a - base := val]
      ensures !valid ==> unchanged(this)
    {
      if kind == Invalid {
        return false;
      }
      Materialize();
      data := data[a - base := val];
      ok := true;
    }

    /** Writes consecutive bytes one at a time. */
    method WriteBytes(a: nat, bytes: seq<Byte>)
      requires Ok() && valid && base <= a && a + |bytes| <= limit
      modifies this
      ensures Ok() && Bytes() == Patch(old(Bytes()), a - base, bytes)
      ensures kind == Array || unchanged(this)
    {
      for i := 0 to |bytes|
        invariant Ok() && Bytes() == Patch(old(Bytes()), a - base, bytes[..i])
        invariant kind == Array || unchanged(this)
      {
        hide Bytes, Ok;
        var _ := Write(a + i, bytes[i]);
        assert bytes[..i + 1] == bytes[..i] + [bytes[i]];
      }
      assert bytes[..|bytes|] == bytes;
    }

    /** Turns a valid range into an array of its own, in place, so that it can be written to. */
    method Materialize()
      requires Ok() && valid
      modifies this
      ensures Ok() && kind == Array && Bytes() == old(Bytes())
    {
      if kind == Empty {
        kind, data := Array, Zeroes(limit - base);
      } else if kind == CopyOnWrite {
        var bytes := parent.ReadBytes(base, limit);
        kind, data, parent := Array, bytes, null;
      }
    }

    /**
     * Makes a range with the same bytes. An array moves its data to a new root, which this range
     * and the clone then share. The clone of a copy-on-write range spans the whole root.
     */
    method Clone() returns (clone: MappedRange)
      requires Ok()
      modifies this
      ensures Ok() && View() == old(View())
      ensures fresh(clone) && clone.Ok() && clone.valid == valid
      ensures old(kind) != CopyOnWrite ==> clone.View() == old(View())
      ensures old(kind) == CopyOnWrite ==> unchanged(this) && clone.View() == parent.View()
      ensures old(kind) == Array ==> kind == CopyOnWrite && fresh(parent) && parent != clone && SpansParent()
      ensures old(kind) != Array ==> unchanged(this)
      ensures clone.parent == parent
    {
      if kind == Invalid {
        clone := new MappedRange.CreateInvalid(base, limit, offset);
      } else if kind == Empty {
        clone := new MappedRange.Create(base, limit, offset);
      } else {
        if kind == Array {
          var root := new MappedRange.CreateArray(base, limit, offset, data);
          kind, data, parent := CopyOnWrite, [], root;
        }
        clone := new MappedRange.CreateCopyOnWrite(parent, parent.base, parent.limit);
      }
    }

    /** What the part of this range in [lo, hi) looks like, kind by kind. */
    lemma PartOf(lo: nat, hi: nat)
      requires Ok() && kind != CopyOnWrite && base <= lo < hi <= limit
      ensures var part, pos := View().Slice(lo, hi), offset - base;
              && (kind == Invalid ==> part == Extent(lo, hi, false, pos, []))
              && (kind == Empty ==> part == Extent(lo, hi, true, pos, Zeroes(hi - lo)))
              && (kind == Array ==> part == Extent(lo, hi, true, pos, Bytes()[lo - base..hi - base]))
    {
      if kind == Empty {
        PartOfZeroes(limit - base, lo - base, hi - base);
      }
    }

    lemma PartOfShared(lo: nat, hi: nat)
      requires Ok() && kind == CopyOnWrite && base <= lo < hi <= limit
      ensures View().Slice(lo, hi) == parent.View().Slice(lo, hi)
    {
      PartOfPart(parent.data, base - parent.base, limit - parent.base, lo - base, hi - base);
    }

    /** Makes a range with the part of this one in [lo, hi). */
    method Copy(lo: nat, hi: nat) returns (piece: MappedRange)
      requires Ok() && base <= lo < hi <= limit
      ensures fresh(piece) && piece.Ok() && piece.View() == View().Slice(lo, hi)
      ensures piece.parent == parent && piece.kind == kind
    {
      hide Bytes, View;
      if kind == CopyOnWrite {
        PartOfShared(lo, hi);
      } else {
        PartOf(lo, hi);
      }
      if kind == Invalid {
        piece := new MappedRange.CreateInvalid(lo, hi, offset + (lo - base));
      } else if kind == Empty {
        piece := new MappedRange.Create(lo, hi, offset + (lo - base));
      } else if kind == Array {
        var bytes := ReadBytes(lo, hi);
        piece := new MappedRange.CreateArray(lo, hi, offset + (lo - base), bytes);
      } else {
        piece := new MappedRange.CreateCopyOnWrite(parent, lo, hi);
      }
    }
  }

  /**
   * Cloning an array, splitting it and cloning the first piece again: the last clone covers the
   * whole of the original array, not just the piece it was cloned from.
   */
  method CloneOfSplitGrows() returns (piece: MappedRange, clone: MappedRange)
    ensures piece.base == clone.base == 0 && piece.limit == PAGE_SIZE && clone.limit == 3 * PAGE_SIZE
  {
    hide MappedRange.Bytes;
    var range := new MappedRange.CreateArray(0, 3 * PAGE_SIZE, 0, Zeroes(3 * PAGE_SIZE));
    var _ := range.Clone();
    piece := range.Copy(0, PAGE_SIZE);
    clone := piece.Clone();
  }
}
