/** Values and bytes in memory: what is stored as a value is loaded as its bytes, and the other way round. */
module TypedAccess {
  import opened Options
  import opened Pages
  import opened MappedRanges
  import opened ByteAccess
  import opened AddressSpaces

  /** A write that succeeds has found all of its bytes mapped and writable, and has put them there. */
  lemma {:induction false} WriteSucceeds(memory: Memory, pages: set<nat>, a: nat, bytes: seq<Byte>)
    requires FlatWrite(memory, pages, a, bytes).1
    ensures forall b | a <= b < a + |bytes| :: b in memory && AlignDownToPage(b) in pages
    ensures FlatWrite(memory, pages, a, bytes).0 == Update(memory, a, bytes)
    decreases |bytes|
  {
    hide AlignDownToPage;
    if bytes != [] {
      var after := memory[a := bytes[0]];
      WriteSucceeds(after, pages, a + 1, bytes[1..]);
      forall b | a <= b < a + |bytes| ensures b in memory && AlignDownToPage(b) in pages {
        assert b == a || b in after;
      }
    }
  }

  /** Reading what is all there. */
  lemma ReadAll(memory: Memory, pages: set<nat>, a: nat, end: nat)
    requires a <= end && forall b | a <= b < end :: b in memory && AlignDownToPage(b) in pages
    ensures FlatRead(memory, pages, a, end) == Some(Slice(memory, a, end))
  {
    hide AlignDownToPage;
    FlatReadStretch(memory, pages, a, end, end);
    assert Slice(memory, a, end) + [] == Slice(memory, a, end);
  }

  /** A read of accessible pages is sure. */
  lemma AccessibleIsSure(space: AddressSpace, a: nat, end: nat)
    requires forall b | a <= b < end :: AlignDownToPage(b) in space.Accessible()
    ensures space.ReadIsSure(a, end)
  {
    hide AlignDownToPage, IsPage, AddressSpace.Accessible, AddressSpace.MayBeFound;
    forall page: nat | Touches(a, end, page) ensures page in space.Accessible() {
      var b := ByteOn(a, end, page);
    }
  }

  /** What a load of mapped, accessible bytes gives. */
  method Load(space: AddressSpace, a: nat, size: nat) returns (value: Option<nat>)
    requires space.Valid() && 0 < size <= 8 && a + size + PAGE_SIZE <= ADDRESS_LIMIT && a <= space.mask
    requires forall b | a <= b < a + size :: b in space.Memory() && AlignDownToPage(b) in space.Accessible()
    modifies space.cache
    ensures space.Valid() && value == Some(LittleEndian(Slice(space.Memory(), a, a + size)))
  {
    hide AddressSpace.MapsOk, AddressSpace.LookupsOk, AddressSpace.Memory, AddressSpace.ReadIsSure, AlignDownToPage,
         FlatRead, IsPage, MappedRange.Ok, LoopRead, LittleEndian, AddressSpace.Accessible;
    AccessibleIsSure(space, a, a + size);
    space.SureReadIsFlat(a, a + size);
    ReadAll(space.Memory(), space.Accessible(), a, a + size);
    value := space.TryRead(a, size);
  }

  /** What writing bytes has done, if it has succeeded. */
  lemma Written(space: AddressSpace, before: Memory, a: nat, bytes: seq<Byte>)
    requires (space.Memory(), true) == FlatWrite(before, space.writable, a, bytes)
    ensures forall b | a <= b < a + |bytes| ::
      b in space.Memory() && space.Memory()[b] == bytes[b - a] && AlignDownToPage(b) in space.Accessible()
  {
    hide AlignDownToPage, FlatWrite, Update, AddressSpace.Memory;
    WriteSucceeds(before, space.writable, a, bytes);
    UpdateAt(before, a, bytes);
  }

  lemma MappedIsInside(space: AddressSpace, b: nat)
    requires space.Valid() && b in space.Memory()
    ensures b <= space.mask
  {
    hide AddressSpace.MapsOk, AddressSpace.LookupsOk, AlignDownToPage, IsPage, MappedRange.Ok, AddressSpace.Memory;
    var r := space.MemoryIsInRange(b);
    space.RangeEnds(r);
  }

  /** After a value is stored, a load of the byte at each place gives the value's byte at that place. */
  method StoreThenLoadByte(space: AddressSpace, address: nat, value: nat, size: nat, i: nat)
    returns (ok: bool, byte: Option<nat>)
    requires space.Valid() && 0 < size <= 8 && space.Masked(address) + size + PAGE_SIZE <= ADDRESS_LIMIT && i < size
    requires space.StoreIsSure(space.Masked(address), size)
    modifies space.cache, space.wnxCache, space`views, space.Owned()
    ensures space.Valid() && (ok ==> byte == Some(value / Power256(i) % 256))
  {
    hide AddressSpace.MapsOk, AddressSpace.LookupsOk, AddressSpace.Memory, FlatWrite, IsPage, MappedRange.Ok, Power256,
         AddressSpace.StoreIsSure, ToBytes, AlignDownToPage, AddressSpace.Accessible, Update, AddressSpace.Masked;
    var a := space.Masked(address);
    ghost var before := space.Memory();
    ok := space.TryWrite(address, value, size);
    byte := None;
    if ok {
      Written(space, before, a, ToBytes(value, size));
      ToBytesAt(value, size, i);
      MappedIsInside(space, a + i);
      byte := Load(space, a + i, 1);
      assert Slice(space.Memory(), a + i, a + i + 1)[1..] == [];
    }
  }

  /** After bytes are written, a load of the value gives one with those bytes at their places, and no others. */
  method WriteThenLoad(space: AddressSpace, address: nat, bytes: seq<Byte>) returns (ok: bool, value: Option<nat>)
    requires space.Valid() && 0 < |bytes| <= 8 && space.Masked(address) + |bytes| + PAGE_SIZE <= ADDRESS_LIMIT
    modifies space.cache, space`views, space.Owned()
    ensures space.Valid()
    ensures ok ==> value.Some? && value.value < Power256(|bytes|)
    ensures ok ==> forall i | 0 <= i < |bytes| :: value.value / Power256(i) % 256 == bytes[i]
  {
    hide AddressSpace.MapsOk, AddressSpace.LookupsOk, AddressSpace.Memory, FlatWrite, IsPage, MappedRange.Ok, Power256,
         LittleEndian, AlignDownToPage, AddressSpace.Accessible, AddressSpace.Masked;
    var a := space.Masked(address);
    ghost var before := space.Memory();
    ok := space.TryWriteBytes(address, bytes);
    value := None;
    if ok {
      Written(space, before, a, bytes);
      value := Load(space, a, |bytes|);
      assert Slice(space.Memory(), a, a + |bytes|) == bytes;
      BytesOfValue(bytes);
    }
  }

  lemma BytesOfValue(bytes: seq<Byte>)
    ensures LittleEndian(bytes) < Power256(|bytes|)
    ensures forall i | 0 <= i < |bytes| :: LittleEndian(bytes) / Power256(i) % 256 == bytes[i]
  {
    hide LittleEndian, Power256;
    LittleEndianFits(bytes);
    forall i | 0 <= i < |bytes| ensures LittleEndian(bytes) / Power256(i) % 256 == bytes[i] {
      LittleEndianAt(bytes, i);
    }
  }
}
