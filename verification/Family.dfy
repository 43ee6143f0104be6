/**
 * Families of address spaces that clone each other, against a model in which every space has a
 * byte map of its own and cloning copies it.
 */
module Families {
  import opened Options
  import opened Pages
  import opened MappedRanges
  import opened Tiling
  import opened ByteAccess
  import opened RangeLists
  import opened AddressSpaces

  // ---------------------------------------------------------------- the model

  /** One address space as plain data. */
  datatype Flat = Flat(mask: nat, memory: map<nat, Byte>, readable: set<nat>, writable: set<nat>, executable: set<nat>)

  datatype Op =
    | Map(start: nat, size: nat, offset: nat)
    | Unmap(start: nat, size: nat)
    | Protect(start: nat, size: nat, canRead: bool, canWrite: bool, canExec: bool)
    | Write(address: nat, bytes: seq<Byte>)
    | Read(address: nat, size: nat)
    | Store(address: nat, value: nat, size: nat)
    | Load(address: nat, size: nat)

  datatype Output = Done | Wrote(ok: bool) | Got(result: Option<seq<Byte>>) | Loaded(value: Option<nat>)

  /** A step of a history: an operation on one of the spaces, or a clone of one. */
  datatype Step = On(space: nat, op: Op) | CloneOf(space: nat)

  /** The sizes and addresses for which the operation's arithmetic does not wrap around. */
  predicate InRange(mask: nat, op: Op) {
    match op
    case Map(start, size, _) =>
      0 < size && size + PAGE_SIZE <= ADDRESS_LIMIT && AlignDownToPage(start) + RoundUpToPage(size) <= mask
    case Unmap(start, size) =>
      0 < size && size + PAGE_SIZE <= ADDRESS_LIMIT && AlignDownToPage(start) + RoundUpToPage(size) <= mask
    case Protect(start, size, _, _, _) =>
      size + PAGE_SIZE <= ADDRESS_LIMIT && AlignDownToPage(start) + RoundUpToPage(size) < ADDRESS_LIMIT
    case Write(address, bytes) => address % (mask + 1) + |bytes| + PAGE_SIZE <= ADDRESS_LIMIT
    case Read(address, size) => address % (mask + 1) + size + PAGE_SIZE <= ADDRESS_LIMIT
    case Store(address, _, size) => 0 < size <= 8 && address % (mask + 1) + size + PAGE_SIZE <= ADDRESS_LIMIT
    case Load(address, size) => 0 < size <= 8 && address % (mask + 1) + size + PAGE_SIZE <= ADDRESS_LIMIT
  }

  ghost function FlatReplace(f: Flat, v: Extent, allow: bool): Flat
    requires v.Proper()
  {
    var pages := PagesOf(v.base, v.limit);
    Flat(f.mask, Overlay(f.memory, v),
         Grant(f.readable, pages, allow), Grant(f.writable, pages, allow), Grant(f.executable, pages, false))
  }

  ghost function FlatStep(f: Flat, op: Op): (Flat, Output)
    requires InRange(f.mask, op)
  {
    match op
    case Map(start, size, offset) =>
      var (base, n) := (AlignDownToPage(start), RoundUpToPage(size));
      (FlatReplace(f, Extent(base, base + n, true, offset - base, Zeroes(n)), true), Done)
    case Unmap(start, size) =>
      var (base: int, n: nat) := (AlignDownToPage(start), RoundUpToPage(size));
      (FlatReplace(f, Extent(base, base + n, false, 0 - base, []), false), Done)
    case Protect(start, size, canRead, canWrite, canExec) =>
      var pages := PagesOf(AlignDownToPage(start), AlignDownToPage(start) + RoundUpToPage(size));
      (Flat(f.mask, f.memory, Grant(f.readable, pages, canRead), Grant(f.writable, pages, canWrite),
            Grant(f.executable, pages, canExec)), Done)
    case Write(address, bytes) =>
      var (memory, ok) := FlatWrite(f.memory, f.writable, address % (f.mask + 1), bytes);
      (f.(memory := memory), Wrote(ok))
    case Read(address, size) =>
      (f, Got(FlatBytes(f, address, size)))
    case Store(address, value, size) =>
      var (memory, ok) := FlatWrite(f.memory, f.writable, address % (f.mask + 1), ToBytes(value, size));
      (f.(memory := memory), Wrote(ok))
    case Load(address, size) =>
      (f, Loaded(match FlatBytes(f, address, size) case None => None case Some(bytes) => Some(LittleEndian(bytes))))
  }

  ghost function FlatBytes(f: Flat, address: nat, size: nat): Option<seq<Byte>> {
    var a := address % (f.mask + 1);
    FlatRead(f.memory, f.readable + f.writable + f.executable, a, a + size)
  }

  ghost predicate ModelCan(flats: seq<Flat>, step: Step) {
    step.space < |flats| && (step.On? ==> InRange(flats[step.space].mask, step.op))
  }

  /** The model's step: cloning is copying. */
  ghost function ModelStep(flats: seq<Flat>, step: Step): (seq<Flat>, Output)
    requires ModelCan(flats, step)
  {
    match step
    case On(i, op) =>
      var (f, out) := FlatStep(flats[i], op);
      (flats[i := f], out)
    case CloneOf(i) => (flats + [flats[i]], Done)
  }

  /** What a history does to the model: the spaces it leaves, and what each step put out. */
  ghost function ModelRun(flats: seq<Flat>, steps: seq<Step>): (result: Option<(seq<Flat>, seq<Output>)>)
    ensures result.Some? ==> |result.value.1| == |steps|
  {
    if steps == [] then Some((flats, [])) else
      var last := |steps| - 1;
      match ModelRun(flats, steps[..last])
      case None => None
      case Some((before, outs)) =>
        if ModelCan(before, steps[last]) then
          var (after, out) := ModelStep(before, steps[last]);
          Some((after, outs + [out]))
        else
          None
  }

  // ---------------------------------------------------------------- one space

  ghost function FlatOf(s: AddressSpace): Flat
    reads s
  {
    Flat(s.mask, s.Memory(), s.readable, s.writable, s.executable)
  }

  /** The objects a space depends on. */
  ghost function Footprint(s: AddressSpace): set<object>
    reads s`maps, s`roots
  {
    {s, s.cache, s.wnxCache, s.invalid} + s.roots + (set r | r in s.maps)
  }

  ghost predicate Good(s: AddressSpace)
    reads s, Footprint(s)
  {
    s.Valid()
  }

  /** What the code needs of the maps: none straddles the end of a map or unmap. */
  predicate Fits(s: AddressSpace, op: Op)
    reads s`maps
  {
    && InRange(s.mask, op)
    && match op
       case Map(start, size, _) =>
         s.StraddlesNoMap(AlignDownToPage(start), AlignDownToPage(start) + RoundUpToPage(size))
       case Unmap(start, size) =>
         s.StraddlesNoMap(AlignDownToPage(start), AlignDownToPage(start) + RoundUpToPage(size))
       case _ => true
  }

  /** And of the permissions, if the step is a read or a typed write, on the maps that it touches. */
  predicate IsSure(s: AddressSpace, op: Op)
    requires InRange(s.mask, op)
    reads s`maps, s`readable, s`writable, s`executable
  {
    match op
    case Read(address, size) => s.ReadIsSure(s.Masked(address), s.Masked(address) + size)
    case Load(address, size) => s.ReadIsSure(s.Masked(address), s.Masked(address) + size)
    case Store(address, _, size) => s.StoreIsSure(s.Masked(address), size)
    case _ => true
  }

  predicate Allowed(s: AddressSpace, op: Op)
    reads s`maps, s`readable, s`writable, s`executable
  {
    Fits(s, op) && IsSure(s, op)
  }

  /** Each map is accessible as a whole or not at all, and no typed write can find one that is writable in part. */
  predicate Regular(s: AddressSpace)
    reads s`maps, s`readable, s`writable, s`executable
  {
    s.AccessIsUniform() && s.StoresAreChecked()
  }

  /** In a regular space, reads and typed writes need nothing more. */
  lemma RegularIsSure(s: AddressSpace, op: Op)
    requires Good(s) && Regular(s) && InRange(s.mask, op)
    ensures IsSure(s, op)
  {
    hide AddressSpace.MapsOk, AddressSpace.LookupsOk, AddressSpace.AccessIsUniform, AddressSpace.StoresAreChecked,
         AddressSpace.ReadIsSure, AddressSpace.StoreIsSure, AddressSpace.Masked, IsPage;
    match op
    case Read(address, size) => s.UniformReadIsSure(s.Masked(address), s.Masked(address) + size);
    case Load(address, size) => s.UniformReadIsSure(s.Masked(address), s.Masked(address) + size);
    case Store(address, _, size) => s.CheckedStoreIsSure(s.Masked(address), size);
    case _ =>
  }

  lemma RegularIff(s: AddressSpace)
    requires Good(s)
    ensures Regular(s) <==> s.UniformAccess() && s.CheckedWrites()
  {
    hide AddressSpace.MapsOk, AddressSpace.LookupsOk, AddressSpace.AccessIsUniform, AddressSpace.StoresAreChecked,
         AddressSpace.UniformAccess, AddressSpace.CheckedWrites, IsPage;
    s.AccessIsUniformIff();
    s.CheckedWritesIff();
  }

  /** A space without permissions, as every new one is, is regular. */
  lemma NewIsRegular(s: AddressSpace)
    requires s.readable == s.writable == s.executable == {}
    ensures Regular(s)
  {
  }

  /** The space has only dropped ranges and gained new ones. */
  twostate predicate OnlyNewRanges(s: AddressSpace)
    reads s
  {
    && (forall r <- s.maps :: r in old(s.maps) || fresh(r))
    && (forall r <- s.roots :: r in old(s.roots) || fresh(r))
  }

  /**
   * An operation on one space does to it what the model does to its byte map, and leaves it regular
   * unless it changes permissions.
   */
  method Apply(s: AddressSpace, op: Op) returns (out: Output)
    requires Good(s) && Allowed(s, op)
    modifies s, s.cache, s.wnxCache, s.Owned()
    ensures Good(s) && OnlyNewRanges(s)
    ensures (FlatOf(s), out) == FlatStep(old(FlatOf(s)), op)
    ensures !op.Protect? && old(Regular(s)) ==> Regular(s)
  {
    hide AddressSpace.MapsOk, AddressSpace.LookupsOk, AddressSpace.Memory, FlatStep, Regular, AddressSpace.ReadIsSure,
         AddressSpace.StoreIsSure, AddressSpace.StraddlesNoMap, AlignDownToPage, RoundUpToPage, IsPage, MappedRange.Ok;
    out := Done;
    match op {
      case Map(start, size, offset) =>
        ApplyMap(s, start, size, offset);
      case Unmap(start, size) =>
        ApplyUnmap(s, start, size);
      case Protect(start, size, canRead, canWrite, canExec) =>
        ApplyProtect(s, start, size, canRead, canWrite, canExec);
      case Write(address, bytes) =>
        out := ApplyWrite(s, address, bytes);
      case Read(address, size) =>
        out := ApplyRead(s, address, size);
      case Store(address, value, size) =>
        out := ApplyStore(s, address, value, size);
      case Load(address, size) =>
        out := ApplyLoad(s, address, size);
    }
  }

  method ApplyMap(s: AddressSpace, start: nat, size: nat, offset: nat)
    requires Good(s) && Fits(s, Map(start, size, offset))
    modifies s, s.cache, s.wnxCache
    ensures Good(s) && OnlyNewRanges(s)
    ensures (FlatOf(s), Done) == FlatStep(old(FlatOf(s)), Map(start, size, offset))
    ensures old(Regular(s)) ==> Regular(s)
  {
    hide AddressSpace.MapsOk, AddressSpace.LookupsOk, AddressSpace.Memory, Overlay, Grant, Regular, NoStraddle, IsPage,
         AlignDownToPage, RoundUpToPage, PagesOf, MappedRange.Ok, AddressSpace.UniformAccess,
         AddressSpace.CheckedWrites, AddressSpace.UniformWrites;
    s.StraddlesNoMapIsNoStraddle(AlignDownToPage(start), AlignDownToPage(start) + RoundUpToPage(size));
    RegularIff(s);
    s.AddMap(start, size, offset);
    RegularIff(s);
  }

  method ApplyUnmap(s: AddressSpace, start: nat, size: nat)
    requires Good(s) && Fits(s, Unmap(start, size))
    modifies s, s.cache, s.wnxCache
    ensures Good(s) && OnlyNewRanges(s)
    ensures (FlatOf(s), Done) == FlatStep(old(FlatOf(s)), Unmap(start, size))
    ensures old(Regular(s)) ==> Regular(s)
  {
    hide AddressSpace.MapsOk, AddressSpace.LookupsOk, AddressSpace.Memory, Overlay, Grant, Regular, NoStraddle, IsPage,
         AlignDownToPage, RoundUpToPage, PagesOf, MappedRange.Ok, AddressSpace.UniformAccess,
         AddressSpace.CheckedWrites, AddressSpace.UniformWrites;
    s.StraddlesNoMapIsNoStraddle(AlignDownToPage(start), AlignDownToPage(start) + RoundUpToPage(size));
    RegularIff(s);
    s.RemoveMap(start, size);
    RegularIff(s);
  }

  method ApplyProtect(s: AddressSpace, start: nat, size: nat, canRead: bool, canWrite: bool, canExec: bool)
    requires Good(s) && Fits(s, Protect(start, size, canRead, canWrite, canExec))
    modifies s, s.cache, s.wnxCache
    ensures Good(s) && OnlyNewRanges(s)
    ensures (FlatOf(s), Done) == FlatStep(old(FlatOf(s)), Protect(start, size, canRead, canWrite, canExec))
  {
    hide AddressSpace.MapsOk, AddressSpace.LookupsOk, AddressSpace.Memory, Grant, IsPage, KeepsUniform,
         AlignDownToPage, RoundUpToPage, PagesOf, MappedRange.Ok, AddressSpace.UniformAccess,
         AddressSpace.UniformWrites;
    s.SetPermissions(start, size, canRead, canWrite, canExec);
  }

  method ApplyWrite(s: AddressSpace, address: nat, bytes: seq<Byte>) returns (out: Output)
    requires Good(s) && Fits(s, Write(address, bytes))
    modifies s.cache, s`views, s.Owned()
    ensures Good(s)
    ensures (FlatOf(s), out) == FlatStep(old(FlatOf(s)), Write(address, bytes))
  {
    hide AddressSpace.MapsOk, AddressSpace.LookupsOk, AddressSpace.Memory, FlatWrite, IsPage, MappedRange.Ok;
    var ok := s.TryWriteBytes(address, bytes);
    out := Wrote(ok);
  }

  method ApplyStore(s: AddressSpace, address: nat, value: nat, size: nat) returns (out: Output)
    requires Good(s) && Allowed(s, Store(address, value, size))
    modifies s.cache, s.wnxCache, s`views, s.Owned()
    ensures Good(s)
    ensures (FlatOf(s), out) == FlatStep(old(FlatOf(s)), Store(address, value, size))
  {
    hide AddressSpace.MapsOk, AddressSpace.LookupsOk, AddressSpace.Memory, FlatWrite, IsPage, MappedRange.Ok,
         AddressSpace.StoreIsSure, ToBytes, AlignDownToPage;
    var ok := s.TryWrite(address, value, size);
    out := Wrote(ok);
  }

  method ApplyRead(s: AddressSpace, address: nat, size: nat) returns (out: Output)
    requires Good(s) && Allowed(s, Read(address, size))
    modifies s.cache
    ensures Good(s)
    ensures (FlatOf(s), out) == FlatStep(old(FlatOf(s)), Read(address, size))
  {
    hide AddressSpace.MapsOk, AddressSpace.LookupsOk, AddressSpace.Memory, AddressSpace.ReadIsSure,
         AlignDownToPage, FlatRead, IsPage, MappedRange.Ok, LoopRead;
    s.SureReadIsFlat(s.Masked(address), s.Masked(address) + size);
    var result := s.TryReadBytes(address, size);
    out := Got(result);
  }

  method ApplyLoad(s: AddressSpace, address: nat, size: nat) returns (out: Output)
    requires Good(s) && Allowed(s, Load(address, size))
    modifies s.cache
    ensures Good(s)
    ensures (FlatOf(s), out) == FlatStep(old(FlatOf(s)), Load(address, size))
  {
    hide AddressSpace.MapsOk, AddressSpace.LookupsOk, AddressSpace.Memory, AddressSpace.ReadIsSure,
         AlignDownToPage, FlatRead, IsPage, MappedRange.Ok, LoopRead, LittleEndian;
    s.SureReadIsFlat(s.Masked(address), s.Masked(address) + size);
    var value := s.TryRead(address, size);
    out := Loaded(value);
  }

  /** No copy-on-write range of the space has been split. */
  predicate CanClone(s: AddressSpace)
    requires Good(s)
    reads s, Footprint(s)
  {
    Whole(s.maps, s.roots)
  }

  method CloneSpace(s: AddressSpace) returns (child: AddressSpace)
    requires Good(s) && CanClone(s)
    modifies s`roots, s.Owned()
    ensures Good(s) && Good(child) && OnlyNewRanges(s)
    ensures fresh(child) && fresh(child.cache) && fresh(child.wnxCache) && child.invalid == s.invalid
    ensures child.roots == s.roots && forall r <- child.maps :: if r.valid then fresh(r) else r in s.maps
    ensures FlatOf(child) == FlatOf(s) == old(FlatOf(s))
    ensures old(Regular(s)) ==> Regular(s) && Regular(child)
  {
    hide AddressSpace.MapsOk, AddressSpace.LookupsOk, AddressSpace.UniformAccess, AddressSpace.Memory, Whole,
         MappedRange.Ok, IsPage, Regular, AddressSpace.CheckedWrites;
    RegularIff(s);
    child := s.Clone();
    RegularIff(s);
    RegularIff(child);
  }

  // ---------------------------------------------------------------- several spaces

  /** What writing to either space changes is nothing the other depends on. */
  ghost predicate Separate(a: AddressSpace, b: AddressSpace)
    reads a`maps, a`roots, b`maps, b`roots
  {
    && a != b && {a.cache, a.wnxCache} !! {b.cache, b.wnxCache}
    && a.Owned() !! b.Owned() && a.Owned() !! b.roots && b.Owned() !! a.roots
  }

  ghost function Footprints(spaces: seq<AddressSpace>): set<object>
    reads spaces
  {
    set s, o | s in spaces && o in Footprint(s) :: o
  }

  /** Spaces that may share arrays but are otherwise apart. */
  ghost predicate Family(spaces: seq<AddressSpace>)
    reads spaces, Footprints(spaces)
  {
    && (forall s <- spaces :: Good(s))
    && (forall i, j | 0 <= i < |spaces| && 0 <= j < |spaces| && i != j :: Separate(spaces[i], spaces[j]))
  }

  ghost function FlatsOf(spaces: seq<AddressSpace>): (flats: seq<Flat>)
    reads spaces
    ensures |flats| == |spaces|
    ensures forall i | 0 <= i < |spaces| :: flats[i] == FlatOf(spaces[i])
  {
    seq(|spaces|, i requires 0 <= i < |spaces| reads spaces => FlatOf(spaces[i]))
  }

  /** What an operation on a space may write to. */
  ghost function Writes(s: AddressSpace): set<object>
    reads s`maps
  {
    {s, s.cache, s.wnxCache} + s.Owned()
  }

  lemma Apart(spaces: seq<AddressSpace>, i: nat)
    requires Family(spaces) && i < |spaces|
    ensures Writes(spaces[i]) <= Footprints(spaces)
    ensures forall j | 0 <= j < |spaces| && j != i :: Footprint(spaces[j]) !! Writes(spaces[i])
  {
    hide AddressSpace.MapsOk, AddressSpace.LookupsOk, AddressSpace.UniformAccess, MappedRange.Ok, IsPage;
    assert spaces[i] in spaces && Writes(spaces[i]) <= Footprint(spaces[i]);
    forall j | 0 <= j < |spaces| && j != i ensures Footprint(spaces[j]) !! Writes(spaces[i]) {
      assert spaces[j] in spaces && Separate(spaces[i], spaces[j]);
    }
  }

  twostate predicate Unchanged(s: AddressSpace)
    reads s, Footprint(s)
  {
    && unchanged(s) && unchanged(s.cache) && unchanged(s.wnxCache) && unchanged(s.invalid)
    && unchanged(s.maps) && unchanged(s.roots)
  }

  twostate lemma Stays(s: AddressSpace)
    requires old(Good(s)) && Unchanged(s)
    ensures Good(s) && FlatOf(s) == old(FlatOf(s))
  {
    hide AddressSpace.MapsOk, AddressSpace.LookupsOk, AddressSpace.UniformAccess, AddressSpace.Memory,
         MappedRange.Ok;
    assert old(s.Valid()) && s.maps == old(s.maps) && s.roots == old(s.roots);
    assert s.MapsOk() && s.LookupsOk() && s.invalid.Ok();
  }

  /** An operation on one space is invisible in every other. */
  twostate lemma OthersStay(at: (seq<AddressSpace>, nat))
    requires at.1 < |at.0| && old(Family(at.0)) && Good(at.0[at.1]) && OnlyNewRanges(at.0[at.1])
    requires forall j | 0 <= j < |at.0| && j != at.1 :: Unchanged(at.0[j])
    ensures Family(at.0)
    ensures forall j | 0 <= j < |at.0| && j != at.1 :: FlatOf(at.0[j]) == old(FlatOf(at.0[j]))
    ensures forall o <- Footprints(at.0) :: o in old(Footprints(at.0)) || fresh(o)
  {
    hide Good, FlatOf;
    var (spaces, i) := at;
    forall j | 0 <= j < |spaces| && j != i
      ensures Good(spaces[j]) && FlatOf(spaces[j]) == old(FlatOf(spaces[j]))
    {
      assert spaces[j] in spaces;
      Stays(spaces[j]);
    }
    forall j | 0 <= j < |spaces| && j != i
      ensures Separate(spaces[i], spaces[j]) && Separate(spaces[j], spaces[i])
    {
      assert old(Separate(spaces[i], spaces[j])) && Unchanged(spaces[j]);
    }
    forall o <- Footprints(spaces) ensures o in old(Footprints(spaces)) || fresh(o) {
      var s :| s in spaces && o in Footprint(s);
      assert fresh(o) || o in old(Footprint(s));
    }
  }

  method ApplyIn(spaces: seq<AddressSpace>, i: nat, op: Op) returns (out: Output)
    requires Family(spaces) && i < |spaces| && Allowed(spaces[i], op)
    modifies Footprints(spaces)
    ensures Family(spaces)
    ensures forall o <- Footprints(spaces) :: o in old(Footprints(spaces)) || fresh(o)
    ensures ModelCan(old(FlatsOf(spaces)), On(i, op))
    ensures (FlatsOf(spaces), out) == ModelStep(old(FlatsOf(spaces)), On(i, op))
    ensures forall j | 0 <= j < |spaces| && (j == i ==> !op.Protect?) :: old(Regular(spaces[j])) ==> Regular(spaces[j])
  {
    hide Good, AddressSpace.Memory, FlatStep, Separate, Footprints, Regular, IsSure;
    Apart(spaces, i);
    assert spaces[i] in spaces;
    out := Apply(spaces[i], op);
    OthersStay((spaces, i));
    assert FlatsOf(spaces) == old(FlatsOf(spaces))[i := FlatOf(spaces[i])];
  }

  lemma AddChild(spaces: seq<AddressSpace>, i: nat, child: AddressSpace)
    requires Family(spaces) && i < |spaces| && Good(child) && child.roots == spaces[i].roots && child !in spaces
    requires forall s <- spaces ::
      child.Owned() !! s.Owned() && child.Owned() !! s.roots && {child.cache, child.wnxCache} !! {s.cache, s.wnxCache}
    ensures Family(spaces + [child])
  {
    hide Good, AddressSpace.Owned;
    forall j | 0 <= j < |spaces| ensures Separate(child, spaces[j]) && Separate(spaces[j], child) {
      assert spaces[j] in spaces && (j != i ==> Separate(spaces[j], spaces[i]));
      OwnedIsUnshared(spaces[i]);
    }
  }

  lemma OwnedIsUnshared(s: AddressSpace)
    requires Good(s)
    ensures s.Owned() !! s.roots
  {
    hide MappedRange.Ok, Views, Tiled, OnPages, AddressSpace.LookupsOk, AddressSpace.UniformAccess, IsPage;
  }

  lemma JoinFootprints(spaces: seq<AddressSpace>, child: AddressSpace)
    ensures Footprints(spaces + [child]) == Footprints(spaces) + Footprint(child)
    ensures forall s <- spaces :: Footprint(s) <= Footprints(spaces)
  {
    var all := spaces + [child];
    assert child in all && forall s <- spaces :: s in all;
    forall o <- Footprint(child) ensures o in Footprints(all) {
    }
    forall o <- Footprints(spaces) ensures o in Footprints(all) {
      var s :| s in spaces && o in Footprint(s);
      assert s in all;
    }
  }

  /** Cloning turns a space's ranges into shared ones, which no space of the family sees. */
  method CloneApart(spaces: seq<AddressSpace>, i: nat) returns (child: AddressSpace)
    requires Family(spaces) && i < |spaces| && spaces[i] in spaces && CanClone(spaces[i])
    modifies Footprints(spaces)
    ensures Family(spaces) && FlatsOf(spaces) == old(FlatsOf(spaces))
    ensures Good(child) && FlatOf(child) == FlatOf(spaces[i]) && child.roots == spaces[i].roots && fresh(child)
    ensures forall s <- spaces ::
      child.Owned() !! s.Owned() && child.Owned() !! s.roots && {child.cache, child.wnxCache} !! {s.cache, s.wnxCache}
    ensures forall o <- Footprints(spaces) + Footprint(child) :: o in old(Footprints(spaces)) || fresh(o)
    ensures old(Regular(spaces[i])) ==> Regular(child)
    ensures forall j | 0 <= j < |spaces| :: old(Regular(spaces[j])) ==> Regular(spaces[j])
  {
    hide Good, AddressSpace.Memory, Footprints, Regular;
    Apart(spaces, i);
    assert spaces[i] in spaces && Good(spaces[i]);
    child := CloneSpace(spaces[i]);
    OthersStay((spaces, i));
    HasFootprint(spaces, i);
    assert FlatsOf(spaces) == old(FlatsOf(spaces));
    forall s <- spaces
      ensures child.Owned() !! s.Owned() && child.Owned() !! s.roots
      ensures {child.cache, child.wnxCache} !! {s.cache, s.wnxCache}
    {
      if s == spaces[i] {
        OwnedIsUnshared(child);
      }
    }
  }

  lemma HasFootprint(spaces: seq<AddressSpace>, i: nat)
    requires i < |spaces|
    ensures Footprint(spaces[i]) <= Footprints(spaces)
  {
    assert spaces[i] in spaces;
  }

  /** A clone joins the family as a copy. */
  method CloneIn(spaces: seq<AddressSpace>, i: nat) returns (family: seq<AddressSpace>)
    requires Family(spaces) && i < |spaces| && spaces[i] in spaces && CanClone(spaces[i])
    modifies Footprints(spaces)
    ensures Family(family)
    ensures forall o <- Footprints(family) :: o in old(Footprints(spaces)) || fresh(o)
    ensures FlatsOf(family) == ModelStep(old(FlatsOf(spaces)), CloneOf(i)).0
    ensures |family| == |spaces| + 1 && (old(Regular(spaces[i])) ==> Regular(family[|spaces|]))
    ensures forall j | 0 <= j < |spaces| :: old(Regular(spaces[j])) ==> Regular(family[j])
  {
    hide Good, AddressSpace.Memory, Footprints, Regular, Family, AddressSpace.Owned, Footprint, FlatOf;
    var child := CloneApart(spaces, i);
    family := spaces + [child];
    AddChild(spaces, i, child);
    JoinFootprints(spaces, child);
  }

  /** What the next step needs of the spaces as they are. */
  predicate Can(spaces: seq<AddressSpace>, step: Step)
    requires Family(spaces)
    reads spaces, Footprints(spaces)
  {
    step.space < |spaces| &&
    match step
    case On(i, op) => Allowed(spaces[i], op)
    case CloneOf(i) => assert spaces[i] in spaces; CanClone(spaces[i])
  }

  /** What the next step needs of the maps. */
  predicate StepFits(spaces: seq<AddressSpace>, step: Step)
    requires Family(spaces)
    reads spaces, Footprints(spaces)
  {
    step.space < |spaces| &&
    match step
    case On(i, op) => Fits(spaces[i], op)
    case CloneOf(i) => assert spaces[i] in spaces; CanClone(spaces[i])
  }

  lemma FittingIsEnough(spaces: seq<AddressSpace>, step: Step)
    requires Family(spaces) && StepFits(spaces, step) && Regular(spaces[step.space])
    ensures Can(spaces, step)
  {
    hide Good, CanClone, Regular, IsSure;
    assert spaces[step.space] in spaces;
    if step.On? {
      RegularIsSure(spaces[step.space], step.op);
    }
  }

  /** The spaces that are known to be regular are. */
  ghost predicate RegularAs(spaces: seq<AddressSpace>, known: seq<bool>)
    reads spaces
  {
    |known| == |spaces| && forall i | 0 <= i < |known| :: known[i] ==> Regular(spaces[i])
  }

  function RegularNow(spaces: seq<AddressSpace>): (known: seq<bool>)
    reads spaces
  {
    seq(|spaces|, i requires 0 <= i < |spaces| reads spaces => Regular(spaces[i]))
  }

  /** Which spaces are known to be regular after a step: all that were, except one whose permissions it changes. */
  function KnownAfter(known: seq<bool>, step: Step): seq<bool> {
    if step.space >= |known| then known
    else match step
      case On(i, op) => if op.Protect? then known[i := false] else known
      case CloneOf(i) => known + [known[i]]
  }

  function KnownAfterAll(known: seq<bool>, steps: seq<Step>): seq<bool> {
    if steps == [] then known
    else KnownAfter(KnownAfterAll(known, steps[..|steps| - 1]), steps[|steps| - 1])
  }

  /** As long as no permissions are changed, regular spaces and their clones stay regular. */
  lemma {:induction false} RegularWithoutProtect(known: seq<bool>, steps: seq<Step>)
    requires forall k <- known :: k
    requires forall step <- steps :: step.On? ==> !step.op.Protect?
    ensures forall k <- KnownAfterAll(known, steps) :: k
    decreases |steps|
  {
    if steps != [] {
      var before, last := steps[..|steps| - 1], steps[|steps| - 1];
      RegularWithoutProtect(known, before);
      var sofar := KnownAfterAll(known, before);
      assert last in steps && (last.space < |sofar| ==> sofar[last.space] in sofar);
      forall k <- KnownAfter(sofar, last) ensures k {
        assert k in sofar;
      }
    }
  }

  method TakeStep(spaces: seq<AddressSpace>, step: Step, ghost known: seq<bool>)
    returns (family: seq<AddressSpace>, out: Output)
    requires Family(spaces) && Can(spaces, step) && RegularAs(spaces, known)
    modifies Footprints(spaces)
    ensures Family(family) && RegularAs(family, KnownAfter(known, step))
    ensures forall o <- Footprints(family) :: o in old(Footprints(spaces)) || fresh(o)
    ensures ModelCan(old(FlatsOf(spaces)), step)
    ensures (FlatsOf(family), out) == ModelStep(old(FlatsOf(spaces)), step)
  {
    hide Family, FlatsOf, Footprints, Allowed, CanClone, FlatStep, Regular;
    match step {
      case On(i, op) =>
        family := spaces;
        out := ApplyIn(spaces, i, op);
      case CloneOf(i) =>
        out := Done;
        family := CloneIn(spaces, i);
    }
  }

  /**
   * Any history of operations and clones behaves as if each space had a byte map of its own, up to
   * the first step that the code does not support. On a space that was regular, and whose permissions
   * have not been changed since, nor those of the space it was cloned from, that can only be a step
   * that is out of range, straddles a map, or clones a split range.
   */
  method Run(spaces: seq<AddressSpace>, steps: seq<Step>) returns (family: seq<AddressSpace>, outs: seq<Output>)
    requires Family(spaces)
    modifies Footprints(spaces)
    ensures Family(family) && |outs| <= |steps|
    ensures ModelRun(old(FlatsOf(spaces)), steps[..|outs|]) == Some((FlatsOf(family), outs))
    ensures |outs| < |steps| ==> !Can(family, steps[|outs|])
    ensures RegularAs(family, KnownAfterAll(old(RegularNow(spaces)), steps[..|outs|]))
    ensures |outs| < |steps| && steps[|outs|].space < |family|
            && KnownAfterAll(old(RegularNow(spaces)), steps[..|outs|])[steps[|outs|].space] ==>
              !StepFits(family, steps[|outs|])
  {
    hide Family, FlatsOf, Footprints, Can, ModelCan, ModelStep, Regular, KnownAfter, StepFits;
    family, outs := spaces, [];
    ghost var start := RegularNow(spaces);
    while |outs| < |steps| && Can(family, steps[|outs|])
      invariant Family(family) && |outs| <= |steps|
      invariant forall o <- Footprints(family) :: o in old(Footprints(spaces)) || fresh(o)
      invariant ModelRun(old(FlatsOf(spaces)), steps[..|outs|]) == Some((FlatsOf(family), outs))
      invariant RegularAs(family, KnownAfterAll(start, steps[..|outs|]))
      decreases |steps| - |outs|
    {
      var k := |outs|;
      assert steps[..k + 1][..k] == steps[..k];
      var out;
      family, out := TakeStep(family, steps[k], KnownAfterAll(start, steps[..k]));
      outs := outs + [out];
    }
    if |outs| < |steps| && steps[|outs|].space < |family|
       && KnownAfterAll(start, steps[..|outs|])[steps[|outs|].space] && StepFits(family, steps[|outs|]) {
      FittingIsEnough(family, steps[|outs|]);
      assert false;
    }
  }
}
