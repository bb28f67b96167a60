/** The kernel's own address space: the direct map of physical memory and the kernel image. */
module KernelSpace {
  import opened Options
  import opened Bits
  import opened AddressCodec
  import opened PageTree
  import opened Mapper
  import opened Ranges
  import opened PageEntries
  import opened FrameAllocator
  import opened AddressSpaces
  import opened Extents
  import Spaces
  import AllocatorProperties

  /** Segment bounds from the linker script, and where the boot protocol loaded the image. */
  datatype KernelLayout = KernelLayout(virtualBase: Word, physicalBase: Word, imageStart: Word, textStart: Word,
                                       rodataStart: Word, dataStart: Word, dataEnd: Word)

  const READ_ONLY: Flags := Flags(false, false, false, true, 0)
  const EXECUTABLE: Flags := Flags(false, false, false, false, 0)
  const READ_WRITE: Flags := Flags(true, false, false, true, 0)

  /** Where the described memory ends. */
  function HighestEnd(regions: seq<MemoryRegion>): Word {
    if regions == [] then 0 else
    var rest, end := HighestEnd(regions[..|regions| - 1]), RegionEnd(regions[|regions| - 1]);
    if end > rest then end else rest
  }

  /** `x` rounded up to whole pages, wrapping at 64 bits. */
  function RoundUp(x: Word, large: bool): Word {
    if large then (x + LARGE_PAGE_SIZE - 1) % WORD / LARGE_PAGE_SIZE * LARGE_PAGE_SIZE
    else (x + PAGE_SIZE - 1) % WORD / PAGE_SIZE * PAGE_SIZE
  }

  lemma RoundUpAligns(x: Word)
    ensures AlignUp(x, LARGE_PAGE_SIZE) == RoundUp(x, true)
    ensures AlignUp(x, PAGE_SIZE) == RoundUp(x, false)
  {
    hide AlignUp, Pow2;
    Powers();
    AlignUpRounds(x, 21);
    AlignUpRounds(x, 12);
  }

  function Segment(layout: KernelLayout, start: Word, end: Word, flags: Flags): Extent {
    Extent(false, start, (start - layout.virtualBase + layout.physicalBase) % WORD, (end - start) % WORD, flags)
  }

  function DirectMap(regions: seq<MemoryRegion>, hhdm: Word): Extent {
    Extent(true, hhdm, 0, RoundUp(HighestEnd(regions), true), READ_WRITE)
  }

  function KernelExtents(regions: seq<MemoryRegion>, hhdm: Word, layout: KernelLayout): seq<Extent> {
    [DirectMap(regions, hhdm),
     Segment(layout, layout.imageStart, layout.textStart, READ_ONLY),
     Segment(layout, layout.textStart, layout.rodataStart, EXECUTABLE),
     Segment(layout, layout.rodataStart, layout.dataStart, READ_ONLY),
     Segment(layout, layout.dataStart, RoundUp(layout.dataEnd, false), READ_WRITE)]
  }

  /** build_kernel_address_space: the machine, the root table once there is one, and the verdict. */
  ghost function BuildKernel(s: Machine, regions: seq<MemoryRegion>, hhdm: Word, layout: KernelLayout)
    : (Machine, Option<Frame>, bool)
  {
    if regions == [] || hhdm % LARGE_PAGE_SIZE != 0 then (s, None, false) else
    var (s0, root) := AllocTable(s);
    if HighestEnd(regions) == 0 then (s0, Some(root), false) else
    var (s1, ok) := MapExtents(s0, root, KernelExtents(regions, hhdm, layout));
    (s1, Some(root), ok)
  }

  // ---------------------------------------------------------------------------
  // The method
  // ---------------------------------------------------------------------------

  method FindHighestEnd(regions: seq<MemoryRegion>) returns (highest: Word)
    ensures highest == HighestEnd(regions)
    ensures forall i :: 0 <= i < |regions| ==> RegionEnd(regions[i]) <= highest
    ensures highest == 0 || exists i :: 0 <= i < |regions| && RegionEnd(regions[i]) == highest
  {
    highest := 0;
    for i := 0 to |regions|
      invariant highest == HighestEnd(regions[..i])
      invariant forall j :: 0 <= j < i ==> RegionEnd(regions[j]) <= highest
      invariant highest == 0 || exists j :: 0 <= j < i && RegionEnd(regions[j]) == highest
    {
      var end := (regions[i].base + regions[i].length) % WORD;
      if end > highest { highest := end; }
      assert regions[..i + 1][..i] == regions[..i];
    }
    assert regions[..|regions|] == regions;
  }

  lemma NextExtent(s: Machine, root: Frame, es: seq<Extent>, i: nat)
    requires i < |es| && MapExtents(s, root, es[..i]).1
    ensures MapExtents(s, root, es[..i + 1]) == MapExtent(MapExtents(s, root, es[..i]).0, root, es[i])
  {
    hide MapExtent;
    assert es[..i + 1][..i] == es[..i];
  }

  /** A failed prefix decides the whole list. */
  lemma {:induction false} StopsAt(s: Machine, root: Frame, es: seq<Extent>, i: nat)
    requires i <= |es| && !MapExtents(s, root, es[..i]).1
    ensures MapExtents(s, root, es) == MapExtents(s, root, es[..i])
    decreases |es|
  {
    hide MapExtent;
    if i == |es| {
      assert es[..i] == es;
    } else {
      var front := es[..|es| - 1];
      assert front[..i] == es[..i];
      StopsAt(s, root, front, i);
    }
  }

  /** The flag words the kernel passes. */
  lemma KernelFlags()
    ensures NO_EXECUTE < WORD && IsFlags(NO_EXECUTE) && DecodeFlags(NO_EXECUTE) == READ_ONLY
    ensures IsFlags(0) && DecodeFlags(0) == EXECUTABLE
    ensures Or(WRITABLE, NO_EXECUTE) < WORD && IsFlags(Or(WRITABLE, NO_EXECUTE))
    ensures DecodeFlags(Or(WRITABLE, NO_EXECUTE)) == READ_WRITE
  {
    TopBit();
    LowBit();
    assert DecodeFlags(Or(WRITABLE, NO_EXECUTE)) == READ_WRITE && IsFlags(Or(WRITABLE, NO_EXECUTE)) by {
      hide And, Or;
      OrWord(WRITABLE, NO_EXECUTE);
      MaskOr(WRITABLE, NO_EXECUTE, WRITABLE);
      MaskOr(WRITABLE, NO_EXECUTE, USER);
      MaskOr(WRITABLE, NO_EXECUTE, HUGE);
      MaskOr(WRITABLE, NO_EXECUTE, NO_EXECUTE);
      MaskOr(WRITABLE, NO_EXECUTE, OTHER);
      MaskOr(WRITABLE, NO_EXECUTE, PHYSICAL_ADDRESS_MASK);
    }
    OrWord(WRITABLE, NO_EXECUTE);
  }

  lemma TopBit()
    ensures And(NO_EXECUTE, WRITABLE) == 0 && And(NO_EXECUTE, USER) == 0 && And(NO_EXECUTE, HUGE) == 0
    ensures And(NO_EXECUTE, NO_EXECUTE) != 0 && And(NO_EXECUTE, OTHER) == 0
    ensures And(NO_EXECUTE, PHYSICAL_ADDRESS_MASK) == 0
  {
    hide And, Pow2, Shr;
    Powers();
    TopMask(WRITABLE);
    TopMask(USER);
    TopMask(HUGE);
    TopMask(NO_EXECUTE);
    TopMask(OTHER);
    TopMask(PHYSICAL_ADDRESS_MASK);
  }

  /** Bit 63 is seen exactly by masks of 2^63 and above. */
  lemma TopMask(m: Word)
    ensures And(NO_EXECUTE, m) == if m < NO_EXECUTE then 0 else NO_EXECUTE
  {
    hide And;
    Powers();
    AndCommutes(NO_EXECUTE, m);
    TestBit(m, 63);
    BitIsDigit(m, 63);
    ShrDivides(m, 63);
  }

  lemma LowBit()
    ensures And(WRITABLE, WRITABLE) != 0 && And(WRITABLE, USER) == 0 && And(WRITABLE, HUGE) == 0
    ensures And(WRITABLE, NO_EXECUTE) == 0 && And(WRITABLE, OTHER) == 0 && And(WRITABLE, PHYSICAL_ADDRESS_MASK) == 0
  {}

  /** Builds the space the kernel runs in once it leaves the bootloader's tables. */
  method BuildKernelAddressSpace(vm: PageTables, out: AddressSpace, regions: seq<MemoryRegion>, hhdm: Word,
                                 layout: KernelLayout)
    returns (ok: bool, space: AddressSpace)
    requires vm.Valid()
    modifies vm`memory, vm.pmm`freeFrameCount, vm.pmm.bitmap
    ensures vm.Valid() && vm.Ahead() == old(vm.Ahead())
    ensures var (s, root, verdict) := BuildKernel(old(vm.Abs()), regions, hhdm, layout);
            && vm.Abs() == s && ok == verdict
            && (if root.Some? then space == AddressSpace(root, root.value * PAGE_SIZE) else space == out)
  {
    hide And, Or, AllocTable, MapExtents, MapRangeAt, DecodeMemory, HighestEnd, RoundUp, IsFlags, DecodeFlags;
    PageMask(hhdm);
    KernelFlags();
    space := out;
    if regions == [] { return false, space; }
    if And(hhdm, LARGE_PAGE_SIZE - 1) != 0 { return false, space; }
    ok, space := vm.CreateAddressSpace(out);
    var highest := FindHighestEnd(regions);
    if highest == 0 { return false, space; }
    RoundUpAligns(highest);
    RoundUpAligns(layout.dataEnd);
    ok := MapKernel(vm, space, regions, hhdm, layout, AlignUp(highest, LARGE_PAGE_SIZE),
                    AlignUp(layout.dataEnd, PAGE_SIZE));
  }

  /** The direct map and the four segments, in order. */
  method MapKernel(vm: PageTables, space: AddressSpace, ghost regions: seq<MemoryRegion>, hhdm: Word,
                   layout: KernelLayout, highest: Word, dataEnd: Word)
    returns (ok: bool)
    requires vm.Valid() && space.pml4.Some?
    requires highest == RoundUp(HighestEnd(regions), true) && dataEnd == RoundUp(layout.dataEnd, false)
    modifies vm`memory, vm.pmm`freeFrameCount, vm.pmm.bitmap
    ensures vm.Valid() && vm.Ahead() == old(vm.Ahead())
    ensures (vm.Abs(), ok) == MapExtents(old(vm.Abs()), space.pml4.value, KernelExtents(regions, hhdm, layout))
  {
    hide And, Or, MapExtents, MapRangeAt, DecodeMemory, HighestEnd, RoundUp, IsFlags, DecodeFlags;
    KernelFlags();
    ghost var s, root, es := vm.Abs(), space.pml4.value, KernelExtents(regions, hhdm, layout);
    NoExtent(s, root, es);
    NextExtent(s, root, es, 0);
    ok := vm.MapRangeLarge(space, hhdm, 0, highest, Or(WRITABLE, NO_EXECUTE));
    if !ok { StopsAt(s, root, es, 1); return; }
    NextExtent(s, root, es, 1);
    ok := MapSegment(vm, space, layout, layout.imageStart, layout.textStart, NO_EXECUTE);
    if !ok { StopsAt(s, root, es, 2); return; }
    NextExtent(s, root, es, 2);
    ok := MapSegment(vm, space, layout, layout.textStart, layout.rodataStart, 0);
    if !ok { StopsAt(s, root, es, 3); return; }
    NextExtent(s, root, es, 3);
    ok := MapSegment(vm, space, layout, layout.rodataStart, layout.dataStart, NO_EXECUTE);
    if !ok { StopsAt(s, root, es, 4); return; }
    NextExtent(s, root, es, 4);
    ok := MapSegment(vm, space, layout, layout.dataStart, dataEnd, Or(WRITABLE, NO_EXECUTE));
    assert es[..5] == es;
  }

  lemma NoExtent(s: Machine, root: Frame, es: seq<Extent>)
    ensures MapExtents(s, root, es[..0]) == (s, true)
  {}

  method MapSegment(vm: PageTables, space: AddressSpace, layout: KernelLayout, start: Word, end: Word, flags: Word)
    returns (ok: bool)
    requires vm.Valid() && space.pml4.Some? && IsFlags(flags)
    modifies vm`memory, vm.pmm`freeFrameCount, vm.pmm.bitmap
    ensures vm.Valid() && vm.Ahead() == old(vm.Ahead())
    ensures (vm.Abs(), ok) ==
            MapExtent(old(vm.Abs()), space.pml4.value, Segment(layout, start, end, DecodeFlags(flags)))
  {
    hide MapRangeAt, DecodeMemory;
    var phys := (start - layout.virtualBase + layout.physicalBase) % WORD;
    var size := (end - start) % WORD;
    ok := vm.MapRange(space, start, phys, size, flags);
  }

  // ---------------------------------------------------------------------------
  // The finished space
  // ---------------------------------------------------------------------------

  /** The build finds a frame for its root, and each of its calls the frames it needs. */
  ghost predicate KernelSupplied(s: Machine, regions: seq<MemoryRegion>, hhdm: Word, layout: KernelLayout) {
    regions != [] && hhdm % LARGE_PAGE_SIZE == 0 ==>
      && s.free != {}
      && (HighestEnd(regions) != 0 ==>
            var (s', root) := AllocTable(s);
            ExtentsSupplied(s', root, KernelExtents(regions, hhdm, layout)))
  }

  /** Frames a build needs: its root, and one for each table of a range that passes its checks. */
  function KernelFrames(regions: seq<MemoryRegion>, hhdm: Word, layout: KernelLayout): nat {
    1 + |ExtentsNodes(KernelExtents(regions, hhdm, layout))|
  }

  /** A bound of them, summed over the ranges by address bits. */
  function KernelCost(regions: seq<MemoryRegion>, hhdm: Word, layout: KernelLayout): nat {
    1 + ExtentsCost(KernelExtents(regions, hhdm, layout))
  }

  /** That many free frames supply the build; and so do as many as the bound. */
  lemma KernelReserved(s: Machine, regions: seq<MemoryRegion>, hhdm: Word, layout: KernelLayout)
    requires KernelFrames(regions, hhdm, layout) <= |s.free| || KernelCost(regions, hhdm, layout) <= |s.free|
    ensures KernelSupplied(s, regions, hhdm, layout)
  {
    hide AllocTable, ExtentsNodes, ExtentsCost, KernelExtents, ExtentsSupplied, SpaceOk, Agrees, Tables, HighestEnd;
    var es := KernelExtents(regions, hhdm, layout);
    ExtentsNodesBound(es);
    Spaces.FreshSpace(s);
    var (s0, root) := AllocTable(s);
    assert ExtentsNodes(es) - {} == ExtentsNodes(es);
    ExtentsReserved(s0, root, es, ExtentsNodes(es));
  }

  /** A build that can go through finds its frames exactly when that many are free. */
  lemma KernelSuppliedIff(s: Machine, regions: seq<MemoryRegion>, hhdm: Word, layout: KernelLayout)
    requires regions != [] && hhdm % LARGE_PAGE_SIZE == 0 && HighestEnd(regions) != 0
    requires AllApart(KernelExtents(regions, hhdm, layout))
    ensures KernelSupplied(s, regions, hhdm, layout) <==> KernelFrames(regions, hhdm, layout) <= |s.free|
  {
    hide AllocTable, ExtentsNodes, KernelExtents, ExtentsSupplied, SpaceOk, Agrees, Tables, HighestEnd, AllApart,
         TableAt;
    if s.free != {} {
      Spaces.FreshSpace(s);
      var (s0, root) := AllocTable(s);
      ExtentsSuppliedIff(s0, root, KernelExtents(regions, hhdm, layout));
    }
  }

  /** When it finds its frames, the build succeeds exactly when the direct map and the segments can be
      mapped apart from each other; then every canonical address translates as they say, with their
      rights, and every other address is unmapped. */
  lemma KernelExact(s: Machine, regions: seq<MemoryRegion>, hhdm: Word, layout: KernelLayout)
    requires KernelSupplied(s, regions, hhdm, layout)
    ensures var es := KernelExtents(regions, hhdm, layout);
            var (s', root, ok) := BuildKernel(s, regions, hhdm, layout);
            && (ok <==> regions != [] && hhdm % LARGE_PAGE_SIZE == 0 && HighestEnd(regions) != 0 && AllApart(es))
            && (ok ==>
                  && root.Some? && SpaceOk(s', root.value)
                  && forall a: nat :: CanonicalAddress(a) ==> Walk(s'.mem, root.value, AddressPage(a)) == Found(es, a))
  {
    hide AllocTable, MapExtents, FlatExtents, KernelExtents, ExtentsSupplied, AllApart, Found, Walk, LeafAt, HighestEnd;
    var es := KernelExtents(regions, hhdm, layout);
    if regions != [] && hhdm % LARGE_PAGE_SIZE == 0 && HighestEnd(regions) != 0 {
      Spaces.FreshSpace(s);
      var (s0, root) := AllocTable(s);
      ExtentsRefine(s0, root, es);
      ExtentsExact(es);
      var (s1, ok) := MapExtents(s0, root, es);
      if ok {
        WalkExact(s1, root, FlatExtents(es).0, es);
      }
    }
  }

  lemma WalkExact(s: Machine, root: Frame, flat: Flat, es: seq<Extent>)
    requires SpaceOk(s, root) && Agrees(s, root, flat) && Exact(flat, es)
    ensures forall a: nat :: CanonicalAddress(a) ==> Walk(s.mem, root, AddressPage(a)) == Found(es, a)
  {}

  predicate DirectMapped(regions: seq<MemoryRegion>, hhdm: Word, a: nat) {
    hhdm <= a < hhdm + RoundUp(HighestEnd(regions), true)
  }

  predicate InImage(layout: KernelLayout, a: nat) {
    layout.imageStart <= a < RoundUp(layout.dataEnd, false)
  }

  /** The rights of an image address, by segment. */
  function ImageRights(layout: KernelLayout, a: nat): Flags {
    if a < layout.textStart then READ_ONLY
    else if a < layout.rodataStart then EXECUTABLE
    else if a < layout.dataStart then READ_ONLY
    else READ_WRITE
  }

  function Maps(physical: nat, flags: Flags): Option<Mapping> {
    Some(Mapping(physical / PAGE_SIZE, flags.writable, flags.user, flags.noExecute, flags.attributes))
  }

  /** A segment the build accepts runs forward: an empty or wrapped one is refused. */
  lemma SegmentForward(layout: KernelLayout, start: Word, end: Word, flags: Flags)
    requires Mappable(Segment(layout, start, end, flags))
    ensures start < end && Segment(layout, start, end, flags).size == end - start
  {}

  /** Accepted segments follow each other strictly, on page boundaries, apart from the direct map. */
  lemma SegmentsOrdered(regions: seq<MemoryRegion>, hhdm: Word, layout: KernelLayout)
    requires AllApart(KernelExtents(regions, hhdm, layout))
    ensures layout.imageStart < layout.textStart < layout.rodataStart
    ensures layout.rodataStart < layout.dataStart < RoundUp(layout.dataEnd, false)
    ensures layout.imageStart % PAGE_SIZE == 0 && layout.textStart % PAGE_SIZE == 0
    ensures layout.rodataStart % PAGE_SIZE == 0 && layout.dataStart % PAGE_SIZE == 0
    ensures forall a: nat :: !(DirectMapped(regions, hhdm, a) && InImage(layout, a))
  {
    hide RoundUp, HighestEnd, Mappable;
    var es := KernelExtents(regions, hhdm, layout);
    Five(es);
    SegmentForward(layout, layout.imageStart, layout.textStart, READ_ONLY);
    SegmentForward(layout, layout.textStart, layout.rodataStart, EXECUTABLE);
    SegmentForward(layout, layout.rodataStart, layout.dataStart, READ_ONLY);
    SegmentForward(layout, layout.dataStart, RoundUp(layout.dataEnd, false), READ_WRITE);
    MappableAligned(es[1]);
    MappableAligned(es[2]);
    MappableAligned(es[3]);
    MappableAligned(es[4]);
  }

  lemma MappableAligned(e: Extent)
    requires Mappable(e)
    ensures e.virt % PAGE_SIZE == 0 && e.size != 0
  {}

  lemma Five(es: seq<Extent>)
    requires AllApart(es) && |es| == 5
    ensures Mappable(es[0]) && Mappable(es[1]) && Mappable(es[2]) && Mappable(es[3]) && Mappable(es[4])
    ensures Apart(es[0], es[1]) && Apart(es[0], es[2]) && Apart(es[0], es[3]) && Apart(es[0], es[4])
  {}

  /** What the list of extents says, region by region. */
  lemma KernelFound(regions: seq<MemoryRegion>, hhdm: Word, layout: KernelLayout, a: nat)
    requires AllApart(KernelExtents(regions, hhdm, layout))
    ensures Found(KernelExtents(regions, hhdm, layout), a) ==
            if DirectMapped(regions, hhdm, a) then Maps(a - hhdm, READ_WRITE)
            else if InImage(layout, a) then
              Maps((a - layout.virtualBase + layout.physicalBase) % WORD, ImageRights(layout, a))
            else None
  {
    hide RoundUp, HighestEnd, Mappable, AllApart;
    SegmentsOrdered(regions, hhdm, layout);
    var es := KernelExtents(regions, hhdm, layout);
    FoundFive(es, a);
    Five(es);
    var d := RoundUp(layout.dataEnd, false);
    SegmentFrame(layout, layout.imageStart, layout.textStart, READ_ONLY, a);
    SegmentFrame(layout, layout.textStart, layout.rodataStart, EXECUTABLE, a);
    SegmentFrame(layout, layout.rodataStart, layout.dataStart, READ_ONLY, a);
    SegmentFrame(layout, layout.dataStart, d, READ_WRITE, a);
    assert !(DirectMapped(regions, hhdm, a) && InImage(layout, a));
  }

  lemma FoundFive(es: seq<Extent>, a: nat)
    requires |es| == 5
    ensures Found(es, a) ==
            if Holds(es[4], a) then Some(MappingOf(es[4], a))
            else if Holds(es[3], a) then Some(MappingOf(es[3], a))
            else if Holds(es[2], a) then Some(MappingOf(es[2], a))
            else if Holds(es[1], a) then Some(MappingOf(es[1], a))
            else if Holds(es[0], a) then Some(MappingOf(es[0], a))
            else None
  {
    hide Holds, MappingOf;
    assert es[..4][..3] == es[..3] && es[..3][..2] == es[..2] && es[..2][..1] == es[..1] && es[..1][..0] == [];
    assert Found(es[..1], a) == if Holds(es[0], a) then Some(MappingOf(es[0], a)) else None;
    assert Found(es[..2], a) == if Holds(es[1], a) then Some(MappingOf(es[1], a)) else Found(es[..1], a);
    assert Found(es[..3], a) == if Holds(es[2], a) then Some(MappingOf(es[2], a)) else Found(es[..2], a);
    assert Found(es[..4], a) == if Holds(es[3], a) then Some(MappingOf(es[3], a)) else Found(es[..3], a);
  }

  lemma SegmentFrame(layout: KernelLayout, start: Word, end: Word, flags: Flags, a: nat)
    requires Mappable(Segment(layout, start, end, flags))
    ensures Holds(Segment(layout, start, end, flags), a) <==> start <= a < end
    ensures start <= a < end ==>
              Some(MappingOf(Segment(layout, start, end, flags), a)) ==
              Maps((a - layout.virtualBase + layout.physicalBase) % WORD, flags)
  {
    SegmentForward(layout, start, end, flags);
    if start <= a < end {
      var phys := (start - layout.virtualBase + layout.physicalBase) % WORD;
      SameResidue(a - layout.virtualBase + layout.physicalBase, phys + (a - start),
                  (start - layout.virtualBase + layout.physicalBase) / WORD);
    }
  }

  lemma SameResidue(x: int, r: nat, q: int)
    requires r < WORD && x == q * WORD + r
    ensures x % WORD == r
  {}

  /** After a successful build every canonical address translates by the direct map, by the image, or
      not at all. */
  lemma KernelTranslates(s: Machine, regions: seq<MemoryRegion>, hhdm: Word, layout: KernelLayout, a: nat)
    requires KernelSupplied(s, regions, hhdm, layout)
    requires BuildKernel(s, regions, hhdm, layout).2
    requires CanonicalAddress(a)
    ensures var (s', root, _) := BuildKernel(s, regions, hhdm, layout);
            root.Some? && Walk(s'.mem, root.value, AddressPage(a)) ==
            if DirectMapped(regions, hhdm, a) then Maps(a - hhdm, READ_WRITE)
            else if InImage(layout, a) then
              Maps((a - layout.virtualBase + layout.physicalBase) % WORD, ImageRights(layout, a))
            else None
  {
    hide Walk, BuildKernel, KernelSupplied, KernelExtents, Found, DirectMapped, InImage, Maps, AddressPage,
         CanonicalAddress;
    KernelExact(s, regions, hhdm, layout);
    KernelFound(regions, hhdm, layout, a);
  }

  // ---------------------------------------------------------------------------
  // The space in bytes
  // ---------------------------------------------------------------------------

  /** Where the described memory ends, 64-bit ends as they wrap. */
  ghost predicate MemoryEnd(regions: seq<MemoryRegion>, end: nat) {
    && (forall i :: 0 <= i < |regions| ==> (regions[i].base + regions[i].length) % 0x1_0000_0000_0000_0000 <= end)
    && (end == 0 || exists i ::
          0 <= i < |regions| && (regions[i].base + regions[i].length) % 0x1_0000_0000_0000_0000 == end)
  }

  lemma {:induction false} HighestEndAttained(regions: seq<MemoryRegion>)
    ensures HighestEnd(regions) == 0 ||
            exists i :: 0 <= i < |regions| && RegionEnd(regions[i]) == HighestEnd(regions)
    decreases |regions|
  {
    if regions != [] {
      var n := |regions| - 1;
      var front := regions[..n];
      HighestEndAttained(front);
      if HighestEnd(regions) == HighestEnd(front) && HighestEnd(front) != 0 {
        var i :| 0 <= i < n && RegionEnd(front[i]) == HighestEnd(front);
        assert regions[i] == front[i];
      } else if HighestEnd(regions) != 0 {
        assert RegionEnd(regions[n]) == HighestEnd(regions);
      }
    }
  }

  lemma HighestIsMemoryEnd(regions: seq<MemoryRegion>, end: nat)
    requires MemoryEnd(regions, end)
    ensures HighestEnd(regions) == end
  {
    hide HighestEnd;
    HighestEndAttained(regions);
    forall i: nat | i < |regions| ensures RegionEnd(regions[i]) <= HighestEnd(regions) {
      HighestEndBounds(regions, i);
    }
  }

  /** Which bytes of the finished space lead where, and with which rights: the described memory, rounded
      up to 2 MiB, from the offset on, writable and not executable; the image at its load address, its
      head and its constants read-only, its code executable, its data, rounded up to 4 KiB, writable;
      nothing of it open to user code, and nothing else. */
  lemma KernelBytes(s: Machine, regions: seq<MemoryRegion>, end: nat, hhdm: Word, layout: KernelLayout, a: Word)
    requires KernelSupplied(s, regions, hhdm, layout)
    requires BuildKernel(s, regions, hhdm, layout).2
    requires MemoryEnd(regions, end)
    requires a < 0x8000_0000_0000 || 0xFFFF_8000_0000_0000 <= a
    ensures var (s', root, _) := BuildKernel(s, regions, hhdm, layout);
            var w := 0x1_0000_0000_0000_0000;
            var ram := (end + 0x1F_FFFF) % w / 0x20_0000 * 0x20_0000;
            var data := (layout.dataEnd + 0xFFF) % w / 0x1000 * 0x1000;
            var image := (a - layout.virtualBase + layout.physicalBase) % w / 0x1000;
            root.Some? &&
            Walk(s'.mem, root.value, a / 0x1000 % 0x10_0000_0000) ==
            if hhdm <= a < hhdm + ram then Some(Mapping((a - hhdm) / 0x1000, true, false, true, 0))
            else if layout.imageStart <= a < layout.textStart then Some(Mapping(image, false, false, true, 0))
            else if layout.textStart <= a < layout.rodataStart then Some(Mapping(image, false, false, false, 0))
            else if layout.rodataStart <= a < layout.dataStart then Some(Mapping(image, false, false, true, 0))
            else if layout.dataStart <= a < data then Some(Mapping(image, true, false, true, 0))
            else None
  {
    hide Walk, BuildKernel, KernelSupplied, HighestEnd, RoundUp, AddressPage, CanonicalAddress;
    HighestIsMemoryEnd(regions, end);
    BytePage(a);
    KernelExact(s, regions, hhdm, layout);
    SegmentsOrdered(regions, hhdm, layout);
    KernelTranslates(s, regions, hhdm, layout, a);
    RoundedEnds(HighestEnd(regions), layout.dataEnd);
  }

  lemma BytePage(a: Word)
    requires a < 0x8000_0000_0000 || 0xFFFF_8000_0000_0000 <= a
    ensures CanonicalAddress(a) && AddressPage(a) == a / 0x1000 % 0x10_0000_0000
  {}

  lemma RoundedEnds(x: Word, y: Word)
    ensures RoundUp(x, true) == (x + 0x1F_FFFF) % 0x1_0000_0000_0000_0000 / 0x20_0000 * 0x20_0000
    ensures RoundUp(y, false) == (y + 0xFFF) % 0x1_0000_0000_0000_0000 / 0x1000 * 0x1000
  {}

  /** The build's exits: a missing memory map or a misaligned offset leaves everything as it was; past
      that a root is made and announced, even by a build that then fails, and it is the least free frame. */
  lemma BuildExits(s: Machine, regions: seq<MemoryRegion>, hhdm: Word, layout: KernelLayout)
    requires KernelSupplied(s, regions, hhdm, layout)
    ensures var (s', root, ok) := BuildKernel(s, regions, hhdm, layout);
            if regions == [] || hhdm % 0x20_0000 != 0 then s' == s && root.None? && !ok
            else && root.Some? && root.value in s.free && (forall f :: f in s.free ==> root.value <= f)
                 && s'.free <= s.free - {root.value} && SpaceOk(s', root.value)
                 && (HighestEnd(regions) == 0 ==> !ok && s'.free == s.free - {root.value})
  {
    hide AllocTable, MapExtents, FlatExtents, KernelExtents, ExtentsSupplied, Agrees, HighestEnd, Tables, TableAt,
         TreeMachine, Populated, ExtentsNodes, TablesKept, Confined;
    if regions != [] && hhdm % LARGE_PAGE_SIZE == 0 {
      Spaces.FreshSpace(s);
      var (s0, root) := AllocTable(s);
      if HighestEnd(regions) != 0 { ExtentsRefine(s0, root, KernelExtents(regions, hhdm, layout)); }
    }
  }

  /** No page of the built space is both writable and executable, and none is open to user code. */
  lemma WriteXorExecute(s: Machine, regions: seq<MemoryRegion>, hhdm: Word, layout: KernelLayout, p: nat)
    requires KernelSupplied(s, regions, hhdm, layout)
    requires BuildKernel(s, regions, hhdm, layout).2
    requires p < PAGES
    ensures var (s', root, _) := BuildKernel(s, regions, hhdm, layout);
            root.Some? &&
            var w := Walk(s'.mem, root.value, p);
            w.Some? ==> !(w.value.writable && !w.value.noExecute) && !w.value.user
  {
    hide Walk, BuildKernel, KernelSupplied, AddressPage, CanonicalAddress, DirectMapped, InImage;
    AddressOfPage(p);
    KernelTranslates(s, regions, hhdm, layout, AddressOf(p));
  }

  /** The direct map does map physical frame 0: at its base, an answer of 0 from the walk is an address,
      not a failure. */
  lemma FrameZeroMapped(s: Machine, regions: seq<MemoryRegion>, hhdm: Word, layout: KernelLayout)
    requires KernelSupplied(s, regions, hhdm, layout)
    requires BuildKernel(s, regions, hhdm, layout).2
    ensures var (s', root, _) := BuildKernel(s, regions, hhdm, layout);
            root.Some? && Walk(s'.mem, root.value, AddressPage(hhdm)) == Maps(0, READ_WRITE)
  {
    hide Walk, BuildKernel, KernelSupplied, AddressPage, RoundUp, HighestEnd;
    KernelExact(s, regions, hhdm, layout);
    assert Mappable(KernelExtents(regions, hhdm, layout)[0]);
    KernelTranslates(s, regions, hhdm, layout, hhdm);
  }

  // ---------------------------------------------------------------------------
  // Reaching the page tables through the direct map
  // ---------------------------------------------------------------------------

  /** Every table of the built space is a frame the allocator had free. */
  lemma TablesFromFree(s: Machine, regions: seq<MemoryRegion>, hhdm: Word, layout: KernelLayout, l: nat, n: nat)
    requires KernelSupplied(s, regions, hhdm, layout)
    requires BuildKernel(s, regions, hhdm, layout).2
    requires 1 <= l <= 4
    ensures var (s', root, _) := BuildKernel(s, regions, hhdm, layout);
            root.Some? &&
            var t := TableAt(s'.mem, root.value, l, n);
            t.Some? ==> t.value in s.free
  {
    hide AllocTable, MapExtents, FlatExtents, KernelExtents, ExtentsSupplied, SpaceOk, Agrees, HighestEnd, TableAt;
    var es := KernelExtents(regions, hhdm, layout);
    Spaces.FreshSpace(s);
    var (s0, root) := AllocTable(s);
    ExtentsRefine(s0, root, es);
    var (s1, ok) := MapExtents(s0, root, es);
    assert TablesKept(s0, s1, root);
    assert TableAt(s1.mem, root, l, n) == TableAt(s0.mem, root, l, n)
        || (TableAt(s1.mem, root, l, n).Some? && TableAt(s1.mem, root, l, n).value in s0.free - s1.free);
  }

  /** A successful build takes exactly its frames, all of them from the free set. */
  lemma KernelTakes(s: Machine, regions: seq<MemoryRegion>, hhdm: Word, layout: KernelLayout)
    requires KernelSupplied(s, regions, hhdm, layout)
    requires BuildKernel(s, regions, hhdm, layout).2
    ensures var s' := BuildKernel(s, regions, hhdm, layout).0;
            s'.free <= s.free && |s'.free| + KernelFrames(regions, hhdm, layout) == |s.free|
  {
    hide AllocTable, MapExtents, FlatExtents, KernelExtents, ExtentsSupplied, SpaceOk, Agrees, HighestEnd, TableAt,
         Tables, ExtentsNodes, TablesKept, Confined;
    var es := KernelExtents(regions, hhdm, layout);
    Spaces.FreshSpace(s);
    var (s0, root) := AllocTable(s);
    ExtentsRefine(s0, root, es);
    assert {} + ExtentsNodes(es) == ExtentsNodes(es);
  }

  lemma {:induction false} HighestEndBounds(regions: seq<MemoryRegion>, i: nat)
    requires i < |regions|
    ensures RegionEnd(regions[i]) <= HighestEnd(regions)
    decreases |regions|
  {
    if i < |regions| - 1 { HighestEndBounds(regions[..|regions| - 1], i); }
  }

  lemma RoundUpCovers(x: Word)
    requires RoundUp(x, true) != 0
    ensures RoundUp(x, true) >= x
  {}

  /** The allocator's frames lie under the direct map when both were given the same regions. */
  lemma FreeUnderDirectMap(regions: seq<MemoryRegion>, phys: Word, f: nat)
    requires forall i :: 0 <= i < |regions| ==> AllocatorProperties.Physical(regions[i])
    requires f in InitialPool(regions, phys).free
    requires RoundUp(HighestEnd(regions), true) != 0
    ensures (f + 1) * PAGE_SIZE <= RoundUp(HighestEnd(regions), true)
  {
    hide InitialPool, RoundUp, HighestEnd, BitmapFrames, FrameCountFor, WordsFor, PagesFor, HighestUsableEnd,
         AllocatorProperties.Inside, AllocatorProperties.Physical;
    AllocatorProperties.InitialFree(regions, phys, f);
    var i: nat :| i < |regions| && AllocatorProperties.Inside(regions[i], f);
    AllocatorProperties.InsideEnd(regions[i], f);
    HighestEndBounds(regions, i);
    RoundUpCovers(HighestEnd(regions));
  }

  /** Every byte of every frame init made free is mapped, writable, at the address physical_to_virtual
      gives for it, which is null for no frame but 0 and only with a direct-map offset of 0. */
  lemma FrameReachable(s: Machine, phys: Word, regions: seq<MemoryRegion>, hhdm: Word, layout: KernelLayout,
                       f: Frame, offset: nat)
    requires forall i :: 0 <= i < |regions| ==> AllocatorProperties.Physical(regions[i])
    requires KernelSupplied(s, regions, hhdm, layout)
    requires BuildKernel(s, regions, hhdm, layout).2
    requires f in InitialPool(regions, phys).free && offset < PAGE_SIZE
    ensures var (s', root, _) := BuildKernel(s, regions, hhdm, layout);
            var a := PhysicalToVirtual(hhdm, f * PAGE_SIZE) + offset;
            && CanonicalAddress(a) && (a == 0 <==> hhdm == 0 && f == 0 && offset == 0)
            && root.Some? && Walk(s'.mem, root.value, AddressPage(a)) == Maps(f * PAGE_SIZE + offset, READ_WRITE)
  {
    hide Walk, BuildKernel, KernelSupplied, AddressPage, RoundUp, HighestEnd, InitialPool, InImage, CanonicalAddress,
         DirectMapped, PhysicalToVirtual, Maps, Mappable, Found, AllocatorProperties.Physical;
    KernelExact(s, regions, hhdm, layout);
    assert Mappable(KernelExtents(regions, hhdm, layout)[0]);
    MappableAligned(DirectMap(regions, hhdm));
    FreeUnderDirectMap(regions, phys, f);
    UnderDirectMap(regions, hhdm, f, offset);
    KernelTranslates(s, regions, hhdm, layout, PhysicalToVirtual(hhdm, f * PAGE_SIZE) + offset);
  }

  /** Self-reachability: when init and the build get the same memory map, every byte of every page table
      of the new space is mapped, writable, at the address physical_to_virtual gives for it. */
  lemma SelfReachable(s: Machine, phys: Word, regions: seq<MemoryRegion>, hhdm: Word, layout: KernelLayout,
                      l: nat, n: nat, offset: nat)
    requires forall i :: 0 <= i < |regions| ==> AllocatorProperties.Physical(regions[i])
    requires forall f :: f in s.free ==> f in InitialPool(regions, phys).free
    requires KernelSupplied(s, regions, hhdm, layout)
    requires BuildKernel(s, regions, hhdm, layout).2
    requires 1 <= l <= 4 && offset < PAGE_SIZE
    ensures var (s', root, _) := BuildKernel(s, regions, hhdm, layout);
            root.Some? &&
            var t := TableAt(s'.mem, root.value, l, n);
            t.Some? ==>
            var a := PhysicalToVirtual(hhdm, t.value * PAGE_SIZE) + offset;
            && CanonicalAddress(a)
            && Walk(s'.mem, root.value, AddressPage(a)) == Maps(t.value * PAGE_SIZE + offset, READ_WRITE)
  {
    hide Walk, BuildKernel, KernelSupplied, AddressPage, TableAt, InitialPool, CanonicalAddress, PhysicalToVirtual,
         Maps, AllocatorProperties.Physical;
    TablesFromFree(s, regions, hhdm, layout, l, n);
    var (s', root, _) := BuildKernel(s, regions, hhdm, layout);
    var t := TableAt(s'.mem, root.value, l, n);
    if t.Some? { FrameReachable(s, phys, regions, hhdm, layout, t.value, offset); }
  }

  lemma UnderDirectMap(regions: seq<MemoryRegion>, hhdm: Word, t: Frame, offset: nat)
    requires Mappable(DirectMap(regions, hhdm)) && offset < PAGE_SIZE
    requires (t + 1) * PAGE_SIZE <= RoundUp(HighestEnd(regions), true)
    ensures var a := PhysicalToVirtual(hhdm, t * PAGE_SIZE) + offset;
            CanonicalAddress(a) && DirectMapped(regions, hhdm, a) && a - hhdm == t * PAGE_SIZE + offset
  {
    hide RoundUp, HighestEnd, Mappable, CanonicalAddress;
    var e, a := DirectMap(regions, hhdm), hhdm + t * PAGE_SIZE + offset;
    MappableEnds(e);
    assert PhysicalToVirtual(hhdm, t * PAGE_SIZE) == hhdm + t * PAGE_SIZE;
    HeldCanonical(e, a);
  }

  lemma MappableEnds(e: Extent)
    requires Mappable(e)
    ensures e.virt + e.size < WORD
  {}
}
