/** Memory management at boot: the allocator is initialised and the kernel space built from one
    memory map, on one machine. */
module Boot {
  import opened Options
  import opened Bits
  import opened AddressCodec
  import opened PageTree
  import opened Mapper
  import opened FrameAllocator
  import opened AllocatorProperties
  import opened AddressSpaces
  import opened Extents
  import opened KernelSpace
  import opened Ranges
  import opened Spaces
  import opened Runs

  /** Where byte `offset` of a table in frame `t` is seen through the direct map. */
  function TableByte(hhdm: Word, t: Frame, offset: nat): nat {
    PhysicalToVirtual(hhdm, t * PAGE_SIZE) + offset
  }

  /** Every byte of every table is mapped, readable and writable, where the kernel looks for it. */
  ghost predicate TablesReachable(s: Machine, root: Frame, hhdm: Word) {
    forall l: nat, n: nat, offset: nat ::
      1 <= l <= 4 && offset < PAGE_SIZE && TableAt(s.mem, root, l, n).Some? ==>
      var t := TableAt(s.mem, root, l, n).value;
      Walk(s.mem, root, AddressPage(TableByte(hhdm, t, offset))) == Maps(t * PAGE_SIZE + offset, READ_WRITE)
  }

  /** No page is both writable and executable. */
  ghost predicate WritableXorExecutable(s: Machine, root: Frame) {
    forall p: nat :: p < PAGES && Walk(s.mem, root, p).Some? ==>
      !(Walk(s.mem, root, p).value.writable && !Walk(s.mem, root, p).value.noExecute)
  }

  lemma CountFits(regions: seq<MemoryRegion>)
    requires forall i :: 0 <= i < |regions| ==> Physical(regions[i])
    ensures FrameCountFor(HighestUsableEnd(regions)) <= FRAMES
  {}

  lemma BootProperties(s: Machine, phys: Word, regions: seq<MemoryRegion>, hhdm: Word, layout: KernelLayout)
    requires forall i :: 0 <= i < |regions| ==> Physical(regions[i])
    requires s.free == AsFrames(InitialPool(regions, phys).free)
    requires KernelSupplied(s, regions, hhdm, layout)
    requires BuildKernel(s, regions, hhdm, layout).2
    ensures var (s', root, _) := BuildKernel(s, regions, hhdm, layout);
            root.Some? && SpaceOk(s', root.value) && TablesReachable(s', root.value, hhdm)
            && WritableXorExecutable(s', root.value)
  {
    hide BuildKernel, KernelSupplied, InitialPool, Walk, SpaceOk, AddressPage, Maps, TableAt, PhysicalToVirtual;
    KernelExact(s, regions, hhdm, layout);
    var (s', root, _) := BuildKernel(s, regions, hhdm, layout);
    forall l: nat, n: nat, offset: nat | 1 <= l <= 4 && offset < PAGE_SIZE && TableAt(s'.mem, root.value, l, n).Some?
      ensures var t := TableAt(s'.mem, root.value, l, n).value;
              Walk(s'.mem, root.value, AddressPage(TableByte(hhdm, t, offset))) ==
              Maps(t * PAGE_SIZE + offset, READ_WRITE)
    {
      SelfReachable(s, phys, regions, hhdm, layout, l, n, offset);
    }
    forall p: nat | p < PAGES && Walk(s'.mem, root.value, p).Some?
      ensures !(Walk(s'.mem, root.value, p).value.writable && !Walk(s'.mem, root.value, p).value.noExecute)
    {
      WriteXorExecute(s, regions, hhdm, layout, p);
    }
  }

  // ---------------------------------------------------------------------------
  // Every run after the build
  // ---------------------------------------------------------------------------

  /** Every frame of the system, free, held or a table of any space, is mapped, readable and writable,
      in the kernel's space where physical_to_virtual puts it. */
  ghost predicate FramesReachable(y: System, root: Frame, hhdm: Word) {
    forall f: Frame, offset: nat :: f in Frames(y) && offset < PAGE_SIZE ==>
      Walk(y.machine.mem, root, AddressPage(TableByte(hhdm, f, offset))) == Maps(f * PAGE_SIZE + offset, READ_WRITE)
  }

  /** The finished kernel space is a system of one space. */
  lemma BootValid(s: Machine, regions: seq<MemoryRegion>, hhdm: Word, layout: KernelLayout, held: set<Frame>)
    requires KernelSupplied(s, regions, hhdm, layout) && BuildKernel(s, regions, hhdm, layout).2
    requires held !! s.free
    ensures var (s', root, _) := BuildKernel(s, regions, hhdm, layout);
            root.Some? &&
            var y := System(s', held, [root.value]);
            Valid(y) && Frames(y) <= s.free + held
  {
    hide BuildKernel, KernelSupplied, Walk, SpaceOk, TableAt, Found, KernelFrames;
    KernelExact(s, regions, hhdm, layout);
    KernelTakes(s, regions, hhdm, layout);
    var (s', root, _) := BuildKernel(s, regions, hhdm, layout);
    forall f | f in Owned(s'.mem, root.value) ensures f in s.free {
      var l: nat, n: nat :| 1 <= l <= 4 && TableAt(s'.mem, root.value, l, n) == Some(f);
      TablesFromFree(s, regions, hhdm, layout, l, n);
    }
  }

  lemma CanonicalPageBound(a: nat)
    requires CanonicalAddress(a)
    ensures AddressPage(a) < PAGES
  {}

  /** Self-reachability for good: after the build and any run of creations, mapping calls and client
      requests that find their frames, every frame is still reachable through the kernel's space, and so
      is every table of every space. */
  lemma BootRun(s: Machine, phys: Word, regions: seq<MemoryRegion>, hhdm: Word, layout: KernelLayout,
                held: set<Frame>, ops: seq<Op>)
    requires forall i :: 0 <= i < |regions| ==> Physical(regions[i])
    requires KernelSupplied(s, regions, hhdm, layout) && BuildKernel(s, regions, hhdm, layout).2
    requires held !! s.free && forall f :: f in s.free + held ==> f in InitialPool(regions, phys).free
    requires var (s', root, _) := BuildKernel(s, regions, hhdm, layout);
             root.Some? && Runs.AllHonest(System(s', held, [root.value]), ops)
             && AllSupplied(System(s', held, [root.value]), ops)
    ensures var (s', root, _) := BuildKernel(s, regions, hhdm, layout);
            var y := Run(System(s', held, [root.value]), ops).0;
            && Valid(y) && FramesReachable(y, root.value, hhdm)
            && forall i :: 0 <= i < |y.roots| ==> Owned(y.machine.mem, y.roots[i]) <= Frames(y)
  {
    hide BuildKernel, KernelSupplied, InitialPool, Walk, SpaceOk, AddressPage, Maps, Owned, Run, FlatRun,
         Valid, AllAgree, Frames, Runs.AllHonest, AllSupplied, Physical, PhysicalToVirtual, CanonicalAddress;
    BootValid(s, regions, hhdm, layout, held);
    var (s', root, _) := BuildKernel(s, regions, hhdm, layout);
    var y0 := System(s', held, [root.value]);
    FlatsOfAgree(y0);
    RunRefines(y0, FlatsOf(y0), ops);
    var y := Run(y0, ops).0;
    forall f: Frame, offset: nat | f in Frames(y) && offset < PAGE_SIZE
      ensures Walk(y.machine.mem, root.value, AddressPage(TableByte(hhdm, f, offset))) ==
              Maps(f * PAGE_SIZE + offset, READ_WRITE)
    {
      FrameReachable(s, phys, regions, hhdm, layout, f, offset);
      CanonicalPageBound(TableByte(hhdm, f, offset));
      IsMapped(f * PAGE_SIZE + offset);
      TranslationsPersist(y0, ops, 0, AddressPage(TableByte(hhdm, f, offset)));
    }
    OwnedInFrames(y);
  }

  lemma IsMapped(physical: nat)
    ensures Maps(physical, READ_WRITE).Some?
  {}

  lemma OwnedInFrames(y: System)
    ensures forall i :: 0 <= i < |y.roots| ==> Owned(y.machine.mem, y.roots[i]) <= Frames(y)
  {
    hide Owned;
    forall i, f | 0 <= i < |y.roots| && f in Owned(y.machine.mem, y.roots[i]) ensures f in Frames(y) {
      assert IsTable(y, f);
    }
  }

  // ---------------------------------------------------------------------------
  // A machine on which the build goes through
  // ---------------------------------------------------------------------------

  /** One GiB of memory and an image of four one-page segments at the kernel's link address. */
  function SampleRegions(): seq<MemoryRegion> {
    [MemoryRegion(0x1000, 0x3FFF_F000, Usable)]
  }

  function SampleLayout(): KernelLayout {
    KernelLayout(0xFFFF_FFFF_8000_0000, 0x20_0000, 0xFFFF_FFFF_8000_0000, 0xFFFF_FFFF_8000_1000,
                 0xFFFF_FFFF_8000_2000, 0xFFFF_FFFF_8000_3000, 0xFFFF_FFFF_8000_3ABC)
  }

  const SAMPLE_OFFSET: Word := 0xFFFF_8000_0000_0000

  lemma SampleExtents()
    ensures KernelExtents(SampleRegions(), SAMPLE_OFFSET, SampleLayout()) ==
            [Extent(true, SAMPLE_OFFSET, 0, 0x4000_0000, READ_WRITE),
             Extent(false, 0xFFFF_FFFF_8000_0000, 0x20_0000, 0x1000, READ_ONLY),
             Extent(false, 0xFFFF_FFFF_8000_1000, 0x20_1000, 0x1000, EXECUTABLE),
             Extent(false, 0xFFFF_FFFF_8000_2000, 0x20_2000, 0x1000, READ_ONLY),
             Extent(false, 0xFFFF_FFFF_8000_3000, 0x20_3000, 0x1000, READ_WRITE)]
  {
    SampleHighest();
  }

  lemma CostFive(es: seq<Extent>)
    requires |es| == 5
    ensures ExtentsCost(es) ==
            ExtentCost(es[0]) + ExtentCost(es[1]) + ExtentCost(es[2]) + ExtentCost(es[3]) + ExtentCost(es[4])
  {
    hide ExtentCost;
    assert es[..4][..3] == es[..3] && es[..3][..2] == es[..2] && es[..2][..1] == es[..1] && es[..1][..0] == [];
    assert ExtentsCost(es[..1]) == ExtentCost(es[0]);
    assert ExtentsCost(es[..2]) == ExtentsCost(es[..1]) + ExtentCost(es[1]);
    assert ExtentsCost(es[..3]) == ExtentsCost(es[..2]) + ExtentCost(es[2]);
    assert ExtentsCost(es[..4]) == ExtentsCost(es[..3]) + ExtentCost(es[3]);
  }

  lemma OneNode(level: nat, r: nat)
    requires 1 <= level <= 3
    ensures LevelNodes(level, r, r) == {Node(level, Fold(level, r))}
  {}

  /** A range under a single table of each level. */
  lemma NarrowNodes(large: bool, v: nat, n: nat)
    requires n > 0 && v / ENTRIES / ENTRIES == (v + n - 1) / ENTRIES / ENTRIES
    requires !large ==> v / ENTRIES == (v + n - 1) / ENTRIES
    ensures RangeNodes(large, v, n) ==
            {Node(3, Fold(3, v / ENTRIES / ENTRIES / ENTRIES)), Node(2, Fold(2, v / ENTRIES / ENTRIES))}
            + if large then {} else {Node(1, Fold(1, v / ENTRIES))}
  {
    hide LevelNodes, Fold;
    OneNode(3, v / ENTRIES / ENTRIES / ENTRIES);
    OneNode(2, v / ENTRIES / ENTRIES);
    if !large { OneNode(1, v / ENTRIES); }
  }

  const DIRECT_TABLES: set<Node> := {Node(3, 0x100), Node(2, 0x2_0000)}
  const IMAGE_TABLES: set<Node> := {Node(3, 0x1FF), Node(2, 0x3_FFFE), Node(1, 0x7FF_FC00)}

  /** The direct map of one GiB has one directory; the four segments share one page table. */
  lemma SampleNodes(flags: Flags)
    ensures ExtentNodes(Extent(true, SAMPLE_OFFSET, 0, 0x4000_0000, flags)) == DIRECT_TABLES
    ensures ExtentNodes(Extent(false, 0xFFFF_FFFF_8000_0000, 0x20_0000, 0x1000, flags)) == IMAGE_TABLES
    ensures ExtentNodes(Extent(false, 0xFFFF_FFFF_8000_1000, 0x20_1000, 0x1000, flags)) == IMAGE_TABLES
    ensures ExtentNodes(Extent(false, 0xFFFF_FFFF_8000_2000, 0x20_2000, 0x1000, flags)) == IMAGE_TABLES
    ensures ExtentNodes(Extent(false, 0xFFFF_FFFF_8000_3000, 0x20_3000, 0x1000, flags)) == IMAGE_TABLES
  {
    hide RangeNodes;
    NarrowNodes(true, 0xF_FFF8_0000_0000, 0x4_0000);
    NarrowNodes(false, 0xF_FFFF_FFF8_0000, 1);
    NarrowNodes(false, 0xF_FFFF_FFF8_0001, 1);
    NarrowNodes(false, 0xF_FFFF_FFF8_0002, 1);
    NarrowNodes(false, 0xF_FFFF_FFF8_0003, 1);
  }

  lemma NodesFive(es: seq<Extent>, a: set<Node>, b: set<Node>)
    requires |es| == 5 && ExtentNodes(es[0]) == a
    requires ExtentNodes(es[1]) == b && ExtentNodes(es[2]) == b && ExtentNodes(es[3]) == b && ExtentNodes(es[4]) == b
    ensures ExtentsNodes(es) == a + b
  {
    hide ExtentNodes;
    assert es[..4][..3] == es[..3] && es[..3][..2] == es[..2] && es[..2][..1] == es[..1] && es[..1][..0] == [];
    assert ExtentsNodes(es[..1]) == a;
    assert ExtentsNodes(es[..2]) == a + b;
    assert ExtentsNodes(es[..3]) == a + b;
    assert ExtentsNodes(es[..4]) == a + b;
  }

  lemma SampleFrames()
    ensures KernelFrames(SampleRegions(), SAMPLE_OFFSET, SampleLayout()) == 6
    ensures KernelCost(SampleRegions(), SAMPLE_OFFSET, SampleLayout()) == 15
  {
    hide ExtentsNodes, ExtentNodes, ExtentsCost, HighestEnd, KernelExtents, SampleLayout, SampleRegions;
    SampleExtents();
    var es := KernelExtents(SampleRegions(), SAMPLE_OFFSET, SampleLayout());
    SampleNodes(READ_WRITE);
    SampleNodes(READ_ONLY);
    SampleNodes(EXECUTABLE);
    NodesFive(es, DIRECT_TABLES, IMAGE_TABLES);
    assert |DIRECT_TABLES + IMAGE_TABLES| == 5;
    CostFive(es);
  }

  lemma SampleApart()
    ensures AllApart(KernelExtents(SampleRegions(), SAMPLE_OFFSET, SampleLayout()))
  {
    hide KernelExtents, SampleLayout, SampleRegions;
    SampleExtents();
  }

  /** That kernel's space needs six frames, whatever memory holds: with six the build succeeds and finds
      them all, with fewer it does not find them. */
  lemma SampleBuilds(s: Machine)
    ensures KernelFrames(SampleRegions(), SAMPLE_OFFSET, SampleLayout()) == 6
    ensures KernelCost(SampleRegions(), SAMPLE_OFFSET, SampleLayout()) == 15
    ensures KernelSupplied(s, SampleRegions(), SAMPLE_OFFSET, SampleLayout()) <==> |s.free| >= 6
    ensures |s.free| >= 6 ==> BuildKernel(s, SampleRegions(), SAMPLE_OFFSET, SampleLayout()).2
  {
    hide BuildKernel, HighestEnd, KernelSupplied, KernelFrames, KernelCost, Walk, Found, SpaceOk, AllApart,
         KernelExtents;
    SampleFrames();
    SampleApart();
    SampleHighest();
    KernelSuppliedIff(s, SampleRegions(), SAMPLE_OFFSET, SampleLayout());
    if |s.free| >= 6 { KernelExact(s, SampleRegions(), SAMPLE_OFFSET, SampleLayout()); }
  }

  lemma SampleHighest()
    ensures HighestEnd(SampleRegions()) == 0x4000_0000
  {
    assert SampleRegions()[..0] == [];
  }

  /** The machine init leaves when it puts the bitmap at `phys`. */
  ghost function AfterInit(memory: WordMemory, regions: seq<MemoryRegion>, phys: Word): Machine {
    Machine(DecodeMemory(memory), AsFrames(InitialPool(regions, phys).free))
  }

  /** The bitmap has one place. */
  lemma PlacesOnce(regions: seq<MemoryRegion>, pages: nat, i: nat, j: nat)
    requires Places(regions, pages, i) && Places(regions, pages, j)
    ensures i == j
  {}

  /** Initialises the allocator and builds the kernel space, as the boot sequence does.  It succeeds
      exactly when there is usable memory with room for the bitmap and the build succeeds on what init
      leaves.  When both succeed and the build found its frames among those init left free, the result is
      a sound space that reaches all its own tables and keeps writable and executable pages apart. */
  method BootMemory(memory: WordMemory, regions: seq<MemoryRegion>, hhdm: Word, layout: KernelLayout)
    returns (ok: bool, vm: PageTables, space: AddressSpace)
    requires forall i :: 0 <= i < |regions| ==> Physical(regions[i])
    ensures ok ==> vm.Valid() && vm.pmm.hhdmOffset == hhdm && vm.Ahead() == CountedTwice(regions) % WORD
    ensures ok <==> HighestUsableEnd(regions) != 0 &&
                    exists i: nat ::
                      && Places(regions, PagesFor(WordsFor(FrameCountFor(HighestUsableEnd(regions)))), i)
                      && BuildKernel(AfterInit(memory, regions, regions[i].base), regions, hhdm, layout).2
    ensures ok && KernelSupplied(AfterInit(memory, regions, vm.pmm.bitmapPhys), regions, hhdm, layout) ==>
              && space.pml4.Some? && space.pml4Physical == space.pml4.value * PAGE_SIZE
              && SpaceOk(vm.Abs(), space.pml4.value)
              && TablesReachable(vm.Abs(), space.pml4.value, hhdm)
              && WritableXorExecutable(vm.Abs(), space.pml4.value)
  {
    hide InitialPool, KernelSupplied, BuildKernel, SpaceOk, TablesReachable, WritableXorExecutable, HighestUsableEnd,
         FrameCountFor, WordsFor, PagesFor, PaddingUsed, DecodeMemory, HoldsBitmap;
    var pmm := new FrameAllocator();
    vm := new PageTables(pmm, memory);
    space := AddressSpace(None, 0);
    ok := pmm.Init(regions, hhdm);
    if ok {
      CountFits(regions);
      ghost var s, phys := vm.Abs(), pmm.bitmapPhys;
      assert s == AfterInit(memory, regions, phys);
      InitialCount(regions, phys);
      ghost var pages := PagesFor(WordsFor(FrameCountFor(HighestUsableEnd(regions))));
      ghost var i: nat :| Places(regions, pages, i) && phys == regions[i].base;
      forall j: nat | Places(regions, pages, j) ensures j == i { PlacesOnce(regions, pages, i, j); }
      ok, space := BuildKernelAddressSpace(vm, space, regions, hhdm, layout);
      if ok && KernelSupplied(s, regions, hhdm, layout) {
        BootProperties(s, phys, regions, hhdm, layout);
      }
    }
  }
}
