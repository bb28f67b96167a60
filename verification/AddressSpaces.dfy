/** Address spaces over word-level physical memory: the mapping calls as the kernel runs them,
    proved against their meaning on decoded memory. */
module AddressSpaces {
  import opened Options
  import opened Bits
  import opened AddressCodec
  import opened PageTree
  import opened Mapper
  import opened Ranges
  import opened PageEntries
  import opened FrameAllocator

  type WordTable = t: seq<Word> | |t| == ENTRIES witness seq(ENTRIES, _ => 0)

  function ZeroTable(): WordTable { seq(ENTRIES, _ => 0) }

  type WordMemory = m: seq<WordTable> | |m| == FRAMES witness seq<WordTable>(FRAMES, _ => ZeroTable())

  function DecodeTable(t: WordTable): Table {
    seq(ENTRIES, i requires 0 <= i < ENTRIES => Decode(t[i]))
  }

  ghost function DecodeMemory(m: WordMemory): Memory {
    seq(FRAMES, f requires 0 <= f < FRAMES => DecodeTable(m[f]))
  }

  /** Writing a word writes the entry it decodes to. */
  lemma DecodeWrite(m: WordMemory, f: Frame, i: nat, w: Word)
    requires i < ENTRIES
    ensures DecodeMemory(m[f := m[f][i := w]]) == SetEntry(DecodeMemory(m), f, i, Decode(w))
  {
    hide Decode;
    var m' := m[f := m[f][i := w]];
    assert DecodeTable(m'[f]) == DecodeTable(m[f])[i := Decode(w)];
  }

  lemma DecodeZeroed(m: WordMemory, f: Frame)
    ensures DecodeMemory(m[f := ZeroTable()]) == DecodeMemory(m)[f := EmptyTable()]
  {
    hide Decode;
    SmallFlags();
    assert DecodeTable(ZeroTable()) == EmptyTable();
  }

  ghost function AsFrames(s: set<nat>): set<Frame> {
    set f: Frame | f in s
  }

  lemma SameLeast(s: set<nat>)
    requires s != {} && forall f :: f in s ==> f < FRAMES
    ensures AsFrames(s) != {} && LeastOf(AsFrames(s)) == LeastOf(s)
    ensures AsFrames(s - {LeastOf(s)}) == AsFrames(s) - {LeastOf(AsFrames(s))}
  {
    var f := LeastOf(s);
    assert f in AsFrames(s);
  }

  // ---------------------------------------------------------------------------
  // The calls, on addresses
  // ---------------------------------------------------------------------------

  /** map_page, and map_page_large when `large`; `root` is absent for a null table pointer. */
  ghost function MapAt(s: Machine, root: Option<Frame>, large: bool, virt: Word, phys: Word, flags: Flags)
    : (Machine, bool)
  {
    if root.None? || virt % PAGE_SIZE != 0 || phys % PAGE_SIZE != 0 then (s, false)
    else MapUnit(s, root.value, large, virt / PAGE_SIZE, phys / PAGE_SIZE, flags)
  }

  /** map_range, and map_range_large when `large`. */
  ghost function MapRangeAt(s: Machine, root: Option<Frame>, large: bool, virt: Word, phys: Word, size: Word,
                            flags: Flags)
    : (Machine, bool)
  {
    if root.None? || virt % PAGE_SIZE != 0 || phys % PAGE_SIZE != 0 || size % PAGE_SIZE != 0 then (s, false)
    else MapRange(s, root.value, large, virt / PAGE_SIZE, phys / PAGE_SIZE, size / PAGE_SIZE, flags)
  }

  /** The table indices of an address are the digits of its page number. */
  lemma IndicesOf(virt: Word)
    requires IsCanonical(virt)
    ensures var p := PageOf(virt / PAGE_SIZE);
            && p < PAGES && p / ENTRIES / ENTRIES / ENTRIES < ENTRIES
            && DecomposeAddress(virt) ==
               VirtualAddress(p / ENTRIES / ENTRIES / ENTRIES, p / ENTRIES / ENTRIES % ENTRIES,
                              p / ENTRIES % ENTRIES, p % ENTRIES, virt % PAGE_SIZE)
  {
    hide DecomposeAddress, IsCanonical;
    CanonicalHalves(virt);
    DecomposeDivides(virt);
    IndicesOfPage(virt);
    DigitsOf(virt / PAGE_SIZE);
  }

  lemma DigitsOf(v: nat)
    requires Canonical(v)
    ensures var p := PageOf(v);
            && p < PAGES && p / ENTRIES / ENTRIES / ENTRIES < ENTRIES
            && v / 0x200 / 0x200 / 0x200 % 0x200 == p / ENTRIES / ENTRIES / ENTRIES
            && v / 0x200 / 0x200 % 0x200 == p / ENTRIES / ENTRIES % ENTRIES
            && v / 0x200 % 0x200 == p / ENTRIES % ENTRIES && v % 0x200 == p % ENTRIES
  {}

  /** The source's checks, as page-number checks. */
  lemma CanonicalPage(virt: Word)
    ensures IsCanonical(virt) <==> Canonical(virt / PAGE_SIZE)
  {
    CanonicalHalves(virt);
  }

  lemma PageMask(x: Word)
    ensures And(x, PAGE_SIZE - 1) == x % PAGE_SIZE
    ensures And(x, LARGE_PAGE_SIZE - 1) == x % LARGE_PAGE_SIZE
    ensures x % LARGE_PAGE_SIZE == 0 <==> x % PAGE_SIZE == 0 && x / PAGE_SIZE % ENTRIES == 0
  {
    hide And, Pow2;
    Powers();
    LowMask(x, 12);
    LowMask(x, 21);
    LargeAligned(x);
  }

  lemma LargeAligned(x: nat)
    ensures x % LARGE_PAGE_SIZE == 0 <==> x % PAGE_SIZE == 0 && x / PAGE_SIZE % ENTRIES == 0
  {
    OffsetInLarge(x);
  }

  /** phys & ~mask is the test for an address out of reach. */
  lemma HighBits(phys: Word)
    requires phys % PAGE_SIZE == 0
    ensures And(phys, Not(PHYSICAL_ADDRESS_MASK)) != 0 <==> phys / PAGE_SIZE >= FRAMES
  {
    hide And, Or;
    AddressField(phys);
    SplitMask(phys);
    var hi := And(phys, Not(PHYSICAL_ADDRESS_MASK));
    if phys / PAGE_SIZE < FRAMES {
      assert And(phys, PHYSICAL_ADDRESS_MASK) == phys;
    } else {
      assert And(phys, PHYSICAL_ADDRESS_MASK) != phys;
    }
  }

  /** A word is its masked part plus the rest. */
  lemma SplitMask(x: Word)
    ensures And(x, PHYSICAL_ADDRESS_MASK) + And(x, Not(PHYSICAL_ADDRESS_MASK)) == x
  {
    Powers();
    MaskParts(x, PHYSICAL_ADDRESS_MASK, 64);
  }

  /** The source's range checks, as page-number checks. */
  lemma RangeChecks(large: bool, virt: Word, phys: Word, size: Word)
    requires virt % PAGE_SIZE == 0 && phys % PAGE_SIZE == 0 && size % PAGE_SIZE == 0
    ensures RangeArgs(large, virt / PAGE_SIZE, phys / PAGE_SIZE, size / PAGE_SIZE) <==>
            && size != 0
            && Aligned(large, virt / PAGE_SIZE) && Aligned(large, phys / PAGE_SIZE) && Aligned(large, size / PAGE_SIZE)
            && virt <= WORD - 1 - size && phys <= WORD - 1 - size
            && IsCanonical(virt) && IsCanonical(virt + size - 1)
  {
    hide IsCanonical, Canonical;
    CanonicalPage(virt);
    if size != 0 && virt <= WORD - 1 - size {
      CanonicalPage(virt + size - 1);
      assert (virt + size - 1) / PAGE_SIZE == virt / PAGE_SIZE + size / PAGE_SIZE - 1;
    }
  }

  /** One turn of the range loop. */
  lemma UnitsTurn(s: Machine, root: Frame, large: bool, v: nat, f: nat, n: nat, flags: Flags)
    requires n >= UnitPages(large)
    ensures var (s', ok) := MapUnit(s, root, large, v, f, flags);
            MapUnits(s, root, large, v, f, n, flags) ==
            if ok then
              MapUnits(s', root, large, v + UnitPages(large), f + UnitPages(large), n - UnitPages(large), flags)
            else (s', false)
  {}

  lemma UnitsEnd(s: Machine, root: Frame, large: bool, v: nat, f: nat, flags: Flags)
    ensures MapUnits(s, root, large, v, f, 0, flags) == (s, true)
  {}

  /** A root table, by frame and by physical address; the frame is absent for a null pointer. */
  datatype AddressSpace = AddressSpace(pml4: Option<Frame>, pml4Physical: Word)

  class PageTables {
    const pmm: FrameAllocator
    var memory: WordMemory

    constructor (pmm: FrameAllocator, memory: WordMemory)
      ensures this.pmm == pmm && this.memory == memory
    {
      this.pmm, this.memory := pmm, memory;
    }

    ghost predicate Valid()
      reads this, pmm, pmm.bitmap
    {
      pmm.Valid() && pmm.frameCount <= FRAMES
    }

    ghost function Abs(): Machine
      reads this, pmm, pmm.bitmap
      requires Valid()
    {
      Machine(DecodeMemory(memory), AsFrames(pmm.Abs().free))
    }

    /** How far the allocator's counter is ahead. */
    ghost function Ahead(): Word
      reads pmm, pmm.bitmap
      requires pmm.Valid()
    {
      Drift(pmm.Abs())
    }

    /** Takes a frame and zeroes it.  The test for exhaustion never holds. */
    method AllocateTable() returns (ok: bool, physical: Word)
      requires Valid()
      modifies this`memory, pmm`freeFrameCount, pmm.bitmap
      ensures Valid() && Ahead() == old(Ahead())
      ensures ok && physical % PAGE_SIZE == 0 && physical / PAGE_SIZE < FRAMES
      ensures (Abs(), physical / PAGE_SIZE) == AllocTable(old(Abs()))
    {
      hide DecodeMemory, AsFrames, PoolAlloc, Drift;
      ghost var pool := pmm.Abs();
      AllocDrift(pool);
      var address := pmm.AllocFrame();
      AllocatedFrame(pool);
      physical := address;
      ok := physical != WORD - 1;
      if ok {
        var f := physical / PAGE_SIZE;
        for i := 0 to ENTRIES
          modifies this`memory
          invariant memory == old(memory)[f := memory[f]]
          invariant forall j :: 0 <= j < i ==> memory[f][j] == 0
        {
          memory := memory[f := memory[f][i := 0]];
        }
        assert memory[f] == ZeroTable();
        DecodeZeroed(old(memory), f);
      }
    }

    /** Follows one interior entry, building the table below it when there is none. */
    method EnsureTable(t: Frame, i: nat, middle: Word) returns (next: Option<Frame>)
      requires Valid() && i < ENTRIES && (middle == 3 || middle == 7)
      modifies this`memory, pmm`freeFrameCount, pmm.bitmap
      ensures Valid() && Ahead() == old(Ahead())
      ensures (Abs(), next) == Mapper.EnsureTable(old(Abs()), t, i, middle == 7)
    {
      hide AllocTable, Or, And;
      var entry := memory[t][i];
      if And(entry, HUGE) != 0 {
        next := None;
      } else if And(entry, PRESENT) == 0 {
        var ok, physical := AllocateTable();
        if ok {
          DecodeInterior(physical, middle);
          DecodeWrite(memory, t, i, MakePageEntry(physical, middle));
          memory := memory[t := memory[t][i := MakePageEntry(physical, middle)]];
          next := Some(physical / PAGE_SIZE);
        } else {
          next := None;
        }
      } else {
        DecodeRaised(entry, middle);
        DecodeWrite(memory, t, i, Or(entry, middle));
        memory := memory[t := memory[t][i := Or(entry, middle)]];
        next := Some(PageEntryAddress(Or(entry, middle)) / PAGE_SIZE);
      }
    }

    /** Allocates and zeroes a root table. */
    method CreateAddressSpace(out: AddressSpace) returns (ok: bool, space: AddressSpace)
      requires Valid()
      modifies this`memory, pmm`freeFrameCount, pmm.bitmap
      ensures Valid() && ok && Ahead() == old(Ahead())
      ensures var (s, root) := AllocTable(old(Abs()));
              Abs() == s && space == AddressSpace(Some(root), root * PAGE_SIZE)
    {
      hide AllocTable, DecodeMemory;
      var physical;
      ok, physical := AllocateTable();
      space := if ok then AddressSpace(Some(physical / PAGE_SIZE), physical) else out;
    }

    /** The first two interior steps. */
    method DescendTo(root: Frame, a: VirtualAddress, middle: Word, ghost d: nat) returns (pd: Option<Frame>)
      requires Valid() && (middle == 3 || middle == 7)
      requires a.pml4 == d / ENTRIES / ENTRIES % ENTRIES && a.pdpt == d / ENTRIES % ENTRIES
      modifies this`memory, pmm`freeFrameCount, pmm.bitmap
      ensures Valid() && Ahead() == old(Ahead())
      ensures (Abs(), pd) == Descend(old(Abs()), root, d, middle == 7)
    {
      hide Mapper.EnsureTable, DecodeMemory;
      var pdpt := EnsureTable(root, a.pml4, middle);
      if pdpt.None? {
        pd := None;
      } else {
        pd := EnsureTable(pdpt.value, a.pdpt, middle);
      }
    }

    /** Maps one 4 KiB page. */
    method MapPage(pml4: Option<Frame>, virt: Word, phys: Word, flags: Word) returns (ok: bool)
      requires Valid() && IsFlags(flags)
      modifies this`memory, pmm`freeFrameCount, pmm.bitmap
      ensures Valid() && Ahead() == old(Ahead())
      ensures (Abs(), ok) == MapAt(old(Abs()), pml4, false, virt, phys, DecodeFlags(flags))
    {
      hide IsCanonical, And, Or, Decode, DecodeMemory, DecomposeAddress, PageOf, Canonical, MapSmall;
      CanonicalPage(virt);
      PageMask(virt);
      PageMask(phys);
      if pml4.None? { return false; }
      if !IsCanonical(virt) { return false; }
      if And(virt, PAGE_SIZE - 1) != 0 { return false; }
      if And(phys, PAGE_SIZE - 1) != 0 { return false; }
      HighBits(phys);
      if And(phys, Not(PHYSICAL_ADDRESS_MASK)) != 0 { return false; }
      if And(flags, HUGE) != 0 { return false; }
      DecodeLeaf(phys, flags);
      ok := FillPage(pml4.value, virt, MakePageEntry(phys, Or(flags, PRESENT)), flags);
    }

    /** The table work of map_page. */
    method FillPage(root: Frame, virt: Word, leaf: Word, flags: Word) returns (ok: bool)
      requires Valid() && IsCanonical(virt)
      requires Decode(leaf).user == DecodeFlags(flags).user
      modifies this`memory, pmm`freeFrameCount, pmm.bitmap
      ensures Valid() && Ahead() == old(Ahead())
      ensures (Abs(), ok) == MapSmall(old(Abs()), root, PageOf(virt / PAGE_SIZE), Decode(leaf))
    {
      hide IsCanonical, And, Or, DecomposeAddress, PageOf, Descend, Mapper.EnsureTable;
      IndicesOf(virt);
      IntermediateIs(flags);
      ghost var p := PageOf(virt / PAGE_SIZE);
      var address := DecomposeAddress(virt);
      var middle := IntermediateFlags(flags);
      var pd := DescendTo(root, address, middle, p / ENTRIES);
      if pd.None? { return false; }
      var pt := EnsureTable(pd.value, address.pd, middle);
      if pt.None? { return false; }
      var entry := memory[pt.value][address.pt];
      if And(entry, PRESENT) != 0 { return false; }
      DecodeWrite(memory, pt.value, address.pt, leaf);
      memory := memory[pt.value := memory[pt.value][address.pt := leaf]];
      return true;
    }

    /** Maps one 2 MiB page. */
    method MapPageLarge(pml4: Option<Frame>, virt: Word, phys: Word, flags: Word) returns (ok: bool)
      requires Valid() && IsFlags(flags)
      modifies this`memory, pmm`freeFrameCount, pmm.bitmap
      ensures Valid() && Ahead() == old(Ahead())
      ensures (Abs(), ok) == MapAt(old(Abs()), pml4, true, virt, phys, DecodeFlags(flags))
    {
      hide IsCanonical, And, Or, Decode, DecodeMemory, DecomposeAddress, PageOf, Canonical, MapLarge;
      CanonicalPage(virt);
      PageMask(virt);
      PageMask(phys);
      if pml4.None? { return false; }
      if !IsCanonical(virt) { return false; }
      if And(virt, LARGE_PAGE_SIZE - 1) != 0 { return false; }
      if And(phys, LARGE_PAGE_SIZE - 1) != 0 { return false; }
      HighBits(phys);
      if And(phys, Not(PHYSICAL_ADDRESS_MASK)) != 0 { return false; }
      DecodeLeaf(phys, flags);
      ok := FillLargePage(pml4.value, virt, MakePageEntry(phys, Or(Or(flags, PRESENT), HUGE)), flags);
    }

    /** The table work of map_page_large. */
    method FillLargePage(root: Frame, virt: Word, leaf: Word, flags: Word) returns (ok: bool)
      requires Valid() && IsCanonical(virt)
      requires Decode(leaf).user == DecodeFlags(flags).user
      modifies this`memory, pmm`freeFrameCount, pmm.bitmap
      ensures Valid() && Ahead() == old(Ahead())
      ensures (Abs(), ok) == MapLarge(old(Abs()), root, PageOf(virt / PAGE_SIZE) / ENTRIES, Decode(leaf))
    {
      hide IsCanonical, And, Or, DecomposeAddress, PageOf, Descend, Mapper.EnsureTable;
      IndicesOf(virt);
      IntermediateIs(flags);
      ghost var d := PageOf(virt / PAGE_SIZE) / ENTRIES;
      var address := DecomposeAddress(virt);
      var middle := IntermediateFlags(flags);
      var pd := DescendTo(root, address, middle, d);
      if pd.None? { return false; }
      var entry := memory[pd.value][address.pd];
      if And(entry, PRESENT) != 0 { return false; }
      DecodeWrite(memory, pd.value, address.pd, leaf);
      memory := memory[pd.value := memory[pd.value][address.pd := leaf]];
      return true;
    }

    /** The loop of map_range: 4 KiB pages, stopping at the first that is refused. */
    method MapPages(root: Frame, virt: Word, phys: Word, size: Word, flags: Word) returns (ok: bool)
      requires Valid() && IsFlags(flags)
      requires virt % PAGE_SIZE == 0 && phys % PAGE_SIZE == 0 && size % PAGE_SIZE == 0
      requires Aligned(false, size / PAGE_SIZE)
      requires virt + size < WORD && phys + size < WORD
      modifies this`memory, pmm`freeFrameCount, pmm.bitmap
      ensures Valid() && Ahead() == old(Ahead())
      ensures (Abs(), ok) == MapUnits(old(Abs()), root, false, virt / PAGE_SIZE, phys / PAGE_SIZE, size / PAGE_SIZE,
                                      DecodeFlags(flags))
    {
      hide DecodeMemory, MapUnit, MapUnits, DecodeFlags, IsFlags;
      ghost var fl := DecodeFlags(flags);
      ghost var v, f, n := virt / PAGE_SIZE, phys / PAGE_SIZE, size / PAGE_SIZE;
      ghost var k := 0;
      var offset := 0;
      while offset < size
        invariant Valid() && Ahead() == old(Ahead()) && k <= n && offset == k * PAGE_SIZE
        invariant MapUnits(old(Abs()), root, false, v, f, n, fl) ==
                  MapUnits(Abs(), root, false, v + k, f + k, n - k, fl)
      {
        UnitsTurn(Abs(), root, false, v + k, f + k, n - k, fl);
        ok := MapPage(Some(root), virt + offset, phys + offset, flags);
        if !ok { return false; }
        offset := offset + PAGE_SIZE;
        k := k + 1;
      }
      UnitsEnd(Abs(), root, false, v + k, f + k, fl);
      return true;
    }

    /** Maps `size` bytes of 4 KiB pages, stopping at the first refused page. */
    method MapRange(space: AddressSpace, virt: Word, phys: Word, size: Word, flags: Word) returns (ok: bool)
      requires Valid() && IsFlags(flags)
      modifies this`memory, pmm`freeFrameCount, pmm.bitmap
      ensures Valid() && Ahead() == old(Ahead())
      ensures (Abs(), ok) == MapRangeAt(old(Abs()), space.pml4, false, virt, phys, size, DecodeFlags(flags))
    {
      hide IsCanonical, And, Canonical, DecodeMemory, MapUnit, MapUnits, DecodeFlags;
      PageMask(virt);
      PageMask(phys);
      PageMask(size);
      if virt % PAGE_SIZE == 0 && phys % PAGE_SIZE == 0 && size % PAGE_SIZE == 0 {
        RangeChecks(false, virt, phys, size);
      }
      if space.pml4.None? { return false; }
      if size == 0 { return false; }
      if And(virt, PAGE_SIZE - 1) != 0 { return false; }
      if And(phys, PAGE_SIZE - 1) != 0 { return false; }
      if And(size, PAGE_SIZE - 1) != 0 { return false; }
      if virt > WORD - 1 - size { return false; }
      if phys > WORD - 1 - size { return false; }
      if !IsCanonical(virt) { return false; }
      if !IsCanonical(virt + size - 1) { return false; }
      ok := MapPages(space.pml4.value, virt, phys, size, flags);
    }

    /** The loop of map_range_large: 2 MiB pages, stopping at the first that is refused. */
    method MapLargePages(root: Frame, virt: Word, phys: Word, size: Word, flags: Word) returns (ok: bool)
      requires Valid() && IsFlags(flags)
      requires virt % PAGE_SIZE == 0 && phys % PAGE_SIZE == 0 && size % PAGE_SIZE == 0
      requires Aligned(true, size / PAGE_SIZE)
      requires virt + size < WORD && phys + size < WORD
      modifies this`memory, pmm`freeFrameCount, pmm.bitmap
      ensures Valid() && Ahead() == old(Ahead())
      ensures (Abs(), ok) == MapUnits(old(Abs()), root, true, virt / PAGE_SIZE, phys / PAGE_SIZE, size / PAGE_SIZE,
                                      DecodeFlags(flags))
    {
      hide DecodeMemory, MapUnit, MapUnits, DecodeFlags, IsFlags;
      ghost var fl := DecodeFlags(flags);
      ghost var v, f, n := virt / PAGE_SIZE, phys / PAGE_SIZE, size / PAGE_SIZE;
      ghost var k, turn, turns := 0, 0, n / ENTRIES;
      assert n == ENTRIES * turns;
      var offset := 0;
      while offset < size
        invariant Valid() && Ahead() == old(Ahead()) && turn <= turns && k == ENTRIES * turn && offset == k * PAGE_SIZE
        invariant MapUnits(old(Abs()), root, true, v, f, n, fl) == MapUnits(Abs(), root, true, v + k, f + k, n - k, fl)
      {
        UnitsTurn(Abs(), root, true, v + k, f + k, n - k, fl);
        ok := MapPageLarge(Some(root), virt + offset, phys + offset, flags);
        if !ok { return false; }
        offset := offset + LARGE_PAGE_SIZE;
        k, turn := k + ENTRIES, turn + 1;
      }
      UnitsEnd(Abs(), root, true, v + k, f + k, fl);
      return true;
    }

    /** Maps `size` bytes of 2 MiB pages, stopping at the first refused page. */
    method MapRangeLarge(space: AddressSpace, virt: Word, phys: Word, size: Word, flags: Word) returns (ok: bool)
      requires Valid() && IsFlags(flags)
      modifies this`memory, pmm`freeFrameCount, pmm.bitmap
      ensures Valid() && Ahead() == old(Ahead())
      ensures (Abs(), ok) == MapRangeAt(old(Abs()), space.pml4, true, virt, phys, size, DecodeFlags(flags))
    {
      hide IsCanonical, And, Canonical, DecodeMemory, MapUnit, MapUnits, DecodeFlags;
      PageMask(virt);
      PageMask(phys);
      PageMask(size);
      if virt % PAGE_SIZE == 0 && phys % PAGE_SIZE == 0 && size % PAGE_SIZE == 0 {
        RangeChecks(true, virt, phys, size);
      }
      if space.pml4.None? { return false; }
      if size == 0 { return false; }
      if And(virt, LARGE_PAGE_SIZE - 1) != 0 { return false; }
      if And(phys, LARGE_PAGE_SIZE - 1) != 0 { return false; }
      if And(size, LARGE_PAGE_SIZE - 1) != 0 { return false; }
      if virt > WORD - 1 - size { return false; }
      if phys > WORD - 1 - size { return false; }
      if !IsCanonical(virt) { return false; }
      if !IsCanonical(virt + size - 1) { return false; }
      ok := MapLargePages(space.pml4.value, virt, phys, size, flags);
    }

    /** Walks the tables as the hardware would.  Whatever they hold, the answer is the address field of
        the entry the walk ends at, joined with the offset into its page; for an entry aligned to its
        page, as all are in a sound space, that is the address the walk gives.  0 stands for failure, and
        so is ambiguous for an address mapped to physical 0. */
    method Translate(space: AddressSpace, virt: Word) returns (r: Word)
      requires Valid()
      ensures space.pml4.None? || !IsCanonical(virt) ==> r == 0
      ensures space.pml4.Some? && IsCanonical(virt) ==>
                r == match Reached(Abs().mem, space.pml4.value, PageOf(virt / PAGE_SIZE))
                     case None => 0
                     case Some(e) => EndAddress(e, virt)
      ensures space.pml4.Some? && IsCanonical(virt)
              && (EntriesOk(Abs().mem, space.pml4.value)
                  || EndsAligned(Abs().mem, space.pml4.value, PageOf(virt / PAGE_SIZE))) ==>
                r == match Walk(Abs().mem, space.pml4.value, PageOf(virt / PAGE_SIZE))
                     case None => 0
                     case Some(m) => m.frame * PAGE_SIZE + virt % PAGE_SIZE
    {
      hide IsCanonical, And, Or, DecomposeAddress, PageOf, EntriesOk, Walk, EndsAligned, OffsetIn;
      if space.pml4.None? { return 0; }
      if !IsCanonical(virt) { return 0; }
      IndicesOf(virt);
      ghost var m, root, p := Abs().mem, space.pml4.value, PageOf(virt / PAGE_SIZE);
      if EntriesOk(m, root) { SoundEndsAligned(m, root, p); }
      if EndsAligned(m, root, p) { AlignedReached(m, root, virt); }
      var address := DecomposeAddress(virt);
      var e4 := memory[space.pml4.value][address.pml4];
      if And(e4, PRESENT) == 0 { return 0; }
      AndBound(e4, PHYSICAL_ADDRESS_MASK);
      var pdpt := PageEntryAddress(e4) / PAGE_SIZE;
      var e3 := memory[pdpt][address.pdpt];
      if And(e3, PRESENT) == 0 { return 0; }
      AndBound(e3, PHYSICAL_ADDRESS_MASK);
      if And(e3, HUGE) != 0 {
        JoinOffset(e3, virt, 3);
        return Or(PageEntryAddress(e3), And(virt, 0x3FFF_FFFF));
      }
      var pd := PageEntryAddress(e3) / PAGE_SIZE;
      var e2 := memory[pd][address.pd];
      if And(e2, PRESENT) == 0 { return 0; }
      AndBound(e2, PHYSICAL_ADDRESS_MASK);
      if And(e2, HUGE) != 0 {
        JoinOffset(e2, virt, 2);
        return Or(PageEntryAddress(e2), And(virt, 0x1F_FFFF));
      }
      var pt := PageEntryAddress(e2) / PAGE_SIZE;
      var e1 := memory[pt][address.pt];
      if And(e1, PRESENT) == 0 { return 0; }
      JoinOffset(e1, virt, 1);
      return Or(PageEntryAddress(e1), And(virt, 0xFFF));
    }
  }

  /** The entry a walk ends at, and its level: 1 for a 4 KiB page, 2 for 2 MiB, 3 for 1 GiB. */
  datatype End = End(entry: Pte, level: nat)

  function Reached(m: Memory, root: Frame, p: nat): Option<End> {
    var e4 := m[root][p / ENTRIES / ENTRIES / ENTRIES % ENTRIES];
    if !e4.present then None else
    var e3 := m[e4.frame][p / ENTRIES / ENTRIES % ENTRIES];
    if !e3.present then None else if e3.huge then Some(End(e3, 3)) else
    var e2 := m[e3.frame][p / ENTRIES % ENTRIES];
    if !e2.present then None else if e2.huge then Some(End(e2, 2)) else
    var e1 := m[e2.frame][p % ENTRIES];
    if e1.present then Some(End(e1, 1)) else None
  }

  /** The offset of an address in a page of that level, in bytes, and of a page, in 4 KiB pages. */
  function OffsetIn(level: nat, virt: nat): nat {
    if level == 3 then virt % 0x4000_0000 else if level == 2 then virt % LARGE_PAGE_SIZE else virt % PAGE_SIZE
  }

  function PagesIn(level: nat, p: nat): nat {
    if level == 3 then p % (ENTRIES * ENTRIES) else if level == 2 then p % ENTRIES else 0
  }

  /** The entry's address with the offset into its page. */
  function EndAddress(e: End, virt: Word): nat {
    Or(e.entry.frame * PAGE_SIZE, OffsetIn(e.level, virt))
  }

  /** Bit by bit, misaligned entries included: a bit of the answer is set if the entry's address has it or
      it is an offset bit of the address asked for. */
  lemma EndAddressBits(e: End, virt: Word, i: nat)
    requires 1 <= e.level <= 3
    ensures Bit(EndAddress(e, virt), i) <==>
            || Bit(e.entry.frame * 0x1000, i)
            || (i < (if e.level == 3 then 30 else if e.level == 2 then 21 else 12) && Bit(virt, i))
  {
    hide Bit, Or, And, Pow2;
    var k := if e.level == 3 then 30 else if e.level == 2 then 21 else 12;
    Powers();
    OrBit(e.entry.frame * 0x1000, OffsetIn(e.level, virt), i);
    LowMask(virt, k);
    AndBit(virt, Pow2(k) - 1, i);
    OnesBelow(k, i);
  }

  lemma {:induction false} OnesBelow(k: nat, i: nat)
    ensures Bit(Pow2(k) - 1, i) <==> i < k
    decreases k
  {
    if k == 0 {
      ZeroBit(i);
    } else if i > 0 {
      assert (Pow2(k) - 1) / 2 == Pow2(k - 1) - 1;
      OnesBelow(k - 1, i - 1);
    }
  }

  /** The walk ends at an entry aligned to the page it maps, or at none. */
  predicate EndsAligned(m: Memory, root: Frame, p: nat) {
    match Reached(m, root, p)
    case None => true
    case Some(e) => PagesIn(e.level, e.entry.frame) == 0
  }

  lemma ReachedIsWalk(m: Memory, root: Frame, p: nat)
    ensures var e, w := Reached(m, root, p), Walk(m, root, p);
            if e.None? then w.None?
            else 1 <= e.value.level <= 3 && w.Some? && w.value.frame == e.value.entry.frame + PagesIn(e.value.level, p)
  {}

  /** In a sound space the walk meets large entries only at the directory, and aligned. */
  lemma SoundEndsAligned(m: Memory, root: Frame, p: nat)
    requires EntriesOk(m, root) && p < PAGES
    ensures EndsAligned(m, root, p)
  {
    var k4 := p / ENTRIES / ENTRIES / ENTRIES;
    assert k4 / ENTRIES == 0;
    var s4 := SlotAt(m, root, 4, k4);
    assert s4 == Some(m[root][k4 % ENTRIES]);
    if s4.value.present {
      var s3 := SlotAt(m, root, 3, p / ENTRIES / ENTRIES);
      assert s3 == Some(m[s4.value.frame][p / ENTRIES / ENTRIES % ENTRIES]);
      if s3.value.present {
        var s2 := SlotAt(m, root, 2, p / ENTRIES);
        assert s2 == Some(m[s3.value.frame][p / ENTRIES % ENTRIES]);
      }
    }
  }

  /** An aligned entry is joined by adding, and gives the walk's address. */
  lemma AlignedReached(m: Memory, root: Frame, virt: Word)
    requires IsCanonical(virt) && EndsAligned(m, root, PageOf(virt / PAGE_SIZE))
    ensures match Reached(m, root, PageOf(virt / PAGE_SIZE))
            case None => Walk(m, root, PageOf(virt / PAGE_SIZE)).None?
            case Some(e) =>
              && Walk(m, root, PageOf(virt / PAGE_SIZE)).Some?
              && EndAddress(e, virt) ==
                 Walk(m, root, PageOf(virt / PAGE_SIZE)).value.frame * PAGE_SIZE + virt % PAGE_SIZE
  {
    hide Walk, OffsetIn, PagesIn, IsCanonical, PageOf, Reached, Or;
    var p := PageOf(virt / PAGE_SIZE);
    ReachedIsWalk(m, root, p);
    var e := Reached(m, root, p);
    if e.Some? {
      JoinAligned(e.value.entry.frame, virt, e.value.level);
      SameOffset(virt, e.value.level);
    }
  }

  /** The source's mask for the offset into a page of that level. */
  function OffsetMask(level: nat): Word {
    if level == 3 then 0x3FFF_FFFF else if level == 2 then 0x1F_FFFF else 0xFFF
  }

  /** The entry's address or-ed with the low bits of the address. */
  lemma JoinOffset(e: Word, virt: Word, level: nat)
    requires 1 <= level <= 3
    ensures var a := Or(PageEntryAddress(e), And(virt, OffsetMask(level)));
            a < WORD && a == Or(PageEntryAddress(e) / PAGE_SIZE * PAGE_SIZE, OffsetIn(level, virt))
  {
    hide And, Or, Pow2;
    Powers();
    AddressField(e);
    LowMask(virt, if level == 3 then 30 else if level == 2 then 21 else 12);
    AndBound(e, PHYSICAL_ADDRESS_MASK);
    AndBound(virt, OffsetMask(level));
    OrWord(PageEntryAddress(e), And(virt, OffsetMask(level)));
  }

  lemma JoinAligned(f: nat, virt: Word, level: nat)
    requires 1 <= level <= 3 && PagesIn(level, f) == 0
    ensures Or(f * PAGE_SIZE, OffsetIn(level, virt)) == f * PAGE_SIZE + OffsetIn(level, virt)
  {
    hide Or, Pow2;
    Powers();
    if level == 3 {
      JoinLow(f / 0x4_0000, virt % 0x4000_0000, 30);
    } else if level == 2 {
      JoinLow(f / ENTRIES, virt % LARGE_PAGE_SIZE, 21);
    } else {
      JoinLow(f, virt % PAGE_SIZE, 12);
    }
  }

  /** The offset into a page of any size, by 4 KiB pages. */
  lemma SameOffset(virt: Word, level: nat)
    requires IsCanonical(virt) && 1 <= level <= 3
    ensures OffsetIn(level, virt) == PagesIn(level, PageOf(virt / PAGE_SIZE)) * PAGE_SIZE + virt % PAGE_SIZE
  {
    hide IsCanonical, PageOf;
    CanonicalPage(virt);
    SamePagesIn(virt / PAGE_SIZE);
    OffsetInLarge(virt);
    OffsetInHuge(virt);
  }

  lemma SamePagesIn(v: nat)
    requires Canonical(v)
    ensures PageOf(v) % ENTRIES == v % ENTRIES && PageOf(v) % (ENTRIES * ENTRIES) == v % (ENTRIES * ENTRIES)
  {}

  lemma OffsetInHuge(virt: nat)
    ensures virt % 0x4000_0000 == virt / PAGE_SIZE % (ENTRIES * ENTRIES) * PAGE_SIZE + virt % PAGE_SIZE
  {
    var q := virt / PAGE_SIZE;
    HugeRemainder(q / 0x4_0000, q % 0x4_0000, virt % PAGE_SIZE);
    assert virt == (q / 0x4_0000 * 0x4_0000 + q % 0x4_0000) * PAGE_SIZE + virt % PAGE_SIZE;
  }

  lemma HugeRemainder(q: nat, r: nat, offset: nat)
    requires r < 0x4_0000 && offset < PAGE_SIZE
    ensures (q * 0x4000_0000 + r * PAGE_SIZE + offset) % 0x4000_0000 == r * PAGE_SIZE + offset
  {}

  lemma OffsetInLarge(virt: nat)
    ensures virt % LARGE_PAGE_SIZE == virt / PAGE_SIZE % ENTRIES * PAGE_SIZE + virt % PAGE_SIZE
  {
    var q := virt / PAGE_SIZE;
    LargeRemainder(q / ENTRIES, q % ENTRIES, virt % PAGE_SIZE);
    assert virt == (q / ENTRIES * ENTRIES + q % ENTRIES) * PAGE_SIZE + virt % PAGE_SIZE;
  }

  lemma LargeRemainder(q: nat, r: nat, offset: nat)
    requires r < ENTRIES && offset < PAGE_SIZE
    ensures (q * LARGE_PAGE_SIZE + r * PAGE_SIZE + offset) % LARGE_PAGE_SIZE == r * PAGE_SIZE + offset
  {}

  lemma AllocatedFrame(p: Pool)
    requires p.frames <= FRAMES && forall f :: f in p.free ==> f < p.frames
    ensures var a := PoolAlloc(p).1;
            && a % PAGE_SIZE == 0 && a / PAGE_SIZE < FRAMES
            && AsFrames(PoolAlloc(p).0.free) ==
               (if AsFrames(p.free) == {} then {} else AsFrames(p.free) - {LeastOf(AsFrames(p.free))})
            && a / PAGE_SIZE == if AsFrames(p.free) == {} then 0 else LeastOf(AsFrames(p.free))
  {
    if p.free != {} {
      SameLeast(p.free);
      assert LeastOf(p.free) * PAGE_SIZE / PAGE_SIZE == LeastOf(p.free);
    }
  }
}