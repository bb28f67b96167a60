/** The mapping calls by address: exact success conditions and effects in bytes and flag bits, and the
    words they store. */
module AddressOutcome {
  import opened Options
  import opened Bits
  import opened AddressCodec
  import opened PageTree
  import opened Mapper
  import opened Ranges
  import opened RangeOutcome
  import opened WalkOutcome
  import opened PageEntries
  import opened AddressSpaces
  import opened Extents

  /** Bytes mapped by one call. */
  function UnitBytes(large: bool): nat { if large then 0x20_0000 else 0x1000 }

  /** The page of an address, as the four table indices name it. */
  function PageNumber(a: nat): nat { a / 0x1000 % 0x10_0000_0000 }

  /** An address of one of the two canonical halves. */
  predicate InHalf(a: nat) {
    a < 0x8000_0000_0000 || 0xFFFF_8000_0000_0000 <= a < 0x1_0000_0000_0000_0000
  }

  /** What map_page and map_page_large demand of their arguments. */
  predicate UnitAccepts(large: bool, virt: Word, phys: Word, flags: Word) {
    && InHalf(virt)
    && virt % UnitBytes(large) == 0 && phys % UnitBytes(large) == 0
    && phys < 0x10_0000_0000_0000
    && (large || flags / 0x80 % 2 == 0)
  }

  /** What the caller asks of address `a`: its frame, and rights by the bits of the flags word. */
  function Asked(virt: Word, phys: Word, flags: Word, a: nat): Mapping
    requires virt <= a
  {
    Mapping((phys + (a - virt)) / 0x1000, flags / 2 % 2 == 1, flags / 4 % 2 == 1,
            flags / 0x8000_0000_0000_0000 == 1, Decode(flags).attributes)
  }

  /** No byte from `virt` on is mapped. */
  ghost predicate Unmapped(m: Memory, root: Frame, virt: nat, size: nat) {
    forall a: nat :: virt <= a < virt + size ==> Walk(m, root, PageNumber(a)).None?
  }

  // ---------------------------------------------------------------------------
  // Addresses and page numbers
  // ---------------------------------------------------------------------------

  lemma HalfPage(a: Word)
    ensures InHalf(a) <==> Canonical(a / PAGE_SIZE)
    ensures InHalf(a) ==> PageOf(a / PAGE_SIZE) == PageNumber(a) && PageNumber(a) < PAGES
  {}

  lemma AcceptsIff(large: bool, virt: Word, phys: Word, flags: Word)
    ensures UnitAccepts(large, virt, phys, flags) <==>
            && virt % PAGE_SIZE == 0 && phys % PAGE_SIZE == 0
            && UnitArgs(large, virt / PAGE_SIZE, phys / PAGE_SIZE, DecodeFlags(flags))
  {
    hide DecodeFlags, InHalf, Canonical;
    HalfPage(virt);
    DecodePositions(flags);
    LargeAligned(virt);
    LargeAligned(phys);
  }

  /** The addresses of a unit are those whose page lies in its block. */
  lemma UnitHolds(large: bool, virt: Word, phys: Word, flags: Word, a: Word)
    requires UnitAccepts(large, virt, phys, flags) && InHalf(a)
    ensures var block := UnitBlock(large, virt / PAGE_SIZE, phys / PAGE_SIZE, DecodeFlags(flags));
            && (virt <= a < virt + UnitBytes(large) <==> PageNumber(a) in block)
            && (virt <= a < virt + UnitBytes(large) ==> block[PageNumber(a)] == Asked(virt, phys, flags, a))
  {
    hide DecodeFlags, Decode, PageNumber, PageOf, InHalf;
    HalfPage(virt);
    AcceptedPages(large, virt, phys, flags);
    if large { LargeHolds(virt, a); } else { SmallHolds(virt, a); }
    if virt <= a < virt + UnitBytes(large) {
      FrameAt(virt, phys, a);
      DecodePositions(flags);
    }
  }

  lemma AcceptedPages(large: bool, virt: Word, phys: Word, flags: Word)
    requires UnitAccepts(large, virt, phys, flags)
    ensures virt % 0x1000 == 0 && phys % 0x1000 == 0
  {
    LargeAligned(virt);
    LargeAligned(phys);
  }

  lemma HalfNumber(a: nat)
    requires InHalf(a)
    ensures a < 0x8000_0000_0000 ==> PageNumber(a) == a / 0x1000 && PageNumber(a) < 0x8_0000_0000
    ensures a >= 0x8000_0000_0000 ==>
              PageNumber(a) == a / 0x1000 - 0xF_FFF0_0000_0000 && 0x8_0000_0000 <= PageNumber(a) < 0x10_0000_0000
  {}

  lemma SmallHolds(virt: Word, a: Word)
    requires InHalf(virt) && InHalf(a) && virt % 0x1000 == 0
    ensures virt <= a < virt + 0x1000 <==> PageNumber(a) == PageNumber(virt)
    ensures virt <= a < virt + 0x1000 ==> PageNumber(a) - PageNumber(virt) == (a - virt) / 0x1000
  {
    hide PageNumber;
    HalfNumber(virt);
    HalfNumber(a);
  }

  lemma LargeHolds(virt: Word, a: Word)
    requires InHalf(virt) && InHalf(a) && virt % 0x20_0000 == 0
    ensures virt <= a < virt + 0x20_0000 <==> PageNumber(virt) <= PageNumber(a) < PageNumber(virt) + 0x200
    ensures virt <= a < virt + 0x20_0000 ==> PageNumber(a) - PageNumber(virt) == (a - virt) / 0x1000
  {
    hide PageNumber;
    HalfNumber(virt);
    HalfNumber(a);
    WholeLarge(virt);
    PagesBetween(virt, a);
    if virt < 0x8000_0000_0000 && a >= 0x8000_0000_0000 {
      assert virt + 0x20_0000 <= a;
    }
  }

  /** A 2 MiB page does not leave the lower half. */
  lemma WholeLarge(virt: nat)
    requires virt % 0x20_0000 == 0
    ensures virt % 0x1000 == 0
    ensures virt < 0x8000_0000_0000 ==>
              virt + 0x20_0000 <= 0x8000_0000_0000 && virt / 0x1000 + 0x200 <= 0x8_0000_0000
  {}

  lemma PagesBetween(virt: nat, a: nat)
    requires virt % 0x1000 == 0
    ensures virt <= a < virt + 0x20_0000 <==> virt / 0x1000 <= a / 0x1000 < virt / 0x1000 + 0x200
    ensures virt <= a ==> a / 0x1000 - virt / 0x1000 == (a - virt) / 0x1000
  {}

  lemma FrameAt(virt: Word, phys: Word, a: Word)
    requires virt <= a && virt % 0x1000 == 0 && phys % 0x1000 == 0
    ensures (phys + (a - virt)) / 0x1000 == phys / 0x1000 + (a - virt) / 0x1000
  {}

  /** Every page of a unit has an address in it. */
  lemma AddressIn(large: bool, virt: Word, phys: Word, flags: Word, q: nat) returns (a: Word)
    requires UnitAccepts(large, virt, phys, flags)
    requires q in UnitBlock(large, virt / PAGE_SIZE, phys / PAGE_SIZE, DecodeFlags(flags))
    ensures virt <= a < virt + UnitBytes(large) && InHalf(a) && PageNumber(a) == q
  {
    hide DecodeFlags, PageNumber, PageOf, InHalf;
    HalfPage(virt);
    a := virt + (q - PageNumber(virt)) * 0x1000;
    AddressAt(large, virt, q - PageNumber(virt));
  }

  lemma AddressAt(large: bool, virt: Word, k: nat)
    requires InHalf(virt) && virt % UnitBytes(large) == 0 && k < UnitBytes(large) / 0x1000
    ensures var a := virt + k * 0x1000;
            a < virt + UnitBytes(large) && InHalf(a) && PageNumber(a) == PageNumber(virt) + k
  {
    hide PageNumber;
    InHalfUnit(large, virt, virt + k * 0x1000);
    HalfNumber(virt);
    HalfNumber(virt + k * 0x1000);
  }

  lemma InHalfUnit(large: bool, virt: Word, a: nat)
    requires InHalf(virt) && virt % UnitBytes(large) == 0 && virt <= a < virt + UnitBytes(large)
    ensures a < WORD && InHalf(a)
  {}

  // ---------------------------------------------------------------------------
  // One call
  // ---------------------------------------------------------------------------

  /** A call that can go through finds a frame for every table it misses. */
  ghost predicate CallSupplied(s: Machine, root: Frame, large: bool, virt: Word, phys: Word, flags: Word) {
    UnitAccepts(large, virt, phys, flags) && Unmapped(s.mem, root, virt, UnitBytes(large)) ==>
      Enough(s, root, UnitPath(large, virt / PAGE_SIZE))
  }

  lemma UnmappedBlock(m: Memory, root: Frame, large: bool, virt: Word, phys: Word, flags: Word)
    requires UnitAccepts(large, virt, phys, flags)
    ensures Unmapped(m, root, virt, UnitBytes(large)) <==>
            forall q :: q in UnitBlock(large, virt / PAGE_SIZE, phys / PAGE_SIZE, DecodeFlags(flags)) ==>
              Walk(m, root, q).None?
  {
    hide Walk, UnitBlock, DecodeFlags, PageNumber, Asked;
    var block := UnitBlock(large, virt / PAGE_SIZE, phys / PAGE_SIZE, DecodeFlags(flags));
    if Unmapped(m, root, virt, UnitBytes(large)) {
      forall q | q in block ensures Walk(m, root, q).None? {
        var a := AddressIn(large, virt, phys, flags, q);
      }
    } else {
      var a: nat :| virt <= a < virt + UnitBytes(large) && Walk(m, root, PageNumber(a)).Some?;
      InHalfUnit(large, virt, a);
      UnitHolds(large, virt, phys, flags, a);
      assert PageNumber(a) in block;
    }
  }

  lemma CallIsSupplied(s: Machine, root: Frame, large: bool, virt: Word, phys: Word, flags: Word)
    requires SpaceOk(s, root) && CallSupplied(s, root, large, virt, phys, flags)
    requires virt % PAGE_SIZE == 0 && phys % PAGE_SIZE == 0
    ensures UnitSupplied(s, root, large, virt / PAGE_SIZE, phys / PAGE_SIZE, DecodeFlags(flags))
  {
    hide Walk, UnitBlock, DecodeFlags, PageNumber, Enough, UnitArgs, UnitAccepts, SpaceOk, LeafAt;
    AcceptsIff(large, virt, phys, flags);
    if UnitAccepts(large, virt, phys, flags) {
      UnmappedBlock(s.mem, root, large, virt, phys, flags);
      BlockBound(large, virt / PAGE_SIZE, phys / PAGE_SIZE, DecodeFlags(flags));
      forall q | q in UnitBlock(large, virt / PAGE_SIZE, phys / PAGE_SIZE, DecodeFlags(flags))
        ensures Walk(s.mem, root, q) == LeafAt(s.mem, root, q)
      {
        SpaceLeaf(s, root, q);
      }
    }
  }

  lemma SpaceLeaf(s: Machine, root: Frame, q: nat)
    requires SpaceOk(s, root) && q < PAGES
    ensures Walk(s.mem, root, q) == LeafAt(s.mem, root, q)
  {
    WalkIsLeaf(s.mem, root, q);
  }

  /** map_page and map_page_large by address.  With frames for the missing tables they succeed exactly on
      a present root, a canonical aligned address, an aligned physical address below 2^52, for 4 KiB pages
      flags without bit 7, and bytes none of which is mapped; then exactly those bytes are mapped, in
      order, with the rights the flag bits say.  A refused call takes no frame and changes no walk. */
  lemma UnitAtExact(s: Machine, root: Option<Frame>, large: bool, virt: Word, phys: Word, flags: Word)
    requires root.Some? ==> SpaceOk(s, root.value) && CallSupplied(s, root.value, large, virt, phys, flags)
    ensures var (s', ok) := MapAt(s, root, large, virt, phys, DecodeFlags(flags));
            && (ok <==> && root.Some? && UnitAccepts(large, virt, phys, flags)
                        && Unmapped(s.mem, root.value, virt, UnitBytes(large)))
            && (!ok ==> s'.free == s.free)
            && (root.None? ==> s' == s)
            && (root.Some? ==>
                  forall a: Word :: InHalf(a) ==>
                    Walk(s'.mem, root.value, PageNumber(a)) ==
                    if ok && virt <= a < virt + UnitBytes(large) then Some(Asked(virt, phys, flags, a))
                    else Walk(s.mem, root.value, PageNumber(a)))
  {
    hide Walk, UnitBlock, DecodeFlags, PageNumber, Enough, UnitArgs, UnitAccepts, SpaceOk, MapUnit, UnitSupplied, Asked,
         InHalf, CallSupplied;
    AcceptsIff(large, virt, phys, flags);
    if root.Some? && virt % PAGE_SIZE == 0 && phys % PAGE_SIZE == 0 {
      var v, f, fl := virt / PAGE_SIZE, phys / PAGE_SIZE, DecodeFlags(flags);
      CallIsSupplied(s, root.value, large, virt, phys, flags);
      UnitWalks(s, root.value, large, v, f, fl);
      if UnitAccepts(large, virt, phys, flags) { UnmappedBlock(s.mem, root.value, large, virt, phys, flags); }
      var (s', ok) := MapUnit(s, root.value, large, v, f, fl);
      forall a: Word | InHalf(a)
        ensures Walk(s'.mem, root.value, PageNumber(a)) ==
                if ok && virt <= a < virt + UnitBytes(large) then Some(Asked(virt, phys, flags, a))
                else Walk(s.mem, root.value, PageNumber(a))
      {
        HalfPage(a);
        if ok { UnitHolds(large, virt, phys, flags, a); }
      }
    }
  }

  // ---------------------------------------------------------------------------
  // Ranges
  // ---------------------------------------------------------------------------

  /** The argument checks of map_range and map_range_large. */
  predicate RangeChecked(large: bool, virt: Word, phys: Word, size: Word) {
    && size != 0
    && virt % UnitBytes(large) == 0 && phys % UnitBytes(large) == 0 && size % UnitBytes(large) == 0
    && virt + size < 0x1_0000_0000_0000_0000 && phys + size < 0x1_0000_0000_0000_0000
    && InHalf(virt) && InHalf(virt + size - 1)
  }

  /** A range that can be mapped into an empty space. */
  predicate RangeAccepts(large: bool, virt: Word, phys: Word, size: Word, flags: Word) {
    && RangeChecked(large, virt, phys, size)
    && (virt + size <= 0x8000_0000_0000 || 0xFFFF_8000_0000_0000 <= virt)
    && phys + size <= 0x10_0000_0000_0000
    && (large || flags / 0x80 % 2 == 0)
  }

  function AsExtent(large: bool, virt: Word, phys: Word, size: Word, flags: Word): Extent {
    Extent(large, virt, phys, size, DecodeFlags(flags))
  }

  lemma CheckedIff(large: bool, virt: Word, phys: Word, size: Word, flags: Word)
    ensures RangeChecked(large, virt, phys, size) <==> Checked(AsExtent(large, virt, phys, size, flags))
  {
    hide DecodeFlags, InHalf, Canonical, RangeArgs, IsCanonical;
    LargeAligned(virt);
    LargeAligned(phys);
    LargeAligned(size);
    HalfPage(virt);
    CanonicalPage(virt);
    if PageAligned(AsExtent(large, virt, phys, size, flags)) {
      RangeChecks(large, virt, phys, size);
      if size != 0 && virt + size < WORD {
        HalfPage(virt + size - 1);
        CanonicalPage(virt + size - 1);
      }
    }
  }

  lemma MappableAccepts(large: bool, virt: Word, phys: Word, size: Word, flags: Word)
    ensures RangeAccepts(large, virt, phys, size, flags) <==> Mappable(AsExtent(large, virt, phys, size, flags))
  {
    hide DecodeFlags;
    DecodePositions(flags);
    LargeAligned(virt);
    LargeAligned(phys);
    LargeAligned(size);
  }

  lemma HalfAddress(a: Word)
    ensures InHalf(a) <==> CanonicalAddress(a)
    ensures InHalf(a) ==> AddressPage(a) == PageNumber(a)
  {
    HalfPage(a);
  }

  /** The bytes of a mappable range are unmapped exactly when its block is free in the flat map. */
  lemma UnmappedFits(s: Machine, root: Frame, flat: Flat, e: Extent)
    requires SpaceOk(s, root) && Agrees(s, root, flat) && Mappable(e)
    ensures Unmapped(s.mem, root, e.virt, e.size) <==>
            Block(PageOf(e.virt / PAGE_SIZE), e.phys / PAGE_SIZE, e.size / PAGE_SIZE, e.flags).Keys !! flat.Keys
  {
    hide Mappable, AddressPage, CanonicalAddress, PageNumber, InHalf, AddressOf, Walk, Agrees, SpaceOk, PageIn;
    var p, n := AddressPage(e.virt), e.size / PAGE_SIZE;
    var block := Block(p, e.phys / PAGE_SIZE, n, e.flags);
    assert p == PageOf(e.virt / PAGE_SIZE) by { PageOfAddress(e.virt); }
    BlockInPages(e);
    if Unmapped(s.mem, root, e.virt, e.size) {
      forall q | q in block.Keys ensures q !in flat.Keys {
        AddressOfPage(q);
        HoldsIff(e, AddressOf(q));
        HalfAddress(AddressOf(q));
        WalkIsLookup(s, root, flat, q);
      }
    } else {
      var a: nat :| e.virt <= a < e.virt + e.size && Walk(s.mem, root, PageNumber(a)).Some?;
      HeldCanonical(e, a);
      CanonicalWord(a);
      HalfAddress(a);
      HoldsIff(e, a);
      WalkIsLookup(s, root, flat, PageNumber(a));
      assert PageNumber(a) in block.Keys;
    }
  }

  lemma PageOfAddress(a: nat)
    ensures AddressPage(a) == PageOf(a / PAGE_SIZE)
  {}

  lemma CanonicalWord(a: nat)
    requires CanonicalAddress(a)
    ensures a < WORD
  {}

  /** map_range and map_range_large by address.  When their units find their frames they succeed exactly on
      a present root, a range that can be mapped, and bytes none of which is mapped; then exactly those
      bytes are mapped, in order, with the rights the flag bits say.  On an absent root, or when a check
      fails, nothing changes. */
  lemma RangeAtExact(s: Machine, root: Option<Frame>, large: bool, virt: Word, phys: Word, size: Word, flags: Word)
    requires root.Some? ==>
               SpaceOk(s, root.value) && ExtentSupplied(s, root.value, AsExtent(large, virt, phys, size, flags))
    ensures var (s', ok) := MapRangeAt(s, root, large, virt, phys, size, DecodeFlags(flags));
            && (ok <==> && root.Some? && RangeAccepts(large, virt, phys, size, flags)
                        && Unmapped(s.mem, root.value, virt, size))
            && (root.None? || !RangeChecked(large, virt, phys, size) ==> s' == s)
            && (ok ==>
                  forall a: Word :: InHalf(a) ==>
                    Walk(s'.mem, root.value, PageNumber(a)) ==
                    if virt <= a < virt + size then Some(Asked(virt, phys, flags, a))
                    else Walk(s.mem, root.value, PageNumber(a)))
  {
    hide DecodeFlags, RangeArgs, Walk, Agrees, SpaceOk, RangeSupplied, Mappable, RangeAccepts, RangeChecked, MapUnits,
         Unmapped, InHalf, PageNumber, Asked;
    var e := AsExtent(large, virt, phys, size, flags);
    CheckedIff(large, virt, phys, size, flags);
    MappableAccepts(large, virt, phys, size, flags);
    if root.Some? && PageAligned(e) {
      RangeOnRoot(s, root.value, e);
      var (s', ok) := MapExtent(s, root.value, e);
      if ok {
        forall a: Word | InHalf(a)
          ensures Walk(s'.mem, root.value, PageNumber(a)) ==
                  if virt <= a < virt + size then Some(Asked(virt, phys, flags, a))
                  else Walk(s.mem, root.value, PageNumber(a))
        {
          RangeByte(s, root.value, e, a);
          if virt <= a < virt + size { AskedIs(virt, phys, size, large, flags, a); }
        }
      }
    } else if Mappable(e) {
      MappablePages(e);
    }
  }

  lemma MappablePages(e: Extent)
    requires Mappable(e)
    ensures PageAligned(e)
  {}

  lemma RangeOnRoot(s: Machine, root: Frame, e: Extent)
    requires SpaceOk(s, root) && ExtentSupplied(s, root, e) && PageAligned(e)
    ensures MapExtent(s, root, e).1 <==> Mappable(e) && Unmapped(s.mem, root, e.virt, e.size)
  {
    hide Agrees, SpaceOk, RangeSupplied, Mappable, FlatRange, Unmapped, PageOf, Block, RangeArgs, MapUnits, RangeNodes,
         Advanced, Tables;
    var v, f, n := e.virt / PAGE_SIZE, e.phys / PAGE_SIZE, e.size / PAGE_SIZE;
    var flat := FlatOf(s, root);
    FlatOfAgrees(s, root);
    RangeRefines(s, root, flat, e.large, v, f, n, e.flags);
    RangeExact(flat, e.large, v, f, n, e.flags);
    MappableIff(e);
    if Mappable(e) { UnmappedFits(s, root, flat, e); }
  }

  /** One byte after a range call that succeeded. */
  lemma RangeByte(s: Machine, root: Frame, e: Extent, a: Word)
    requires SpaceOk(s, root) && ExtentSupplied(s, root, e) && PageAligned(e) && InHalf(a)
    requires MapExtent(s, root, e).1
    ensures Walk(MapExtent(s, root, e).0.mem, root, PageNumber(a)) ==
            if Holds(e, a) then Some(MappingOf(e, a)) else Walk(s.mem, root, PageNumber(a))
  {
    hide SpaceOk, RangeSupplied, Walk, MapUnits, PageOf, PageNumber, InHalf, CanonicalAddress, Holds, MappingOf, PageIn,
         Mappable, FittingPages, RangeArgs, Unmapped, AddressPage;
    RangeOnRoot(s, root, e);
    MappableIff(e);
    HalfPage(a);
    HalfAddress(a);
    HoldsIff(e, a);
    PageOfAddress(e.virt);
    RangeWalks(s, root, e.large, e.virt / PAGE_SIZE, e.phys / PAGE_SIZE, e.size / PAGE_SIZE, e.flags, PageNumber(a));
  }

  lemma AskedIs(virt: Word, phys: Word, size: Word, large: bool, flags: Word, a: nat)
    requires virt <= a < virt + size
    ensures MappingOf(AsExtent(large, virt, phys, size, flags), a) == Asked(virt, phys, flags, a)
  {
    hide DecodeFlags, Decode;
    DecodePositions(flags);
  }

  // ---------------------------------------------------------------------------
  // The stored word
  // ---------------------------------------------------------------------------

  lemma SmallSlot(s: Machine, s': Machine, root: Frame, p: nat, leaf: Pte)
    requires SmallOutcome(s, s', root, p, leaf, true) && leaf.present && !leaf.huge
    ensures SlotAt(s'.mem, root, 1, p) == Some(leaf)
  {
    assert Node(1, p / ENTRIES) in Tables(s'.mem, root);
    LeafBelowLink(s'.mem, root, p);
    assert LeafAt(s'.mem, root, p) == Some(LeafMapping(leaf, leaf.frame));
    assert EntryOk(1, SlotAt(s'.mem, root, 1, p).value);
  }

  lemma LargeSlot(s: Machine, s': Machine, root: Frame, d: nat, leaf: Pte)
    requires SpaceOk(s, root) && RegionFree(s.mem, root, d)
    requires LargeOutcome(s, s', root, d, leaf, true) && leaf.present && leaf.huge
    ensures SlotAt(s'.mem, root, 2, d) == Some(leaf)
  {
    hide SpaceOk, LeafAt, RegionFree, Balanced, TableAt, SlotAt;
    NotLinked(s, root, d);
    assert Node(1, d) !in Tables(s'.mem, root);
    var q := ENTRIES * d;
    assert q / ENTRIES == d && q % ENTRIES == 0;
    LargeEntry(s'.mem, root, d, leaf);
  }

  lemma NotLinked(s: Machine, root: Frame, d: nat)
    requires SpaceOk(s, root) && RegionFree(s.mem, root, d)
    ensures Node(1, d) !in Tables(s.mem, root)
  {
    PresentIffMapped(s.mem, root, d);
  }

  lemma LargeEntry(m: Memory, root: Frame, d: nat, leaf: Pte)
    requires TableAt(m, root, 1, d).None? && leaf.present && leaf.huge
    requires LeafAt(m, root, ENTRIES * d) == Some(LeafMapping(leaf, leaf.frame))
    ensures SlotAt(m, root, 2, d) == Some(leaf)
  {
    assert ENTRIES * d / ENTRIES == d && ENTRIES * d % ENTRIES == 0;
    assert SlotAt(m, root, 1, ENTRIES * d).None?;
  }

  /** A slot of the decoded memory, as a word. */
  lemma SlotWord(m: WordMemory, root: Frame, level: nat, k: nat)
    requires 1 <= level <= 4 && SlotAt(DecodeMemory(m), root, level, k).Some?
    ensures var t := TableAt(DecodeMemory(m), root, level, k / ENTRIES);
            t.Some? && m[t.value][k % ENTRIES] == Encode(SlotAt(DecodeMemory(m), root, level, k).value)
  {
    hide Decode, Encode;
    var t := TableAt(DecodeMemory(m), root, level, k / ENTRIES).value;
    EncodeDecoded(m[t][k % ENTRIES]);
  }

  /** The word a successful call leaves in the last table of the path: the physical address and the flags
      as given, with bit 0 set, and bit 7 for a 2 MiB page. */
  lemma StoredWord(s: Machine, m: WordMemory, free: set<Frame>, root: Frame, large: bool, virt: Word, phys: Word,
                   flags: Word)
    requires SpaceOk(s, root) && CallSupplied(s, root, large, virt, phys, flags) && IsFlags(flags)
    requires MapAt(s, Some(root), large, virt, phys, DecodeFlags(flags)) == (Machine(DecodeMemory(m), free), true)
    ensures var p := PageNumber(virt);
            var word := phys + flags + (1 - flags % 2);
            if large then
              var t := TableAt(DecodeMemory(m), root, 2, p / ENTRIES / ENTRIES);
              t.Some? && m[t.value][p / ENTRIES % ENTRIES] == word + (1 - flags / 0x80 % 2) * 0x80
            else
              var t := TableAt(DecodeMemory(m), root, 1, p / ENTRIES);
              t.Some? && m[t.value][p % ENTRIES] == word
  {
    hide Decode, DecodeFlags, MapSmall, MapLarge, Or, And, MakePageEntry, Encode, SpaceOk, Walk, UnitSupplied, TableAt,
         DecodeMemory, IsFlags, Unmapped, InHalf, PageNumber, PageOf, Canonical;
    AcceptsIff(large, virt, phys, flags);
    UnitAtExact(s, Some(root), large, virt, phys, flags);
    HalfPage(virt);
    CallSlot(s, Machine(DecodeMemory(m), free), root, large, virt, phys, flags);
    AcceptedPages(large, virt, phys, flags);
    LeafEncoded(large, phys, flags);
    if large {
      SlotWord(m, root, 2, PageNumber(virt) / ENTRIES);
    } else {
      SlotWord(m, root, 1, PageNumber(virt));
    }
  }

  lemma LeafEncoded(large: bool, phys: Word, flags: Word)
    requires phys % 0x1000 == 0 && phys < 0x10_0000_0000_0000 && IsFlags(flags)
    requires large || flags / 0x80 % 2 == 0
    ensures Encode(UnitLeaf(large, phys / PAGE_SIZE, DecodeFlags(flags))) ==
            phys + flags + (1 - flags % 2) + if large then (1 - flags / 0x80 % 2) * 0x80 else 0
  {
    hide Decode, DecodeFlags, Or, And, MakePageEntry, Encode;
    DecodeLeaf(phys, flags);
    LeafWords(phys, flags);
    DecodePositions(flags);
    EncodeDecoded(MakePageEntry(phys, Or(flags, PRESENT)));
    EncodeDecoded(MakePageEntry(phys, Or(Or(flags, PRESENT), HUGE)));
  }

  /** The entry a successful call leaves. */
  lemma CallSlot(s: Machine, s': Machine, root: Frame, large: bool, virt: Word, phys: Word, flags: Word)
    requires SpaceOk(s, root) && CallSupplied(s, root, large, virt, phys, flags)
    requires UnitAccepts(large, virt, phys, flags)
    requires MapAt(s, Some(root), large, virt, phys, DecodeFlags(flags)) == (s', true)
    ensures var leaf := UnitLeaf(large, phys / PAGE_SIZE, DecodeFlags(flags));
            var p := PageNumber(virt);
            if large then SlotAt(s'.mem, root, 2, p / ENTRIES) == Some(leaf)
            else SlotAt(s'.mem, root, 1, p) == Some(leaf)
  {
    hide DecodeFlags, MapSmall, MapLarge, SpaceOk, Walk, SlotAt, LeafAt, PageNumber, PageOf, Canonical, InHalf, Enough,
         CallSupplied, Tables, RegionFree, SmallOutcome, LargeOutcome;
    AcceptsIff(large, virt, phys, flags);
    HalfPage(virt);
    var v, f, fl := virt / PAGE_SIZE, phys / PAGE_SIZE, DecodeFlags(flags);
    var leaf := UnitLeaf(large, f, fl);
    CallIsSupplied(s, root, large, virt, phys, flags);
    UnitPageFacts(large, v, f, fl);
    var flat := FlatOf(s, root);
    FlatOfAgrees(s, root);
    if UnitFits(flat, large, v, f, fl) { FitSupplied(s, root, flat, large, v, f, fl); }
    if large {
      LargeFits(s, root, flat, v, f, fl);
      MapLargeRefines(s, root, PageOf(v) / ENTRIES, leaf);
      LargeSlot(s, s', root, PageOf(v) / ENTRIES, leaf);
    } else {
      SmallFits(s, root, flat, v, f, fl);
      MapSmallRefines(s, root, PageOf(v), leaf);
      SmallSlot(s, s', root, PageOf(v), leaf);
    }
  }
}
