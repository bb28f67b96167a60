/** Page-table entries as 64-bit words, and the decoded entries they stand for. */
module PageEntries {
  import opened Bits
  import opened AddressCodec
  import opened PageTree
  import opened Ranges
  import Mapper

  const PRESENT: Word := 1
  const WRITABLE: Word := 2
  const USER: Word := 4
  const HUGE: Word := 0x80
  const NO_EXECUTE: Word := 0x8000_0000_0000_0000
  /** Every bit that is neither address nor one of the five flags above. */
  const OTHER: Word := 0x7FF0_0000_0000_0F78

  function Decode(w: Word): Pte {
    AndBound(w, PHYSICAL_ADDRESS_MASK);
    Pte(And(w, PRESENT) != 0, And(w, WRITABLE) != 0, And(w, USER) != 0, And(w, HUGE) != 0,
        And(w, NO_EXECUTE) != 0, PageEntryAddress(w) / PAGE_SIZE, And(w, OTHER))
  }

  function DecodeFlags(w: Word): Flags {
    Flags(And(w, WRITABLE) != 0, And(w, USER) != 0, And(w, HUGE) != 0, And(w, NO_EXECUTE) != 0, And(w, OTHER))
  }

  /** A flags word names no address bit. */
  predicate IsFlags(w: Word) {
    And(w, PHYSICAL_ADDRESS_MASK) == 0
  }

  function IntermediateFlags(leaf: Word): nat {
    var result := Or(PRESENT, WRITABLE);
    if And(leaf, USER) != 0 then Or(result, USER) else result
  }

  // ---------------------------------------------------------------------------
  // Fields of combined words
  // ---------------------------------------------------------------------------

  /** A mask sees a union as the union of what it sees. */
  lemma MaskOr(a: nat, b: nat, m: nat)
    ensures And(Or(a, b), m) != 0 <==> And(a, m) != 0 || And(b, m) != 0
    ensures And(b, m) == 0 ==> And(Or(a, b), m) == And(a, m)
    ensures And(a, m) == 0 ==> And(Or(a, b), m) == And(b, m)
  {}

  /** An aligned 52-bit address is its own address field. */
  lemma AddressField(physical: Word)
    ensures And(physical, PHYSICAL_ADDRESS_MASK) == physical / PAGE_SIZE % FRAMES * PAGE_SIZE
  {
    Powers();
    ShiftedMask(physical, Pow2(40) - 1, 12);
    LowMask(Shr(physical, 12), 40);
    ShrDivides(physical, 12);
  }

  /** No flag, and none of the other bits, is an address bit. */
  lemma MasksDisjoint()
    ensures And(PHYSICAL_ADDRESS_MASK, PRESENT) == 0 && And(PHYSICAL_ADDRESS_MASK, WRITABLE) == 0
    ensures And(PHYSICAL_ADDRESS_MASK, USER) == 0 && And(PHYSICAL_ADDRESS_MASK, HUGE) == 0
    ensures And(PHYSICAL_ADDRESS_MASK, NO_EXECUTE) == 0 && And(PHYSICAL_ADDRESS_MASK, OTHER) == 0
    ensures And(PHYSICAL_ADDRESS_MASK, PHYSICAL_ADDRESS_MASK) == PHYSICAL_ADDRESS_MASK
  {
    hide And, Pow2;
    AddressField(PRESENT);
    AddressField(WRITABLE);
    AddressField(USER);
    AddressField(HUGE);
    AddressField(NO_EXECUTE);
    AddressField(OTHER);
    AddressField(PHYSICAL_ADDRESS_MASK);
    AndCommutes(PRESENT, PHYSICAL_ADDRESS_MASK);
    AndCommutes(WRITABLE, PHYSICAL_ADDRESS_MASK);
    AndCommutes(USER, PHYSICAL_ADDRESS_MASK);
    AndCommutes(HUGE, PHYSICAL_ADDRESS_MASK);
    AndCommutes(NO_EXECUTE, PHYSICAL_ADDRESS_MASK);
    AndCommutes(OTHER, PHYSICAL_ADDRESS_MASK);
  }

  /** Decoding what make_page_entry encodes. */
  lemma DecodeMade(physical: Word, flags: Word)
    requires physical % PAGE_SIZE == 0 && physical < 0x10_0000_0000_0000
    requires IsFlags(flags)
    ensures MakePageEntry(physical, flags) < WORD
    ensures Decode(MakePageEntry(physical, flags)) ==
            Decode(flags).(frame := physical / PAGE_SIZE)
  {
    hide And, Or;
    var x := And(physical, PHYSICAL_ADDRESS_MASK);
    AddressField(physical);
    OrWord(x, flags);
    MasksDisjoint();
    OnlyAddress(physical, PRESENT);
    OnlyAddress(physical, WRITABLE);
    OnlyAddress(physical, USER);
    OnlyAddress(physical, HUGE);
    OnlyAddress(physical, NO_EXECUTE);
    OnlyAddress(physical, OTHER);
    AndAssociates(physical, PHYSICAL_ADDRESS_MASK, PHYSICAL_ADDRESS_MASK);
    MaskOr(x, flags, PRESENT);
    MaskOr(x, flags, WRITABLE);
    MaskOr(x, flags, USER);
    MaskOr(x, flags, HUGE);
    MaskOr(x, flags, NO_EXECUTE);
    MaskOr(x, flags, OTHER);
    MaskOr(x, flags, PHYSICAL_ADDRESS_MASK);
  }

  lemma OnlyAddress(physical: Word, m: Word)
    requires And(PHYSICAL_ADDRESS_MASK, m) == 0
    ensures And(And(physical, PHYSICAL_ADDRESS_MASK), m) == 0
  {
    AndAssociates(physical, PHYSICAL_ADDRESS_MASK, m);
  }

  /** Decoding a union with a flags word. */
  lemma DecodeOr(w: Word, flags: Word)
    requires IsFlags(flags) && And(flags, OTHER) == 0
    ensures Or(w, flags) < WORD
    ensures var e, g := Decode(w), Decode(flags);
            Decode(Or(w, flags)) ==
            Pte(e.present || g.present, e.writable || g.writable, e.user || g.user, e.huge || g.huge,
                e.noExecute || g.noExecute, e.frame, e.attributes)
  {
    hide And, Or;
    OrWord(w, flags);
    MaskOr(w, flags, PRESENT);
    MaskOr(w, flags, WRITABLE);
    MaskOr(w, flags, USER);
    MaskOr(w, flags, HUGE);
    MaskOr(w, flags, NO_EXECUTE);
    MaskOr(w, flags, OTHER);
    MaskOr(w, flags, PHYSICAL_ADDRESS_MASK);
  }

  lemma SmallFlags()
    ensures Decode(0) == ABSENT
    ensures Decode(3) == ABSENT.(present := true, writable := true)
    ensures Decode(7) == ABSENT.(present := true, writable := true, user := true)
    ensures Decode(PRESENT) == ABSENT.(present := true)
    ensures Decode(HUGE) == ABSENT.(huge := true)
    ensures IsFlags(3) && IsFlags(7) && IsFlags(PRESENT) && IsFlags(HUGE)
    ensures And(3, OTHER) == 0 && And(7, OTHER) == 0 && And(PRESENT, OTHER) == 0 && And(HUGE, OTHER) == 0
  {}

  lemma IntermediateIs(leaf: Word)
    ensures IntermediateFlags(leaf) == if DecodeFlags(leaf).user then 7 else 3
  {}

  /** The interior entry ensure_table writes for a new table. */
  lemma DecodeInterior(physical: Word, middle: Word)
    requires physical % PAGE_SIZE == 0 && physical / PAGE_SIZE < FRAMES && (middle == 3 || middle == 7)
    ensures MakePageEntry(physical, middle) < WORD
    ensures Decode(MakePageEntry(physical, middle)) == Mapper.Interior(physical / PAGE_SIZE, middle == 7)
  {
    hide Decode, MakePageEntry;
    SmallFlags();
    DecodeMade(physical, middle);
  }

  /** The permissions ensure_table adds to an entry that links a table. */
  lemma DecodeRaised(entry: Word, middle: Word)
    requires middle == 3 || middle == 7
    requires Decode(entry).present
    ensures Or(entry, middle) < WORD
    ensures Decode(Or(entry, middle)) == Decode(entry).(writable := true, user := Decode(entry).user || middle == 7)
  {
    hide Decode;
    SmallFlags();
    DecodeOr(entry, middle);
  }

  /** The leaf entries of map_page and map_page_large. */
  lemma DecodeLeaf(physical: Word, flags: Word)
    requires physical % PAGE_SIZE == 0 && physical < 0x10_0000_0000_0000
    requires IsFlags(flags)
    ensures Or(flags, PRESENT) < WORD && Or(Or(flags, PRESENT), HUGE) < WORD
    ensures MakePageEntry(physical, Or(flags, PRESENT)) < WORD
    ensures MakePageEntry(physical, Or(Or(flags, PRESENT), HUGE)) < WORD
    ensures !DecodeFlags(flags).huge ==>
              Decode(MakePageEntry(physical, Or(flags, PRESENT))) ==
              UnitLeaf(false, physical / PAGE_SIZE, DecodeFlags(flags))
    ensures Decode(MakePageEntry(physical, Or(Or(flags, PRESENT), HUGE))) ==
            UnitLeaf(true, physical / PAGE_SIZE, DecodeFlags(flags))
  {
    hide And, Or, MakePageEntry;
    SmallFlags();
    DecodeOr(flags, PRESENT);
    DecodeOr(Or(flags, PRESENT), HUGE);
    MaskOr(flags, PRESENT, PHYSICAL_ADDRESS_MASK);
    MaskOr(Or(flags, PRESENT), HUGE, PHYSICAL_ADDRESS_MASK);
    DecodeMade(physical, Or(flags, PRESENT));
    DecodeMade(physical, Or(Or(flags, PRESENT), HUGE));
  }

  /** Packing an address and flags into an entry and taking them out again. */
  lemma EntryRoundTrip(physical: Word, flags: Word)
    requires physical % PAGE_SIZE == 0 && physical < 0x10_0000_0000_0000
    requires IsFlags(flags)
    ensures var e := MakePageEntry(physical, flags);
            e < WORD && PageEntryAddress(e) == physical && PageEntryFlags(e) == flags
  {
    hide And, Or;
    var n := Not(PHYSICAL_ADDRESS_MASK);
    var x := And(physical, PHYSICAL_ADDRESS_MASK);
    AddressField(physical);
    OrWord(x, flags);
    MasksDisjoint();
    ComplementMask();
    OnlyAddress(physical, n);
    AndAssociates(physical, PHYSICAL_ADDRESS_MASK, PHYSICAL_ADDRESS_MASK);
    MaskOr(x, flags, n);
    MaskOr(x, flags, PHYSICAL_ADDRESS_MASK);
    FlagsKept(flags);
  }

  lemma ComplementMask()
    ensures And(PHYSICAL_ADDRESS_MASK, Not(PHYSICAL_ADDRESS_MASK)) == 0
  {
    Powers();
    var n := Not(PHYSICAL_ADDRESS_MASK);
    AndBound(PHYSICAL_ADDRESS_MASK, n);
    forall i: nat | i < 64 ensures Bit(And(PHYSICAL_ADDRESS_MASK, n), i) == Bit(0, i) {
      AndBit(PHYSICAL_ADDRESS_MASK, n, i);
      ZeroBit(i);
      ComplementBit(PHYSICAL_ADDRESS_MASK, 64, i);
    }
    SameBits(And(PHYSICAL_ADDRESS_MASK, n), 0, 64);
  }

  lemma FlagsKept(flags: Word)
    requires IsFlags(flags)
    ensures And(flags, Not(PHYSICAL_ADDRESS_MASK)) == flags
  {
    Powers();
    var n := Not(PHYSICAL_ADDRESS_MASK);
    AndBound(flags, n);
    forall i: nat | i < 64 ensures Bit(And(flags, n), i) == Bit(flags, i) {
      AndBit(flags, n, i);
      AndBit(flags, PHYSICAL_ADDRESS_MASK, i);
      ZeroBit(i);
      ComplementBit(PHYSICAL_ADDRESS_MASK, 64, i);
    }
    SameBits(And(flags, n), flags, 64);
  }

  // ---------------------------------------------------------------------------
  // Bit positions
  // ---------------------------------------------------------------------------

  /** A test through a one-bit mask, as a digit. */
  lemma MaskDigit(w: Word, i: nat)
    requires i < 64
    ensures And(w, Pow2(i)) != 0 <==> w / Pow2(i) % 2 == 1
  {
    TestBit(w, i);
    BitIsDigit(w, i);
    ShrDivides(w, i);
  }

  lemma SmallPowers()
    ensures Pow2(0) == 1 && Pow2(2) == 4 && Pow2(3) == 8 && Pow2(4) == 0x10 && Pow2(7) == 0x80 && Pow2(8) == 0x100
    ensures Pow2(11) == 0x800
  {}

  /** A run of `n` bits from bit `k` on. */
  lemma MaskField(w: Word, m: nat, n: nat, k: nat)
    requires m == Pow2(n) - 1
    ensures And(w, m * Pow2(k)) == w / Pow2(k) % Pow2(n) * Pow2(k)
  {
    hide And, Pow2;
    ShiftedMask(w, m, k);
    LowMask(Shr(w, k), n);
    ShrDivides(w, k);
  }

  /** The bits with no field of their own: 3 to 6, 8 to 11 and 52 to 62. */
  lemma OtherField(w: Word)
    ensures And(w, OTHER) == w / 8 % 0x10 * 8 + w / 0x100 % 0x10 * 0x100
                             + w / 0x10_0000_0000_0000 % 0x800 * 0x10_0000_0000_0000
  {
    hide And, Or, Pow2;
    SmallPowers();
    Powers();
    var low, mid, top := 0x78, 0xF00, 0x7FF0_0000_0000_0000;
    JoinLow(0xF, low, 8);
    JoinLow(0x7FF, mid + low, 52);
    assert OTHER == Or(top, Or(mid, low));
    MaskField(w, 0xF, 4, 3);
    MaskField(w, 0xF, 4, 8);
    MaskField(w, 0x7FF, 11, 52);
    MaskUnion(w, top, Or(mid, low));
    MaskUnion(w, mid, low);
    JoinLow(w / 0x100 % 0x10, w / 8 % 0x10 * 8, 8);
    JoinLow(w / 0x10_0000_0000_0000 % 0x800, w / 0x100 % 0x10 * 0x100 + w / 8 % 0x10 * 8, 52);
  }

  lemma MaskUnion(w: nat, a: nat, b: nat)
    ensures And(w, Or(a, b)) == Or(And(w, a), And(w, b))
  {
    AndOverOr(a, b, w);
    AndCommutes(w, Or(a, b));
    AndCommutes(w, a);
    AndCommutes(w, b);
  }

  /** Every field of an entry, by its place in the word. */
  lemma DecodePositions(w: Word)
    ensures var e := Decode(w);
            && (e.present <==> w % 2 == 1) && (e.writable <==> w / 2 % 2 == 1) && (e.user <==> w / 4 % 2 == 1)
            && (e.huge <==> w / 0x80 % 2 == 1) && (e.noExecute <==> w / 0x8000_0000_0000_0000 == 1)
            && e.frame == w / 0x1000 % 0x100_0000_0000
            && e.attributes == w / 8 % 0x10 * 8 + w / 0x100 % 0x10 * 0x100
                               + w / 0x10_0000_0000_0000 % 0x800 * 0x10_0000_0000_0000
    ensures var g := DecodeFlags(w);
            && (g.writable <==> w / 2 % 2 == 1) && (g.user <==> w / 4 % 2 == 1) && (g.huge <==> w / 0x80 % 2 == 1)
            && (g.noExecute <==> w / 0x8000_0000_0000_0000 == 1) && g.attributes == Decode(w).attributes
  {
    hide And, Pow2;
    SmallPowers();
    Powers();
    MaskDigit(w, 0);
    MaskDigit(w, 1);
    MaskDigit(w, 2);
    MaskDigit(w, 7);
    MaskDigit(w, 63);
    AddressField(w);
    OtherField(w);
  }

  function Digit(b: bool): nat { if b then 1 else 0 }

  /** The word an entry stands for. */
  function Encode(e: Pte): int {
    Digit(e.present) + Digit(e.writable) * 2 + Digit(e.user) * 4 + Digit(e.huge) * 0x80 + e.frame * 0x1000
    + Digit(e.noExecute) * 0x8000_0000_0000_0000 + e.attributes
  }

  /** No bit of a word is lost or moved by decoding it. */
  lemma EncodeDecoded(w: Word)
    ensures Encode(Decode(w)) == w
  {
    hide Decode, Digit;
    DecodePositions(w);
    AllDigits(w);
    var e := Decode(w);
    DigitIs(e.present, w % 2);
    DigitIs(e.writable, w / 2 % 2);
    DigitIs(e.user, w / 4 % 2);
    DigitIs(e.huge, w / 0x80 % 2);
    DigitIs(e.noExecute, w / 0x8000_0000_0000_0000);
  }

  lemma DigitIs(b: bool, x: nat)
    requires x < 2 && (b <==> x == 1)
    ensures Digit(b) == x
  {}

  lemma AllDigits(w: Word)
    ensures w == w % 2 + w / 2 % 2 * 2 + w / 4 % 2 * 4 + w / 8 % 0x10 * 8 + w / 0x80 % 2 * 0x80
                 + w / 0x100 % 0x10 * 0x100
                 + w / 0x1000 % 0x100_0000_0000 * 0x1000 + w / 0x10_0000_0000_0000 % 0x800 * 0x10_0000_0000_0000
                 + w / 0x8000_0000_0000_0000 * 0x8000_0000_0000_0000
    ensures w / 0x8000_0000_0000_0000 < 2
  {
    var a := w / 2;
    var b := a / 2;
    var c := b / 2;
    var d := c / 0x10;
    var e := d / 2;
    var f := e / 0x10;
    var g := f / 0x100_0000_0000;
    assert b == w / 4 && c == w / 8 && d == w / 0x80 && e == w / 0x100 && f == w / 0x1000;
    assert g == w / 0x10_0000_0000_0000 && g / 0x800 == w / 0x8000_0000_0000_0000;
  }

  /** The words stored for a leaf: the address and the flags, with bit 0 set, and bit 7 for a large page. */
  lemma LeafWords(physical: Word, flags: Word)
    requires physical % 0x1000 == 0 && physical < 0x10_0000_0000_0000
    requires IsFlags(flags)
    ensures Or(flags, PRESENT) < WORD && Or(Or(flags, PRESENT), HUGE) < WORD
    ensures flags / 0x80 % 2 == 0 ==>
              MakePageEntry(physical, Or(flags, PRESENT)) == physical + flags + (1 - flags % 2)
    ensures MakePageEntry(physical, Or(Or(flags, PRESENT), HUGE)) ==
            physical + flags + (1 - flags % 2) + (1 - flags / 0x80 % 2) * 0x80
  {
    hide Decode, DecodeFlags, Or, And, MakePageEntry;
    DecodeLeaf(physical, flags);
    DecodePositions(flags);
    EncodeDecoded(flags);
    NoAddress(flags);
    EncodeDecoded(MakePageEntry(physical, Or(flags, PRESENT)));
    EncodeDecoded(MakePageEntry(physical, Or(Or(flags, PRESENT), HUGE)));
  }

  /** A flags word has nothing in the address field. */
  lemma NoAddress(w: Word)
    ensures IsFlags(w) <==> w / 0x1000 % 0x100_0000_0000 == 0
  {
    AddressField(w);
  }
}
