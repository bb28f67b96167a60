/** Address and page-entry arithmetic, as the paging header writes it with shifts and masks. */
module AddressCodec {
  import opened Bits

  const PAGE_SIZE: nat := 4096
  const LARGE_PAGE_SIZE: nat := 0x20_0000
  const PHYSICAL_ADDRESS_MASK: Word := 0x000F_FFFF_FFFF_F000

  datatype VirtualAddress = VirtualAddress(pml4: nat, pdpt: nat, pd: nat, pt: nat, offset: nat)

  function DecomposeAddress(a: Word): VirtualAddress {
    VirtualAddress(And(Shr(a, 39), 0x1FF), And(Shr(a, 30), 0x1FF), And(Shr(a, 21), 0x1FF),
                   And(Shr(a, 12), 0x1FF), And(a, 0xFFF))
  }

  function ReassembleAddress(p: VirtualAddress): nat {
    var low := Or(Or(Or(Or(Shl(p.pml4, 39), Shl(p.pdpt, 30)), Shl(p.pd, 21)), Shl(p.pt, 12)), p.offset);
    if And(low, Shl(1, 47)) != 0 then Or(low, 0xFFFF_0000_0000_0000) else low
  }

  predicate IsCanonical(a: Word) {
    var upper := Shr(a, 48);
    var sign := And(Shr(a, 47), 1);
    if sign == 0 then upper == 0 else upper == 0xFFFF
  }

  function AlignUp(value: Word, alignment: Word): nat
    requires alignment > 0
  {
    And((value + alignment - 1) % WORD, Not(alignment - 1))
  }

  function MakePageEntry(physical: Word, flags: Word): nat {
    Or(And(physical, PHYSICAL_ADDRESS_MASK), flags)
  }

  function PageEntryAddress(entry: Word): nat {
    And(entry, PHYSICAL_ADDRESS_MASK)
  }

  function PageEntryFlags(entry: Word): nat {
    And(entry, Not(PHYSICAL_ADDRESS_MASK))
  }

  // ---------------------------------------------------------------------------
  // As arithmetic
  // ---------------------------------------------------------------------------

  lemma Powers()
    ensures Pow2(1) == 2 && Pow2(9) == 0x200 && Pow2(12) == 0x1000 && Pow2(21) == 0x20_0000 && Pow2(30) == 0x4000_0000
    ensures Pow2(39) == 0x80_0000_0000 && Pow2(40) == 0x100_0000_0000 && Pow2(47) == 0x8000_0000_0000
    ensures Pow2(48) == 0x1_0000_0000_0000 && Pow2(52) == 0x10_0000_0000_0000
    ensures Pow2(63) == 0x8000_0000_0000_0000 && Pow2(64) == WORD
  {}

  /** align_up for every power of two: the least multiple not below `x`, or 0 when that is past the
      last 64-bit word. */
  lemma AlignUpRounds(x: Word, k: nat)
    requires k < 64
    ensures var a := Pow2(k);
            && 0 < a < WORD
            && AlignUp(x, a) == (x + a - 1) % WORD / a * a
            && AlignUp(x, a) % a == 0
            && (if x + a - 1 < WORD then x <= AlignUp(x, a) < x + a else AlignUp(x, a) == 0)
  {
    hide AlignUp, Pow2;
    assert Pow2(k) < WORD by { Powers(); PowBelow(k, 64); }
    AlignUpMasks(x, k);
    RoundsDown((x + Pow2(k) - 1) % WORD, Pow2(k));
    LandsAbove(x, Pow2(k), (x + Pow2(k) - 1) % WORD % Pow2(k));
  }

  lemma LandsAbove(x: Word, a: nat, rest: nat)
    requires 0 < a < WORD && rest < a
    requires var y := (x + a - 1) % WORD; rest <= y && (y < a ==> rest == y)
    ensures var y := (x + a - 1) % WORD;
            if x + a - 1 < WORD then x <= y - rest < x + a else y - rest == 0
  {}

  lemma AlignUpMasks(x: Word, k: nat)
    requires k < 64 && 0 < Pow2(k) < WORD
    ensures var y := (x + Pow2(k) - 1) % WORD;
            AlignUp(x, Pow2(k)) == y - y % Pow2(k)
  {
    hide And, Pow2;
    Powers();
    var y := (x + Pow2(k) - 1) % WORD;
    MaskParts(y, Pow2(k) - 1, 64);
    LowMask(y, k);
  }

  /** Dropping the remainder gives the multiple just below. */
  lemma RoundsDown(y: nat, a: nat)
    requires a > 0
    ensures y - y % a == y / a * a && (y / a * a) % a == 0 && y % a < a && y % a <= y
    ensures y < a ==> y % a == y
  {
    var q, r := y / a, y % a;
    assert y == a * q + r;
    assert a * q == q * a;
    DivModUnique(q * a, a, q, 0);
    if y < a { DivModUnique(y, a, 0, y); }
  }

  lemma OrWord(a: Word, b: Word)
    ensures Or(a, b) < WORD
  {
    Powers();
    OrBound(a, b, 64);
  }

  lemma DecomposeDivides(a: Word)
    ensures DecomposeAddress(a) ==
            VirtualAddress(a / 0x80_0000_0000 % 0x200, a / 0x4000_0000 % 0x200, a / 0x20_0000 % 0x200,
                           a / 0x1000 % 0x200, a % 0x1000)
  {
    Powers();
    ShrDivides(a, 39);
    LowMask(Shr(a, 39), 9);
    ShrDivides(a, 30);
    LowMask(Shr(a, 30), 9);
    ShrDivides(a, 21);
    LowMask(Shr(a, 21), 9);
    ShrDivides(a, 12);
    LowMask(Shr(a, 12), 9);
    LowMask(a, 12);
  }

  /** An address is canonical exactly when it lies in the lowest or the highest 2^47 bytes. */
  lemma CanonicalHalves(a: Word)
    ensures IsCanonical(a) <==> a < 0x8000_0000_0000 || WORD - 0x8000_0000_0000 <= a
  {
    hide And, Shr, Pow2;
    Powers();
    ShrDivides(a, 48);
    ShrDivides(a, 47);
    LowMask(Shr(a, 47), 1);
  }

  predicate InRange(p: VirtualAddress) {
    p.pml4 < 0x200 && p.pdpt < 0x200 && p.pd < 0x200 && p.pt < 0x200 && p.offset < 0x1000
  }

  function Joined(p: VirtualAddress): nat {
    p.pml4 * 0x80_0000_0000 + p.pdpt * 0x4000_0000 + p.pd * 0x20_0000 + p.pt * 0x1000 + p.offset
  }

  /** Reassembly is the sum of the shifted fields, sign-extended from bit 47. */
  lemma ReassembleAdds(p: VirtualAddress)
    requires InRange(p)
    ensures ReassembleAddress(p) ==
            if Joined(p) < 0x8000_0000_0000 then Joined(p) else Joined(p) + 0xFFFF_0000_0000_0000
  {
    hide Or, And, Shl, Shr, Pow2;
    JoinedFields(p);
    SignExtended(Joined(p));
  }

  lemma JoinedFields(p: VirtualAddress)
    requires InRange(p)
    ensures Or(Or(Or(Or(Shl(p.pml4, 39), Shl(p.pdpt, 30)), Shl(p.pd, 21)), Shl(p.pt, 12)), p.offset) == Joined(p)
  {
    hide Or, Pow2;
    Powers();
    JoinLow(p.pml4, p.pdpt * 0x4000_0000, 39);
    var k3 := p.pml4 * 0x200 + p.pdpt;
    assert Or(Shl(p.pml4, 39), Shl(p.pdpt, 30)) == k3 * 0x4000_0000;
    JoinLow(k3, p.pd * 0x20_0000, 30);
    var k2 := k3 * 0x200 + p.pd;
    assert Or(k3 * 0x4000_0000, Shl(p.pd, 21)) == k2 * 0x20_0000;
    JoinLow(k2, p.pt * 0x1000, 21);
    var k1 := k2 * 0x200 + p.pt;
    assert Or(k2 * 0x20_0000, Shl(p.pt, 12)) == k1 * 0x1000;
    JoinLow(k1, p.offset, 12);
  }

  lemma SignExtended(low: nat)
    requires low < 0x1_0000_0000_0000
    ensures And(low, Shl(1, 47)) != 0 <==> low >= 0x8000_0000_0000
    ensures Or(low, 0xFFFF_0000_0000_0000) == low + 0xFFFF_0000_0000_0000
  {
    hide Or, And, Shr, Pow2;
    Powers();
    TestBit(low, 47);
    BitIsDigit(low, 47);
    ShrDivides(low, 47);
    OrCommutes(low, 0xFFFF_0000_0000_0000);
    JoinLow(0xFFFF, low, 48);
  }

  /** Splitting what was joined gives the fields back. */
  lemma DecomposeReassembled(p: VirtualAddress)
    requires InRange(p)
    ensures ReassembleAddress(p) < WORD && IsCanonical(ReassembleAddress(p))
    ensures DecomposeAddress(ReassembleAddress(p)) == p
  {
    ReassembleAdds(p);
    var a := ReassembleAddress(p);
    CanonicalHalves(a);
    DecomposeDivides(a);
    FieldsOf(p, if Joined(p) < 0x8000_0000_0000 then 0 else 0xFFFF);
  }

  /** Dividing by 512 drops the last digit in base 512. */
  lemma Digit(q: nat, r: nat)
    requires r < 0x200
    ensures (q * 0x200 + r) / 0x200 == q && (q * 0x200 + r) % 0x200 == r
  {}

  lemma FieldsOf(p: VirtualAddress, upper: nat)
    requires InRange(p)
    ensures var a := upper * 0x1_0000_0000_0000 + Joined(p);
            && a / 0x80_0000_0000 % 0x200 == p.pml4 && a / 0x4000_0000 % 0x200 == p.pdpt
            && a / 0x20_0000 % 0x200 == p.pd && a / 0x1000 % 0x200 == p.pt && a % 0x1000 == p.offset
  {
    var a := upper * 0x1_0000_0000_0000 + Joined(p);
    var k4 := upper * 0x200 + p.pml4;
    var k3 := k4 * 0x200 + p.pdpt;
    var k2 := k3 * 0x200 + p.pd;
    var k1 := k2 * 0x200 + p.pt;
    PageAndOffset(a, k1, p.offset);
    Digit(k2, p.pt);
    Digit(k3, p.pd);
    Digit(k4, p.pdpt);
    Digit(upper, p.pml4);
    IndicesOfPage(a);
  }

  lemma PageAndOffset(a: nat, k: nat, offset: nat)
    requires offset < 0x1000 && a == k * 0x1000 + offset
    ensures a / 0x1000 == k && a % 0x1000 == offset
  {}

  lemma IndicesOfPage(a: nat)
    ensures a / 0x20_0000 == a / 0x1000 / 0x200
    ensures a / 0x4000_0000 == a / 0x1000 / 0x200 / 0x200
    ensures a / 0x80_0000_0000 == a / 0x1000 / 0x200 / 0x200 / 0x200
    ensures a / 0x1_0000_0000_0000 == a / 0x1000 / 0x200 / 0x200 / 0x200 / 0x200
  {}

  lemma JoinedDecomposed(a: Word)
    ensures InRange(DecomposeAddress(a)) && Joined(DecomposeAddress(a)) == a % 0x1_0000_0000_0000
  {
    DecomposeDivides(a);
    IndicesOfPage(a);
    var k1 := a / 0x1000;
    var k2 := k1 / 0x200;
    var k3 := k2 / 0x200;
    var k4 := k3 / 0x200;
    assert a == k1 * 0x1000 + a % 0x1000;
    assert k1 == k2 * 0x200 + k1 % 0x200;
    assert k2 == k3 * 0x200 + k2 % 0x200;
    assert k3 == k4 * 0x200 + k3 % 0x200;
    assert k4 == k4 / 0x200 * 0x200 + k4 % 0x200;
  }

  /** Splitting and joining restores an address exactly when it is canonical. */
  lemma ReassembleDecomposed(a: Word)
    ensures ReassembleAddress(DecomposeAddress(a)) == a <==> IsCanonical(a)
  {
    hide DecomposeAddress, IsCanonical, ReassembleAddress, Joined;
    JoinedDecomposed(a);
    ReassembleAdds(DecomposeAddress(a));
    CanonicalHalves(a);
  }

  /** The 36-bit page number the four indices spell. */
  function Indices(p: VirtualAddress): nat {
    ((p.pml4 * 0x200 + p.pdpt) * 0x200 + p.pd) * 0x200 + p.pt
  }

  /** A canonical address is found again from its table indices, up to its page. */
  lemma PageOfIndices(a: Word)
    requires IsCanonical(a)
    ensures var k := Indices(DecomposeAddress(a));
            a / 0x1000 == if k < 0x8_0000_0000 then k else k + 0xF_FFF0_0000_0000
  {
    hide DecomposeAddress, IsCanonical;
    JoinedDecomposed(a);
    CanonicalHalves(a);
    LowPart(a);
    var p := DecomposeAddress(a);
    var k := Indices(p);
    assert Joined(p) == k * 0x1000 + p.offset;
    PageAndOffset(a, if k < 0x8_0000_0000 then k else k + 0xF_FFF0_0000_0000, p.offset);
  }

  /** Bits 47 to 0 of a canonical address. */
  lemma LowPart(a: Word)
    requires a < 0x8000_0000_0000 || WORD - 0x8000_0000_0000 <= a
    ensures a % 0x1_0000_0000_0000 == if a < 0x8000_0000_0000 then a else a - 0xFFFF_0000_0000_0000
  {}

  /** Canonical addresses share all four table indices exactly when they lie in one 4 KiB page. */
  lemma SameIndicesSamePage(a: Word, b: Word)
    requires IsCanonical(a) && IsCanonical(b)
    ensures DecomposeAddress(a).(offset := 0) == DecomposeAddress(b).(offset := 0) <==> a / 0x1000 == b / 0x1000
  {
    hide DecomposeAddress, IsCanonical;
    PageOfIndices(a);
    PageOfIndices(b);
    JoinedDecomposed(a);
    JoinedDecomposed(b);
    IndicesSpell(DecomposeAddress(a), DecomposeAddress(b));
  }

  lemma IndicesSpell(p: VirtualAddress, q: VirtualAddress)
    requires InRange(p) && InRange(q)
    ensures Indices(p) == Indices(q) <==> p.(offset := 0) == q.(offset := 0)
  {
    Digit((p.pml4 * 0x200 + p.pdpt) * 0x200 + p.pd, p.pt);
    Digit((q.pml4 * 0x200 + q.pdpt) * 0x200 + q.pd, q.pt);
    Digit(p.pml4 * 0x200 + p.pdpt, p.pd);
    Digit(q.pml4 * 0x200 + q.pdpt, q.pd);
    Digit(p.pml4, p.pdpt);
    Digit(q.pml4, q.pdpt);
  }
}
