/** The physical frame allocator: boot-time construction of the bitmap, allocation by a
    word-skipping first-fit scan, and release. */
module FrameAllocator {
  import opened Options
  import opened Bits
  import opened AddressCodec
  import opened FrameBitmap

  datatype RegionType =
    Usable | Reserved | AcpiReclaimable | AcpiNvs | Bad | BootloaderReclaimable | KernelAndModules | Framebuffer

  datatype MemoryRegion = MemoryRegion(base: Word, length: Word, kind: RegionType)

  // ---------------------------------------------------------------------------
  // What the scan looks for
  // ---------------------------------------------------------------------------

  /** The abstract allocator: frames that can be taken, and the cached count of them. */
  datatype Pool = Pool(frames: nat, free: set<nat>, count: Word)

  /** Counter arithmetic wraps at 64 bits. */
  function Plus(c: Word, n: nat): Word { (c + n) % WORD }

  function Minus(c: Word, n: nat): Word { (c - n) % WORD }

  /** Frames cleared and counted one by one, whether or not they were free before. */
  ghost function Given(p: Pool, s: set<nat>): Pool {
    p.(free := p.free + s, count := Plus(p.count, |s|))
  }

  /** Frames marked used, counting off those that were free. */
  ghost function Taken(p: Pool, s: set<nat>): Pool {
    p.(free := p.free - s, count := Minus(p.count, |p.free * s|))
  }

  /** alloc_frame: the least free frame's address, or 0. */
  ghost function PoolAlloc(p: Pool): (Pool, nat) {
    if p.free == {} then (p, 0)
    else
      var f := LeastOf(p.free);
      (p.(free := p.free - {f}, count := Minus(p.count, 1)), f * PAGE_SIZE)
  }

  /** free_frame: misaligned, out-of-range and already free addresses are refused. */
  ghost function PoolFree(p: Pool, address: nat): Pool {
    var f := address / PAGE_SIZE;
    if address % PAGE_SIZE != 0 || f >= p.frames || f in p.free then p
    else p.(free := p.free + {f}, count := Plus(p.count, 1))
  }

  /** How far the counter is ahead of the free set, in 64-bit arithmetic. */
  ghost function Drift(p: Pool): Word { (p.count - |p.free|) % WORD }

  lemma ModShift(x: int, z: int)
    ensures (x + WORD * z) % WORD == x % WORD
  {}

  /** Moving the wrapped counter and the size together keeps the drift. */
  lemma WrapStep(count: Word, size: nat, step: int)
    ensures ((count + step) % WORD - (size + step)) % WORD == (count - size) % WORD
  {
    ModShift((count + step) % WORD - (size + step), (count + step) / WORD);
  }

  /** Taking a frame keeps the drift. */
  lemma AllocDrift(p: Pool)
    ensures Drift(PoolAlloc(p).0) == Drift(p)
  {
    if p.free != {} {
      assert |p.free - {LeastOf(p.free)}| == |p.free| - 1;
      WrapStep(p.count, |p.free|, -1);
    }
  }

  /** Where the direct map shows a physical address, and back. */
  function PhysicalToVirtual(offset: Word, address: Word): Word { (offset + address) % WORD }

  function VirtualToPhysical(offset: Word, address: Word): Word { (address - offset) % WORD }

  lemma DirectMapRoundTrip(offset: Word, address: Word)
    ensures VirtualToPhysical(offset, PhysicalToVirtual(offset, address)) == address
    ensures PhysicalToVirtual(offset, VirtualToPhysical(offset, address)) == address
  {
    assert PhysicalToVirtual(offset, address) ==
           if offset + address < WORD then offset + address else offset + address - WORD;
    assert VirtualToPhysical(offset, address) ==
           if address >= offset then address - offset else address - offset + WORD;
  }

  // ---------------------------------------------------------------------------
  // What init computes
  // ---------------------------------------------------------------------------

  predicate Between(lo: nat, f: nat, hi: nat) { lo <= f < hi }

  function Interval(lo: nat, hi: nat): set<nat> { set f: nat | f < hi && Between(lo, f, hi) }

  function Min(a: nat, b: nat): nat { if a < b then a else b }

  function RegionEnd(r: MemoryRegion): Word { (r.base + r.length) % WORD }

  function HighestUsableEnd(regions: seq<MemoryRegion>): Word {
    if regions == [] then 0 else
    var rest, last := HighestUsableEnd(regions[..|regions| - 1]), regions[|regions| - 1];
    if last.kind.Usable? && RegionEnd(last) > rest then RegionEnd(last) else rest
  }

  function FrameCountFor(end: Word): nat { (end + PAGE_SIZE - 1) % WORD / PAGE_SIZE }

  function WordsFor(frames: nat): nat { (frames + WORD_BITS - 1) / WORD_BITS }

  function PagesFor(words: nat): nat { (words * 8 + PAGE_SIZE - 1) / PAGE_SIZE }

  /** The frames the second phase clears for one region: start rounded up, end rounded down. */
  function RegionFrames(r: MemoryRegion, frames: nat): set<nat> {
    if !r.kind.Usable? then {} else
    Interval((r.base + PAGE_SIZE - 1) % WORD / PAGE_SIZE, Min(RegionEnd(r) / PAGE_SIZE, frames))
  }

  function UsableFrames(regions: seq<MemoryRegion>, frames: nat): set<nat> {
    if regions == [] then {} else
    UsableFrames(regions[..|regions| - 1], frames) + RegionFrames(regions[|regions| - 1], frames)
  }

  /** How often the second phase increments the counter. */
  function UsableCount(regions: seq<MemoryRegion>, frames: nat): nat {
    if regions == [] then 0 else
    UsableCount(regions[..|regions| - 1], frames) + |RegionFrames(regions[|regions| - 1], frames)|
  }

  predicate HoldsBitmap(r: MemoryRegion, pages: nat) {
    r.kind.Usable? && r.length >= pages * PAGE_SIZE
  }

  /** The frames the third phase takes back for the bitmap. */
  function BitmapFrames(phys: Word, pages: nat, frames: nat): set<nat> {
    Interval(phys / PAGE_SIZE, Min(phys / PAGE_SIZE + pages, frames))
  }

  /** The allocator after init: whole usable frames, less the bitmap's own. */
  ghost function InitialPool(regions: seq<MemoryRegion>, phys: Word): Pool {
    var frames := FrameCountFor(HighestUsableEnd(regions));
    Taken(Pool(frames, UsableFrames(regions, frames), Plus(0, UsableCount(regions, frames))),
          BitmapFrames(phys, PagesFor(WordsFor(frames)), frames))
  }

  ghost predicate PaddingUsed(words: seq<Word>, count: nat) {
    forall g: nat :: count <= g < WORD_BITS * |words| ==> !IsFree(words, g)
  }

  /** Where the bitmap goes: the first usable region long enough for it. */
  ghost predicate Places(regions: seq<MemoryRegion>, pages: nat, i: nat) {
    i < |regions| && HoldsBitmap(regions[i], pages) && forall j :: 0 <= j < i ==> !HoldsBitmap(regions[j], pages)
  }

  method FindHighestUsableEnd(regions: seq<MemoryRegion>) returns (highest: Word)
    ensures highest == HighestUsableEnd(regions)
    ensures forall i :: 0 <= i < |regions| && regions[i].kind.Usable? ==> RegionEnd(regions[i]) <= highest
    ensures highest == 0 ||
            exists i :: 0 <= i < |regions| && regions[i].kind.Usable? && RegionEnd(regions[i]) == highest
  {
    highest := 0;
    for i := 0 to |regions|
      invariant highest == HighestUsableEnd(regions[..i])
      invariant forall j :: 0 <= j < i && regions[j].kind.Usable? ==> RegionEnd(regions[j]) <= highest
      invariant highest == 0 || exists j :: 0 <= j < i && regions[j].kind.Usable? && RegionEnd(regions[j]) == highest
    {
      var region := regions[i];
      if region.kind.Usable? {
        var end := (region.base + region.length) % WORD;
        if end > highest { highest := end; }
      }
      assert regions[..i + 1][..i] == regions[..i];
    }
    assert regions[..|regions|] == regions;
  }

  method PlaceBitmap(regions: seq<MemoryRegion>, pages: nat) returns (found: bool, phys: Word)
    ensures found <==> exists i: nat :: Places(regions, pages, i)
    ensures found ==> exists i: nat :: Places(regions, pages, i) && phys == regions[i].base
  {
    found, phys := false, 0;
    for i := 0 to |regions|
      invariant forall j :: 0 <= j < i ==> !HoldsBitmap(regions[j], pages)
    {
      var region := regions[i];
      if !region.kind.Usable? { continue; }
      if region.length >= pages * PAGE_SIZE {
        assert Places(regions, pages, i);
        return true, region.base;
      }
    }
  }

  class FrameAllocator {
    var bitmap: array<Word>
    var bitmapPhys: Word
    var frameCount: nat
    var freeFrameCount: Word
    var hhdmOffset: Word

    constructor ()
      ensures Valid() && fresh(bitmap) && frameCount == 0
    {
      bitmap := new Word[0];
      bitmapPhys, frameCount, freeFrameCount, hhdmOffset := 0, 0, 0, 0;
    }

    ghost predicate Valid()
      reads this, bitmap
    {
      bitmap.Length == WordsFor(frameCount)
    }

    ghost function Abs(): Pool
      reads this, bitmap
      requires Valid()
    {
      Pool(frameCount, FreeFrames(bitmap[..], frameCount), freeFrameCount)
    }

    /** A valid frame is marked used; any other frame changes nothing. */
    method SetFrameUsed(frame: nat)
      requires Valid()
      modifies bitmap
      ensures Valid()
      ensures bitmap[..] == if frame < frameCount then SetUsed(old(bitmap[..]), frame) else old(bitmap[..])
      ensures Abs() == old(Abs()).(free := old(Abs()).free - {frame})
    {
      if frame < frameCount {
        var word, bit := frame / WORD_BITS, frame % WORD_BITS;
        FreeAfterUsed(bitmap[..], frameCount, frame);
        OrWord(bitmap[word], BitMask(bit));
        bitmap[word] := Or(bitmap[word], BitMask(bit));
        assert bitmap[..] == SetUsed(old(bitmap[..]), frame);
      }
    }

    method SetFrameFree(frame: nat)
      requires Valid()
      modifies bitmap
      ensures Valid()
      ensures bitmap[..] == if frame < frameCount then SetFree(old(bitmap[..]), frame) else old(bitmap[..])
      ensures Abs() == old(Abs()).(free := old(Abs()).free + (if frame < frameCount then {frame} else {}))
    {
      if frame < frameCount {
        var word, bit := frame / WORD_BITS, frame % WORD_BITS;
        FreeAfterFree(bitmap[..], frameCount, frame);
        AndBound(bitmap[word], Not(BitMask(bit)));
        bitmap[word] := And(bitmap[word], Not(BitMask(bit)));
        assert bitmap[..] == SetFree(old(bitmap[..]), frame);
      }
    }

    /** Body of the second phase: one valid frame is freed and counted, whatever its bit was. */
    method FreeUsable(frame: nat)
      requires Valid() && PaddingUsed(bitmap[..], frameCount)
      modifies this`freeFrameCount, bitmap
      ensures Valid() && PaddingUsed(bitmap[..], frameCount)
      ensures Abs() == if frame < frameCount then Given(old(Abs()), {frame}) else old(Abs())
    {
      if frame >= frameCount { return; }
      FreePadding(bitmap[..], frameCount, frame);
      SetFrameFree(frame);
      freeFrameCount := Plus(freeFrameCount, 1);
    }

    /** The second phase's loop over one region's frames. */
    method FreeInterval(first: nat, end: nat)
      requires Valid() && PaddingUsed(bitmap[..], frameCount)
      modifies this`freeFrameCount, bitmap
      ensures Valid() && PaddingUsed(bitmap[..], frameCount)
      ensures Abs() == Given(old(Abs()), Interval(first, Min(end, frameCount)))
    {
      hide Given, Interval, FreeFrames, PaddingUsed, WordsFor;
      ghost var before := Abs();
      var frame := first;
      IntervalEnd(first, 0, first, frameCount);
      GivenNone(before);
      while frame < end
        invariant first <= frame <= (if first < end then end else first)
        invariant Valid() && PaddingUsed(bitmap[..], frameCount)
        invariant Abs() == Given(before, Interval(first, Min(frame, frameCount)))
      {
        IntervalGrows(first, frame);
        GivenOne(before, Interval(first, frame), frame);
        FreeUsable(frame);
        frame := frame + 1;
      }
      IntervalEnd(first, end, frame, frameCount);
    }

    /** The second phase for one region: its whole frames become free. */
    method FreeRegion(region: MemoryRegion)
      requires Valid() && region.kind.Usable? && PaddingUsed(bitmap[..], frameCount)
      modifies this`freeFrameCount, bitmap
      ensures Valid() && PaddingUsed(bitmap[..], frameCount)
      ensures Abs() == Given(old(Abs()), RegionFrames(region, frameCount))
    {
      hide PaddingUsed, FreeFrames, Given;
      FreeInterval((region.base + PAGE_SIZE - 1) % WORD / PAGE_SIZE, (region.base + region.length) % WORD / PAGE_SIZE);
    }

    /** Body of the third phase: one valid frame is used, and counted off if it was free. */
    method ReserveOne(frame: nat)
      requires Valid() && PaddingUsed(bitmap[..], frameCount)
      modifies this`freeFrameCount, bitmap
      ensures Valid() && PaddingUsed(bitmap[..], frameCount)
      ensures Abs() == if frame < frameCount then Taken(old(Abs()), {frame}) else old(Abs())
    {
      if frame >= frameCount { return; }
      var word, bit := frame / WORD_BITS, frame % WORD_BITS;
      ClearMeansFree(bitmap[..], frameCount, frame);
      OneOrNone(Abs().free, frame);
      CountSteps(freeFrameCount, 0);
      if And(bitmap[word], BitMask(bit)) == 0 {
        freeFrameCount := Minus(freeFrameCount, 1);
      }
      UsedPadding(bitmap[..], frameCount, frame);
      SetFrameUsed(frame);
    }

    /** The third phase's loop. */
    method ReserveInterval(first: nat, last: nat)
      requires Valid() && PaddingUsed(bitmap[..], frameCount) && first <= last
      modifies this`freeFrameCount, bitmap
      ensures Valid() && PaddingUsed(bitmap[..], frameCount)
      ensures Abs() == Taken(old(Abs()), Interval(first, Min(last, frameCount)))
    {
      hide Taken, Interval, FreeFrames, PaddingUsed, WordsFor;
      ghost var before := Abs();
      var frame := first;
      IntervalEnd(first, 0, first, frameCount);
      TakenNone(before);
      while frame < last
        invariant first <= frame <= last
        invariant Valid() && PaddingUsed(bitmap[..], frameCount)
        invariant Abs() == Taken(before, Interval(first, Min(frame, frameCount)))
      {
        IntervalGrows(first, frame);
        TakenOne(before, Interval(first, frame), frame);
        ReserveOne(frame);
        frame := frame + 1;
      }
      IntervalEnd(first, last, frame, frameCount);
    }

    /** The third phase: the bitmap's own frames are used, and counted off if they were free. */
    method ReserveBitmap(pages: nat)
      requires Valid() && PaddingUsed(bitmap[..], frameCount)
      modifies this`freeFrameCount, bitmap
      ensures Valid() && PaddingUsed(bitmap[..], frameCount)
      ensures Abs() == Taken(old(Abs()), BitmapFrames(bitmapPhys, pages, frameCount))
    {
      hide PaddingUsed, FreeFrames, Taken;
      var first := bitmapPhys / PAGE_SIZE;
      ReserveInterval(first, first + pages);
    }

    /** The first phase: everything is used. */
    method UseAll(frames: nat)
      modifies this`bitmap, this`frameCount, this`freeFrameCount
      ensures Valid() && fresh(bitmap) && frameCount == frames
      ensures Abs() == Pool(frames, {}, 0) && PaddingUsed(bitmap[..], frameCount)
    {
      frameCount := frames;
      freeFrameCount := 0;
      bitmap := new Word[WordsFor(frames)](_ => ALL_USED);
      NoneFree(bitmap[..], frameCount);
    }

    /** The second phase: whole frames of usable regions become free. */
    method FreeRegions(regions: seq<MemoryRegion>)
      requires Valid() && PaddingUsed(bitmap[..], frameCount) && Abs() == Pool(frameCount, {}, 0)
      modifies this`freeFrameCount, bitmap
      ensures Valid() && PaddingUsed(bitmap[..], frameCount)
      ensures Abs() == Pool(frameCount, UsableFrames(regions, frameCount), Plus(0, UsableCount(regions, frameCount)))
    {
      hide Plus, PaddingUsed, FreeFrames, RegionFrames, WordsFor, UsableFrames, UsableCount;
      NoRegion(regions, frameCount);
      CountSteps(0, 0);
      for i := 0 to |regions|
        invariant Valid() && PaddingUsed(bitmap[..], frameCount)
        invariant Abs() == Pool(frameCount, UsableFrames(regions[..i], frameCount),
                                Plus(0, UsableCount(regions[..i], frameCount)))
      {
        var region := regions[i];
        NextRegion(regions, i, frameCount);
        PlusPlus(UsableCount(regions[..i], frameCount), |RegionFrames(region, frameCount)|);
        if region.kind.Usable? {
          FreeRegion(region);
        } else {
          NotUsable(region, frameCount);
        }
      }
      assert regions[..|regions|] == regions;
    }

    /** Builds the bitmap from the memory map.  Fails, where the kernel would halt, when no memory
        is usable or no usable region can hold the bitmap. */
    method Init(regions: seq<MemoryRegion>, hhdm: Word) returns (ok: bool)
      modifies this
      ensures var frames := FrameCountFor(HighestUsableEnd(regions));
              var pages := PagesFor(WordsFor(frames));
              && (ok <==> HighestUsableEnd(regions) != 0 && exists i: nat :: Places(regions, pages, i))
              && (ok ==>
                    && Valid() && fresh(bitmap) && PaddingUsed(bitmap[..], frameCount)
                    && frameCount == frames && hhdmOffset == hhdm
                    && (exists i: nat :: Places(regions, pages, i) && bitmapPhys == regions[i].base)
                    && Abs() == InitialPool(regions, bitmapPhys))
    {
      hide PaddingUsed, FreeFrames, UsableFrames, UsableCount, Taken, FrameCountFor, WordsFor, PagesFor;
      hhdmOffset := hhdm;
      var highest := FindHighestUsableEnd(regions);
      if highest == 0 { return false; }
      var frames := FrameCountFor(highest);
      var pages := PagesFor(WordsFor(frames));
      var found, phys := PlaceBitmap(regions, pages);
      if !found { return false; }
      bitmapPhys := phys;
      UseAll(frames);
      FreeRegions(regions);
      ReserveBitmap(pages);
      return true;
    }

    /** The word scan refines the linear scan: it takes the least free frame, or answers 0. */
    method AllocFrame() returns (address: nat)
      requires Valid()
      modifies this`freeFrameCount, bitmap
      ensures Valid()
      ensures (Abs(), address) == PoolAlloc(old(Abs()))
      ensures bitmap[..] == if old(Abs()).free == {} then old(bitmap[..])
                            else SetUsed(old(bitmap[..]), LeastOf(old(Abs()).free))
    {
      var wordIndex := 0;
      while wordIndex < bitmap.Length
        invariant wordIndex <= bitmap.Length
        invariant Valid() && freeFrameCount == old(freeFrameCount) && bitmap[..] == old(bitmap[..])
        invariant forall f :: f in Abs().free ==> f >= WORD_BITS * wordIndex
      {
        var word := bitmap[wordIndex];
        if word == ALL_USED {
          NoneFreeIn(bitmap[..], frameCount, wordIndex);
          wordIndex := wordIndex + 1;
          continue;
        }
        var freeBits := Not(word);
        var bit := TrailingZeros(freeBits);
        FirstFreeBit(word);
        var frame := wordIndex * WORD_BITS + bit;
        FirstFreeIn(bitmap[..], frameCount, wordIndex);
        if frame >= frameCount {
          wordIndex := wordIndex + 1;
          continue;
        }
        assert LeastOf(Abs().free) == frame;
        SetFrameUsed(frame);
        freeFrameCount := Minus(freeFrameCount, 1);
        return frame * PAGE_SIZE;
      }
      assert Abs().free == {};
      return 0;
    }

    /** Releases one frame; refused requests change nothing. */
    method FreeFrame(address: Word)
      requires Valid()
      modifies this`freeFrameCount, bitmap
      ensures Valid()
      ensures Abs() == PoolFree(old(Abs()), address)
      ensures if address % 0x1000 != 0 || address / 0x1000 >= frameCount || address / 0x1000 in old(Abs()).free
              then Abs() == old(Abs()) && bitmap[..] == old(bitmap[..])
              else && Abs().free == old(Abs()).free + {address / 0x1000}
                   && freeFrameCount == (old(freeFrameCount) + 1) % WORD
      ensures bitmap[..] == if old(Abs()) == Abs() then old(bitmap[..])
                            else SetFree(old(bitmap[..]), address / PAGE_SIZE)
    {
      if address % PAGE_SIZE != 0 { return; }
      var frame := address / PAGE_SIZE;
      if frame >= frameCount { return; }
      var word, bit := frame / WORD_BITS, frame % WORD_BITS;
      var mask := BitMask(bit);
      ClearMeansFree(bitmap[..], frameCount, frame);
      if And(bitmap[word], mask) == 0 {
        return;
      }
      FreeAfterFree(bitmap[..], frameCount, frame);
      AndBound(bitmap[word], Not(mask));
      bitmap[word] := And(bitmap[word], Not(mask));
      assert bitmap[..] == SetFree(old(bitmap[..]), frame);
      freeFrameCount := Plus(freeFrameCount, 1);
    }
  }

  // ---------------------------------------------------------------------------
  // Frame intervals and padding bits
  // ---------------------------------------------------------------------------

  lemma IntervalGrows(lo: nat, f: nat)
    requires lo <= f
    ensures Interval(lo, lo) == {}
    ensures f !in Interval(lo, f) && Interval(lo, f + 1) == Interval(lo, f) + {f}
  {}

  /** Testing a frame's bit through its mask. */
  lemma ClearMeansFree(words: seq<Word>, count: nat, frame: nat)
    requires Fits(words, count) && frame < count
    ensures And(words[frame / WORD_BITS], BitMask(frame % WORD_BITS)) == 0 <==> frame in FreeFrames(words, count)
  {
    MaskBit(frame % WORD_BITS, frame % WORD_BITS);
    TestBit(words[frame / WORD_BITS], frame % WORD_BITS);
  }

  lemma CountSteps(c: Word, n: nat)
    ensures Plus(c, 0) == c && Plus(Plus(c, n), 1) == Plus(c, n + 1)
    ensures Minus(c, 0) == c && Minus(Minus(c, n), 1) == Minus(c, n + 1)
  {
    WrapUp(c + n);
    WrapDown(c - n);
  }

  lemma WrapUp(x: int)
    ensures (x % WORD + 1) % WORD == (x + 1) % WORD
  {}

  lemma WrapDown(x: int)
    ensures (x % WORD - 1) % WORD == (x - 1) % WORD
  {}

  lemma PlusPlus(a: nat, b: nat)
    ensures Plus(Plus(0, a), b) == Plus(0, a + b) && Plus(Plus(0, a), 0) == Plus(0, a)
  {}

  lemma NoRegion(regions: seq<MemoryRegion>, frames: nat)
    ensures UsableFrames(regions[..0], frames) == {} && UsableCount(regions[..0], frames) == 0
  {}

  lemma NextRegion(regions: seq<MemoryRegion>, i: nat, frames: nat)
    requires i < |regions|
    ensures UsableFrames(regions[..i + 1], frames) ==
            UsableFrames(regions[..i], frames) + RegionFrames(regions[i], frames)
    ensures UsableCount(regions[..i + 1], frames) ==
            UsableCount(regions[..i], frames) + |RegionFrames(regions[i], frames)|
  {
    hide RegionFrames;
    assert regions[..i + 1][..i] == regions[..i];
  }

  lemma NotUsable(r: MemoryRegion, frames: nat)
    requires !r.kind.Usable?
    ensures RegionFrames(r, frames) == {}
  {}

  lemma NoneFree(words: seq<Word>, count: nat)
    requires Fits(words, count)
    requires forall i :: 0 <= i < |words| ==> words[i] == ALL_USED
    ensures FreeFrames(words, count) == {} && PaddingUsed(words, count)
  {
    forall g: nat | g < WORD_BITS * |words| ensures !IsFree(words, g) {
      OnesBit(g % WORD_BITS);
    }
  }

  lemma GivenNone(p: Pool)
    ensures Given(p, {}) == p
  {}

  lemma GivenOne(p: Pool, s: set<nat>, f: nat)
    requires f !in s
    ensures Given(p, s + {f}) == Given(Given(p, s), {f})
  {}

  lemma TakenNone(p: Pool)
    ensures Taken(p, {}) == p
  {}

  lemma OneOrNone(free: set<nat>, f: nat)
    ensures |free * {f}| == if f in free then 1 else 0
  {
    assert free * {f} == if f in free then {f} else {};
  }

  lemma TakenOne(p: Pool, s: set<nat>, f: nat)
    requires f !in s
    ensures Taken(p, s + {f}) == Taken(Taken(p, s), {f})
  {
    CountSteps(p.count, |p.free * s|);
    CountSteps(p.count, 0);
    CountSteps(Minus(p.count, |p.free * s|), 0);
    OneOrNone(p.free - s, f);
    assert p.free * (s + {f}) == (p.free * s) + ((p.free - s) * {f});
    assert p.free - (s + {f}) == (p.free - s) - {f};
  }

  lemma IntervalEnd(first: nat, end: nat, frame: nat, count: nat)
    requires frame == if first < end then end else first
    ensures Interval(first, Min(frame, count)) == Interval(first, Min(end, count))
    ensures end <= first ==> Interval(first, Min(end, count)) == {}
  {}

  lemma FreePadding(words: seq<Word>, count: nat, frame: nat)
    requires Fits(words, count) && frame < count
    ensures PaddingUsed(words, count) ==> PaddingUsed(SetFree(words, frame), count)
  {
    forall g: nat | count <= g < WORD_BITS * |words| ensures IsFree(SetFree(words, frame), g) == IsFree(words, g) {
      IsFreeAfterFree(words, frame, g);
    }
  }

  lemma UsedPadding(words: seq<Word>, count: nat, frame: nat)
    requires Fits(words, count) && frame < count
    ensures PaddingUsed(words, count) ==> PaddingUsed(SetUsed(words, frame), count)
  {
    forall g: nat | count <= g < WORD_BITS * |words| ensures IsFree(SetUsed(words, frame), g) == IsFree(words, g) {
      IsFreeAfterUsed(words, frame, g);
    }
  }

  // ---------------------------------------------------------------------------
  // Scanning one word
  // ---------------------------------------------------------------------------

  lemma NoneFreeIn(words: seq<Word>, count: nat, w: nat)
    requires Fits(words, count) && w < |words| && words[w] == ALL_USED
    requires forall f :: f in FreeFrames(words, count) ==> f >= WORD_BITS * w
    ensures forall f :: f in FreeFrames(words, count) ==> f >= WORD_BITS * (w + 1)
  {
    forall f | f in FreeFrames(words, count) ensures f >= WORD_BITS * (w + 1) {
      if f < WORD_BITS * (w + 1) {
        assert f / WORD_BITS == w;
        OnesBit(f % WORD_BITS);
      }
    }
  }

  lemma FirstFreeIn(words: seq<Word>, count: nat, w: nat)
    requires Fits(words, count) && w < |words| && words[w] != ALL_USED
    requires forall f :: f in FreeFrames(words, count) ==> f >= WORD_BITS * w
    ensures var frame := w * WORD_BITS + TrailingZeros(Not(words[w]));
            && (forall f :: f in FreeFrames(words, count) ==> f >= frame)
            && (frame < count ==> frame in FreeFrames(words, count))
            && (frame >= count ==> FreeFrames(words, count) == {})
  {
    FirstFreeBit(words[w]);
    var bit := TrailingZeros(Not(words[w]));
    var frame := w * WORD_BITS + bit;
    assert frame / WORD_BITS == w && frame % WORD_BITS == bit;
    forall f | f in FreeFrames(words, count) ensures f >= frame {
      assert IsFree(words, f);
    }
  }
}
