/** What init establishes and what every later run of the allocator keeps. */
module AllocatorProperties {
  import opened Options
  import opened Bits
  import opened AddressCodec
  import opened FrameAllocator

  // ---------------------------------------------------------------------------
  // The free set after init
  // ---------------------------------------------------------------------------

  /** A region that ends within the 52-bit physical address space. */
  predicate Physical(r: MemoryRegion) {
    r.base + r.length <= 0x10_0000_0000_0000
  }

  /** Frame `f` lies wholly inside the usable region `r`. */
  predicate Inside(r: MemoryRegion, f: nat) {
    r.kind.Usable? && r.base <= f * PAGE_SIZE && (f + 1) * PAGE_SIZE <= r.base + r.length
  }

  lemma RegionFramesInside(r: MemoryRegion, frames: nat, f: nat)
    requires Physical(r)
    ensures f in RegionFrames(r, frames) <==> Inside(r, f) && f < frames
  {}

  lemma {:induction false} HighestBounds(regions: seq<MemoryRegion>, i: nat)
    requires i < |regions| && regions[i].kind.Usable?
    ensures RegionEnd(regions[i]) <= HighestUsableEnd(regions)
    decreases |regions|
  {
    if i < |regions| - 1 {
      HighestBounds(regions[..|regions| - 1], i);
    }
  }

  lemma {:induction false} InUsable(regions: seq<MemoryRegion>, frames: nat, f: nat)
    ensures f in UsableFrames(regions, frames) <==>
            exists i: nat :: i < |regions| && f in RegionFrames(regions[i], frames)
    decreases |regions|
  {
    if regions != [] {
      var n := |regions| - 1;
      InUsable(regions[..n], frames, f);
      assert forall i: nat :: i < n ==> regions[..n][i] == regions[i];
      if f in UsableFrames(regions[..n], frames) {
        var i: nat :| i < n && f in RegionFrames(regions[..n][i], frames);
        assert f in RegionFrames(regions[i], frames);
      }
    }
  }

  lemma UsableBelow(regions: seq<MemoryRegion>, frames: nat, f: nat)
    requires f in UsableFrames(regions, frames)
    ensures f < frames
  {}

  lemma InsideCounted(end: Word, f: nat)
    requires end <= 0x10_0000_0000_0000 && (f + 1) * PAGE_SIZE <= end
    ensures f < FrameCountFor(end)
  {}

  lemma {:induction false} HighestPhysical(regions: seq<MemoryRegion>)
    requires forall i :: 0 <= i < |regions| ==> Physical(regions[i])
    ensures HighestUsableEnd(regions) <= 0x10_0000_0000_0000
    decreases |regions|
  {
    if regions != [] {
      var n := |regions| - 1;
      assert forall i :: 0 <= i < n ==> regions[..n][i] == regions[i];
      HighestPhysical(regions[..n]);
    }
  }

  /** After init exactly the frames wholly inside some usable region are free, less the bitmap's. */
  lemma InitialFree(regions: seq<MemoryRegion>, phys: Word, f: nat)
    requires forall i :: 0 <= i < |regions| ==> Physical(regions[i])
    ensures var frames := FrameCountFor(HighestUsableEnd(regions));
            f in InitialPool(regions, phys).free <==>
            && (exists i: nat :: i < |regions| && Inside(regions[i], f))
            && f !in BitmapFrames(phys, PagesFor(WordsFor(frames)), frames)
  {
    hide RegionFrames, FrameCountFor, UsableFrames, UsableCount, HighestUsableEnd, BitmapFrames, Inside;
    var frames := FrameCountFor(HighestUsableEnd(regions));
    InUsable(regions, frames, f);
    forall i: nat | i < |regions|
      ensures f in RegionFrames(regions[i], frames) <==> Inside(regions[i], f)
    {
      OfferedInside(regions, i, f);
    }
  }

  lemma InsideBelow(regions: seq<MemoryRegion>, i: nat, f: nat)
    requires forall i :: 0 <= i < |regions| ==> Physical(regions[i])
    requires i < |regions| && Inside(regions[i], f)
    ensures f < FrameCountFor(HighestUsableEnd(regions))
  {
    hide HighestUsableEnd, FrameCountFor, Inside;
    HighestPhysical(regions);
    InsideEnd(regions[i], f);
    HighestBounds(regions, i);
    InsideCounted(HighestUsableEnd(regions), f);
  }

  lemma InsideEnd(r: MemoryRegion, f: nat)
    requires Physical(r) && Inside(r, f)
    ensures r.kind.Usable? && (f + 1) * PAGE_SIZE <= RegionEnd(r)
  {}

  /** The same on every memory map, 64-bit arithmetic as it wraps. */
  lemma InitialFreeWrapped(regions: seq<MemoryRegion>, phys: Word, f: nat)
    ensures var p := InitialPool(regions, phys);
            var w := 0x1_0000_0000_0000_0000;
            f in p.free <==>
            && f < p.frames
            && (exists i: nat :: i < |regions| && regions[i].kind.Usable?
                  && (regions[i].base + 0xFFF) % w / 0x1000 <= f < (regions[i].base + regions[i].length) % w / 0x1000)
            && f !in BitmapFrames(phys, PagesFor(WordsFor(p.frames)), p.frames)
  {
    hide FrameCountFor, HighestUsableEnd, BitmapFrames, UsableFrames, UsableCount, WordsFor, PagesFor;
    InUsable(regions, InitialPool(regions, phys).frames, f);
  }

  // ---------------------------------------------------------------------------
  // The reservation, in bytes of the memory map
  // ---------------------------------------------------------------------------

  /** Where usable memory ends: no usable region ends later, and one ends there unless it is 0. */
  ghost predicate UsableEnd(regions: seq<MemoryRegion>, end: nat) {
    && (forall i :: 0 <= i < |regions| && regions[i].kind.Usable? ==> regions[i].base + regions[i].length <= end)
    && (end == 0 || exists i :: 0 <= i < |regions| && regions[i].kind.Usable?
                               && regions[i].base + regions[i].length == end)
  }

  lemma {:induction false} HighestAttained(regions: seq<MemoryRegion>)
    ensures HighestUsableEnd(regions) == 0 ||
            exists i :: 0 <= i < |regions| && regions[i].kind.Usable?
                        && RegionEnd(regions[i]) == HighestUsableEnd(regions)
    decreases |regions|
  {
    if regions != [] {
      var n := |regions| - 1;
      var front := regions[..n];
      HighestAttained(front);
      if HighestUsableEnd(regions) == HighestUsableEnd(front) && HighestUsableEnd(front) != 0 {
        var i :| 0 <= i < n && front[i].kind.Usable? && RegionEnd(front[i]) == HighestUsableEnd(front);
        assert regions[i] == front[i];
      } else if HighestUsableEnd(regions) != 0 {
        assert regions[n].kind.Usable? && RegionEnd(regions[n]) == HighestUsableEnd(regions);
      }
    }
  }

  lemma HighestIsEnd(regions: seq<MemoryRegion>, end: nat)
    requires forall i :: 0 <= i < |regions| ==> Physical(regions[i])
    requires UsableEnd(regions, end)
    ensures HighestUsableEnd(regions) == end
  {
    hide HighestUsableEnd;
    HighestAttained(regions);
    forall i: nat | i < |regions| && regions[i].kind.Usable?
      ensures RegionEnd(regions[i]) <= HighestUsableEnd(regions)
    {
      HighestBounds(regions, i);
    }
  }

  /** Frames are counted to the end of usable memory, rounded up; of the frames wholly inside a usable
      region exactly those are not free that init sets aside from the bitmap's base on, eight bytes of
      bitmap for every 64 frames or part of them.  If the base is aligned they are exactly the frames that
      hold a byte of the bitmap. */
  lemma ReservedBytes(regions: seq<MemoryRegion>, phys: Word, end: nat, f: nat)
    requires forall i :: 0 <= i < |regions| ==> Physical(regions[i])
    requires UsableEnd(regions, end)
    ensures var p := InitialPool(regions, phys);
            var bytes := (p.frames + 63) / 64 * 8;
            && p.frames == (end + 0xFFF) / 0x1000
            && (f in p.free ==> exists i: nat :: i < |regions| && Inside(regions[i], f))
            && ((exists i: nat :: i < |regions| && Inside(regions[i], f)) ==>
                  && (f !in p.free <==> phys / 0x1000 <= f < phys / 0x1000 + (bytes + 0xFFF) / 0x1000)
                  && (phys % 0x1000 == 0 ==>
                        (f !in p.free <==> exists a: nat :: phys <= a < phys + bytes && a / 0x1000 == f)))
  {
    hide Inside, HighestUsableEnd, UsableFrames, UsableCount, BitmapFrames, FrameCountFor, WordsFor, PagesFor;
    HighestIsEnd(regions, end);
    EndPhysical(regions, end);
    SizesFor(end);
    InitialFree(regions, phys, f);
    if exists i: nat :: i < |regions| && Inside(regions[i], f) {
      var i: nat :| i < |regions| && Inside(regions[i], f);
      InsideBelow(regions, i, f);
      var frames := FrameCountFor(end);
      InBitmap(phys, PagesFor(WordsFor(frames)), frames, f);
      if phys % 0x1000 == 0 { BytesIn(phys, (frames + 63) / 64 * 8, f); }
    }
  }

  lemma SizesFor(end: Word)
    requires end <= 0x10_0000_0000_0000
    ensures FrameCountFor(end) == (end + 0xFFF) / 0x1000
    ensures PagesFor(WordsFor(FrameCountFor(end))) == ((FrameCountFor(end) + 63) / 64 * 8 + 0xFFF) / 0x1000
  {}

  lemma InBitmap(phys: Word, pages: nat, frames: nat, f: nat)
    requires f < frames
    ensures f in BitmapFrames(phys, pages, frames) <==> phys / 0x1000 <= f < phys / 0x1000 + pages
  {}

  /** The bitmap goes to the first usable region that has its bytes in whole pages. */
  lemma BitmapRoom(regions: seq<MemoryRegion>, end: nat, i: nat)
    requires forall i :: 0 <= i < |regions| ==> Physical(regions[i])
    requires UsableEnd(regions, end)
    ensures var room := (((end + 0xFFF) / 0x1000 + 63) / 64 * 8 + 0xFFF) / 0x1000 * 0x1000;
            Places(regions, PagesFor(WordsFor(FrameCountFor(HighestUsableEnd(regions)))), i) <==>
            && i < |regions| && regions[i].kind.Usable? && regions[i].length >= room
            && forall j :: 0 <= j < i && regions[j].kind.Usable? ==> regions[j].length < room
  {
    hide HighestUsableEnd, FrameCountFor, WordsFor, PagesFor;
    HighestIsEnd(regions, end);
    EndPhysical(regions, end);
    SizesFor(end);
  }

  lemma EndPhysical(regions: seq<MemoryRegion>, end: nat)
    requires forall i :: 0 <= i < |regions| ==> Physical(regions[i])
    requires UsableEnd(regions, end)
    ensures end <= 0x10_0000_0000_0000
  {}

  lemma BytesIn(phys: nat, bytes: nat, f: nat)
    requires phys % 0x1000 == 0
    ensures (exists a: nat :: phys <= a < phys + bytes && a / 0x1000 == f) <==>
            phys / 0x1000 <= f < phys / 0x1000 + (bytes + 0xFFF) / 0x1000
  {
    if phys / 0x1000 <= f < phys / 0x1000 + (bytes + 0xFFF) / 0x1000 {
      var a := f * 0x1000;
      assert phys <= a < phys + bytes && a / 0x1000 == f;
    }
  }

  /** With no usable memory below the first page, frame 0 is never free, so an answer of 0 from
      alloc_frame always means exhaustion. */
  lemma FrameZeroUsed(regions: seq<MemoryRegion>, phys: Word)
    requires forall i :: 0 <= i < |regions| ==> Physical(regions[i])
    requires forall i :: 0 <= i < |regions| && regions[i].kind.Usable? ==> regions[i].base >= PAGE_SIZE
    ensures 0 !in InitialPool(regions, phys).free
  {
    hide InitialPool;
    InitialFree(regions, phys, 0);
  }

  // ---------------------------------------------------------------------------
  // The counter after init
  // ---------------------------------------------------------------------------

  /** No frame lies in two usable regions. */
  ghost predicate Disjoint(regions: seq<MemoryRegion>, frames: nat) {
    forall i: nat, j: nat :: i < j < |regions| ==> RegionFrames(regions[i], frames) !! RegionFrames(regions[j], frames)
  }

  lemma DisjointSplit(regions: seq<MemoryRegion>, frames: nat)
    requires regions != []
    ensures var n := |regions| - 1;
            Disjoint(regions, frames) <==>
            Disjoint(regions[..n], frames) && UsableFrames(regions[..n], frames) !! RegionFrames(regions[n], frames)
  {
    hide RegionFrames, UsableFrames;
    var n := |regions| - 1;
    var front, last := regions[..n], RegionFrames(regions[n], frames);
    assert forall i: nat :: i < n ==> front[i] == regions[i];
    forall f
      ensures f in UsableFrames(front, frames) <==> exists i: nat :: i < n && f in RegionFrames(front[i], frames)
    {
      if f >= 0 { InUsable(front, frames, f); }
    }
    if Disjoint(regions, frames) {
      forall i: nat, j: nat | i < j < n ensures RegionFrames(front[i], frames) !! RegionFrames(front[j], frames) {
        assert RegionFrames(regions[i], frames) !! RegionFrames(regions[j], frames);
      }
    } else {
      var i: nat, j: nat :|
        i < j < |regions| && !(RegionFrames(regions[i], frames) !! RegionFrames(regions[j], frames));
      if j < n {
        assert !(RegionFrames(front[i], frames) !! RegionFrames(front[j], frames));
      } else {
        var f :| f in RegionFrames(regions[i], frames) && f in last;
        assert f in RegionFrames(front[i], frames);
      }
    }
  }

  /** Summing region by region counts every frame once exactly when the regions are disjoint. */
  lemma {:induction false} CountsOnce(regions: seq<MemoryRegion>, frames: nat)
    ensures UsableCount(regions, frames) >= |UsableFrames(regions, frames)|
    ensures UsableCount(regions, frames) == |UsableFrames(regions, frames)| <==> Disjoint(regions, frames)
    decreases |regions|
  {
    hide RegionFrames, Disjoint;
    if regions == [] {
      NoRegions(frames);
    } else {
      var n := |regions| - 1;
      CountsOnce(regions[..n], frames);
      DisjointSplit(regions, frames);
      UnionSize(UsableFrames(regions[..n], frames), RegionFrames(regions[n], frames));
    }
  }

  lemma NoRegions(frames: nat)
    ensures Disjoint([], frames)
  {}

  lemma UnionSize(a: set<nat>, b: set<nat>)
    ensures |a + b| <= |a| + |b|
    ensures |a + b| == |a| + |b| <==> a !! b
  {
    assert a + b == a + (b - a);
    assert b == (b - a) + (a * b);
    assert a !! b <==> a * b == {};
  }

  lemma FreeBelow(s: set<nat>, n: nat)
    requires forall f :: f in s ==> f < n
    ensures |s| <= n
    decreases n
  {
    if n > 0 {
      var t := s - {n - 1};
      FreeBelow(t, n - 1);
      assert s <= t + {n - 1};
      assert |s| <= |t| + 1;
    } else {
      assert s == {};
    }
  }

  /** Frames the second phase counted once too often. */
  function CountedTwice(regions: seq<MemoryRegion>): nat {
    var frames := FrameCountFor(HighestUsableEnd(regions));
    CountsOnce(regions, frames);
    UsableCount(regions, frames) - |UsableFrames(regions, frames)|
  }

  /** The counter starts ahead by the frames counted twice, so it starts exact if and only if 2^64
      divides their number: if no frame lies in two usable regions, and, short of 2^64 counts, only
      then. */
  lemma InitialCount(regions: seq<MemoryRegion>, phys: Word)
    ensures var p := InitialPool(regions, phys);
            var frames := FrameCountFor(HighestUsableEnd(regions));
            && Drift(p) == CountedTwice(regions) % WORD
            && (p.count == |p.free| <==> CountedTwice(regions) % WORD == 0)
            && (Disjoint(regions, frames) ==> p.count == |p.free|)
            && (UsableCount(regions, frames) < WORD ==> (p.count == |p.free| <==> Disjoint(regions, frames)))
  {
    hide Disjoint, UsableCount, UsableFrames, FrameCountFor, BitmapFrames, Taken, Plus, Drift;
    var frames := FrameCountFor(HighestUsableEnd(regions));
    var usable, taken := UsableFrames(regions, frames), BitmapFrames(phys, PagesFor(WordsFor(frames)), frames);
    CountsOnce(regions, frames);
    forall f | f in usable ensures f < frames { UsableBelow(regions, frames, f); }
    FramesFit(HighestUsableEnd(regions));
    FreeBelow(usable, frames);
    LeftExact(frames, usable, UsableCount(regions, frames), taken);
  }

  lemma FramesFit(end: Word)
    ensures FrameCountFor(end) < WORD
  {}

  lemma LeftExact(frames: nat, usable: set<nat>, count: nat, taken: set<nat>)
    requires |usable| <= count && |usable| < WORD
    ensures var p := Taken(Pool(frames, usable, Plus(0, count)), taken);
            && Drift(p) == (count - |usable|) % WORD
            && (p.count == |p.free| <==> (count - |usable|) % WORD == 0)
  {
    var k := |usable * taken|;
    assert usable == (usable - taken) + (usable * taken);
    assert |usable - taken| == |usable| - k;
    WrapTwice(count, k, |usable| - k);
  }

  lemma WrapTwice(count: nat, k: nat, left: nat)
    requires left < WORD
    ensures var c := (count % WORD - k) % WORD;
            (c - left) % WORD == (count - k - left) % WORD && (c == left <==> (count - k - left) % WORD == 0)
  {
    var c := (count % WORD - k) % WORD;
    var q := (count % WORD - k) / WORD;
    var z := count / WORD + q;
    assert c == count - k - WORD * z;
    ModShift(c - left, z);
  }

  /** Two usable regions that overlap: one frame is counted twice, and the counter starts one ahead. */
  lemma CountedTwiceOnce()
    ensures var regions := [MemoryRegion(0x1000, 0x2000, Usable), MemoryRegion(0x2000, 0x2000, Usable)];
            var p := InitialPool(regions, 0x1000);
            Places(regions, 1, 0) && p.free == {2, 3} && p.count == 3
  {
    hide InitialPool, UsableFrames, UsableCount, HighestUsableEnd, RegionFrames, BitmapFrames, Taken;
    var first, second := MemoryRegion(0x1000, 0x2000, Usable), MemoryRegion(0x2000, 0x2000, Usable);
    TwoRegions(first, second, 4);
    SampleFrames();
    TakenFrom([first, second], 0x1000, 4);
    SamplePool();
  }

  lemma SampleFrames()
    ensures RegionFrames(MemoryRegion(0x1000, 0x2000, Usable), 4) == {1, 2}
    ensures RegionFrames(MemoryRegion(0x2000, 0x2000, Usable), 4) == {2, 3}
    ensures BitmapFrames(0x1000, 1, 4) == {1}
  {}

  lemma SamplePool()
    ensures Taken(Pool(4, {1, 2} + {2, 3}, 4), {1}) == Pool(4, {2, 3}, 3)
  {
    assert ({1, 2} + {2, 3}) * {1} == {1};
    assert ({1, 2} + {2, 3}) - {1} == {2, 3};
  }

  lemma TakenFrom(regions: seq<MemoryRegion>, phys: Word, frames: nat)
    requires frames == FrameCountFor(HighestUsableEnd(regions))
    ensures InitialPool(regions, phys) ==
            Taken(Pool(frames, UsableFrames(regions, frames), Plus(0, UsableCount(regions, frames))),
                  BitmapFrames(phys, PagesFor(WordsFor(frames)), frames))
  {}

  lemma TwoRegions(a: MemoryRegion, b: MemoryRegion, frames: nat)
    requires a.kind.Usable? && b.kind.Usable? && RegionEnd(b) >= RegionEnd(a)
    ensures HighestUsableEnd([a, b]) == RegionEnd(b)
    ensures UsableFrames([a, b], frames) == RegionFrames(a, frames) + RegionFrames(b, frames)
    ensures UsableCount([a, b], frames) == |RegionFrames(a, frames)| + |RegionFrames(b, frames)|
  {
    hide RegionFrames, RegionEnd;
    assert [a, b][..1] == [a] && [a][..0] == [];
    assert HighestUsableEnd([a]) == RegionEnd(a);
    assert UsableFrames([a], frames) == RegionFrames(a, frames);
    assert UsableCount([a], frames) == |RegionFrames(a, frames)|;
  }

  // ---------------------------------------------------------------------------
  // The bitmap's own storage
  // ---------------------------------------------------------------------------

  /** No byte of the bitmap lies in a free frame. */
  ghost predicate StorageKept(p: Pool, phys: Word, bytes: nat) {
    forall a: nat :: phys <= a < phys + bytes ==> a / PAGE_SIZE !in p.free
  }

  /** Frame `f` is cleared for some region of the memory map. */
  ghost predicate Offered(regions: seq<MemoryRegion>, frames: nat, f: nat) {
    exists i: nat :: i < |regions| && f in RegionFrames(regions[i], frames)
  }

  /** The reserved frames start at the rounded-down base, so the storage is protected exactly when it
      does not run past them into a frame the memory map offers; a page-aligned base always suffices. */
  lemma StorageKeptIff(regions: seq<MemoryRegion>, phys: Word)
    ensures var frames := FrameCountFor(HighestUsableEnd(regions));
            var words := WordsFor(frames);
            var pages := PagesFor(words);
            var p := InitialPool(regions, phys);
            && (StorageKept(p, phys, words * 8) <==>
                words == 0 || phys % PAGE_SIZE + words * 8 <= pages * PAGE_SIZE
                || !Offered(regions, frames, phys / PAGE_SIZE + pages))
            && (phys % PAGE_SIZE == 0 ==> StorageKept(p, phys, words * 8))
            && ((forall i :: 0 <= i < |regions| ==> Physical(regions[i])) ==>
                (Offered(regions, frames, phys / PAGE_SIZE + pages) <==>
                 exists i: nat :: i < |regions| && Inside(regions[i], phys / PAGE_SIZE + pages)))
  {
    hide UsableFrames, UsableCount, FrameCountFor, HighestUsableEnd, WordsFor, Inside, RegionFrames;
    var frames := FrameCountFor(HighestUsableEnd(regions));
    var words := WordsFor(frames);
    var pages := PagesFor(words);
    var p, edge := InitialPool(regions, phys), phys / PAGE_SIZE + pages;
    forall f | f in UsableFrames(regions, frames) ensures f < frames { UsableBelow(regions, frames, f); }
    StorageSpan(p, phys, words * 8, pages);
    InUsable(regions, frames, edge);
    if forall i :: 0 <= i < |regions| ==> Physical(regions[i]) {
      forall i: nat | i < |regions| ensures edge in RegionFrames(regions[i], frames) <==> Inside(regions[i], edge) {
        OfferedInside(regions, i, edge);
      }
    }
  }

  lemma OfferedInside(regions: seq<MemoryRegion>, i: nat, f: nat)
    requires forall i :: 0 <= i < |regions| ==> Physical(regions[i])
    requires i < |regions|
    ensures f in RegionFrames(regions[i], FrameCountFor(HighestUsableEnd(regions))) <==> Inside(regions[i], f)
  {
    hide HighestUsableEnd, FrameCountFor, RegionFrames, Inside;
    RegionFramesInside(regions[i], FrameCountFor(HighestUsableEnd(regions)), f);
    if Inside(regions[i], f) { InsideBelow(regions, i, f); }
  }

  /** A usable region that starts four bytes before a page boundary: the bitmap's eight bytes run into
      frame 2, which is free. */
  lemma StorageExposed()
    ensures var regions := [MemoryRegion(0x1FFC, 0x1_0000, Usable)];
            var p := InitialPool(regions, 0x1FFC);
            Places(regions, 1, 0) && 2 in p.free && !StorageKept(p, 0x1FFC, 8)
  {
    hide InitialPool, UsableFrames, UsableCount;
    var regions := [MemoryRegion(0x1FFC, 0x1_0000, Usable)];
    assert regions[..0] == [];
    assert HighestUsableEnd(regions) == 0x1_1FFC;
    var frames := FrameCountFor(HighestUsableEnd(regions));
    TakenFrom(regions, 0x1FFC, frames);
    InUsable(regions, frames, 2);
    assert 2 in RegionFrames(regions[0], frames);
    assert 2 !in BitmapFrames(0x1FFC, 1, frames);
    assert 0x2000 / PAGE_SIZE == 2;
  }

  lemma StorageSpan(p: Pool, phys: Word, bytes: nat, pages: nat)
    requires pages == (bytes + PAGE_SIZE - 1) / PAGE_SIZE
    requires forall f :: phys / PAGE_SIZE <= f < phys / PAGE_SIZE + pages ==> f !in p.free
    ensures StorageKept(p, phys, bytes) <==>
            bytes == 0 || phys % PAGE_SIZE + bytes <= pages * PAGE_SIZE || phys / PAGE_SIZE + pages !in p.free
    ensures phys % PAGE_SIZE == 0 ==> StorageKept(p, phys, bytes)
  {
    var edge := (phys / PAGE_SIZE + pages) * PAGE_SIZE;
    if bytes > 0 && phys % PAGE_SIZE + bytes > pages * PAGE_SIZE && phys / PAGE_SIZE + pages in p.free {
      assert phys <= edge < phys + bytes && edge / PAGE_SIZE == phys / PAGE_SIZE + pages;
      assert edge / PAGE_SIZE in p.free;
      assert !StorageKept(p, phys, bytes);
    } else {
      forall a: nat | phys <= a < phys + bytes ensures a / PAGE_SIZE !in p.free {
        assert phys / PAGE_SIZE <= a / PAGE_SIZE <= phys / PAGE_SIZE + pages;
        if a / PAGE_SIZE == phys / PAGE_SIZE + pages {
          assert phys % PAGE_SIZE + bytes > pages * PAGE_SIZE;
        }
      }
    }
  }

  // ---------------------------------------------------------------------------
  // Every run of requests
  // ---------------------------------------------------------------------------

  datatype Request = Take | Give(address: nat)

  /** The allocator and the frames handed out and not yet returned. */
  datatype Ledger = Ledger(pool: Pool, out: set<nat>)

  /** One request; Take answers with an address. */
  ghost function Serve(g: Ledger, r: Request): (Ledger, nat) {
    match r
    case Take =>
      var (p, a) := PoolAlloc(g.pool);
      (Ledger(p, if g.pool.free == {} then g.out else g.out + {a / PAGE_SIZE}), a)
    case Give(a) =>
      (Ledger(PoolFree(g.pool, a), g.out - {a / PAGE_SIZE}), 0)
  }

  /** Only addresses of outstanding frames are given back. */
  predicate Honest(g: Ledger, r: Request) {
    r.Give? ==> r.address % PAGE_SIZE == 0 && r.address / PAGE_SIZE in g.out
  }

  ghost predicate AllHonest(g: Ledger, rs: seq<Request>)
    decreases |rs|
  {
    rs != [] ==> Honest(g, rs[0]) && AllHonest(Serve(g, rs[0]).0, rs[1..])
  }

  ghost function ServeAll(g: Ledger, rs: seq<Request>): (Ledger, seq<nat>)
    decreases |rs|
  {
    if rs == [] then (g, []) else
    var (g', a) := Serve(g, rs[0]);
    var (g'', rest) := ServeAll(g', rs[1..]);
    (g'', [a] + rest)
  }

  /** Free and outstanding frames partition what init made free, and the counter is ahead by `drift`. */
  ghost predicate Sound(g: Ledger, initial: set<nat>, drift: Word) {
    && g.pool.free !! g.out
    && g.pool.free + g.out == initial
    && Drift(g.pool) == drift
    && (forall f :: f in initial ==> f < g.pool.frames)
    && g.pool.frames < WORD
  }

  /** Without drift the counter is the number of free frames. */
  lemma SoundCount(g: Ledger, initial: set<nat>)
    requires Sound(g, initial, 0)
    ensures g.pool.count == |g.pool.free|
  {
    FreeBelow(g.pool.free, g.pool.frames);
  }

  lemma TakeSound(g: Ledger, initial: set<nat>, drift: Word)
    requires Sound(g, initial, drift) && g.pool.free != {}
    ensures Sound(Serve(g, Take).0, initial, drift)
    ensures var f := Serve(g, Take).1 / PAGE_SIZE;
            f in g.pool.free && f !in g.out && Serve(g, Take).1 == f * PAGE_SIZE
  {
    var f := LeastOf(g.pool.free);
    assert f * PAGE_SIZE / PAGE_SIZE == f;
    MoveOut(g.pool.free, g.out, f);
    WrapStep(g.pool.count, |g.pool.free|, -1);
  }

  lemma MoveOut(free: set<nat>, out: set<nat>, f: nat)
    requires free !! out && f in free
    ensures free - {f} !! out + {f}
    ensures (free - {f}) + (out + {f}) == free + out
    ensures |free - {f}| == |free| - 1
  {}

  lemma GiveSound(g: Ledger, initial: set<nat>, drift: Word, a: nat)
    requires Sound(g, initial, drift) && Honest(g, Give(a))
    ensures Sound(Serve(g, Give(a)).0, initial, drift)
  {
    var f := a / PAGE_SIZE;
    assert f in initial;
    MoveOut(g.out, g.pool.free, f);
    assert |g.pool.free + {f}| == |g.pool.free| + 1;
    WrapStep(g.pool.count, |g.pool.free|, 1);
  }

  /** A frame that is handed out was free: it is neither reserved nor outstanding. */
  lemma ServeSound(g: Ledger, initial: set<nat>, drift: Word, r: Request)
    requires Sound(g, initial, drift) && Honest(g, r)
    ensures var (g', a) := Serve(g, r);
            && Sound(g', initial, drift)
            && (a == 0 || (a / PAGE_SIZE in initial && a / PAGE_SIZE !in g.out && a % PAGE_SIZE == 0))
  {
    hide Drift;
    if r.Give? {
      GiveSound(g, initial, drift, r.address);
    } else if g.pool.free != {} {
      TakeSound(g, initial, drift);
    }
  }

  /** No request moves the counter away from the free set, not even a stray or repeated release. */
  lemma ServeDrift(g: Ledger, r: Request)
    ensures Drift(Serve(g, r).0.pool) == Drift(g.pool)
  {
    var free, count := g.pool.free, g.pool.count;
    match r
    case Take =>
      AllocDrift(g.pool);
    case Give(a) =>
      if PoolFree(g.pool, a) != g.pool {
        assert |free + {a / PAGE_SIZE}| == |free| + 1;
        WrapStep(count, |free|, 1);
      }
  }

  /** The same over every run of requests, honest or not: a counter that starts exact stays exact. */
  lemma {:induction false} RunDrift(g: Ledger, rs: seq<Request>)
    ensures Drift(ServeAll(g, rs).0.pool) == Drift(g.pool)
    decreases |rs|
  {
    hide Drift, Serve;
    if rs != [] {
      ServeDrift(g, rs[0]);
      RunDrift(Serve(g, rs[0]).0, rs[1..]);
    }
  }

  /** A request, by address: 0 and nothing taken when no frame is free, otherwise the least free frame. */
  lemma RequestExact(p: Pool)
    ensures var (p', address) := PoolAlloc(p);
            if p.free == {} then address == 0 && p' == p
            else var f := address / 0x1000;
                 && address == f * 0x1000 && f in p.free && (forall g :: g in p.free ==> f <= g)
                 && p'.frames == p.frames && p'.free == p.free - {f} && p'.count == (p.count - 1) % WORD
  {
    if p.free != {} {
      assert LeastOf(p.free) * 0x1000 / 0x1000 == LeastOf(p.free);
    }
  }

  /** A release, by address: refused unless it names a frame that is counted and in use, and then it
      frees that frame alone. */
  lemma ReleaseExact(p: Pool, address: nat)
    ensures var f, p' := address / 0x1000, PoolFree(p, address);
            && (p' == p <==> address % 0x1000 != 0 || f >= p.frames || f in p.free)
            && (p' != p ==> p'.frames == p.frames && p'.free == p.free + {f} && p'.count == (p.count + 1) % WORD)
  {}

  /** Releasing a frame twice is releasing it once. */
  lemma ReleaseTwice(p: Pool, address: nat)
    ensures PoolFree(PoolFree(p, address), address) == PoolFree(p, address)
  {}

  /** Over every run: used frames are the reserved and the outstanding ones, no reserved frame is ever
      handed out, and the cached count never drifts further. */
  lemma {:induction false} RunSound(g: Ledger, initial: set<nat>, drift: Word, rs: seq<Request>)
    requires Sound(g, initial, drift) && AllHonest(g, rs)
    ensures var (g', answers) := ServeAll(g, rs);
            Sound(g', initial, drift) && forall a :: a in answers ==> a == 0 || a / PAGE_SIZE in initial
    decreases |rs|
  {
    hide Sound, Serve, Honest;
    if rs != [] {
      ServeSound(g, initial, drift, rs[0]);
      RunSound(Serve(g, rs[0]).0, initial, drift, rs[1..]);
    }
  }

  /** Init leaves sound books, on every memory map. */
  lemma InitSound(regions: seq<MemoryRegion>, phys: Word)
    ensures var p := InitialPool(regions, phys);
            Sound(Ledger(p, {}), p.free, CountedTwice(regions) % WORD)
  {
    hide UsableFrames, UsableCount, FrameCountFor, Drift, CountedTwice;
    InitialCount(regions, phys);
    var frames := FrameCountFor(HighestUsableEnd(regions));
    FramesFit(HighestUsableEnd(regions));
    forall f | f in UsableFrames(regions, frames) ensures f < frames { UsableBelow(regions, frames, f); }
  }

  /** From init on, whatever the memory map and the run: free and outstanding frames partition what init
      freed, every frame handed out is offered by the memory map and none of the bitmap's, and if no frame
      lies in two usable regions the counter is the number of free frames. */
  lemma RunFromInit(regions: seq<MemoryRegion>, phys: Word, rs: seq<Request>)
    requires AllHonest(Ledger(InitialPool(regions, phys), {}), rs)
    ensures var p := InitialPool(regions, phys);
            var frames := FrameCountFor(HighestUsableEnd(regions));
            var (g, answers) := ServeAll(Ledger(p, {}), rs);
            && Sound(g, p.free, CountedTwice(regions) % WORD)
            && (forall a :: a in answers && a != 0 ==>
                  && Offered(regions, frames, a / PAGE_SIZE)
                  && a / PAGE_SIZE !in BitmapFrames(phys, PagesFor(WordsFor(frames)), frames))
            && (Disjoint(regions, frames) ==> g.pool.count == |g.pool.free|)
  {
    hide ServeAll, Sound, UsableCount, UsableFrames, FrameCountFor, BitmapFrames, Disjoint, AllHonest, RegionFrames;
    var p := InitialPool(regions, phys);
    var frames := FrameCountFor(HighestUsableEnd(regions));
    var (g, answers) := ServeAll(Ledger(p, {}), rs);
    InitSound(regions, phys);
    RunSound(Ledger(p, {}), p.free, CountedTwice(regions) % WORD, rs);
    forall a | a in answers && a != 0
      ensures Offered(regions, frames, a / PAGE_SIZE)
      ensures a / PAGE_SIZE !in BitmapFrames(phys, PagesFor(WordsFor(frames)), frames)
    {
      InUsable(regions, frames, a / PAGE_SIZE);
    }
    if Disjoint(regions, frames) {
      CountsOnce(regions, frames);
      SoundCount(g, p.free);
    }
  }

  /** alloc_frame's 0 means exhaustion exactly when frame 0 itself is not the least free frame. */
  lemma ZeroMeansExhausted(p: Pool)
    ensures PoolAlloc(p).1 == 0 <==> p.free == {} || 0 in p.free
  {}

  /** Taking a frame and giving it straight back restores the pool. */
  lemma TakeThenGive(p: Pool)
    requires p.free != {} && (forall f :: f in p.free ==> f < p.frames)
    ensures var (p', a) := PoolAlloc(p); PoolFree(p', a) == p
  {}
}
