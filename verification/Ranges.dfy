/** Mapping calls by page number, and the flat map they refine.

    A call maps one unit, a 4 KiB or a 2 MiB page; a range is a run of units.  The flat map
    from virtual page number to mapping is the reference: a unit is added exactly when its
    arguments are valid and none of its pages is mapped. */
module Ranges {
  import opened Options
  import opened PageTree
  import opened Mapper

  const VIRTUAL_PAGES: nat := 0x10_0000_0000_0000     // 2^52: a 64-bit address divided by 4096
  const HALF: nat := 0x8_0000_0000                    // 2^35 pages: one canonical half

  /** Requested rights, decoded. */
  datatype Flags = Flags(writable: bool, user: bool, huge: bool, noExecute: bool, attributes: nat)

  /** The page of a canonical address: bits 63 to 47 of the address are equal. */
  predicate Canonical(v: nat) {
    v < HALF || VIRTUAL_PAGES - HALF <= v < VIRTUAL_PAGES
  }

  /** Bits 47 to 12 of the address, as the tables see a canonical page. */
  function PageOf(v: nat): nat {
    if v < VIRTUAL_PAGES - HALF then v else v - (VIRTUAL_PAGES - PAGES)
  }

  function UnitPages(large: bool): nat {
    if large then ENTRIES else 1
  }

  predicate Aligned(large: bool, x: nat) {
    large ==> x % ENTRIES == 0
  }

  /** The argument checks of map_page and map_page_large, for page-aligned addresses. */
  predicate UnitArgs(large: bool, v: nat, f: nat, flags: Flags) {
    && Canonical(v)
    && Aligned(large, v)
    && Aligned(large, f)
    && f < FRAMES
    && (large || !flags.huge)
  }

  /** The entry the call writes. */
  function UnitLeaf(large: bool, f: Frame, flags: Flags): Pte {
    Pte(true, flags.writable, flags.user, large, flags.noExecute, f, flags.attributes)
  }

  /** map_page, and map_page_large when `large`. */
  ghost function MapUnit(s: Machine, root: Frame, large: bool, v: nat, f: nat, flags: Flags): (Machine, bool) {
    if !UnitArgs(large, v, f, flags) then (s, false)
    else if large then MapLarge(s, root, PageOf(v) / ENTRIES, UnitLeaf(large, f, flags))
    else MapSmall(s, root, PageOf(v), UnitLeaf(large, f, flags))
  }

  // ---------------------------------------------------------------------------
  // The flat map
  // ---------------------------------------------------------------------------

  type Flat = map<nat, Mapping>

  function Lookup(flat: Flat, q: nat): Option<Mapping> {
    if q in flat then Some(flat[q]) else None
  }

  /** Page `q` of a block that starts at page `p` and frame `f`. */
  function PageIn(p: nat, f: nat, flags: Flags, q: nat): Mapping
    requires p <= q
  {
    Mapping(f + (q - p), flags.writable, flags.user, flags.noExecute, flags.attributes)
  }

  /** `n` pages from page `p` on, mapped to as many frames from frame `f` on. */
  function Block(p: nat, f: nat, n: nat, flags: Flags): Flat {
    map q: nat | p <= q < p + n :: PageIn(p, f, flags, q)
  }

  function UnitBlock(large: bool, v: nat, f: nat, flags: Flags): Flat {
    Block(PageOf(v), f, UnitPages(large), flags)
  }

  predicate UnitFits(flat: Flat, large: bool, v: nat, f: nat, flags: Flags) {
    UnitArgs(large, v, f, flags) && UnitBlock(large, v, f, flags).Keys !! flat.Keys
  }

  function FlatUnit(flat: Flat, large: bool, v: nat, f: nat, flags: Flags): (Flat, bool) {
    if UnitFits(flat, large, v, f, flags) then (flat + UnitBlock(large, v, f, flags), true)
    else (flat, false)
  }

  /** The tables say of every page what the flat map says. */
  ghost predicate Agrees(s: Machine, root: Frame, flat: Flat) {
    forall q: nat :: LeafAt(s.mem, root, q) == Lookup(flat, q)
  }

  /** The flat map a state stands for. */
  ghost function FlatOf(s: Machine, root: Frame): Flat {
    map p: nat | p < PAGES && LeafAt(s.mem, root, p).Some? :: LeafAt(s.mem, root, p).value
  }

  lemma FlatOfAgrees(s: Machine, root: Frame)
    ensures Agrees(s, root, FlatOf(s, root))
  {}

  /** Tables a unit may need. */
  function UnitPath(large: bool, v: nat): set<Node> {
    if large then LargePath(PageOf(v) / ENTRIES) else SmallPath(PageOf(v))
  }

  /** What every step of a mapping call keeps, and what it may take. */
  ghost predicate Advanced(s: Machine, s': Machine, root: Frame, nodes: set<Node>) {
    && SpaceOk(s', root)
    && Balanced(s, s', root)
    && Tables(s.mem, root) <= Tables(s'.mem, root) <= Tables(s.mem, root) + nodes
  }

  lemma UnitPageFacts(large: bool, v: nat, f: nat, flags: Flags)
    requires UnitArgs(large, v, f, flags)
    ensures PageOf(v) < PAGES
    ensures large ==> PageOf(v) == ENTRIES * (PageOf(v) / ENTRIES)
    ensures large ==> f % ENTRIES == 0
  {}

  /** A call that can go through finds a frame for every table it misses. */
  ghost predicate UnitSupplied(s: Machine, root: Frame, large: bool, v: nat, f: nat, flags: Flags) {
    UnitArgs(large, v, f, flags) && (forall q :: q in UnitBlock(large, v, f, flags) ==> LeafAt(s.mem, root, q).None?)
    ==> Enough(s, root, UnitPath(large, v))
  }

  lemma FitSupplied(s: Machine, root: Frame, flat: Flat, large: bool, v: nat, f: nat, flags: Flags)
    requires Agrees(s, root, flat) && UnitFits(flat, large, v, f, flags)
    requires UnitSupplied(s, root, large, v, f, flags)
    ensures Enough(s, root, UnitPath(large, v))
  {
    hide Enough, UnitPath, UnitBlock;
    forall q | q in UnitBlock(large, v, f, flags) ensures LeafAt(s.mem, root, q).None? {
      assert q in UnitBlock(large, v, f, flags).Keys;
    }
  }

  /** What one call, refining one step of the flat map, achieves. */
  ghost predicate UnitDone(s: Machine, s': Machine, ok: bool, root: Frame, flat': Flat, ok': bool, nodes: set<Node>) {
    && ok == ok' && Agrees(s', root, flat')
    && Advanced(s, s', root, nodes)
    && (if ok then nodes <= Tables(s'.mem, root) else s'.free == s.free)
  }

  lemma SmallUnitRefines(s: Machine, root: Frame, flat: Flat, v: nat, f: nat, flags: Flags)
    requires SpaceOk(s, root) && Agrees(s, root, flat) && UnitArgs(false, v, f, flags)
    requires UnitFits(flat, false, v, f, flags) ==> Enough(s, root, UnitPath(false, v))
    ensures var (s', ok) := MapSmall(s, root, PageOf(v), UnitLeaf(false, f, flags));
            var (flat', ok') := FlatUnit(flat, false, v, f, flags);
            UnitDone(s, s', ok, root, flat', ok', UnitPath(false, v))
  {
    hide Enough, MapSmall, SpaceOk, Balanced, Tables, LeafAt, UnitBlock, PageOf, UnitFits;
    assert PageOf(v) < PAGES by { UnitPageFacts(false, v, f, flags); }
    var leaf := UnitLeaf(false, f, flags);
    var (s', ok) := MapSmall(s, root, PageOf(v), leaf);
    SmallFits(s, root, flat, v, f, flags);
    MapSmallRefines(s, root, PageOf(v), leaf);
    if ok { SmallStep(s, s', root, flat, v, f, flags); }
  }

  lemma LargeUnitRefines(s: Machine, root: Frame, flat: Flat, v: nat, f: nat, flags: Flags)
    requires SpaceOk(s, root) && Agrees(s, root, flat) && UnitArgs(true, v, f, flags)
    requires UnitFits(flat, true, v, f, flags) ==> Enough(s, root, UnitPath(true, v))
    ensures var (s', ok) := MapLarge(s, root, PageOf(v) / ENTRIES, UnitLeaf(true, f, flags));
            var (flat', ok') := FlatUnit(flat, true, v, f, flags);
            UnitDone(s, s', ok, root, flat', ok', UnitPath(true, v))
  {
    hide Enough, MapLarge, SpaceOk, Balanced, Tables, LeafAt, UnitBlock, PageOf, UnitFits, RegionFree;
    UnitPageFacts(true, v, f, flags);
    var leaf := UnitLeaf(true, f, flags);
    var (s', ok) := MapLarge(s, root, PageOf(v) / ENTRIES, leaf);
    LargeFits(s, root, flat, v, f, flags);
    MapLargeRefines(s, root, PageOf(v) / ENTRIES, leaf);
    if ok { LargeStep(s, s', root, flat, v, f, flags); }
  }

  /** One call of map_page or map_page_large refines one step of the flat map. */
  lemma UnitRefines(s: Machine, root: Frame, flat: Flat, large: bool, v: nat, f: nat, flags: Flags)
    requires SpaceOk(s, root) && Agrees(s, root, flat)
    requires UnitSupplied(s, root, large, v, f, flags)
    ensures var (s', ok) := MapUnit(s, root, large, v, f, flags);
            var (flat', ok') := FlatUnit(flat, large, v, f, flags);
            UnitDone(s, s', ok, root, flat', ok', UnitPath(large, v))
  {
    hide UnitSupplied, Enough, Agrees, SpaceOk, Balanced, Tables, UnitPath, MapSmall, MapLarge, UnitBlock, UnitArgs;
    if UnitFits(flat, large, v, f, flags) { FitSupplied(s, root, flat, large, v, f, flags); }
    if !UnitArgs(large, v, f, flags) {
      AdvancedRefl(s, root, UnitPath(large, v));
    } else if large {
      LargeUnitRefines(s, root, flat, v, f, flags);
    } else {
      SmallUnitRefines(s, root, flat, v, f, flags);
    }
  }

  lemma SmallFits(s: Machine, root: Frame, flat: Flat, v: nat, f: nat, flags: Flags)
    requires UnitArgs(false, v, f, flags) && Agrees(s, root, flat)
    ensures LeafAt(s.mem, root, PageOf(v)).None? <==> UnitFits(flat, false, v, f, flags)
  {
    hide LeafAt;
  }

  lemma SmallStep(s: Machine, s': Machine, root: Frame, flat: Flat, v: nat, f: nat, flags: Flags)
    requires UnitArgs(false, v, f, flags) && Agrees(s, root, flat)
    requires LeafAdded(s.mem, s'.mem, root, PageOf(v), UnitLeaf(false, f, flags))
    ensures Agrees(s', root, flat + UnitBlock(false, v, f, flags))
  {
    hide LeafAt;
  }

  lemma LargeBlock(v: nat, f: nat, flags: Flags)
    requires UnitArgs(true, v, f, flags)
    ensures forall q: nat :: q in UnitBlock(true, v, f, flags) <==> q / ENTRIES == PageOf(v) / ENTRIES
    ensures forall q: nat :: q / ENTRIES == PageOf(v) / ENTRIES ==> q - PageOf(v) == q % ENTRIES
  {
    UnitPageFacts(true, v, f, flags);
  }

  lemma LargeFits(s: Machine, root: Frame, flat: Flat, v: nat, f: nat, flags: Flags)
    requires UnitArgs(true, v, f, flags) && Agrees(s, root, flat)
    ensures RegionFree(s.mem, root, PageOf(v) / ENTRIES) <==> UnitFits(flat, true, v, f, flags)
  {
    hide LeafAt, UnitBlock;
    LargeBlock(v, f, flags);
    var d, block := PageOf(v) / ENTRIES, UnitBlock(true, v, f, flags);
    if UnitFits(flat, true, v, f, flags) {
      forall q: nat | q / ENTRIES == d ensures LeafAt(s.mem, root, q).None? {
        assert q in block.Keys;
      }
    } else {
      var q :| q in block.Keys && q in flat.Keys;
      assert q / ENTRIES == d && LeafAt(s.mem, root, q).Some?;
    }
  }

  lemma LargeStep(s: Machine, s': Machine, root: Frame, flat: Flat, v: nat, f: nat, flags: Flags)
    requires UnitArgs(true, v, f, flags) && Agrees(s, root, flat)
    requires LargeAdded(s.mem, s'.mem, root, PageOf(v) / ENTRIES, UnitLeaf(true, f, flags))
    ensures Agrees(s', root, flat + UnitBlock(true, v, f, flags))
  {
    hide LeafAt, Canonical, Aligned;
    LargeBlock(v, f, flags);
  }

  // ---------------------------------------------------------------------------
  // Ranges
  // ---------------------------------------------------------------------------

  /** The argument checks of map_range and map_range_large, for `n` pages. */
  predicate RangeArgs(large: bool, v: nat, f: nat, n: nat) {
    && n != 0
    && Aligned(large, v)
    && Aligned(large, f)
    && Aligned(large, n)
    && v + n < VIRTUAL_PAGES
    && f + n < VIRTUAL_PAGES
    && Canonical(v)
    && Canonical(v + n - 1)
  }

  /** The loop over `n` pages, stopping at the first unit that is refused. */
  ghost function MapUnits(s: Machine, root: Frame, large: bool, v: nat, f: nat, n: nat, flags: Flags)
    : (Machine, bool)
    decreases n
  {
    if n < UnitPages(large) then (s, true) else
    var (s', ok) := MapUnit(s, root, large, v, f, flags);
    if !ok then (s', false)
    else MapUnits(s', root, large, v + UnitPages(large), f + UnitPages(large), n - UnitPages(large), flags)
  }

  /** map_range, and map_range_large when `large`. */
  ghost function MapRange(s: Machine, root: Frame, large: bool, v: nat, f: nat, n: nat, flags: Flags)
    : (Machine, bool)
  {
    if RangeArgs(large, v, f, n) then
      MapUnits(s, root, large, v, f, n, flags)
    else (s, false)
  }

  function FlatUnits(flat: Flat, large: bool, v: nat, f: nat, n: nat, flags: Flags): (Flat, bool)
    decreases n
  {
    if n < UnitPages(large) then (flat, true) else
    var (flat', ok) := FlatUnit(flat, large, v, f, flags);
    if !ok then (flat', false)
    else FlatUnits(flat', large, v + UnitPages(large), f + UnitPages(large), n - UnitPages(large), flags)
  }

  function FlatRange(flat: Flat, large: bool, v: nat, f: nat, n: nat, flags: Flags): (Flat, bool) {
    if RangeArgs(large, v, f, n) then
      FlatUnits(flat, large, v, f, n, flags)
    else (flat, false)
  }

  /** `nodes` holds every table a run of units may need. */
  predicate Covers(nodes: set<Node>, large: bool, v: nat, n: nat)
    decreases n
  {
    n < UnitPages(large) ||
    (UnitPath(large, v) <= nodes && Covers(nodes, large, v + UnitPages(large), n - UnitPages(large)))
  }

  lemma AdvancedRefl(s: Machine, root: Frame, nodes: set<Node>)
    requires SpaceOk(s, root)
    ensures Advanced(s, s, root, nodes)
  {}

  lemma AdvancedTrans(s: Machine, s': Machine, s'': Machine, root: Frame, nodes: set<Node>)
    requires Advanced(s, s', root, nodes) && Advanced(s', s'', root, nodes)
    ensures Advanced(s, s'', root, nodes)
  {
    hide Balanced, SpaceOk, Tables;
    BalancedTrans(s, s', s'', root);
  }

  lemma AdvancedWithin(s: Machine, s': Machine, root: Frame, a: set<Node>, b: set<Node>)
    requires Advanced(s, s', root, a) && a <= b
    ensures Advanced(s, s', root, b)
  {
    hide Balanced, SpaceOk, Tables;
  }

  /** A step confined to places with frames set aside keeps enough frames for those places. */
  lemma EnoughAdvanced(s: Machine, s': Machine, root: Frame, nodes: set<Node>)
    requires Enough(s, root, nodes) && Advanced(s, s', root, nodes)
    ensures Enough(s', root, nodes)
  {
    CountLeft(Tables(s.mem, root), Tables(s'.mem, root), nodes, |s.free|, |s'.free|);
  }

  lemma CountLeft(t: set<Node>, t': set<Node>, nodes: set<Node>, f: nat, f': nat)
    requires |nodes - t| <= f
    requires t <= t' <= t + nodes && f' + |t'| == f + |t|
    ensures |nodes - t'| <= f'
  {
    assert t' == t + (t' - t);
    assert nodes - t == (nodes - t') + (t' - t);
  }

  lemma TakenBound(t: set<Node>, t': set<Node>, nodes: set<Node>)
    requires t <= t' <= t + nodes
    ensures |t'| <= |t| + |nodes|
  {
    assert t' == t + (t' - t);
    assert nodes == (t' - t) + (nodes - (t' - t));
  }

  lemma TakenAtMost(s: Machine, s': Machine, root: Frame, nodes: set<Node>)
    requires Advanced(s, s', root, nodes)
    ensures |s.free| <= |s'.free| + |nodes|
  {
    hide SpaceOk, TablesKept, Confined;
    TakenBound(Tables(s.mem, root), Tables(s'.mem, root), nodes);
  }

  /** Every unit the loop reaches is supplied. */
  ghost predicate UnitsSupplied(s: Machine, root: Frame, large: bool, v: nat, f: nat, n: nat, flags: Flags)
    decreases n
  {
    n < UnitPages(large) ||
    (&& UnitSupplied(s, root, large, v, f, flags)
     && var (s', ok) := MapUnit(s, root, large, v, f, flags);
        ok ==> UnitsSupplied(s', root, large, v + UnitPages(large), f + UnitPages(large), n - UnitPages(large), flags))
  }

  ghost predicate RangeSupplied(s: Machine, root: Frame, large: bool, v: nat, f: nat, n: nat, flags: Flags) {
    RangeArgs(large, v, f, n) ==> UnitsSupplied(s, root, large, v, f, n, flags)
  }

  /** A run of calls refines the same run on the flat map. */
  lemma {:induction false} UnitsRefine(s: Machine, root: Frame, flat: Flat, large: bool, v: nat, f: nat,
                                       n: nat, flags: Flags, nodes: set<Node>)
    requires SpaceOk(s, root) && Agrees(s, root, flat)
    requires UnitsSupplied(s, root, large, v, f, n, flags) && Covers(nodes, large, v, n)
    ensures var (s', ok) := MapUnits(s, root, large, v, f, n, flags);
            var (flat', ok') := FlatUnits(flat, large, v, f, n, flags);
            && ok == ok' && Agrees(s', root, flat') && Advanced(s, s', root, nodes)
            && (ok ==> Covers(Tables(s'.mem, root), large, v, n))
    decreases n
  {
    hide FlatUnit, MapUnit, UnitPath, SpaceOk, Agrees, Balanced, Tables, UnitSupplied;
    AdvancedRefl(s, root, nodes);
    if n >= UnitPages(large) {
      var u := UnitPages(large);
      UnitRefines(s, root, flat, large, v, f, flags);
      var (s1, ok1) := MapUnit(s, root, large, v, f, flags);
      AdvancedWithin(s, s1, root, UnitPath(large, v), nodes);
      if ok1 {
        var (flat1, _) := FlatUnit(flat, large, v, f, flags);
        UnitsRefine(s1, root, flat1, large, v + u, f + u, n - u, flags, nodes);
        var (s2, _) := MapUnits(s1, root, large, v + u, f + u, n - u, flags);
        AdvancedTrans(s, s1, s2, root, nodes);
      }
    }
  }

  /** Frames set aside for every table of the run supply all its units. */
  lemma {:induction false} UnitsReserved(s: Machine, root: Frame, large: bool, v: nat, f: nat, n: nat, flags: Flags,
                                         nodes: set<Node>)
    requires SpaceOk(s, root) && Covers(nodes, large, v, n) && Enough(s, root, nodes)
    ensures UnitsSupplied(s, root, large, v, f, n, flags)
    decreases n
  {
    hide FlatUnit, MapUnit, UnitPath, SpaceOk, Agrees, Balanced, Tables, Enough;
    if n >= UnitPages(large) {
      var u := UnitPages(large);
      EnoughSubset(s, root, UnitPath(large, v), nodes);
      FlatOfAgrees(s, root);
      UnitRefines(s, root, FlatOf(s, root), large, v, f, flags);
      var (s1, ok1) := MapUnit(s, root, large, v, f, flags);
      AdvancedWithin(s, s1, root, UnitPath(large, v), nodes);
      EnoughAdvanced(s, s1, root, nodes);
      UnitsReserved(s1, root, large, v + u, f + u, n - u, flags, nodes);
    }
  }

  // ---------------------------------------------------------------------------
  // Table budget
  // ---------------------------------------------------------------------------

  /** Number of the table at `level` that serves raw pages `r` * 512^level on. */
  function Fold(level: nat, r: nat): nat
    requires 1 <= level <= 3
  {
    var (top, gap) :=
      if level == 1 then ((VIRTUAL_PAGES - HALF) / 0x200, (VIRTUAL_PAGES - PAGES) / 0x200)
      else if level == 2 then ((VIRTUAL_PAGES - HALF) / 0x4_0000, (VIRTUAL_PAGES - PAGES) / 0x4_0000)
      else ((VIRTUAL_PAGES - HALF) / 0x800_0000, (VIRTUAL_PAGES - PAGES) / 0x800_0000);
    if r < top then r else r - gap
  }

  lemma FoldsPage(v: nat)
    ensures PageOf(v) / ENTRIES == Fold(1, v / ENTRIES)
    ensures PageOf(v) / ENTRIES / ENTRIES == Fold(2, v / ENTRIES / ENTRIES)
    ensures PageOf(v) / ENTRIES / ENTRIES / ENTRIES == Fold(3, v / ENTRIES / ENTRIES / ENTRIES)
  {
    hide PageOf, Fold;
    FoldTables(v);
    FoldDirectories(v / ENTRIES);
    FoldPointers(v / ENTRIES / ENTRIES);
  }

  lemma FoldTables(v: nat)
    ensures PageOf(v) / ENTRIES == Fold(1, v / ENTRIES)
  {
    Below(v, (VIRTUAL_PAGES - HALF) / 0x200);
    if v >= VIRTUAL_PAGES - HALF { Shifted(v, (VIRTUAL_PAGES - PAGES) / 0x200); }
  }

  lemma FoldDirectories(r: nat)
    ensures Fold(1, r) / ENTRIES == Fold(2, r / ENTRIES)
  {
    Below(r, (VIRTUAL_PAGES - HALF) / 0x4_0000);
    if r >= (VIRTUAL_PAGES - HALF) / 0x200 { Shifted(r, (VIRTUAL_PAGES - PAGES) / 0x4_0000); }
  }

  lemma FoldPointers(r: nat)
    ensures Fold(2, r) / ENTRIES == Fold(3, r / ENTRIES)
  {
    Below(r, (VIRTUAL_PAGES - HALF) / 0x800_0000);
    if r >= (VIRTUAL_PAGES - HALF) / 0x4_0000 { Shifted(r, (VIRTUAL_PAGES - PAGES) / 0x800_0000); }
  }

  lemma Below(x: nat, c: nat)
    ensures x / ENTRIES < c <==> x < ENTRIES * c
  {}

  lemma Shifted(x: nat, c: nat)
    requires x >= ENTRIES * c
    ensures (x - ENTRIES * c) / ENTRIES == x / ENTRIES - c
  {}

  function LevelNodes(level: nat, lo: nat, hi: nat): set<Node>
    requires 1 <= level <= 3
  {
    set r: nat | lo <= r <= hi :: Node(level, Fold(level, r))
  }

  lemma {:induction false} LevelNodesBound(level: nat, lo: nat, hi: nat)
    requires 1 <= level <= 3 && lo <= hi
    ensures |LevelNodes(level, lo, hi)| <= hi - lo + 1
    decreases hi - lo
  {
    if lo == hi {
      assert LevelNodes(level, lo, hi) == {Node(level, Fold(level, lo))};
    } else {
      LevelNodesBound(level, lo, hi - 1);
      assert LevelNodes(level, lo, hi) == LevelNodes(level, lo, hi - 1) + {Node(level, Fold(level, hi))};
    }
  }

  /** Every table a range of `n` pages may need. */
  function RangeNodes(large: bool, v: nat, n: nat): set<Node> {
    if n == 0 then {} else
    var w := v + n - 1;
    LevelNodes(3, v / ENTRIES / ENTRIES / ENTRIES, w / ENTRIES / ENTRIES / ENTRIES)
    + LevelNodes(2, v / ENTRIES / ENTRIES, w / ENTRIES / ENTRIES)
    + if large then {} else LevelNodes(1, v / ENTRIES, w / ENTRIES)
  }

  /** Address bits from 39, 30 and, for small pages, 21 on: one table per value. */
  function Budget(large: bool, v: nat, n: nat): nat {
    if n == 0 then 0 else
    var w := v + n - 1;
    (w / ENTRIES / ENTRIES / ENTRIES - v / ENTRIES / ENTRIES / ENTRIES + 1)
    + (w / ENTRIES / ENTRIES - v / ENTRIES / ENTRIES + 1)
    + if large then 0 else w / ENTRIES - v / ENTRIES + 1
  }

  lemma RangeNodesBound(large: bool, v: nat, n: nat)
    ensures |RangeNodes(large, v, n)| <= Budget(large, v, n)
  {
    hide LevelNodes, Fold;
    if n == 0 { return; }
    var w := v + n - 1;
    LevelNodesBound(3, v / ENTRIES / ENTRIES / ENTRIES, w / ENTRIES / ENTRIES / ENTRIES);
    LevelNodesBound(2, v / ENTRIES / ENTRIES, w / ENTRIES / ENTRIES);
    LevelNodesBound(1, v / ENTRIES, w / ENTRIES);
    UnionBound(LevelNodes(3, v / ENTRIES / ENTRIES / ENTRIES, w / ENTRIES / ENTRIES / ENTRIES),
               LevelNodes(2, v / ENTRIES / ENTRIES, w / ENTRIES / ENTRIES),
               if large then {} else LevelNodes(1, v / ENTRIES, w / ENTRIES));
  }

  /** No two values share a table. */
  ghost predicate FoldsOnce(level: nat, lo: nat, hi: nat)
    requires 1 <= level <= 3
  {
    forall q: nat, r: nat :: lo <= q < r <= hi ==> Fold(level, q) != Fold(level, r)
  }

  lemma {:induction false} LevelNodesExact(level: nat, lo: nat, hi: nat)
    requires 1 <= level <= 3 && lo <= hi
    requires FoldsOnce(level, lo, hi)
    ensures |LevelNodes(level, lo, hi)| == hi - lo + 1
    decreases hi - lo
  {
    hide Fold;
    if lo == hi {
      assert LevelNodes(level, lo, hi) == {Node(level, Fold(level, lo))};
    } else {
      LevelNodesExact(level, lo, hi - 1);
      assert LevelNodes(level, lo, hi) == LevelNodes(level, lo, hi - 1) + {Node(level, Fold(level, hi))};
      assert Node(level, Fold(level, hi)) !in LevelNodes(level, lo, hi - 1);
    }
  }

  /** In one canonical half the budget is exactly the number of tables. */
  lemma BudgetExact(large: bool, v: nat, n: nat)
    requires v + n <= HALF || VIRTUAL_PAGES - HALF <= v
    ensures |RangeNodes(large, v, n)| == Budget(large, v, n)
  {
    hide LevelNodes, Fold, FoldsOnce;
    if n > 0 {
      var w := v + n - 1;
      var a3, b3 := v / ENTRIES / ENTRIES / ENTRIES, w / ENTRIES / ENTRIES / ENTRIES;
      var a2, b2 := v / ENTRIES / ENTRIES, w / ENTRIES / ENTRIES;
      var a1, b1 := v / ENTRIES, w / ENTRIES;
      FoldsApart(v, w);
      LevelNodesExact(3, a3, b3);
      LevelNodesExact(2, a2, b2);
      LevelNodesExact(1, a1, b1);
      LevelsApart(a3, b3, a2, b2, a1, b1);
    }
  }

  lemma FoldsApart(v: nat, w: nat)
    requires v <= w && (w < HALF || VIRTUAL_PAGES - HALF <= v)
    ensures FoldsOnce(1, v / ENTRIES, w / ENTRIES)
    ensures FoldsOnce(2, v / ENTRIES / ENTRIES, w / ENTRIES / ENTRIES)
    ensures FoldsOnce(3, v / ENTRIES / ENTRIES / ENTRIES, w / ENTRIES / ENTRIES / ENTRIES)
  {}

  lemma LevelsApart(a3: nat, b3: nat, a2: nat, b2: nat, a1: nat, b1: nat)
    ensures |LevelNodes(3, a3, b3) + LevelNodes(2, a2, b2) + {}| ==
            |LevelNodes(3, a3, b3)| + |LevelNodes(2, a2, b2)|
    ensures |LevelNodes(3, a3, b3) + LevelNodes(2, a2, b2) + LevelNodes(1, a1, b1)| ==
            |LevelNodes(3, a3, b3)| + |LevelNodes(2, a2, b2)| + |LevelNodes(1, a1, b1)|
  {
    hide Fold;
    var a, b, c := LevelNodes(3, a3, b3), LevelNodes(2, a2, b2), LevelNodes(1, a1, b1);
    assert a !! b && (a + b) !! c;
    assert a + b + {} == a + b;
  }

  lemma UnionBound(a: set<Node>, b: set<Node>, c: set<Node>)
    ensures |a + b + c| <= |a| + |b| + |c|
  {}

  lemma UnitPathInRange(large: bool, v: nat, n: nat, w: nat)
    requires v <= w < v + n
    ensures UnitPath(large, w) <= RangeNodes(large, v, n)
  {
    FoldsPage(w);
    var z := v + n - 1;
    assert Node(3, Fold(3, w / ENTRIES / ENTRIES / ENTRIES)) in
           LevelNodes(3, v / ENTRIES / ENTRIES / ENTRIES, z / ENTRIES / ENTRIES / ENTRIES);
    assert Node(2, Fold(2, w / ENTRIES / ENTRIES)) in LevelNodes(2, v / ENTRIES / ENTRIES, z / ENTRIES / ENTRIES);
    assert Node(1, Fold(1, w / ENTRIES)) in LevelNodes(1, v / ENTRIES, z / ENTRIES);
  }

  lemma {:induction false} RangeCovers(large: bool, v: nat, n: nat, w: nat, m: nat)
    requires v <= w && w + m <= v + n
    ensures Covers(RangeNodes(large, v, n), large, w, m)
    decreases m
  {
    hide RangeNodes, UnitPath;
    if m >= UnitPages(large) {
      UnitPathInRange(large, v, n, w);
      RangeCovers(large, v, n, w + UnitPages(large), m - UnitPages(large));
    }
  }

  /** Frames for the tables of the range supply it; so does a free set the size of its budget. */
  lemma RangeReserved(s: Machine, root: Frame, large: bool, v: nat, f: nat, n: nat, flags: Flags)
    requires SpaceOk(s, root)
    requires Enough(s, root, RangeNodes(large, v, n)) || Budget(large, v, n) <= |s.free|
    ensures RangeSupplied(s, root, large, v, f, n, flags)
  {
    hide RangeNodes, SpaceOk, Tables, UnitsSupplied, Budget;
    var nodes, t := RangeNodes(large, v, n), Tables(s.mem, root);
    RangeNodesBound(large, v, n);
    assert nodes == (nodes - t) + (nodes * t);
    RangeCovers(large, v, n, v, n);
    UnitsReserved(s, root, large, v, f, n, flags, nodes);
  }

  lemma {:induction false} CoveredUnit(nodes: set<Node>, large: bool, v: nat, n: nat, w: nat)
    requires Covers(nodes, large, v, n) && Aligned(large, v) && Aligned(large, n) && Aligned(large, w)
    requires v <= w < v + n
    ensures UnitPath(large, w) <= nodes
    decreases n
  {
    hide UnitPath;
    if w != v {
      CoveredUnit(nodes, large, v + UnitPages(large), n - UnitPages(large), w);
    }
  }

  /** The unit that needs table `r` of a level: the first page under it, or the start of the range. */
  lemma FirstUnder(large: bool, v: nat, z: nat, level: nat, r: nat) returns (w: nat)
    requires v <= z && Aligned(large, v) && 1 <= level <= 3
    requires level == 1 ==> v / ENTRIES <= r <= z / ENTRIES
    requires level == 2 ==> v / ENTRIES / ENTRIES <= r <= z / ENTRIES / ENTRIES
    requires level == 3 ==> v / ENTRIES / ENTRIES / ENTRIES <= r <= z / ENTRIES / ENTRIES / ENTRIES
    ensures v <= w <= z && Aligned(large, w)
    ensures level == 1 ==> w / ENTRIES == r
    ensures level == 2 ==> w / ENTRIES / ENTRIES == r
    ensures level == 3 ==> w / ENTRIES / ENTRIES / ENTRIES == r
  {
    var first := r * (if level == 1 then 0x200 else if level == 2 then 0x4_0000 else 0x800_0000);
    w := if first < v then v else first;
  }

  /** A level of the range lies in whatever covers all its units. */
  lemma LevelCovered(nodes: set<Node>, large: bool, v: nat, n: nat, level: nat, lo: nat, hi: nat)
    requires Covers(nodes, large, v, n) && Aligned(large, v) && Aligned(large, n) && n > 0
    requires 1 <= level <= 3 && (level == 1 ==> !large)
    requires var z := v + n - 1;
             (lo, hi) == if level == 1 then (v / ENTRIES, z / ENTRIES)
                         else if level == 2 then (v / ENTRIES / ENTRIES, z / ENTRIES / ENTRIES)
                         else (v / ENTRIES / ENTRIES / ENTRIES, z / ENTRIES / ENTRIES / ENTRIES)
    ensures LevelNodes(level, lo, hi) <= nodes
  {
    hide Covers, Fold, PageOf;
    forall r: nat | lo <= r <= hi ensures Node(level, Fold(level, r)) in nodes {
      var w := FirstUnder(large, v, v + n - 1, level, r);
      CoveredUnit(nodes, large, v, n, w);
      FoldsPage(w);
      assert Node(level, Fold(level, r)) in UnitPath(large, w);
    }
  }

  /** What covers all units of a range holds all its tables. */
  lemma RangeCovered(nodes: set<Node>, large: bool, v: nat, n: nat)
    requires Covers(nodes, large, v, n) && Aligned(large, v) && Aligned(large, n)
    ensures RangeNodes(large, v, n) <= nodes
  {
    hide Covers, LevelNodes, Aligned;
    if n > 0 {
      var z := v + n - 1;
      LevelCovered(nodes, large, v, n, 3, v / ENTRIES / ENTRIES / ENTRIES, z / ENTRIES / ENTRIES / ENTRIES);
      LevelCovered(nodes, large, v, n, 2, v / ENTRIES / ENTRIES, z / ENTRIES / ENTRIES);
      if !large { LevelCovered(nodes, large, v, n, 1, v / ENTRIES, z / ENTRIES); }
    }
  }

  /** map_range and map_range_large refine the flat map, adding only tables of their range, and all of
      them when they succeed. */
  lemma RangeRefines(s: Machine, root: Frame, flat: Flat, large: bool, v: nat, f: nat, n: nat, flags: Flags)
    requires SpaceOk(s, root) && Agrees(s, root, flat)
    requires RangeSupplied(s, root, large, v, f, n, flags)
    ensures var (s', ok) := MapRange(s, root, large, v, f, n, flags);
            var (flat', ok') := FlatRange(flat, large, v, f, n, flags);
            && ok == ok' && Agrees(s', root, flat')
            && Advanced(s, s', root, RangeNodes(large, v, n))
            && (ok ==> Tables(s'.mem, root) == Tables(s.mem, root) + RangeNodes(large, v, n))
  {
    hide RangeNodes, SpaceOk, Agrees, Balanced, Tables, MapUnits, FlatUnits, UnitsSupplied;
    var nodes := RangeNodes(large, v, n);
    AdvancedRefl(s, root, nodes);
    RangeCovers(large, v, n, v, n);
    if RangeArgs(large, v, f, n) {
      UnitsRefine(s, root, flat, large, v, f, n, flags, nodes);
      var (s', ok) := MapUnits(s, root, large, v, f, n, flags);
      if ok { RangeCovered(Tables(s'.mem, root), large, v, n); }
    }
  }

  /** A step that added exactly `nodes` had the frames for them. */
  lemma AddedWithFrames(s: Machine, s': Machine, root: Frame, nodes: set<Node>)
    requires Balanced(s, s', root) && Tables(s'.mem, root) == Tables(s.mem, root) + nodes
    ensures Enough(s, root, nodes)
  {
    hide Tables, TablesKept, Confined;
    var t := Tables(s.mem, root);
    assert t + nodes == t + (nodes - t);
  }
}
