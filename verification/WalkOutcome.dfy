/** The mapping calls as seen by the hardware walk: exact success conditions and exact effects. */
module WalkOutcome {
  import opened Options
  import opened PageTree
  import opened Mapper
  import opened Ranges
  import opened RangeOutcome
  import Exhaustion

  lemma WalkIsLookup(s: Machine, root: Frame, flat: Flat, p: nat)
    requires SpaceOk(s, root) && Agrees(s, root, flat) && p < PAGES
    ensures Walk(s.mem, root, p) == Lookup(flat, p)
  {}

  /** map_page and map_page_large succeed exactly on valid arguments when every page of the unit is
      unmapped; they then map the unit as asked.  A refused call takes no frame; and in every case no
      other page changes its frame or its effective rights. */
  lemma UnitWalks(s: Machine, root: Frame, large: bool, v: nat, f: nat, flags: Flags)
    requires SpaceOk(s, root)
    requires UnitSupplied(s, root, large, v, f, flags)
    ensures var (s', ok) := MapUnit(s, root, large, v, f, flags);
            var block := UnitBlock(large, v, f, flags);
            && SpaceOk(s', root)
            && (ok <==> UnitArgs(large, v, f, flags) && forall p :: p in block ==> Walk(s.mem, root, p).None?)
            && (!ok ==> s'.free == s.free)
            && forall p: nat :: p < PAGES ==>
                 Walk(s'.mem, root, p) == if ok && p in block then Some(block[p]) else Walk(s.mem, root, p)
  {
    hide Walk, Agrees, SpaceOk, UnitSupplied, MapUnit, UnitArgs, PageOf;
    var flat := FlatOf(s, root);
    FlatOfAgrees(s, root);
    UnitRefines(s, root, flat, large, v, f, flags);
    var (s', ok) := MapUnit(s, root, large, v, f, flags);
    var (flat', _) := FlatUnit(flat, large, v, f, flags);
    forall p: nat | p < PAGES
      ensures Walk(s'.mem, root, p) == Lookup(flat', p) && Walk(s.mem, root, p) == Lookup(flat, p)
    {
      WalkIsLookup(s, root, flat, p);
      WalkIsLookup(s', root, flat', p);
    }
    if UnitArgs(large, v, f, flags) { BlockBound(large, v, f, flags); }
  }

  lemma BlockBound(large: bool, v: nat, f: nat, flags: Flags)
    requires UnitArgs(large, v, f, flags)
    ensures forall p :: p in UnitBlock(large, v, f, flags) ==> p < PAGES
  {}

  /** A range call maps exactly the pages before its first refused unit, and succeeds when none is
      refused; every other page keeps its frame and rights. */
  lemma RangeWalks(s: Machine, root: Frame, large: bool, v: nat, f: nat, n: nat, flags: Flags, p: nat)
    requires SpaceOk(s, root)
    requires RangeArgs(large, v, f, n) && RangeSupplied(s, root, large, v, f, n, flags)
    requires p < PAGES
    ensures var (s', ok) := MapRange(s, root, large, v, f, n, flags);
            var j := FittingPages(FlatOf(s, root), large, v, f, n, flags);
            && SpaceOk(s', root)
            && (ok <==> j == n)
            && Walk(s'.mem, root, p) ==
               if PageOf(v) <= p < PageOf(v) + j then Some(PageIn(PageOf(v), f, flags, p)) else Walk(s.mem, root, p)
  {
    hide Walk, Agrees, SpaceOk, RangeSupplied, MapRange, PageOf, RangeNodes, FittingPages, FlatRange, PageIn;
    var flat := FlatOf(s, root);
    FlatOfAgrees(s, root);
    RangeRefines(s, root, flat, large, v, f, n, flags);
    RangeAdds(flat, large, v, f, n, flags);
    WalkIsLookup(s, root, flat, p);
    WalkIsLookup(MapRange(s, root, large, v, f, n, flags).0, root, FlatRange(flat, large, v, f, n, flags).0, p);
  }

  /** A range that succeeds translates page by page, in order, with the rights asked for. */
  lemma RangeTranslates(s: Machine, root: Frame, large: bool, v: nat, f: nat, n: nat, flags: Flags, w: nat)
    requires SpaceOk(s, root)
    requires RangeSupplied(s, root, large, v, f, n, flags)
    requires MapRange(s, root, large, v, f, n, flags).1
    requires v <= w < v + n
    ensures var m := Walk(MapRange(s, root, large, v, f, n, flags).0.mem, root, PageOf(w));
            m == Some(Mapping(f + (w - v), flags.writable, flags.user, flags.noExecute, flags.attributes))
  {
    hide Walk, Agrees, SpaceOk, RangeSupplied, MapRange, RangeNodes, FittingPages, FlatRange;
    var flat := FlatOf(s, root);
    FlatOfAgrees(s, root);
    RangeRefines(s, root, flat, large, v, f, n, flags);
    RangeExact(flat, large, v, f, n, flags);
    RangeCanonical(s, root, large, v, f, n, flags, w);
    RangeWalks(s, root, large, v, f, n, flags, PageOf(w));
    RangeAdds(flat, large, v, f, n, flags);
  }

  /** 2 MiB pages refine 4 KiB pages: from one state, on arguments both accept, the two range calls agree
      on success, and where they succeed every page has the same frame and rights in both. */
  lemma LargeRefinesSmall(s: Machine, root: Frame, v: nat, f: nat, n: nat, flags: Flags)
    requires SpaceOk(s, root)
    requires RangeArgs(true, v, f, n) && !flags.huge
    requires RangeSupplied(s, root, true, v, f, n, flags) && RangeSupplied(s, root, false, v, f, n, flags)
    ensures var (s1, ok1) := MapRange(s, root, true, v, f, n, flags);
            var (s2, ok2) := MapRange(s, root, false, v, f, n, flags);
            ok1 == ok2 && (ok1 ==> forall p: nat :: p < PAGES ==> Walk(s1.mem, root, p) == Walk(s2.mem, root, p))
  {
    hide Walk, Agrees, SpaceOk, RangeSupplied, MapRange, PageOf, RangeNodes, FlatRange;
    var flat := FlatOf(s, root);
    FlatOfAgrees(s, root);
    RangeRefines(s, root, flat, true, v, f, n, flags);
    RangeRefines(s, root, flat, false, v, f, n, flags);
    RangeExact(flat, true, v, f, n, flags);
    RangeExact(flat, false, v, f, n, flags);
    var (s1, ok1) := MapRange(s, root, true, v, f, n, flags);
    var (s2, ok2) := MapRange(s, root, false, v, f, n, flags);
    if ok1 {
      forall p: nat | p < PAGES ensures Walk(s1.mem, root, p) == Walk(s2.mem, root, p) {
        WalkIsLookup(s1, root, FlatRange(flat, true, v, f, n, flags).0, p);
        WalkIsLookup(s2, root, FlatRange(flat, false, v, f, n, flags).0, p);
      }
    }
  }

  /** The table budget: with one frame free per value of the address bits from 39, 30 and, for small
      pages, 21 on, a range call, failed or not, takes no more than that, and no allocation in it runs
      dry: a space that runs without frame 0 still does. */
  lemma BudgetKept(s: Machine, root: Frame, large: bool, v: nat, f: nat, n: nat, flags: Flags)
    requires SpaceOk(s, root)
    requires Budget(large, v, n) <= |s.free|
    ensures var (s', _) := MapRange(s, root, large, v, f, n, flags);
            && SpaceOk(s', root) && s'.free <= s.free && |s.free| - |s'.free| <= Budget(large, v, n)
            && (Exhaustion.Clean(s, root) ==> Exhaustion.Clean(s', root))
  {
    hide Agrees, Populated, TreeMachine, MapRange, RangeNodes, FlatRange, Budget, TablesKept, RangeSupplied;
    RangeReserved(s, root, large, v, f, n, flags);
    FlatOfAgrees(s, root);
    RangeRefines(s, root, FlatOf(s, root), large, v, f, n, flags);
    RangeNodesBound(large, v, n);
    var s' := MapRange(s, root, large, v, f, n, flags).0;
    TakenBound(Tables(s.mem, root), Tables(s'.mem, root), RangeNodes(large, v, n));
    if Exhaustion.Clean(s, root) { Exhaustion.CleanKept(s, s', root); }
  }
}
