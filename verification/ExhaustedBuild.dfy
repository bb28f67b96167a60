/** Running out of frames while a list of ranges, or the kernel's space, is built. */
module ExhaustedBuild {
  import opened Options
  import opened Bits
  import opened AddressCodec
  import opened PageTree
  import opened Mapper
  import opened Ranges
  import opened FrameAllocator
  import opened AddressSpaces
  import opened Extents
  import opened KernelSpace
  import opened Exhaustion
  import opened ExhaustedRuns
  import Spaces

  // ---------------------------------------------------------------------------
  // Lists of ranges
  // ---------------------------------------------------------------------------

  lemma ExtentClean(s: Machine, root: Frame, e: Extent)
    requires Clean(s, root) && SpaceOk(s, root) && ExtentSupplied(s, root, e)
    ensures var s' := MapExtent(s, root, e).0; Clean(s', root) && SpaceOk(s', root)
  {
    hide Agrees, MapExtent, FlatExtent, ExtentSupplied, ExtentNodes, Balanced, Tables, TreeMachine, Populated;
    FlatOfAgrees(s, root);
    ExtentRefines(s, root, FlatOf(s, root), e);
    CleanKept(s, MapExtent(s, root, e).0, root);
  }

  lemma {:induction false} ExtentsClean(s: Machine, root: Frame, es: seq<Extent>)
    requires Clean(s, root) && SpaceOk(s, root) && ExtentsSupplied(s, root, es)
    ensures var s' := MapExtents(s, root, es).0; Clean(s', root) && SpaceOk(s', root)
    decreases |es|
  {
    hide Clean, SpaceOk, ExtentSupplied, MapExtent;
    if es != [] {
      var front := es[..|es| - 1];
      ExtentsClean(s, root, front);
      var (s', ok) := MapExtents(s, root, front);
      if ok { ExtentClean(s', root, es[|es| - 1]); }
    }
  }

  lemma ExtentDryIff(s: Machine, root: Frame, e: Extent)
    requires Clean(s, root) && SpaceOk(s, root)
    ensures var s' := MapExtent(s, root, e).0;
            && (LinksZero(s'.mem, root) <==> !ExtentSupplied(s, root, e))
            && (LinksZero(s'.mem, root) ==> s'.free == {})
  {
    hide Clean, SpaceOk, LinksZero, MapUnits, UnitsSupplied, RangeArgs;
    CleanRoot(s, root);
    if PageAligned(e) {
      RangeDryIff(s, root, e.large, e.virt / PAGE_SIZE, e.phys / PAGE_SIZE, e.size / PAGE_SIZE, e.flags);
    }
  }

  /** Once frame 0 is linked, a further range call does not unlink it. */
  lemma ExtentStaysDry(s: Machine, root: Frame, e: Extent)
    requires root != 0 && LinksZero(s.mem, root) && s.free == {}
    ensures var s' := MapExtent(s, root, e).0; LinksZero(s'.mem, root) && s'.free == {}
  {
    hide LinksZero, LinksKept, MapUnits, RangeArgs;
    var v, f, n := e.virt / PAGE_SIZE, e.phys / PAGE_SIZE, e.size / PAGE_SIZE;
    UnitsKeepLinks(s, root, e.large, v, f, n, e.flags);
    ZeroPersists(s.mem, MapUnits(s, root, e.large, v, f, n, e.flags).0.mem, root);
  }

  /** A list of range calls makes frame 0 a table if and only if some call it reaches lacks a frame. */
  lemma {:induction false} ExtentsDryIff(s: Machine, root: Frame, es: seq<Extent>)
    requires Clean(s, root) && SpaceOk(s, root)
    ensures var s' := MapExtents(s, root, es).0;
            && (LinksZero(s'.mem, root) <==> !ExtentsSupplied(s, root, es))
            && (LinksZero(s'.mem, root) ==> s'.free == {})
    decreases |es|
  {
    hide Clean, SpaceOk, LinksZero, ExtentSupplied, MapExtent;
    CleanRoot(s, root);
    if es != [] {
      var front, e := es[..|es| - 1], es[|es| - 1];
      ExtentsDryIff(s, root, front);
      var (s', ok) := MapExtents(s, root, front);
      if ExtentsSupplied(s, root, front) {
        ExtentsClean(s, root, front);
        ExtentDryIff(s', root, e);
      } else {
        ExtentStaysDry(s', root, e);
      }
    }
  }

  // ---------------------------------------------------------------------------
  // The kernel's space
  // ---------------------------------------------------------------------------

  lemma FreshClean(s: Machine)
    requires s.free != {} && 0 !in s.free
    ensures var (s', root) := AllocTable(s);
            root != 0 && Clean(s', root) && SpaceOk(s', root) && !LinksZero(s'.mem, root)
  {
    hide AllocTable, Distinct, EntriesOk, UserClosed, Allocated, Populated, Agrees, Tables, TableAt;
    Spaces.FreshSpace(s);
  }

  /** The build makes frame 0 its root or one of its tables if and only if it does not find its frames:
      no frame for the root, or none for a table some call misses. */
  lemma KernelDryIff(s: Machine, regions: seq<MemoryRegion>, hhdm: Word, layout: KernelLayout)
    requires 0 !in s.free
    ensures var (s', root, _) := BuildKernel(s, regions, hhdm, layout);
            root.Some? && (root.value == 0 || LinksZero(s'.mem, root.value)) <==>
            !KernelSupplied(s, regions, hhdm, layout)
  {
    hide MapExtents, ExtentsSupplied, KernelExtents, LinksZero, Clean, SpaceOk, HighestEnd;
    if s.free != {} {
      hide AllocTable;
      FreshClean(s);
      var (s', root) := AllocTable(s);
      ExtentsDryIff(s', root, KernelExtents(regions, hhdm, layout));
    }
  }
}
