/** Lists of address ranges mapped one after the other into one space. */
module Extents {
  import opened Options
  import opened Bits
  import opened AddressCodec
  import opened PageTree
  import opened Mapper
  import opened Ranges
  import opened RangeOutcome
  import opened AddressSpaces

  /** The arguments of one map_range or map_range_large call. */
  datatype Extent = Extent(large: bool, virt: Word, phys: Word, size: Word, flags: Flags)

  ghost function MapExtent(s: Machine, root: Frame, e: Extent): (Machine, bool) {
    MapRangeAt(s, Some(root), e.large, e.virt, e.phys, e.size, e.flags)
  }

  predicate PageAligned(e: Extent) {
    e.virt % PAGE_SIZE == 0 && e.phys % PAGE_SIZE == 0 && e.size % PAGE_SIZE == 0
  }

  function FlatExtent(flat: Flat, e: Extent): (Flat, bool) {
    if !PageAligned(e) then (flat, false)
    else FlatRange(flat, e.large, e.virt / PAGE_SIZE, e.phys / PAGE_SIZE, e.size / PAGE_SIZE, e.flags)
  }

  /** Calls in order, stopping at the first that fails. */
  ghost function MapExtents(s: Machine, root: Frame, es: seq<Extent>): (Machine, bool) {
    if es == [] then (s, true) else
    var (s', ok) := MapExtents(s, root, es[..|es| - 1]);
    if !ok then (s', false) else MapExtent(s', root, es[|es| - 1])
  }

  function FlatExtents(es: seq<Extent>): (Flat, bool) {
    if es == [] then (map[], true) else
    var (flat, ok) := FlatExtents(es[..|es| - 1]);
    if !ok then (flat, false) else FlatExtent(flat, es[|es| - 1])
  }

  // ---------------------------------------------------------------------------
  // Frames
  // ---------------------------------------------------------------------------

  /** The call passes its checks of alignment, wrap-around and canonical ends. */
  predicate Checked(e: Extent) {
    PageAligned(e) && RangeArgs(e.large, e.virt / PAGE_SIZE, e.phys / PAGE_SIZE, e.size / PAGE_SIZE)
  }

  /** The tables one call may need, and those of a list of calls; a call whose checks fail needs none. */
  function ExtentNodes(e: Extent): set<Node> {
    if Checked(e) then RangeNodes(e.large, e.virt / PAGE_SIZE, e.size / PAGE_SIZE) else {}
  }

  function ExtentsNodes(es: seq<Extent>): set<Node> {
    if es == [] then {} else ExtentsNodes(es[..|es| - 1]) + ExtentNodes(es[|es| - 1])
  }

  /** Every unit the call reaches finds its frames. */
  ghost predicate ExtentSupplied(s: Machine, root: Frame, e: Extent) {
    PageAligned(e) ==>
      RangeSupplied(s, root, e.large, e.virt / PAGE_SIZE, e.phys / PAGE_SIZE, e.size / PAGE_SIZE, e.flags)
  }

  /** Every call of the list finds its frames in the state it meets. */
  ghost predicate ExtentsSupplied(s: Machine, root: Frame, es: seq<Extent>) {
    es == [] ||
    (&& ExtentsSupplied(s, root, es[..|es| - 1])
     && var (s', ok) := MapExtents(s, root, es[..|es| - 1]);
        ok ==> ExtentSupplied(s', root, es[|es| - 1]))
  }

  /** An upper bound of the frames, by address bits: every call is charged for all its tables. */
  function ExtentCost(e: Extent): nat {
    if Checked(e) then Budget(e.large, e.virt / PAGE_SIZE, e.size / PAGE_SIZE) else 0
  }

  function ExtentsCost(es: seq<Extent>): nat {
    if es == [] then 0 else ExtentsCost(es[..|es| - 1]) + ExtentCost(es[|es| - 1])
  }

  lemma {:induction false} ExtentsNodesBound(es: seq<Extent>)
    ensures |ExtentsNodes(es)| <= ExtentsCost(es)
    decreases |es|
  {
    hide RangeNodes, Budget, Checked;
    if es != [] {
      var front, e := es[..|es| - 1], es[|es| - 1];
      ExtentsNodesBound(front);
      RangeNodesBound(e.large, e.virt / PAGE_SIZE, e.size / PAGE_SIZE);
      UnionBound(ExtentsNodes(front), ExtentNodes(e), {});
      assert ExtentsNodes(front) + ExtentNodes(e) + {} == ExtentsNodes(es);
    }
  }

  // ---------------------------------------------------------------------------
  // Refinement
  // ---------------------------------------------------------------------------

  /** What calls that found their frames achieve: they stay within `nodes`, and fill it if they succeed. */
  ghost predicate Built(s: Machine, s': Machine, root: Frame, nodes: set<Node>, ok: bool) {
    && Advanced(s, s', root, nodes)
    && (ok ==> Tables(s'.mem, root) == Tables(s.mem, root) + nodes)
  }

  lemma ExtentRefines(s: Machine, root: Frame, flat: Flat, e: Extent)
    requires SpaceOk(s, root) && Agrees(s, root, flat)
    requires ExtentSupplied(s, root, e)
    ensures var (s', ok) := MapExtent(s, root, e);
            var (flat', ok') := FlatExtent(flat, e);
            ok == ok' && Agrees(s', root, flat') && Built(s, s', root, ExtentNodes(e), ok)
  {
    hide SpaceOk, Agrees, RangeNodes, MapUnits, FlatUnits, Tables, RangeSupplied, Balanced;
    AdvancedRefl(s, root, {});
    if PageAligned(e) {
      RangeRefines(s, root, flat, e.large, e.virt / PAGE_SIZE, e.phys / PAGE_SIZE, e.size / PAGE_SIZE, e.flags);
    }
  }

  lemma BuiltTrans(s: Machine, s1: Machine, s2: Machine, root: Frame, a: set<Node>, b: set<Node>, ok: bool)
    requires Built(s, s1, root, a, true) && Built(s1, s2, root, b, ok)
    ensures Built(s, s2, root, a + b, ok)
  {
    hide SpaceOk, Balanced, Tables;
    AdvancedWithin(s, s1, root, a, a + b);
    AdvancedWithin(s1, s2, root, b, a + b);
    AdvancedTrans(s, s1, s2, root, a + b);
  }

  lemma BuiltMore(s: Machine, s': Machine, root: Frame, a: set<Node>, b: set<Node>)
    requires Built(s, s', root, a, false)
    ensures Built(s, s', root, a + b, false)
  {
    hide SpaceOk, Balanced, Tables;
    AdvancedWithin(s, s', root, a, a + b);
  }

  /** A list of calls that find their frames refines the flat map, adding only tables of its ranges, and
      all of them when it succeeds. */
  lemma {:induction false} ExtentsRefine(s: Machine, root: Frame, es: seq<Extent>)
    requires SpaceOk(s, root) && Agrees(s, root, map[])
    requires ExtentsSupplied(s, root, es)
    ensures var (s', ok) := MapExtents(s, root, es);
            var (flat', ok') := FlatExtents(es);
            ok == ok' && Agrees(s', root, flat') && Built(s, s', root, ExtentsNodes(es), ok)
    decreases |es|
  {
    hide SpaceOk, Agrees, Built, MapExtent, FlatExtent, ExtentNodes, ExtentSupplied;
    if es == [] {
      BuiltRefl(s, root);
    } else {
      var front, e := es[..|es| - 1], es[|es| - 1];
      ExtentsRefine(s, root, front);
      var (s1, ok1) := MapExtents(s, root, front);
      BuiltSound(s, s1, root, ExtentsNodes(front), ok1);
      if ok1 {
        ExtentRefines(s1, root, FlatExtents(front).0, e);
        var (s2, ok2) := MapExtent(s1, root, e);
        BuiltTrans(s, s1, s2, root, ExtentsNodes(front), ExtentNodes(e), ok2);
      } else {
        BuiltMore(s, s1, root, ExtentsNodes(front), ExtentNodes(e));
      }
    }
  }

  lemma BuiltRefl(s: Machine, root: Frame)
    requires SpaceOk(s, root)
    ensures Built(s, s, root, {}, true)
  {}

  lemma BuiltSound(s: Machine, s': Machine, root: Frame, nodes: set<Node>, ok: bool)
    requires Built(s, s', root, nodes, ok)
    ensures SpaceOk(s', root) && Balanced(s, s', root)
  {}

  /** Frames for all tables of the list supply every call of it. */
  lemma {:induction false} ExtentsReserved(s: Machine, root: Frame, es: seq<Extent>, nodes: set<Node>)
    requires SpaceOk(s, root) && Agrees(s, root, map[])
    requires ExtentsNodes(es) <= nodes && Enough(s, root, nodes)
    ensures ExtentsSupplied(s, root, es)
    decreases |es|
  {
    hide SpaceOk, Agrees, MapExtent, FlatExtent, ExtentNodes, ExtentSupplied, Enough, Tables, Balanced;
    if es != [] {
      var front, e := es[..|es| - 1], es[|es| - 1];
      ExtentsReserved(s, root, front, nodes);
      ExtentsRefine(s, root, front);
      var s1 := MapExtents(s, root, front).0;
      AdvancedWithin(s, s1, root, ExtentsNodes(front), nodes);
      EnoughAdvanced(s, s1, root, nodes);
      EnoughSubset(s1, root, ExtentNodes(e), nodes);
      ExtentReserved(s1, root, e);
    }
  }

  lemma ExtentReserved(s: Machine, root: Frame, e: Extent)
    requires SpaceOk(s, root) && Enough(s, root, ExtentNodes(e))
    ensures ExtentSupplied(s, root, e)
  {
    hide SpaceOk, Enough, UnitsSupplied, RangeNodes;
    if Checked(e) {
      RangeReserved(s, root, e.large, e.virt / PAGE_SIZE, e.phys / PAGE_SIZE, e.size / PAGE_SIZE, e.flags);
    }
  }

  // ---------------------------------------------------------------------------
  // Exact outcome, by address
  // ---------------------------------------------------------------------------

  const HALF_BYTES: nat := 0x8000_0000_0000

  predicate CanonicalAddress(a: nat) {
    a < HALF_BYTES || WORD - HALF_BYTES <= a < WORD
  }

  function AddressPage(a: nat): nat { PageOf(a / PAGE_SIZE) }

  predicate Holds(e: Extent, a: nat) { e.virt <= a < e.virt + e.size }

  /** What address `a` of the extent maps to. */
  function MappingOf(e: Extent, a: nat): Mapping
    requires Holds(e, a)
  {
    Mapping((e.phys + (a - e.virt)) / PAGE_SIZE, e.flags.writable, e.flags.user, e.flags.noExecute, e.flags.attributes)
  }

  /** An extent that can be mapped into an empty space. */
  predicate Mappable(e: Extent) {
    && e.size != 0 && PageAligned(e)
    && (e.large ==> e.virt % LARGE_PAGE_SIZE == 0 && e.phys % LARGE_PAGE_SIZE == 0 && e.size % LARGE_PAGE_SIZE == 0)
    && e.virt + e.size < WORD && e.phys + e.size <= 0x10_0000_0000_0000
    && (e.virt + e.size <= HALF_BYTES || WORD - HALF_BYTES <= e.virt)
    && (e.large || !e.flags.huge)
  }

  predicate Apart(e: Extent, e': Extent) {
    e.virt + e.size <= e'.virt || e'.virt + e'.size <= e.virt
  }

  lemma MappableIff(e: Extent)
    requires PageAligned(e)
    ensures var v, f, n := e.virt / PAGE_SIZE, e.phys / PAGE_SIZE, e.size / PAGE_SIZE;
            Mappable(e) <==>
            && RangeArgs(e.large, v, f, n)
            && (v + n <= HALF || VIRTUAL_PAGES - HALF <= v) && f + n <= FRAMES && (e.large || !e.flags.huge)
  {
    WholePages(e.virt);
    WholePages(e.phys);
    WholePages(e.size);
    if Mappable(e) { EndsCanonical(e.virt / PAGE_SIZE, e.size / PAGE_SIZE); }
  }

  lemma WholePages(x: Word)
    requires x % PAGE_SIZE == 0
    ensures x == x / PAGE_SIZE * PAGE_SIZE
    ensures x % LARGE_PAGE_SIZE == 0 <==> x / PAGE_SIZE % ENTRIES == 0
  {
    OffsetInLarge(x);
  }

  lemma EndsCanonical(v: nat, n: nat)
    requires n > 0 && v + n < VIRTUAL_PAGES && (v + n <= HALF || VIRTUAL_PAGES - HALF <= v)
    ensures Canonical(v) && Canonical(v + n - 1)
  {}

  /** Addresses of a mappable extent are exactly those whose page lies in its block. */
  lemma HoldsIff(e: Extent, a: nat)
    requires Mappable(e) && CanonicalAddress(a)
    ensures var p, n := AddressPage(e.virt), e.size / PAGE_SIZE;
            && (Holds(e, a) <==> p <= AddressPage(a) < p + n)
            && (Holds(e, a) ==> MappingOf(e, a) == PageIn(p, e.phys / PAGE_SIZE, e.flags, AddressPage(a)))
  {}

  /** What the list says of address `a`: the last extent that holds it. */
  function Found(es: seq<Extent>, a: nat): Option<Mapping> {
    if es == [] then None
    else if Holds(es[|es| - 1], a) then Some(MappingOf(es[|es| - 1], a))
    else Found(es[..|es| - 1], a)
  }

  /** The flat map says of every canonical address what the list says. */
  ghost predicate Exact(flat: Flat, es: seq<Extent>) {
    && (forall q :: q in flat ==> q < PAGES)
    && (forall a: nat :: CanonicalAddress(a) ==> Lookup(flat, AddressPage(a)) == Found(es, a))
  }

  /** The first address of a page. */
  function AddressOf(q: nat): nat {
    if q < HALF then q * PAGE_SIZE else (q + (VIRTUAL_PAGES - PAGES)) * PAGE_SIZE
  }

  lemma AddressOfPage(q: nat)
    requires q < PAGES
    ensures CanonicalAddress(AddressOf(q)) && AddressPage(AddressOf(q)) == q
  {}

  /** No address of `e` is taken by the list. */
  ghost predicate Vacant(es: seq<Extent>, e: Extent) {
    forall a: nat :: Holds(e, a) ==> Found(es, a).None?
  }

  lemma HeldCanonical(e: Extent, a: nat)
    requires Mappable(e) && Holds(e, a)
    ensures CanonicalAddress(a)
  {}

  lemma BlockInPages(e: Extent)
    requires Mappable(e)
    ensures AddressPage(e.virt) + e.size / PAGE_SIZE <= PAGES
  {}

  /** The block of a mappable extent is free in the flat map exactly when the extent is vacant. */
  lemma VacantIff(flat: Flat, es: seq<Extent>, e: Extent)
    requires Exact(flat, es) && Mappable(e)
    ensures Vacant(es, e) <==>
            Block(AddressPage(e.virt), e.phys / PAGE_SIZE, e.size / PAGE_SIZE, e.flags).Keys !! flat.Keys
  {
    hide Mappable, AddressPage, CanonicalAddress, Found, Holds, AddressOf;
    var p, n := AddressPage(e.virt), e.size / PAGE_SIZE;
    var block := Block(p, e.phys / PAGE_SIZE, n, e.flags);
    if Vacant(es, e) {
      forall q | q in block.Keys ensures q !in flat.Keys {
        BlockInPages(e);
        AddressOfPage(q);
        HoldsIff(e, AddressOf(q));
      }
    }
    if block.Keys !! flat.Keys {
      forall a: nat | Holds(e, a) ensures Found(es, a).None? {
        HeldCanonical(e, a);
        HoldsIff(e, a);
        assert AddressPage(a) in block.Keys;
      }
    }
  }

  lemma BlockAdded(flat: Flat, es: seq<Extent>, e: Extent)
    requires Exact(flat, es) && Mappable(e)
    ensures Exact(flat + Block(AddressPage(e.virt), e.phys / PAGE_SIZE, e.size / PAGE_SIZE, e.flags), es + [e])
  {
    hide Mappable, AddressPage, CanonicalAddress, Holds, AddressOf, MappingOf, PageIn;
    var p, n := AddressPage(e.virt), e.size / PAGE_SIZE;
    BlockInPages(e);
    var flat' := flat + Block(p, e.phys / PAGE_SIZE, n, e.flags);
    assert (es + [e])[..|es|] == es;
    forall a: nat | CanonicalAddress(a) ensures Lookup(flat', AddressPage(a)) == Found(es + [e], a) {
      HoldsIff(e, a);
    }
  }

  /** One call on an exact flat map: it succeeds exactly on a mappable, vacant extent, and stays exact. */
  lemma ExtentExact(flat: Flat, es: seq<Extent>, e: Extent)
    requires Exact(flat, es)
    ensures var (flat', ok) := FlatExtent(flat, e);
            (ok <==> Mappable(e) && Vacant(es, e)) && (ok ==> Exact(flat', es + [e]))
  {
    hide Exact, Vacant, Block, RangeArgs, PageOf, FlatRange;
    if PageAligned(e) {
      var v, f, n := e.virt / PAGE_SIZE, e.phys / PAGE_SIZE, e.size / PAGE_SIZE;
      RangeExact(flat, e.large, v, f, n, e.flags);
      MappableIff(e);
      if Mappable(e) {
        VacantIff(flat, es, e);
        BlockAdded(flat, es, e);
      }
    }
  }

  /** Every extent can be mapped, and no two share an address. */
  ghost predicate AllApart(es: seq<Extent>) {
    && (forall i :: 0 <= i < |es| ==> Mappable(es[i]))
    && (forall i, j :: 0 <= i < j < |es| ==> Apart(es[i], es[j]))
  }

  lemma {:induction false} FoundIffHeld(es: seq<Extent>, a: nat)
    ensures Found(es, a).Some? <==> exists i :: 0 <= i < |es| && Holds(es[i], a)
    decreases |es|
  {
    if es != [] {
      var n := |es| - 1;
      FoundIffHeld(es[..n], a);
      assert forall i :: 0 <= i < n ==> es[..n][i] == es[i];
      if Found(es[..n], a).Some? {
        var i :| 0 <= i < n && Holds(es[..n][i], a);
        assert Holds(es[i], a);
      }
    }
  }

  lemma VacantApart(es: seq<Extent>, e: Extent)
    requires Mappable(e) && forall i :: 0 <= i < |es| ==> Mappable(es[i])
    ensures Vacant(es, e) <==> forall i :: 0 <= i < |es| ==> Apart(es[i], e)
  {
    hide Found;
    if Vacant(es, e) {
      forall i | 0 <= i < |es| ensures Apart(es[i], e) {
        if !Apart(es[i], e) {
          var a := if es[i].virt < e.virt then e.virt else es[i].virt;
          assert Holds(es[i], a) && Holds(e, a);
          FoundIffHeld(es, a);
        }
      }
    } else {
      var a: nat :| Holds(e, a) && Found(es, a).Some?;
      FoundIffHeld(es, a);
      var i :| 0 <= i < |es| && Holds(es[i], a);
      assert !Apart(es[i], e);
    }
  }

  /** A list is mapped into an empty space exactly when its extents are mappable and apart; then every
      canonical address maps to what its extent says, and all others are unmapped. */
  lemma {:induction false} ExtentsExact(es: seq<Extent>)
    ensures var (flat, ok) := FlatExtents(es);
            (ok <==> AllApart(es)) && (ok ==> Exact(flat, es))
    decreases |es|
  {
    hide FlatExtent, Mappable, Apart, Vacant, AddressPage;
    if es != [] {
      var n := |es| - 1;
      var front, e := es[..n], es[n];
      assert front + [e] == es;
      ExtentsExact(front);
      AllApartSplit(es);
      if AllApart(front) {
        ExtentExact(FlatExtents(front).0, front, e);
        if Mappable(e) { VacantApart(front, e); }
      }
    }
  }

  lemma AllApartSplit(es: seq<Extent>)
    requires es != []
    ensures var n := |es| - 1;
            AllApart(es) <==>
            AllApart(es[..n]) && Mappable(es[n]) && forall i :: 0 <= i < n ==> Apart(es[..n][i], es[n])
  {}

  /** On a space without tables, a list that can be mapped is supplied exactly when the free frames are
      as many as its tables. */
  lemma ExtentsSuppliedIff(s: Machine, root: Frame, es: seq<Extent>)
    requires SpaceOk(s, root) && Agrees(s, root, map[]) && Tables(s.mem, root) == {}
    requires AllApart(es)
    ensures ExtentsSupplied(s, root, es) <==> |ExtentsNodes(es)| <= |s.free|
  {
    hide SpaceOk, Agrees, MapExtents, FlatExtents, ExtentsNodes, ExtentsSupplied, AllApart, Exact, Balanced, Tables;
    var nodes := ExtentsNodes(es);
    assert nodes - {} == nodes;
    if |nodes| <= |s.free| { ExtentsReserved(s, root, es, nodes); }
    if ExtentsSupplied(s, root, es) {
      ExtentsRefine(s, root, es);
      ExtentsExact(es);
      AddedWithFrames(s, MapExtents(s, root, es).0, root, nodes);
    }
  }
}
