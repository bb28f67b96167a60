/** What a range call leaves behind, in closed form: the pages before the first refused unit. */
module RangeOutcome {
  import opened PageTree
  import opened Mapper
  import opened Ranges

  /** Pages of the range before the first unit the given flat map refuses. */
  function FittingPages(flat: Flat, large: bool, v: nat, f: nat, n: nat, flags: Flags): (r: nat)
    ensures r <= n
    decreases n
  {
    if n < UnitPages(large) || !UnitFits(flat, large, v, f, flags) then 0
    else
      var u := UnitPages(large);
      u + FittingPages(flat, large, v + u, f + u, n - u, flags)
  }

  lemma UnitJoins(flat: Flat, p: nat, g: nat, m: nat, large: bool, v: nat, flags: Flags)
    requires PageOf(v) == p + m
    ensures flat + Block(p, g, m, flags) + UnitBlock(large, v, g + m, flags)
            == flat + Block(p, g, m + UnitPages(large), flags)
  {}

  /** A unit that starts past the pages just added fits exactly when it fitted before. */
  lemma FitsPast(flat: Flat, p: nat, g: nat, m: nat, large: bool, v: nat, f: nat, flags: Flags)
    requires Canonical(v) ==> PageOf(v) >= p + m
    ensures UnitFits(flat + Block(p, g, m, flags), large, v, f, flags) == UnitFits(flat, large, v, f, flags)
  {}

  /** Consecutive canonical units are consecutive in the tables: no step jumps the gap. */
  lemma NextPage(large: bool, v: nat)
    requires Canonical(v) && Canonical(v + UnitPages(large))
    ensures PageOf(v + UnitPages(large)) == PageOf(v) + UnitPages(large)
  {}

  lemma {:induction false} UnitsFrom(flat: Flat, p: nat, g: nat, m: nat, large: bool, v: nat, n: nat, flags: Flags)
    requires Canonical(v) ==> PageOf(v) == p + m
    requires Aligned(large, n)
    ensures var j := FittingPages(flat, large, v, g + m, n, flags);
            FlatUnits(flat + Block(p, g, m, flags), large, v, g + m, n, flags)
            == (flat + Block(p, g, m + j, flags), j == n)
    decreases n
  {
    hide UnitFits, UnitBlock, Block, PageOf, Canonical, FlatUnits, FittingPages, Aligned;
    FitsPast(flat, p, g, m, large, v, g + m, flags);
    var u := UnitPages(large);
    FlatUnitsStep(flat + Block(p, g, m, flags), large, v, g + m, n, flags);
    FittingStep(flat, large, v, g + m, n, flags);
    Remaining(large, n);
    if n >= u && UnitFits(flat, large, v, g + m, flags) {
      FitCanonical(flat, large, v, g + m, flags);
      if Canonical(v + u) { NextPage(large, v); }
      UnitsFrom(flat, p, g, m + u, large, v + u, n - u, flags);
      UnitJoins(flat, p, g, m, large, v, flags);
    }
  }

  lemma FlatUnitsStep(flat: Flat, large: bool, v: nat, f: nat, n: nat, flags: Flags)
    ensures var u := UnitPages(large);
            FlatUnits(flat, large, v, f, n, flags) ==
            if n < u then (flat, true)
            else if UnitFits(flat, large, v, f, flags) then
              FlatUnits(flat + UnitBlock(large, v, f, flags), large, v + u, f + u, n - u, flags)
            else (flat, false)
  {
    hide UnitFits, UnitBlock;
  }

  lemma FittingStep(flat: Flat, large: bool, v: nat, f: nat, n: nat, flags: Flags)
    ensures var u := UnitPages(large);
            FittingPages(flat, large, v, f, n, flags) ==
            if n < u || !UnitFits(flat, large, v, f, flags) then 0
            else u + FittingPages(flat, large, v + u, f + u, n - u, flags)
  {
    hide UnitFits;
  }

  lemma Remaining(large: bool, n: nat)
    requires Aligned(large, n)
    ensures n < UnitPages(large) <==> n == 0
    ensures n >= UnitPages(large) ==> Aligned(large, n - UnitPages(large))
  {}

  lemma FitCanonical(flat: Flat, large: bool, v: nat, f: nat, flags: Flags)
    requires UnitFits(flat, large, v, f, flags)
    ensures Canonical(v)
  {}

  /** Exactly the pages before the first refused unit are added. */
  lemma RangeAdds(flat: Flat, large: bool, v: nat, f: nat, n: nat, flags: Flags)
    requires RangeArgs(large, v, f, n)
    ensures var j := FittingPages(flat, large, v, f, n, flags);
            FlatRange(flat, large, v, f, n, flags) == (flat + Block(PageOf(v), f, j, flags), j == n)
  {
    hide FlatUnits, PageOf, FittingPages;
    UnitsFrom(flat, PageOf(v), f, 0, large, v, n, flags);
    assert flat + Block(PageOf(v), f, 0, flags) == flat;
  }

  /** The whole range fits: one canonical half, physical addresses in reach, nothing mapped. */
  predicate RangeFits(flat: Flat, large: bool, v: nat, f: nat, n: nat, flags: Flags) {
    && (v + n <= HALF || VIRTUAL_PAGES - HALF <= v)
    && f + n <= FRAMES
    && (large || !flags.huge)
    && Block(PageOf(v), f, n, flags).Keys !! flat.Keys
  }

  /** A range fits exactly when its first unit fits and the rest of it fits. */
  lemma FitsSplit(flat: Flat, large: bool, v: nat, f: nat, n: nat, flags: Flags)
    requires Aligned(large, v) && Aligned(large, f) && v + n <= VIRTUAL_PAGES && Canonical(v)
    requires n > UnitPages(large)
    ensures var u := UnitPages(large);
            RangeFits(flat, large, v, f, n, flags) <==>
            && UnitFits(flat, large, v, f, flags)
            && Canonical(v + u)
            && RangeFits(flat, large, v + u, f + u, n - u, flags)
  {}

  lemma {:induction false} FitsAll(flat: Flat, large: bool, v: nat, f: nat, n: nat, flags: Flags)
    requires n > 0 && Aligned(large, v) && Aligned(large, f) && Aligned(large, n) && v + n <= VIRTUAL_PAGES
    requires Canonical(v)
    ensures FittingPages(flat, large, v, f, n, flags) == n <==> RangeFits(flat, large, v, f, n, flags)
    decreases n
  {
    hide UnitFits, RangeFits, Canonical;
    var u := UnitPages(large);
    if n == u {
      FitsOne(flat, large, v, f, flags);
    } else {
      FitsSplit(flat, large, v, f, n, flags);
      if Canonical(v + u) {
        FitsAll(flat, large, v + u, f + u, n - u, flags);
      } else if UnitFits(flat, large, v + u, f + u, flags) {
        FitCanonical(flat, large, v + u, f + u, flags);
      }
    }
  }

  lemma FitsOne(flat: Flat, large: bool, v: nat, f: nat, flags: Flags)
    requires Aligned(large, v) && Aligned(large, f) && Canonical(v) && v + UnitPages(large) <= VIRTUAL_PAGES
    ensures UnitFits(flat, large, v, f, flags) <==> RangeFits(flat, large, v, f, UnitPages(large), flags)
  {}

  /** map_range and map_range_large succeed exactly on valid arguments whose whole range lies in one
      canonical half, has 52-bit physical addresses and is unmapped; then all of it is mapped. */
  lemma RangeExact(flat: Flat, large: bool, v: nat, f: nat, n: nat, flags: Flags)
    ensures var (flat', ok) := FlatRange(flat, large, v, f, n, flags);
            && (ok <==> RangeArgs(large, v, f, n) && RangeFits(flat, large, v, f, n, flags))
            && (ok ==> flat' == flat + Block(PageOf(v), f, n, flags))
  {
    if RangeArgs(large, v, f, n) {
      RangeAdds(flat, large, v, f, n, flags);
      FitsAll(flat, large, v, f, n, flags);
    }
  }

  /** A range that can go through is supplied exactly when each table it misses has a frame: how many
      frames it takes is known beforehand. */
  lemma RangeSuppliedIff(s: Machine, root: Frame, flat: Flat, large: bool, v: nat, f: nat, n: nat, flags: Flags)
    requires SpaceOk(s, root) && Agrees(s, root, flat)
    requires RangeArgs(large, v, f, n) && RangeFits(flat, large, v, f, n, flags)
    ensures RangeSupplied(s, root, large, v, f, n, flags) <==> Enough(s, root, RangeNodes(large, v, n))
  {
    hide SpaceOk, Agrees, RangeSupplied, Enough, RangeNodes, MapRange, FlatRange, Balanced, Tables, RangeArgs,
         RangeFits;
    if Enough(s, root, RangeNodes(large, v, n)) { RangeReserved(s, root, large, v, f, n, flags); }
    if RangeSupplied(s, root, large, v, f, n, flags) {
      RangeRefines(s, root, flat, large, v, f, n, flags);
      RangeExact(flat, large, v, f, n, flags);
      AddedWithFrames(s, MapRange(s, root, large, v, f, n, flags).0, root, RangeNodes(large, v, n));
    }
  }

  // ---------------------------------------------------------------------------
  // Any machine, frames or not
  // ---------------------------------------------------------------------------

  lemma UnitCanonical(large: bool, v: nat, f: nat, flags: Flags, w: nat)
    requires UnitArgs(large, v, f, flags) && v <= w < v + UnitPages(large)
    ensures Canonical(w)
  {}

  lemma SucceededArgs(s: Machine, root: Frame, large: bool, v: nat, f: nat, flags: Flags)
    requires MapUnit(s, root, large, v, f, flags).1
    ensures UnitArgs(large, v, f, flags)
  {}

  lemma {:induction false} UnitsCanonical(s: Machine, root: Frame, large: bool, v: nat, f: nat, n: nat, flags: Flags,
                                          w: nat)
    requires MapUnits(s, root, large, v, f, n, flags).1 && Aligned(large, n) && v <= w < v + n
    ensures Canonical(w)
    decreases n
  {
    hide MapUnit, UnitArgs, Canonical;
    var u := UnitPages(large);
    SucceededArgs(s, root, large, v, f, flags);
    if w < v + u {
      UnitCanonical(large, v, f, flags, w);
    } else {
      UnitsCanonical(MapUnit(s, root, large, v, f, flags).0, root, large, v + u, f + u, n - u, flags, w);
    }
  }

  /** Whatever the machine, a range call that succeeds was wholly canonical and in one half, although only
      its ends are checked; so its pages are consecutive in the tables. */
  lemma RangeCanonical(s: Machine, root: Frame, large: bool, v: nat, f: nat, n: nat, flags: Flags, w: nat)
    requires MapRange(s, root, large, v, f, n, flags).1
    requires v <= w < v + n
    ensures Canonical(w) && (w < HALF <==> v < HALF) && PageOf(w) == PageOf(v) + (w - v)
  {
    hide MapUnits;
    UnitsCanonical(s, root, large, v, f, n, flags, w);
    if v < HALF <= w { UnitsCanonical(s, root, large, v, f, n, flags, HALF); }
  }
}
