/** Running out of frames in range calls and over whole runs: the frames a run asks for are there
    throughout if and only if frame 0 never becomes a table. */
module ExhaustedRuns {
  import opened Options
  import opened PageTree
  import opened Mapper
  import opened Ranges
  import opened Spaces
  import opened Runs
  import opened Exhaustion

  // ---------------------------------------------------------------------------
  // One call
  // ---------------------------------------------------------------------------

  lemma SuppliedStaysClean(s: Machine, root: Frame, large: bool, v: nat, f: nat, flags: Flags)
    requires Clean(s, root) && SpaceOk(s, root) && UnitSupplied(s, root, large, v, f, flags)
    ensures var s' := MapUnit(s, root, large, v, f, flags).0;
            Clean(s', root) && SpaceOk(s', root) && !LinksZero(s'.mem, root)
  {
    hide MapUnit, Agrees, Balanced, UnitSupplied, Tables, Populated, TreeMachine, FlatUnit;
    FlatOfAgrees(s, root);
    UnitRefines(s, root, FlatOf(s, root), large, v, f, flags);
    CleanKept(s, MapUnit(s, root, large, v, f, flags).0, root);
  }

  lemma RunsDry(s: Machine, root: Frame, large: bool, v: nat, f: nat, flags: Flags)
    requires Clean(s, root) && SpaceOk(s, root) && !UnitSupplied(s, root, large, v, f, flags)
    ensures var s' := MapUnit(s, root, large, v, f, flags).0;
            LinksZero(s'.mem, root) && s'.free == {}
  {
    hide Enough, LeafAt, Clean, Populated, TreeMachine, MapSmall, MapLarge, LinksZero, MappedKept, RootDryWalk,
         LargeResult, Walk, PageOf, RootDry;
    UnitPageFacts(large, v, f, flags);
    var leaf := UnitLeaf(large, f, flags);
    if large {
      BlockIsRegion(s.mem, root, v, f, flags);
      LargeExact(s, root, PageOf(v) / ENTRIES, leaf);
    } else {
      assert PageOf(v) in UnitBlock(false, v, f, flags);
      SmallExact(s, root, PageOf(v), leaf);
    }
  }

  lemma BlockIsRegion(m: Memory, root: Frame, v: nat, f: nat, flags: Flags)
    requires UnitArgs(true, v, f, flags)
    requires forall q :: q in UnitBlock(true, v, f, flags) ==> LeafAt(m, root, q).None?
    ensures RegionFree(m, root, PageOf(v) / ENTRIES)
  {
    hide LeafAt;
    UnitPageFacts(true, v, f, flags);
    forall q: nat | q / ENTRIES == PageOf(v) / ENTRIES ensures LeafAt(m, root, q).None? {
      assert q in UnitBlock(true, v, f, flags);
    }
  }

  /** One mapping call makes frame 0 a table if and only if it could go through and lacks a frame. */
  lemma UnitDryIff(s: Machine, root: Frame, large: bool, v: nat, f: nat, flags: Flags)
    requires Clean(s, root) && SpaceOk(s, root)
    ensures LinksZero(MapUnit(s, root, large, v, f, flags).0.mem, root) <==> !UnitSupplied(s, root, large, v, f, flags)
  {
    hide MapUnit, UnitSupplied, LinksZero, Clean, SpaceOk;
    if UnitSupplied(s, root, large, v, f, flags) {
      SuppliedStaysClean(s, root, large, v, f, flags);
    } else {
      RunsDry(s, root, large, v, f, flags);
    }
  }

  // ---------------------------------------------------------------------------
  // Once linked, frame 0 stays linked
  // ---------------------------------------------------------------------------

  /** Outside frame 0 every entry that was present still links what it linked. */
  predicate LinksKept(m: Memory, m': Memory) {
    forall f: Frame, i: nat :: f != 0 && i < ENTRIES && m[f][i].present ==>
      m'[f][i].present && m'[f][i].huge == m[f][i].huge && m'[f][i].frame == m[f][i].frame
  }

  lemma LinksKeptTrans(m: Memory, m': Memory, m'': Memory)
    requires LinksKept(m, m') && LinksKept(m', m'')
    ensures LinksKept(m, m'')
  {}

  lemma EnsureKeepsLinks(s: Machine, t: Frame, i: nat, user: bool)
    requires s.free == {} && i < ENTRIES
    ensures var s' := EnsureTable(s, t, i, user).0; s'.free == {} && LinksKept(s.mem, s'.mem)
  {}

  lemma FillKeepsLinks(m: Memory, t: Frame, i: nat, e: Pte)
    requires i < ENTRIES && !m[t][i].present
    ensures LinksKept(m, SetEntry(m, t, i, e))
  {}

  lemma DescendKeepsLinks(s: Machine, root: Frame, d: nat, user: bool)
    requires s.free == {}
    ensures var s' := Descend(s, root, d, user).0; s'.free == {} && LinksKept(s.mem, s'.mem)
  {
    hide EnsureTable, LinksKept;
    EnsureKeepsLinks(s, root, d / ENTRIES / ENTRIES % ENTRIES, user);
    var (s3, t3) := EnsureTable(s, root, d / ENTRIES / ENTRIES % ENTRIES, user);
    if t3.Some? {
      EnsureKeepsLinks(s3, t3.value, d / ENTRIES % ENTRIES, user);
      LinksKeptTrans(s.mem, s3.mem, EnsureTable(s3, t3.value, d / ENTRIES % ENTRIES, user).0.mem);
    }
  }

  lemma LargeKeepsLinks(s: Machine, root: Frame, d: nat, leaf: Pte)
    requires s.free == {}
    ensures var s' := MapLarge(s, root, d, leaf).0; s'.free == {} && LinksKept(s.mem, s'.mem)
  {
    hide Descend, LinksKept, SetEntry;
    DescendKeepsLinks(s, root, d, leaf.user);
    var (s2, t2) := Descend(s, root, d, leaf.user);
    if t2.Some? && !s2.mem[t2.value][d % ENTRIES].present {
      FillKeepsLinks(s2.mem, t2.value, d % ENTRIES, leaf);
      LinksKeptTrans(s.mem, s2.mem, SetEntry(s2.mem, t2.value, d % ENTRIES, leaf));
    }
  }

  lemma SmallKeepsLinks(s: Machine, root: Frame, p: nat, leaf: Pte)
    requires s.free == {}
    ensures var s' := MapSmall(s, root, p, leaf).0; s'.free == {} && LinksKept(s.mem, s'.mem)
  {
    hide Descend, EnsureTable, LinksKept, SetEntry;
    DescendKeepsLinks(s, root, p / ENTRIES, leaf.user);
    var (s2, t2) := Descend(s, root, p / ENTRIES, leaf.user);
    if t2.Some? {
      EnsureKeepsLinks(s2, t2.value, p / ENTRIES % ENTRIES, leaf.user);
      var (s1, t1) := EnsureTable(s2, t2.value, p / ENTRIES % ENTRIES, leaf.user);
      LinksKeptTrans(s.mem, s2.mem, s1.mem);
      if t1.Some? && !s1.mem[t1.value][p % ENTRIES].present {
        FillKeepsLinks(s1.mem, t1.value, p % ENTRIES, leaf);
        LinksKeptTrans(s.mem, s1.mem, SetEntry(s1.mem, t1.value, p % ENTRIES, leaf));
      }
    }
  }

  lemma UnitKeepsLinks(s: Machine, root: Frame, large: bool, v: nat, f: nat, flags: Flags)
    requires s.free == {}
    ensures var s' := MapUnit(s, root, large, v, f, flags).0; s'.free == {} && LinksKept(s.mem, s'.mem)
  {
    hide MapSmall, MapLarge, PageOf;
    if UnitArgs(large, v, f, flags) {
      LargeKeepsLinks(s, root, PageOf(v) / ENTRIES, UnitLeaf(large, f, flags));
      SmallKeepsLinks(s, root, PageOf(v), UnitLeaf(large, f, flags));
    }
  }

  lemma {:induction false} UnitsKeepLinks(s: Machine, root: Frame, large: bool, v: nat, f: nat, n: nat, flags: Flags)
    requires s.free == {}
    ensures var s' := MapUnits(s, root, large, v, f, n, flags).0; s'.free == {} && LinksKept(s.mem, s'.mem)
    decreases n
  {
    hide MapUnit, LinksKept;
    assert LinksKept(s.mem, s.mem) by { LinksKeptRefl(s.mem); }
    if n >= UnitPages(large) {
      var u := UnitPages(large);
      UnitKeepsLinks(s, root, large, v, f, flags);
      var (s1, ok) := MapUnit(s, root, large, v, f, flags);
      if ok {
        UnitsKeepLinks(s1, root, large, v + u, f + u, n - u, flags);
        LinksKeptTrans(s.mem, s1.mem, MapUnits(s1, root, large, v + u, f + u, n - u, flags).0.mem);
      }
    }
  }

  lemma LinksKeptRefl(m: Memory)
    ensures LinksKept(m, m)
  {}

  /** No table above table `n` of level `l` is frame 0. */
  ghost predicate NonzeroAbove(m: Memory, root: Frame, l: nat, n: nat)
    requires 1 <= l <= 4
    decreases 4 - l
  {
    l < 4 ==> TableAt(m, root, l + 1, n / ENTRIES) != Some(0) && NonzeroAbove(m, root, l + 1, n / ENTRIES)
  }

  /** A table reached without frame 0 stays where it is. */
  lemma {:induction false} TablePersists(m: Memory, m': Memory, root: Frame, l: nat, n: nat)
    requires LinksKept(m, m') && 1 <= l <= 4 && NonzeroAbove(m, root, l, n) && TableAt(m, root, l, n).Some?
    ensures TableAt(m', root, l, n) == TableAt(m, root, l, n)
    decreases 4 - l
  {
    if l < 4 { TablePersists(m, m', root, l + 1, n / ENTRIES); }
  }

  /** The topmost link to frame 0 does not itself lie in frame 0. */
  lemma {:induction false} TopZero(m: Memory, root: Frame, l: nat, n: nat) returns (l': nat, n': nat)
    requires root != 0 && 1 <= l <= 3 && TableAt(m, root, l, n) == Some(0)
    ensures 1 <= l' <= 3 && TableAt(m, root, l', n') == Some(0) && NonzeroAbove(m, root, l', n')
    decreases 4 - l
  {
    if l < 3 && TableAt(m, root, l + 1, n / ENTRIES) == Some(0) {
      l', n' := TopZero(m, root, l + 1, n / ENTRIES);
    } else if l < 2 && TableAt(m, root, l + 2, n / ENTRIES / ENTRIES) == Some(0) {
      l', n' := TopZero(m, root, l + 2, n / ENTRIES / ENTRIES);
    } else {
      l', n' := l, n;
      assert l == 3 || TableAt(m, root, l + 1, n / ENTRIES).Some?;
      assert l >= 2 || TableAt(m, root, l + 2, n / ENTRIES / ENTRIES).Some?;
      assert NonzeroAbove(m, root, 4, 0);
    }
  }

  lemma ZeroPersists(m: Memory, m': Memory, root: Frame)
    requires root != 0 && LinksZero(m, root) && LinksKept(m, m')
    ensures LinksZero(m', root)
  {
    hide LinksKept;
    var l: nat, n: nat :| 1 <= l <= 3 && TableAt(m, root, l, n) == Some(0);
    var l', n' := TopZero(m, root, l, n);
    TablePersists(m, m', root, l', n');
  }

  // ---------------------------------------------------------------------------
  // Range calls
  // ---------------------------------------------------------------------------

  lemma CleanRoot(s: Machine, root: Frame)
    requires Clean(s, root)
    ensures root != 0 && !LinksZero(s.mem, root)
  {
    assert TableAt(s.mem, root, 4, 0) == Some(root);
  }

  /** The loop makes frame 0 a table if and only if some unit it reaches lacks a frame. */
  lemma {:induction false} UnitsDryIff(s: Machine, root: Frame, large: bool, v: nat, f: nat, n: nat, flags: Flags)
    requires Clean(s, root) && SpaceOk(s, root)
    ensures var s' := MapUnits(s, root, large, v, f, n, flags).0;
            && (LinksZero(s'.mem, root) <==> !UnitsSupplied(s, root, large, v, f, n, flags))
            && (LinksZero(s'.mem, root) ==> s'.free == {})
    decreases n
  {
    hide Clean, SpaceOk, LinksZero, MapUnit, UnitSupplied, LinksKept;
    CleanRoot(s, root);
    if n >= UnitPages(large) {
      var u := UnitPages(large);
      var (s1, ok) := MapUnit(s, root, large, v, f, flags);
      if UnitSupplied(s, root, large, v, f, flags) {
        SuppliedStaysClean(s, root, large, v, f, flags);
        UnitsDryIff(s1, root, large, v + u, f + u, n - u, flags);
      } else {
        RunsDry(s, root, large, v, f, flags);
        UnitsKeepLinks(s1, root, large, v + u, f + u, n - u, flags);
        ZeroPersists(s1.mem, MapUnits(s1, root, large, v + u, f + u, n - u, flags).0.mem, root);
      }
    }
  }

  /** A range call makes frame 0 a table if and only if its checks pass and some unit it reaches could go
      through and lacks a frame. */
  lemma RangeDryIff(s: Machine, root: Frame, large: bool, v: nat, f: nat, n: nat, flags: Flags)
    requires Clean(s, root) && SpaceOk(s, root)
    ensures var s' := MapRange(s, root, large, v, f, n, flags).0;
            && (LinksZero(s'.mem, root) <==> !RangeSupplied(s, root, large, v, f, n, flags))
            && (LinksZero(s'.mem, root) ==> s'.free == {})
  {
    hide Clean, SpaceOk, LinksZero, MapUnits, UnitsSupplied;
    CleanRoot(s, root);
    UnitsDryIff(s, root, large, v, f, n, flags);
  }

  // ---------------------------------------------------------------------------
  // Whole runs
  // ---------------------------------------------------------------------------

  /** Some space has frame 0 for a table or for its root. */
  ghost predicate UsesZero(y: System) {
    exists i :: 0 <= i < |y.roots| && (y.roots[i] == 0 || LinksZero(y.machine.mem, y.roots[i]))
  }

  /** At no point of the run does a space use frame 0. */
  ghost predicate NeverZero(y: System, ops: seq<Op>)
    decreases |ops|
  {
    !UsesZero(y) && (ops != [] ==> NeverZero(Step(y, ops[0]).0, ops[1..]))
  }

  lemma NotOwnedZero(m: Memory, root: Frame)
    requires 0 !in Owned(m, root)
    ensures root != 0 && !LinksZero(m, root) && NoZeroTables(m, root)
  {
    assert TableAt(m, root, 4, 0) == Some(root);
    forall l: nat, n: nat | 1 <= l <= 4 ensures TableAt(m, root, l, n) != Some(0) {
      assert !Owns(m, root, 0);
    }
  }

  lemma WithoutZero(y: System)
    requires 0 !in Frames(y)
    ensures !UsesZero(y)
  {
    hide Owned, LinksZero;
    forall i | 0 <= i < |y.roots| ensures y.roots[i] != 0 && !LinksZero(y.machine.mem, y.roots[i]) {
      assert !IsTable(y, 0);
      NotOwnedZero(y.machine.mem, y.roots[i]);
    }
  }

  lemma SpaceClean(y: System, i: nat)
    requires Valid(y) && 0 !in Frames(y) && i < |y.roots|
    ensures Clean(y.machine, y.roots[i]) && SpaceOk(y.machine, y.roots[i])
  {
    hide Owned, LinksZero, TreeMachine, Populated, NoZeroTables;
    assert !IsTable(y, 0);
    NotOwnedZero(y.machine.mem, y.roots[i]);
  }

  /** An operation without its frames makes frame 0 a table or a root. */
  lemma DryStep(y: System, op: Op)
    requires Valid(y) && 0 !in Frames(y) && !Supplied(y, op)
    ensures UsesZero(Step(y, op).0)
  {
    hide Valid, Frames, UnitSupplied, RangeSupplied, LinksZero, MapUnit, MapRange, Clean, SpaceOk;
    var y' := Step(y, op).0;
    match op
    case Create => assert y'.roots[|y.roots|] == 0;
    case Map(i, large, v, f, flags) =>
      SpaceClean(y, i);
      UnitDryIff(y.machine, y.roots[i], large, v, f, flags);
      assert LinksZero(y'.machine.mem, y'.roots[i]);
    case MapMany(i, large, v, f, n, flags) =>
      SpaceClean(y, i);
      RangeDryIff(y.machine, y.roots[i], large, v, f, n, flags);
      assert LinksZero(y'.machine.mem, y'.roots[i]);
  }

  /** A run whose frames do not include frame 0 finds every frame it asks for if and only if frame 0
      never becomes a table of any space: running dry is the only way it can. */
  lemma {:induction false} RunDryIff(y: System, flats: seq<Flat>, ops: seq<Op>)
    requires Valid(y) && AllAgree(y, flats) && 0 !in Frames(y)
    requires AllHonest(y, ops)
    ensures NeverZero(y, ops) <==> AllSupplied(y, ops)
    decreases |ops|
  {
    hide Valid, AllAgree, Frames, Step, FlatStep, Honest, Supplied, UsesZero;
    WithoutZero(y);
    if ops != [] {
      var y' := Step(y, ops[0]).0;
      if Supplied(y, ops[0]) {
        StepRefines(y, flats, ops[0]);
        RunDryIff(y', FlatStep(flats, ops[0]).0, ops[1..]);
      } else {
        DryStep(y, ops[0]);
      }
    }
  }
}
