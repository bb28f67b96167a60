/** Running out of frames.  The allocator answers 0, the table code tests for another value, so a
    mapping call goes on with frame 0: when exactly that happens, and what the call then does. */
module Exhaustion {
  import opened Options
  import opened PageTree
  import opened Mapper

  /** A new root is a frame of its own only while frames last: frame 0 is announced if and only if none
      is free or it is the least free one, and two roots in a row are one frame if and only if no frame
      but 0 is free.  Either way the root is wiped, and nothing else. */
  lemma RootsInARow(s: Machine)
    ensures var (s1, first) := AllocTable(s);
            var (s2, second) := AllocTable(s1);
            && (first == 0 <==> s.free == {} || 0 in s.free)
            && (first in s.free <==> s.free != {})
            && (first == second <==> s.free <= {0})
            && s1.free == s.free - {first}
            && s1.mem[first] == EmptyTable() && (forall f: Frame :: f != first ==> s1.mem[f] == s.mem[f])
  {
    if s.free != {} {
      var f := LeastOf(s.free);
      assert s.free <= {0} <==> f == 0 && s.free - {f} == {};
    }
  }

  // ---------------------------------------------------------------------------
  // Spaces that run without frame 0
  // ---------------------------------------------------------------------------

  ghost predicate NoZeroTables(m: Memory, root: Frame) {
    forall l: nat, n: nat :: 1 <= l <= 4 ==> TableAt(m, root, l, n) != Some(0)
  }

  /** Some table below the root is frame 0. */
  ghost predicate LinksZero(m: Memory, root: Frame) {
    exists l: nat, n: nat :: 1 <= l <= 3 && TableAt(m, root, l, n) == Some(0)
  }

  /** A sound tree that runs without frame 0. */
  ghost predicate Clean(s: Machine, root: Frame) {
    TreeMachine(s, root) && NoZeroTables(s.mem, root) && 0 !in s.free
  }

  lemma CleanKept(s: Machine, s': Machine, root: Frame)
    requires Clean(s, root) && TreeMachine(s', root) && Balanced(s, s', root)
    ensures Clean(s', root) && !LinksZero(s'.mem, root)
  {}

  lemma GrownBalanced(s: Machine, s': Machine, root: Frame)
    requires Grown(s, s', root)
    ensures Balanced(s, s', root)
  {}

  /** A slot that links no table and is not a large page is absent. */
  lemma AbsentSlot(m: Memory, root: Frame, level: nat, k: nat)
    requires 2 <= level <= 4 && EntriesOk(m, root)
    requires SlotAt(m, root, level, k).Some? && !SlotAt(m, root, level, k).value.huge
    requires Node(level - 1, k) !in Tables(m, root)
    ensures SlotAt(m, root, level, k) == Some(ABSENT)
  {}

  // ---------------------------------------------------------------------------
  // What a dry call writes
  // ---------------------------------------------------------------------------

  function RootIndex(d: nat): nat { d / ENTRIES / ENTRIES % ENTRIES }
  function PointerIndex(d: nat): nat { d / ENTRIES % ENTRIES }

  /** No pointer table on the way to directory entry `d`, and no frame for it. */
  ghost predicate RootDry(s: Machine, root: Frame, d: nat) {
    Node(3, d / ENTRIES / ENTRIES) !in Tables(s.mem, root) && s.free == {}
  }

  /** Where a page leads when frame 0 is taken for its page table and for its leaf. */
  function ZeroPage(user: bool): Mapping {
    LeafMapping(Interior(0, user), 0)
  }

  /** Frame 0 after map_page used it for the page table and a table above. */
  function SmallDryFrame(p: nat, leaf: Pte): Table {
    var t: Table := EmptyTable()[p / ENTRIES % ENTRIES := Interior(0, leaf.user)];
    if p % ENTRIES == p / ENTRIES % ENTRIES then t else t[p % ENTRIES := leaf]
  }

  /** Memory after map_page ran dry at the root. */
  function SmallDryMemory(m: Memory, root: Frame, p: nat, leaf: Pte): Memory {
    SetEntry(m, root, RootIndex(p / ENTRIES), Interior(0, leaf.user))[0 := SmallDryFrame(p, leaf)]
  }

  /** Two interior steps inside a wiped frame 0: the second wipes what the first wrote, unless both use
      one entry. */
  lemma ZeroSteps(s: Machine, i: nat, j: nat, user: bool)
    requires s.free == {} && s.mem[0] == EmptyTable() && i < ENTRIES && j < ENTRIES
    ensures var (s', t) := EnsureTable(s, 0, i, user);
            && t == Some(0)
            && EnsureTable(s', 0, j, user) == (s.(mem := s.mem[0 := EmptyTable()[j := Interior(0, user)]]), Some(0))
  {
    var (s', t) := EnsureTable(s, 0, i, user);
    assert s'.mem == s.mem[0 := EmptyTable()[i := Interior(0, user)]];
    assert EnsureTable(s', 0, j, user).0.mem[0] == EmptyTable()[j := Interior(0, user)];
    assert EnsureTable(s', 0, j, user).0.mem == s.mem[0 := EmptyTable()[j := Interior(0, user)]];
  }

  lemma SmallRootDry(s: Machine, root: Frame, p: nat, leaf: Pte)
    requires s.free == {} && root != 0 && s.mem[root][RootIndex(p / ENTRIES)] == ABSENT
    ensures MapSmall(s, root, p, leaf) ==
            (s.(mem := SmallDryMemory(s.mem, root, p, leaf)), p % ENTRIES != p / ENTRIES % ENTRIES)
  {
    var (s3, t3) := EnsureTable(s, root, RootIndex(p / ENTRIES), leaf.user);
    assert t3 == Some(0) && s3.mem[0] == EmptyTable();
    ZeroSteps(s3, PointerIndex(p / ENTRIES), p / ENTRIES % ENTRIES, leaf.user);
    SmallUnfold(s, root, p, leaf);
    assert MapSmall(s, root, p, leaf).0.mem == SmallDryMemory(s.mem, root, p, leaf);
  }

  /** The walk of the page then depends on how its indices coincide: through two equal indices it comes
      back to frame 0, through the leaf's own index it takes the mapped frame for a directory. */
  function RootDryWalk(m: Memory, p: nat, leaf: Pte): Option<Mapping> {
    if PointerIndex(p / ENTRIES) == p / ENTRIES % ENTRIES then
      Some(if p % ENTRIES == p / ENTRIES % ENTRIES then ZeroPage(leaf.user) else LeafMapping(leaf, leaf.frame))
    else if PointerIndex(p / ENTRIES) == p % ENTRIES then WalkDirectory(m, Interior(0, leaf.user), leaf, p)
    else None
  }

  lemma SmallRootWalk(m: Memory, root: Frame, p: nat, leaf: Pte)
    requires root != 0 && leaf.present && !leaf.huge
    ensures var m' := SmallDryMemory(m, root, p, leaf);
            Walk(m', root, p) == RootDryWalk(m', p, leaf)
  {}

  /** A root entry that lets a mapping with the given user bit through to table `t`. */
  predicate Opens(e: Pte, t: Frame, user: bool) {
    Links(e) && e.frame == t && e.writable && !e.noExecute && (user ==> e.user)
  }

  lemma SmallPointerDry(s: Machine, root: Frame, p: nat, leaf: Pte, s3: Machine, t3: Frame)
    requires EnsureTable(s, root, RootIndex(p / ENTRIES), leaf.user) == (s3, Some(t3))
    requires s3.free == {} && t3 != 0 && root != 0 && root != t3
    requires s3.mem[t3][PointerIndex(p / ENTRIES)] == ABSENT
    requires Opens(s3.mem[root][RootIndex(p / ENTRIES)], t3, leaf.user)
    requires leaf.present && !leaf.huge
    ensures var (s', ok) := MapSmall(s, root, p, leaf);
            var m := SetEntry(s3.mem, t3, PointerIndex(p / ENTRIES), Interior(0, leaf.user));
            && (ok <==> p % ENTRIES != p / ENTRIES % ENTRIES)
            && s' == Machine(m[0 := SmallDryFrame(p, leaf)], {})
            && Walk(s'.mem, root, p) == Some(if ok then LeafMapping(leaf, leaf.frame) else ZeroPage(leaf.user))
  {}

  /** Frame 0 after map_page used it for the page table alone. */
  function SmallLastFrame(p: nat, leaf: Pte): Table { EmptyTable()[p % ENTRIES := leaf] }

  lemma SmallDirectoryDry(s: Machine, root: Frame, p: nat, leaf: Pte, s2: Machine, t2: Frame)
    requires Descend(s, root, p / ENTRIES, leaf.user) == (s2, Some(t2))
    requires s2.free == {} && t2 != 0 && s2.mem[t2][p / ENTRIES % ENTRIES] == ABSENT
    ensures var m := SetEntry(s2.mem, t2, p / ENTRIES % ENTRIES, Interior(0, leaf.user));
            MapSmall(s, root, p, leaf) == (Machine(m[0 := SmallLastFrame(p, leaf)], {}), true)
  {
    hide Descend;
    assert MapSmall(s, root, p, leaf).0.mem ==
           SetEntry(s2.mem, t2, p / ENTRIES % ENTRIES, Interior(0, leaf.user))[0 := SmallLastFrame(p, leaf)];
  }

  lemma SmallDirectoryWalk(m: Memory, root: Frame, t3: Frame, t2: Frame, p: nat, leaf: Pte)
    requires root != 0 && t3 != 0 && t2 != 0 && t2 != root && t2 != t3
    requires Opens(m[root][RootIndex(p / ENTRIES)], t3, leaf.user)
    requires Opens(m[t3][PointerIndex(p / ENTRIES)], t2, leaf.user)
    requires leaf.present && !leaf.huge
    ensures var m' := SetEntry(m, t2, p / ENTRIES % ENTRIES, Interior(0, leaf.user))[0 := SmallLastFrame(p, leaf)];
            Walk(m', root, p) == Some(LeafMapping(leaf, leaf.frame))
  {}

  // ---------------------------------------------------------------------------
  // Frame 0 becomes a table
  // ---------------------------------------------------------------------------

  lemma LinkedByRoot(m: Memory, root: Frame, k: nat)
    requires k < ENTRIES && Links(m[root][k]) && m[root][k].frame == 0
    ensures LinksZero(m, root)
  {
    assert TableAt(m, root, 4, k / ENTRIES) == Some(root);
    assert TableAt(m, root, 3, k) == Some(0);
  }

  lemma LinkedByPointer(m: Memory, root: Frame, k: nat, t: Frame)
    requires k < ENTRIES * ENTRIES && Links(m[root][k / ENTRIES]) && m[root][k / ENTRIES].frame == t
    requires Links(m[t][k % ENTRIES]) && m[t][k % ENTRIES].frame == 0
    ensures LinksZero(m, root)
  {
    assert TableAt(m, root, 4, k / ENTRIES / ENTRIES) == Some(root);
    assert TableAt(m, root, 3, k / ENTRIES) == Some(t);
    assert TableAt(m, root, 2, k) == Some(0);
  }

  lemma LinkedByDirectory(m: Memory, root: Frame, d: nat, t3: Frame, t2: Frame)
    requires d < ENTRIES * ENTRIES * ENTRIES
    requires Links(m[root][d / ENTRIES / ENTRIES]) && m[root][d / ENTRIES / ENTRIES].frame == t3
    requires Links(m[t3][d / ENTRIES % ENTRIES]) && m[t3][d / ENTRIES % ENTRIES].frame == t2
    requires Links(m[t2][d % ENTRIES]) && m[t2][d % ENTRIES].frame == 0
    ensures LinksZero(m, root)
  {
    assert TableAt(m, root, 4, d / ENTRIES / ENTRIES / ENTRIES) == Some(root);
    assert TableAt(m, root, 3, d / ENTRIES / ENTRIES) == Some(t3);
    assert TableAt(m, root, 2, d / ENTRIES) == Some(t2);
    assert TableAt(m, root, 1, d) == Some(0);
  }

  lemma SmallDirectoryLinks(m: Memory, root: Frame, t3: Frame, t2: Frame, p: nat, leaf: Pte)
    requires root != 0 && t3 != 0 && t2 != 0 && t2 != root && t2 != t3 && p < PAGES
    requires Opens(m[root][RootIndex(p / ENTRIES)], t3, leaf.user)
    requires Opens(m[t3][PointerIndex(p / ENTRIES)], t2, leaf.user)
    ensures var m' := SetEntry(m, t2, p / ENTRIES % ENTRIES, Interior(0, leaf.user))[0 := SmallLastFrame(p, leaf)];
            LinksZero(m', root)
  {
    hide LinksZero, SmallLastFrame;
    LinkedByDirectory(SetEntry(m, t2, p / ENTRIES % ENTRIES, Interior(0, leaf.user))[0 := SmallLastFrame(p, leaf)],
                      root, p / ENTRIES, t3, t2);
  }

  // ---------------------------------------------------------------------------
  // Where a call runs dry
  // ---------------------------------------------------------------------------

  lemma RootSlot(s: Machine, root: Frame, d: nat)
    requires Clean(s, root) && d < ENTRIES * ENTRIES * ENTRIES && RootDry(s, root, d)
    ensures root != 0 && s.mem[root][RootIndex(d)] == ABSENT
  {
    var k := d / ENTRIES / ENTRIES;
    assert TableAt(s.mem, root, 4, k / ENTRIES) == Some(root);
    assert SlotAt(s.mem, root, 4, k).Some? && EntryOk(4, SlotAt(s.mem, root, 4, k).value);
    AbsentSlot(s.mem, root, 4, k);
  }

  /** The first interior step, when it does not run dry. */
  lemma FirstStep(s: Machine, root: Frame, d: nat, user: bool)
    requires Clean(s, root) && d < ENTRIES * ENTRIES * ENTRIES && !RootDry(s, root, d)
    ensures var k := d / ENTRIES / ENTRIES;
            var (s3, t3) := EnsureTable(s, root, RootIndex(d), user);
            t3.Some? && Clean(s3, root) && Grown(s, s3, root) && Stepped(s, s3, root, 4, k, t3.value, user)
  {
    hide EnsureTable, Grown, Stepped;
    var k := d / ENTRIES / ENTRIES;
    assert TableAt(s.mem, root, 4, k / ENTRIES) == Some(root);
    assert SlotAt(s.mem, root, 4, k).Some? && EntryOk(4, SlotAt(s.mem, root, 4, k).value);
    EnsureStep(s, root, 4, k, user);
    GrownBalanced(s, EnsureTable(s, root, RootIndex(d), user).0, root);
    CleanKept(s, EnsureTable(s, root, RootIndex(d), user).0, root);
  }

  /** If no step ran dry, there were frames for every missing table. */
  lemma NeverDry(t: set<Node>, t2: set<Node>, f: nat, f2: nat, path: set<Node>, x: Node)
    requires t <= t2 && f2 + |t2| == f + |t|
    requires path <= t2 + {x} && (x in t2 || f2 > 0)
    ensures |path - t| <= f
  {
    assert t2 == t + (t2 - t);
    var more := (t2 - t) + (if x in t2 then {} else {x});
    assert path - t <= more;
    assert more == (path - t) + (more - (path - t));
  }

  lemma LastIsDry(s: Machine, s': Machine, root: Frame, path: set<Node>, x: Node)
    requires Grown(s, s', root) && !Enough(s, root, path)
    requires path <= Tables(s'.mem, root) + {x}
    ensures x !in Tables(s'.mem, root) && s'.free == {}
  {
    hide Tables, SameLeaves, SlotsKept, TablesKept, Confined;
    if x in Tables(s'.mem, root) || s'.free != {} {
      NeverDry(Tables(s.mem, root), Tables(s'.mem, root), |s.free|, |s'.free|, path, x);
      assert false;
    }
  }

  /** Dry below the root: what the second step meets. */
  lemma PointerDry(s: Machine, root: Frame, d: nat, user: bool)
    requires Clean(s, root) && d < ENTRIES * ENTRIES * ENTRIES
    requires !RootDry(s, root, d) && !Enough(s, root, LargePath(d))
    ensures var (s3, t3) := EnsureTable(s, root, RootIndex(d), user);
            && t3.Some? && s3.free == {} && t3.value != 0 && root != 0 && root != t3.value
            && s3.mem[t3.value][PointerIndex(d)] == ABSENT
            && Opens(s3.mem[root][RootIndex(d)], t3.value, user)
  {
    hide EnsureTable, Grown, Enough;
    FirstStep(s, root, d, user);
    var (s3, t3) := EnsureTable(s, root, RootIndex(d), user);
    LastIsDry(s, s3, root, LargePath(d), Node(2, d / ENTRIES));
    PointerSlots(s3, root, d, t3.value);
  }

  lemma PointerSlots(s: Machine, root: Frame, d: nat, t3: Frame)
    requires Clean(s, root) && TableAt(s.mem, root, 3, d / ENTRIES / ENTRIES) == Some(t3)
    requires d < ENTRIES * ENTRIES * ENTRIES && Node(2, d / ENTRIES) !in Tables(s.mem, root)
    ensures t3 != 0 && root != 0 && root != t3 && s.mem[t3][PointerIndex(d)] == ABSENT
    ensures SlotAt(s.mem, root, 4, d / ENTRIES / ENTRIES) == Some(s.mem[root][RootIndex(d)])
    ensures Opens(s.mem[root][RootIndex(d)], t3, false)
  {
    assert TableAt(s.mem, root, 4, d / ENTRIES / ENTRIES / ENTRIES) == Some(root);
    assert SlotAt(s.mem, root, 3, d / ENTRIES).Some? && EntryOk(3, SlotAt(s.mem, root, 3, d / ENTRIES).value);
    AbsentSlot(s.mem, root, 3, d / ENTRIES);
  }

  /** Dry at the page directory: what the third step meets. */
  lemma DirectoryDry(s: Machine, root: Frame, p: nat, user: bool)
    requires Clean(s, root) && p < PAGES && LeafAt(s.mem, root, p).None?
    requires Enough(s, root, LargePath(p / ENTRIES)) && !Enough(s, root, SmallPath(p))
    ensures var d := p / ENTRIES;
            var (s2, t2) := Descend(s, root, d, user);
            && t2.Some? && s2.free == {} && s2.mem[t2.value][d % ENTRIES] == ABSENT
            && exists t3: Frame {:trigger Opens(s2.mem[root][RootIndex(d)], t3, user)} ::
                 && root != 0 && t3 != 0 && t2.value != 0 && t2.value != root && t2.value != t3
                 && Opens(s2.mem[root][RootIndex(d)], t3, user) && Opens(s2.mem[t3][PointerIndex(d)], t2.value, user)
  {
    hide Descend, Grown, Enough, LeafAt;
    var d := p / ENTRIES;
    DescendStep(s, root, d, user);
    var (s2, t2) := Descend(s, root, d, user);
    GrownBalanced(s, s2, root);
    CleanKept(s, s2, root);
    LastIsDry(s, s2, root, SmallPath(p), Node(1, d));
    LeafFreeSlot(s, s2, root, p);
    DirectorySlots(s2, root, d, t2.value, user);
  }

  /** An unmapped page has no large page over it, now or after the descent. */
  lemma LeafFreeSlot(s: Machine, s2: Machine, root: Frame, p: nat)
    requires LeafAt(s.mem, root, p).None? && Grown(s, s2, root) && Clean(s2, root)
    requires TableAt(s2.mem, root, 2, p / ENTRIES / ENTRIES).Some?
    ensures SlotAt(s2.mem, root, 2, p / ENTRIES).Some? && !SlotAt(s2.mem, root, 2, p / ENTRIES).value.huge
  {}

  lemma DirectorySlots(s: Machine, root: Frame, d: nat, t2: Frame, user: bool)
    requires Clean(s, root) && TableAt(s.mem, root, 2, d / ENTRIES) == Some(t2)
    requires d < ENTRIES * ENTRIES * ENTRIES && Node(1, d) !in Tables(s.mem, root)
    requires !SlotAt(s.mem, root, 2, d).value.huge && (user ==> UserAbove(s, root, 2, d))
    ensures s.mem[t2][d % ENTRIES] == ABSENT
    ensures exists t3: Frame {:trigger Opens(s.mem[root][RootIndex(d)], t3, user)} ::
              && root != 0 && t3 != 0 && t2 != 0 && t2 != root && t2 != t3
              && Opens(s.mem[root][RootIndex(d)], t3, user) && Opens(s.mem[t3][PointerIndex(d)], t2, user)
  {
    AbsentSlot(s.mem, root, 2, d);
    assert TableAt(s.mem, root, 4, d / ENTRIES / ENTRIES / ENTRIES) == Some(root);
    var t3 := TableAt(s.mem, root, 3, d / ENTRIES / ENTRIES).value;
    assert SlotAt(s.mem, root, 4, d / ENTRIES / ENTRIES) == Some(s.mem[root][RootIndex(d)]);
    assert SlotAt(s.mem, root, 3, d / ENTRIES) == Some(s.mem[t3][PointerIndex(d)]);
    assert Opens(s.mem[root][RootIndex(d)], t3, user);
  }

  // ---------------------------------------------------------------------------
  // Mapped pages survive
  // ---------------------------------------------------------------------------

  /** Outside frame 0, entries that were present are as they were. */
  predicate PresentKept(m: Memory, m': Memory) {
    forall f: Frame, i: nat :: f != 0 && i < ENTRIES && m[f][i].present ==> m'[f][i] == m[f][i]
  }

  lemma DryWriteKeeps(m: Memory, t: Frame, i: nat, e: Pte, zero: Table)
    requires i < ENTRIES && !m[t][i].present
    ensures PresentKept(m, SetEntry(m, t, i, e)[0 := zero])
  {}

  /** A mapped page of a space that runs without frame 0 never notices. */
  lemma WalkKept(m: Memory, m': Memory, root: Frame, q: nat)
    requires NoZeroTables(m, root) && EntriesOk(m, root) && PresentKept(m, m')
    requires q < PAGES && Walk(m, root, q).Some?
    ensures Walk(m', root, q) == Walk(m, root, q)
  {
    var k4, k3, d := q / ENTRIES / ENTRIES / ENTRIES, q / ENTRIES / ENTRIES, q / ENTRIES;
    assert TableAt(m, root, 4, k4 / ENTRIES) == Some(root);
    var e4 := m[root][k4 % ENTRIES];
    assert SlotAt(m, root, 4, k4) == Some(e4) && EntryOk(4, e4);
    assert TableAt(m, root, 3, k4) == Some(e4.frame);
    var e3 := m[e4.frame][k3 % ENTRIES];
    assert SlotAt(m, root, 3, k3) == Some(e3) && EntryOk(3, e3);
    assert TableAt(m, root, 2, k3) == Some(e3.frame);
    var e2 := m[e3.frame][d % ENTRIES];
    assert SlotAt(m, root, 2, d) == Some(e2);
    if !e2.huge { assert TableAt(m, root, 1, d) == Some(e2.frame); }
  }

  ghost predicate MappedKept(m: Memory, m': Memory, root: Frame) {
    forall q: nat :: q < PAGES && Walk(m, root, q).Some? ==> Walk(m', root, q) == Walk(m, root, q)
  }

  /** Building tables and then running dry keeps every mapped page. */
  lemma DryKeepsMapped(s: Machine, s': Machine, root: Frame, t: Frame, i: nat, e: Pte, zero: Table)
    requires Clean(s, root) && Clean(s', root) && Grown(s, s', root)
    requires i < ENTRIES && !s'.mem[t][i].present
    ensures MappedKept(s.mem, SetEntry(s'.mem, t, i, e)[0 := zero], root)
  {
    hide Walk, PresentKept, SetEntry, NoZeroTables, Distinct, Allocated;
    var m' := SetEntry(s'.mem, t, i, e)[0 := zero];
    DryWriteKeeps(s'.mem, t, i, e, zero);
    forall q: nat | q < PAGES && Walk(s.mem, root, q).Some? ensures Walk(m', root, q) == Walk(s.mem, root, q) {
      WalkIsLeaf(s.mem, root, q);
      WalkIsLeaf(s'.mem, root, q);
      WalkKept(s'.mem, m', root, q);
    }
  }

  lemma GrownRefl(s: Machine, root: Frame)
    ensures Grown(s, s, root)
  {}

  // ---------------------------------------------------------------------------
  // map_page, frames or not
  // ---------------------------------------------------------------------------

  /** What map_page does to an unmapped page `p`, with or without the frames it needs. */
  ghost predicate SmallAnswer(s: Machine, s': Machine, ok: bool, root: Frame, p: nat, leaf: Pte) {
    var d := p / ENTRIES;
    && (ok <==> Enough(s, root, LargePath(d)) || p % ENTRIES != d % ENTRIES)
    && Walk(s'.mem, root, p) ==
       (if RootDry(s, root, d) then RootDryWalk(SmallDryMemory(s.mem, root, p, leaf), p, leaf)
        else Some(if ok then LeafMapping(leaf, leaf.frame) else ZeroPage(leaf.user)))
    && MappedKept(s.mem, s'.mem, root)
    && (LinksZero(s'.mem, root) <==> !Enough(s, root, SmallPath(p)))
    && (LinksZero(s'.mem, root) ==> s'.free == {})
  }

  lemma RootDryShort(s: Machine, root: Frame, d: nat)
    requires RootDry(s, root, d)
    ensures !Enough(s, root, LargePath(d))
  {
    assert Node(3, d / ENTRIES / ENTRIES) in LargePath(d) - Tables(s.mem, root);
  }

  lemma SmallAtRoot(s: Machine, root: Frame, p: nat, leaf: Pte)
    requires Clean(s, root) && p < PAGES && leaf.present && !leaf.huge
    requires RootDry(s, root, p / ENTRIES)
    ensures var (s', ok) := MapSmall(s, root, p, leaf); SmallAnswer(s, s', ok, root, p, leaf)
  {
    hide Enough, Walk, MapSmall, RootDryWalk, SmallDryFrame, Grown, MappedKept;
    var d := p / ENTRIES;
    RootDryShort(s, root, d);
    if Enough(s, root, SmallPath(p)) { EnoughSubset(s, root, LargePath(d), SmallPath(p)); }
    RootSlot(s, root, d);
    SmallRootDry(s, root, p, leaf);
    SmallRootWalk(s.mem, root, p, leaf);
    GrownRefl(s, root);
    DryKeepsMapped(s, s, root, root, RootIndex(d), Interior(0, leaf.user), SmallDryFrame(p, leaf));
    LinkedByRoot(SmallDryMemory(s.mem, root, p, leaf), root, d / ENTRIES / ENTRIES);
  }

  lemma SmallAtPointer(s: Machine, root: Frame, p: nat, leaf: Pte)
    requires Clean(s, root) && p < PAGES && leaf.present && !leaf.huge
    requires !RootDry(s, root, p / ENTRIES) && !Enough(s, root, LargePath(p / ENTRIES))
    ensures var (s', ok) := MapSmall(s, root, p, leaf); SmallAnswer(s, s', ok, root, p, leaf)
  {
    hide Enough, Walk, MapSmall, RootDryWalk, SmallDryFrame, EnsureTable, RootDry, Grown, MappedKept, Clean;
    var d := p / ENTRIES;
    if Enough(s, root, SmallPath(p)) { EnoughSubset(s, root, LargePath(d), SmallPath(p)); }
    PointerDry(s, root, d, leaf.user);
    FirstStep(s, root, d, leaf.user);
    var (s3, t3) := EnsureTable(s, root, RootIndex(d), leaf.user);
    SmallPointerDry(s, root, p, leaf, s3, t3.value);
    DryKeepsMapped(s, s3, root, t3.value, PointerIndex(d), Interior(0, leaf.user), SmallDryFrame(p, leaf));
    LinkedByPointer(MapSmall(s, root, p, leaf).0.mem, root, d / ENTRIES, t3.value);
  }

  lemma SmallAtDirectory(s: Machine, root: Frame, p: nat, leaf: Pte)
    requires Clean(s, root) && p < PAGES && leaf.present && !leaf.huge && LeafAt(s.mem, root, p).None?
    requires Enough(s, root, LargePath(p / ENTRIES)) && !Enough(s, root, SmallPath(p))
    ensures var (s', ok) := MapSmall(s, root, p, leaf); SmallAnswer(s, s', ok, root, p, leaf)
  {
    hide Enough, Walk, MapSmall, RootDryWalk, SmallLastFrame, Descend, RootDry, Grown, MappedKept, LeafAt, Tables,
         NoZeroTables, LinksZero, Opens, SlotAt, UserAbove;
    var d := p / ENTRIES;
    if RootDry(s, root, d) { RootDryShort(s, root, d); }
    DirectoryDry(s, root, p, leaf.user);
    DescendStep(s, root, d, leaf.user);
    var (s2, t2) := Descend(s, root, d, leaf.user);
    GrownBalanced(s, s2, root);
    CleanKept(s, s2, root);
    SmallDirectoryDry(s, root, p, leaf, s2, t2.value);
    var t3: Frame :|
      && root != 0 && t3 != 0 && t2.value != 0 && t2.value != root && t2.value != t3
      && Opens(s2.mem[root][RootIndex(d)], t3, leaf.user) && Opens(s2.mem[t3][PointerIndex(d)], t2.value, leaf.user);
    SmallDirectoryWalk(s2.mem, root, t3, t2.value, p, leaf);
    SmallDirectoryLinks(s2.mem, root, t3, t2.value, p, leaf);
    DryKeepsMapped(s, s2, root, t2.value, d % ENTRIES, Interior(0, leaf.user), SmallLastFrame(p, leaf));
  }

  lemma SmallInFrames(s: Machine, root: Frame, p: nat, leaf: Pte)
    requires Clean(s, root) && Populated(s.mem, root)
    requires p < PAGES && leaf.present && !leaf.huge && LeafAt(s.mem, root, p).None?
    requires Enough(s, root, SmallPath(p))
    ensures var (s', ok) := MapSmall(s, root, p, leaf); SmallAnswer(s, s', ok, root, p, leaf)
  {
    hide Enough, Walk, MapSmall, RootDryWalk, RootDry, LeafAt, Balanced, Tables, Populated, Distinct, Allocated;
    var d := p / ENTRIES;
    EnoughSubset(s, root, LargePath(d), SmallPath(p));
    if RootDry(s, root, d) { RootDryShort(s, root, d); }
    MapSmallRefines(s, root, p, leaf);
    var (s', ok) := MapSmall(s, root, p, leaf);
    CleanKept(s, s', root);
    forall q: nat | q < PAGES
      ensures Walk(s'.mem, root, q) == LeafAt(s'.mem, root, q) && Walk(s.mem, root, q) == LeafAt(s.mem, root, q)
    {
      WalkIsLeaf(s.mem, root, q);
      WalkIsLeaf(s'.mem, root, q);
    }
  }

  /** map_page on any unmapped page of a space that runs without frame 0.  It is refused exactly when it
      runs dry above the page directory and the page's last two indices coincide; frame 0 becomes a table
      exactly when the frames for the missing tables are not all there; every mapped page stays mapped
      as it was; and what the page itself then leads to is exact. */
  lemma SmallExact(s: Machine, root: Frame, p: nat, leaf: Pte)
    requires Clean(s, root) && Populated(s.mem, root)
    requires p < PAGES && leaf.present && !leaf.huge && LeafAt(s.mem, root, p).None?
    ensures var (s', ok) := MapSmall(s, root, p, leaf); SmallAnswer(s, s', ok, root, p, leaf)
  {
    hide Enough, MapSmall, SmallAnswer, Clean, RootDry, LeafAt, Populated;
    if Enough(s, root, SmallPath(p)) {
      SmallInFrames(s, root, p, leaf);
    } else if Enough(s, root, LargePath(p / ENTRIES)) {
      SmallAtDirectory(s, root, p, leaf);
    } else if RootDry(s, root, p / ENTRIES) {
      SmallAtRoot(s, root, p, leaf);
    } else {
      SmallAtPointer(s, root, p, leaf);
    }
  }

  /** An entry that takes away none of the leaf's rights. */
  predicate Passes(e: Pte, leaf: Pte) {
    e.present && (leaf.writable ==> e.writable) && (leaf.user ==> e.user) && (e.noExecute ==> leaf.noExecute)
  }

  /** Entry `i` of a frame other than 0 once the root entry of page `p` links frame 0. */
  function EntryLeft(m: Memory, root: Frame, p: nat, leaf: Pte, f: Frame, i: nat): Pte
    requires i < ENTRIES
  {
    if f == root && i == RootIndex(p / ENTRIES) then Interior(0, leaf.user) else m[f][i]
  }

  /** The frame to be mapped, read as a page directory, happens to lead to the mapping asked for: it is
      frame 0 itself, or its entry for the page is a large page that says so, or links a page table that
      does, frame 0 being one. */
  predicate LeadsBack(m: Memory, root: Frame, p: nat, leaf: Pte) {
    leaf.frame == 0 ||
    var e2 := EntryLeft(m, root, p, leaf, leaf.frame, p / ENTRIES % ENTRIES);
    Passes(e2, leaf) &&
    if e2.huge then e2.frame + p % ENTRIES == leaf.frame && e2.attributes == leaf.attributes
    else e2.frame == 0 ||
         var e1 := EntryLeft(m, root, p, leaf, e2.frame, p % ENTRIES);
         Passes(e1, leaf) && e1.frame == leaf.frame && e1.attributes == leaf.attributes
  }

  lemma LeadsBackIff(m: Memory, root: Frame, p: nat, leaf: Pte)
    requires leaf.present && !leaf.huge && p % ENTRIES != p / ENTRIES % ENTRIES
    ensures var w := WalkDirectory(SmallDryMemory(m, root, p, leaf), Interior(0, leaf.user), leaf, p);
            w == Some(LeafMapping(leaf, leaf.frame)) <==> LeadsBack(m, root, p, leaf)
  {}

  /** Success without the mapping: exactly when there is no pointer table and no frame for it, and neither
      two equal indices bring the walk back to frame 0 nor the mapped frame's own content does. */
  lemma LostIff(s: Machine, root: Frame, p: nat, leaf: Pte)
    requires Clean(s, root) && Populated(s.mem, root)
    requires p < PAGES && leaf.present && !leaf.huge && LeafAt(s.mem, root, p).None?
    ensures var (s', ok) := MapSmall(s, root, p, leaf);
            var i3, i2, i1 := p / ENTRIES / ENTRIES % ENTRIES, p / ENTRIES % ENTRIES, p % ENTRIES;
            ok && Walk(s'.mem, root, p) != Some(LeafMapping(leaf, leaf.frame)) <==>
            && RootDry(s, root, p / ENTRIES) && i1 != i2 && i3 != i2
            && (i3 == i1 ==> !LeadsBack(s.mem, root, p, leaf))
  {
    hide MapSmall, Walk, WalkDirectory, Clean, LeafAt, Populated, Enough, SmallDryMemory, RootDry, LeadsBack;
    SmallExact(s, root, p, leaf);
    if RootDry(s, root, p / ENTRIES) { RootDryShort(s, root, p / ENTRIES); }
    if p % ENTRIES != p / ENTRIES % ENTRIES { LeadsBackIff(s.mem, root, p, leaf); }
  }

  /** One such page: on an empty space with no frame left, mapping page 514 reports success, and the walk
      of that page finds nothing. */
  lemma LostMapping(s: Machine, root: Frame, leaf: Pte)
    requires s.free == {} && root != 0 && s.mem[root] == EmptyTable()
    requires leaf.present && !leaf.huge
    ensures var (s', ok) := MapSmall(s, root, 514, leaf);
            ok && Walk(s'.mem, root, 514).None?
  {}

  // ---------------------------------------------------------------------------
  // map_page_large, frames or not
  // ---------------------------------------------------------------------------

  /** Frame 0 after map_page_large used it for the directory and the pointer table. */
  function LargeDryFrame(d: nat, leaf: Pte): Table {
    var t: Table := EmptyTable()[PointerIndex(d) := Interior(0, leaf.user)];
    if d % ENTRIES == PointerIndex(d) then t else t[d % ENTRIES := leaf]
  }

  lemma LargeRootDry(s: Machine, root: Frame, d: nat, leaf: Pte)
    requires s.free == {} && root != 0 && s.mem[root][RootIndex(d)] == ABSENT
    ensures var m := SetEntry(s.mem, root, RootIndex(d), Interior(0, leaf.user));
            MapLarge(s, root, d, leaf) == (Machine(m[0 := LargeDryFrame(d, leaf)], {}), d % ENTRIES != PointerIndex(d))
  {
    assert MapLarge(s, root, d, leaf).0.mem ==
           SetEntry(s.mem, root, RootIndex(d), Interior(0, leaf.user))[0 := LargeDryFrame(d, leaf)];
  }

  /** What page `q` of the region leads to. */
  function LargeResult(ok: bool, q: nat, leaf: Pte): Option<Mapping> {
    if ok then Some(LeafMapping(leaf, leaf.frame + q % ENTRIES))
    else if q % ENTRIES == q / ENTRIES % ENTRIES then Some(ZeroPage(leaf.user))
    else None
  }

  lemma LargeRootWalk(m: Memory, root: Frame, q: nat, leaf: Pte)
    requires root != 0 && leaf.present && leaf.huge
    ensures var d := q / ENTRIES;
            var m' := SetEntry(m, root, RootIndex(d), Interior(0, leaf.user))[0 := LargeDryFrame(d, leaf)];
            Walk(m', root, q) == LargeResult(d % ENTRIES != PointerIndex(d), q, leaf)
  {}

  lemma LargePointerDry(s: Machine, root: Frame, d: nat, leaf: Pte, s3: Machine, t3: Frame)
    requires EnsureTable(s, root, RootIndex(d), leaf.user) == (s3, Some(t3))
    requires s3.free == {} && t3 != 0 && s3.mem[t3][PointerIndex(d)] == ABSENT
    ensures var m := SetEntry(s3.mem, t3, PointerIndex(d), Interior(0, leaf.user));
            MapLarge(s, root, d, leaf) == (Machine(m[0 := EmptyTable()[d % ENTRIES := leaf]], {}), true)
  {
    assert MapLarge(s, root, d, leaf).0.mem ==
           SetEntry(s3.mem, t3, PointerIndex(d), Interior(0, leaf.user))[0 := EmptyTable()[d % ENTRIES := leaf]];
  }

  lemma LargePointerWalk(m: Memory, root: Frame, t3: Frame, q: nat, leaf: Pte)
    requires root != 0 && t3 != 0 && root != t3 && leaf.present && leaf.huge
    requires Opens(m[root][RootIndex(q / ENTRIES)], t3, leaf.user)
    ensures var d := q / ENTRIES;
            var m' := SetEntry(m, t3, PointerIndex(d), Interior(0, leaf.user))[0 := EmptyTable()[d % ENTRIES := leaf]];
            Walk(m', root, q) == LargeResult(true, q, leaf)
  {}

  /** What map_page_large does to an unmapped region `d`, with or without the frames it needs. */
  ghost predicate LargeAnswer(s: Machine, s': Machine, ok: bool, root: Frame, d: nat, leaf: Pte) {
    && (ok <==> !(RootDry(s, root, d) && d % ENTRIES == PointerIndex(d)))
    && (forall q: nat :: q / ENTRIES == d ==> Walk(s'.mem, root, q) == LargeResult(ok, q, leaf))
    && MappedKept(s.mem, s'.mem, root)
    && (LinksZero(s'.mem, root) <==> !Enough(s, root, LargePath(d)))
    && (LinksZero(s'.mem, root) ==> s'.free == {})
  }

  lemma LargeAtRoot(s: Machine, root: Frame, d: nat, leaf: Pte)
    requires Clean(s, root) && ENTRIES * d < PAGES && leaf.present && leaf.huge && RootDry(s, root, d)
    ensures var (s', ok) := MapLarge(s, root, d, leaf); LargeAnswer(s, s', ok, root, d, leaf)
  {
    hide Enough, Walk, MapLarge, LargeDryFrame, Grown, MappedKept, LargeResult;
    RootDryShort(s, root, d);
    RootSlot(s, root, d);
    LargeRootDry(s, root, d, leaf);
    GrownRefl(s, root);
    DryKeepsMapped(s, s, root, root, RootIndex(d), Interior(0, leaf.user), LargeDryFrame(d, leaf));
    LinkedByRoot(MapLarge(s, root, d, leaf).0.mem, root, d / ENTRIES / ENTRIES);
    forall q: nat | q / ENTRIES == d
      ensures Walk(MapLarge(s, root, d, leaf).0.mem, root, q) == LargeResult(MapLarge(s, root, d, leaf).1, q, leaf)
    {
      LargeRootWalk(s.mem, root, q, leaf);
    }
  }

  lemma LargeAtPointer(s: Machine, root: Frame, d: nat, leaf: Pte)
    requires Clean(s, root) && ENTRIES * d < PAGES && leaf.present && leaf.huge
    requires !RootDry(s, root, d) && !Enough(s, root, LargePath(d))
    ensures var (s', ok) := MapLarge(s, root, d, leaf); LargeAnswer(s, s', ok, root, d, leaf)
  {
    hide Enough, Walk, MapLarge, EnsureTable, RootDry, Grown, MappedKept, LargeResult, Clean;
    PointerDry(s, root, d, leaf.user);
    FirstStep(s, root, d, leaf.user);
    var (s3, t3) := EnsureTable(s, root, RootIndex(d), leaf.user);
    LargePointerDry(s, root, d, leaf, s3, t3.value);
    DryKeepsMapped(s, s3, root, t3.value, PointerIndex(d), Interior(0, leaf.user), EmptyTable()[d % ENTRIES := leaf]);
    LinkedByPointer(MapLarge(s, root, d, leaf).0.mem, root, d / ENTRIES, t3.value);
    forall q: nat | q / ENTRIES == d
      ensures Walk(MapLarge(s, root, d, leaf).0.mem, root, q) == LargeResult(true, q, leaf)
    {
      LargePointerWalk(s3.mem, root, t3.value, q, leaf);
    }
  }

  lemma LargeInFrames(s: Machine, root: Frame, d: nat, leaf: Pte)
    requires Clean(s, root) && Populated(s.mem, root) && RegionFree(s.mem, root, d) && ENTRIES * d < PAGES
    requires leaf.present && leaf.huge && leaf.frame % ENTRIES == 0 && Enough(s, root, LargePath(d))
    ensures var (s', ok) := MapLarge(s, root, d, leaf); LargeAnswer(s, s', ok, root, d, leaf)
  {
    hide Enough, Walk, MapLarge, RootDry, LeafAt, Balanced, Tables, Populated, Distinct, Allocated;
    if RootDry(s, root, d) { RootDryShort(s, root, d); }
    MapLargeRefines(s, root, d, leaf);
    var (s', ok) := MapLarge(s, root, d, leaf);
    CleanKept(s, s', root);
    forall q: nat | q < PAGES
      ensures Walk(s'.mem, root, q) == LeafAt(s'.mem, root, q) && Walk(s.mem, root, q) == LeafAt(s.mem, root, q)
    {
      WalkIsLeaf(s.mem, root, q);
      WalkIsLeaf(s'.mem, root, q);
    }
    assert forall q: nat :: q / ENTRIES == d ==> q < PAGES;
  }

  /** map_page_large on any unmapped region of a space that runs without frame 0.  It is refused exactly
      when it runs dry at the root and the region's last two indices coincide; success always means that
      all 512 pages are mapped; frame 0 becomes a table exactly when the frames are not all there; and
      every mapped page stays mapped as it was. */
  lemma LargeExact(s: Machine, root: Frame, d: nat, leaf: Pte)
    requires Clean(s, root) && Populated(s.mem, root) && RegionFree(s.mem, root, d) && ENTRIES * d < PAGES
    requires leaf.present && leaf.huge && leaf.frame % ENTRIES == 0
    ensures var (s', ok) := MapLarge(s, root, d, leaf); LargeAnswer(s, s', ok, root, d, leaf)
  {
    hide Enough, MapLarge, LargeAnswer, Clean, RootDry, RegionFree, Populated;
    if Enough(s, root, LargePath(d)) {
      LargeInFrames(s, root, d, leaf);
    } else if RootDry(s, root, d) {
      LargeAtRoot(s, root, d, leaf);
    } else {
      LargeAtPointer(s, root, d, leaf);
    }
  }
}
