/** Mapping one page: the steps of map_page and map_page_large on decoded memory, and what
    they do to the tree and to the walk of every page. */
module Mapper {
  import opened Options
  import opened PageTree

  /** Physical memory together with the frames the allocator still has. */
  datatype Machine = Machine(mem: Memory, free: set<Frame>)

  /** One zeroed table.  Exhaustion is not detected: the allocator then answers 0, which the
      caller takes for a frame, so frame 0 is zeroed and handed out. */
  ghost function AllocTable(s: Machine): (Machine, Frame) {
    if s.free == {} then
      (s.(mem := s.mem[0 := EmptyTable()]), 0)
    else
      var f := LeastOf(s.free);
      (Machine(s.mem[f := EmptyTable()], s.free - {f}), f)
  }

  /** The interior entry written for a new table. */
  function Interior(frame: Frame, user: bool): Pte {
    Pte(true, true, user, false, false, frame, 0)
  }

  /** Follows entry `i` of table `t`, creating the table below when there is none. */
  ghost function EnsureTable(s: Machine, t: Frame, i: nat, user: bool): (Machine, Option<Frame>)
    requires i < ENTRIES
  {
    var e := s.mem[t][i];
    if e.huge then
      (s, None)
    else if !e.present then
      var (s', f) := AllocTable(s);
      (s'.(mem := SetEntry(s'.mem, t, i, Interior(f, user))), Some(f))
    else
      (s.(mem := SetEntry(s.mem, t, i, e.(writable := true, user := e.user || user))), Some(e.frame))
  }

  /** The page directory that holds entry `d`, created if need be. */
  ghost function Descend(s: Machine, root: Frame, d: nat, user: bool): (Machine, Option<Frame>) {
    var (s3, t3) := EnsureTable(s, root, d / ENTRIES / ENTRIES % ENTRIES, user);
    if t3.None? then (s3, None) else EnsureTable(s3, t3.value, d / ENTRIES % ENTRIES, user)
  }

  /** map_page after its argument checks: virtual page `p` gets the entry `leaf`. */
  ghost function MapSmall(s: Machine, root: Frame, p: nat, leaf: Pte): (Machine, bool) {
    var (s2, t2) := Descend(s, root, p / ENTRIES, leaf.user);
    if t2.None? then (s2, false) else
    var (s1, t1) := EnsureTable(s2, t2.value, p / ENTRIES % ENTRIES, leaf.user);
    if t1.None? then (s1, false) else
    if s1.mem[t1.value][p % ENTRIES].present then (s1, false)
    else (s1.(mem := SetEntry(s1.mem, t1.value, p % ENTRIES, leaf)), true)
  }

  /** map_page_large after its argument checks: the 512 pages numbered 512*d on get `leaf`. */
  ghost function MapLarge(s: Machine, root: Frame, d: nat, leaf: Pte): (Machine, bool) {
    var (s2, t2) := Descend(s, root, d, leaf.user);
    if t2.None? then (s2, false) else
    if s2.mem[t2.value][d % ENTRIES].present then (s2, false)
    else (s2.(mem := SetEntry(s2.mem, t2.value, d % ENTRIES, leaf)), true)
  }

  // ---------------------------------------------------------------------------
  // Counting tables
  // ---------------------------------------------------------------------------

  datatype Node = Node(level: nat, number: nat)

  lemma TableNumberBound(m: Memory, root: Frame, l: nat, n: nat)
    requires 1 <= l <= 4 && TableAt(m, root, l, n).Some?
    ensures n < PAGES
  {
    if l < 4 {
      assert TableAt(m, root, l + 1, n / ENTRIES).Some?;
      if l < 3 {
        assert TableAt(m, root, l + 2, n / ENTRIES / ENTRIES).Some?;
        if l < 2 {
          assert TableAt(m, root, l + 3, n / ENTRIES / ENTRIES / ENTRIES).Some?;
        }
      }
    }
  }

  /** The linked tables below the root, by place. */
  ghost function Tables(m: Memory, root: Frame): (r: set<Node>)
    ensures forall l: nat, n: nat {:trigger Node(l, n) in r} ::
      Node(l, n) in r <==> 1 <= l <= 3 && TableAt(m, root, l, n).Some?
  {
    var r := set l: nat, n: nat | 1 <= l <= 3 && n < PAGES && TableAt(m, root, l, n).Some? :: Node(l, n);
    assert forall l: nat, n: nat :: Node(l, n) in r <==> 1 <= l <= 3 && TableAt(m, root, l, n).Some? by {
      forall l: nat, n: nat | 1 <= l <= 3 && TableAt(m, root, l, n).Some?
        ensures Node(l, n) in r
      {
        TableNumberBound(m, root, l, n);
      }
    }
    r
  }

  ghost predicate Enough(s: Machine, root: Frame, nodes: set<Node>) {
    |nodes - Tables(s.mem, root)| <= |s.free|
  }

  // ---------------------------------------------------------------------------
  // What building interior tables keeps
  // ---------------------------------------------------------------------------

  ghost predicate SameLeaves(m: Memory, m': Memory, root: Frame) {
    forall p: nat :: LeafAt(m', root, p) == LeafAt(m, root, p)
  }

  ghost predicate SlotsKept(m: Memory, m': Memory, root: Frame) {
    forall l: nat, k: nat :: 1 <= l <= 4 && SlotAt(m, root, l, k).Some? ==>
      SlotAt(m', root, l, k).Some? && (SlotAt(m, root, l, k).value.present ==> SlotAt(m', root, l, k).value.present)
  }

  /** A linked table stays where it is; a new one is a frame just taken from the free set. */
  ghost predicate TablesKept(s: Machine, s': Machine, root: Frame) {
    forall l: nat, n: nat :: 1 <= l <= 4 ==>
      || TableAt(s'.mem, root, l, n) == TableAt(s.mem, root, l, n)
      || (TableAt(s.mem, root, l, n).None? && TableAt(s'.mem, root, l, n).Some?
          && TableAt(s'.mem, root, l, n).value in s.free - s'.free)
  }

  /** Frame `f` is a table of the space. */
  ghost predicate Owns(m: Memory, root: Frame, f: Frame) {
    exists l: nat, n: nat :: 1 <= l <= 4 && TableAt(m, root, l, n) == Some(f)
  }

  /** Only tables of the space were written. */
  ghost predicate Confined(m: Memory, m': Memory, root: Frame) {
    forall f: Frame :: m'[f] == m[f] || Owns(m', root, f)
  }

  /** Frames taken and tables linked balance, and no frame outside the space changed. */
  ghost predicate Balanced(s: Machine, s': Machine, root: Frame) {
    && s'.free <= s.free
    && |s'.free| + |Tables(s'.mem, root)| == |s.free| + |Tables(s.mem, root)|
    && TablesKept(s, s', root)
    && Confined(s.mem, s'.mem, root)
  }

  lemma ConfinedTrans(s: Machine, s': Machine, s'': Machine, root: Frame)
    requires Confined(s.mem, s'.mem, root) && Confined(s'.mem, s''.mem, root) && TablesKept(s', s'', root)
    ensures Confined(s.mem, s''.mem, root)
  {
    forall f: Frame ensures s''.mem[f] == s.mem[f] || Owns(s''.mem, root, f) {
      if s''.mem[f] == s'.mem[f] && s'.mem[f] != s.mem[f] {
        var l: nat, n: nat :| 1 <= l <= 4 && TableAt(s'.mem, root, l, n) == Some(f);
        assert TableAt(s''.mem, root, l, n) == Some(f);
      }
    }
  }

  lemma BalancedTrans(s: Machine, s': Machine, s'': Machine, root: Frame)
    requires Balanced(s, s', root) && Balanced(s', s'', root)
    ensures Balanced(s, s'', root)
  {
    hide Confined, Tables;
    ConfinedTrans(s, s', s'', root);
  }

  /** A write to one table of the space. */
  lemma WriteConfined(m: Memory, root: Frame, level: nat, k: nat, e: Pte)
    requires 1 <= level <= 4 && TableAt(m, root, level, k / ENTRIES).Some?
    requires SameTables(m, WriteAt(m, root, level, k, e), root)
    ensures Confined(m, WriteAt(m, root, level, k, e), root)
  {
    var m' := WriteAt(m, root, level, k, e);
    assert Owns(m', root, TableAt(m, root, level, k / ENTRIES).value) by {
      assert TableAt(m', root, level, k / ENTRIES).Some?;
    }
  }

  /** Going from `s` to `s'` added tables only: no leaf changed, no entry vanished, and every
      frame taken became a table. */
  ghost predicate Grown(s: Machine, s': Machine, root: Frame) {
    && Balanced(s, s', root)
    && Tables(s.mem, root) <= Tables(s'.mem, root)
    && SameLeaves(s.mem, s'.mem, root)
    && SlotsKept(s.mem, s'.mem, root)
  }

  ghost predicate TreeMachine(s: Machine, root: Frame) {
    TreeOk(s.mem, root, s.free)
  }

  lemma GrownTrans(s: Machine, s': Machine, s'': Machine, root: Frame)
    requires Grown(s, s', root) && Grown(s', s'', root)
    ensures Grown(s, s'', root)
  {
    hide Balanced;
    BalancedTrans(s, s', s'', root);
  }

  /** What one interior step at entry `k` of `level` achieves: table `k` below it exists. */
  ghost predicate Stepped(s: Machine, s': Machine, root: Frame, level: nat, k: nat, c: Frame, user: bool)
    requires 2 <= level <= 4
  {
    && TableAt(s'.mem, root, level - 1, k) == Some(c)
    && SlotAt(s'.mem, root, level, k).Some?
    && (user ==> SlotAt(s'.mem, root, level, k).value.user)
    && Tables(s'.mem, root) == Tables(s.mem, root) + {Node(level - 1, k)}
    && (forall l: nat, j: nat :: 1 <= l <= 4 && !(l == level && j == k) ==>
          SlotAt(s'.mem, root, l, j) ==
          if l == level - 1 && j / ENTRIES == k && Node(l, k) !in Tables(s.mem, root) then Some(ABSENT)
          else SlotAt(s.mem, root, l, j))
  }

  ghost predicate UserAbove(s: Machine, root: Frame, level: nat, k: nat)
    requires 1 <= level <= 4
  {
    level < 4 ==>
    SlotAt(s.mem, root, level + 1, k / ENTRIES).Some? && SlotAt(s.mem, root, level + 1, k / ENTRIES).value.user
  }

  /** The part of an interior step that needs only where the tables and slots are. */
  lemma RewrittenLink(s: Machine, s': Machine, root: Frame, level: nat, k: nat, e: Pte)
    requires 2 <= level <= 4
    requires SlotAt(s.mem, root, level, k).Some? && Links(SlotAt(s.mem, root, level, k).value)
    requires Links(e) && e.frame == SlotAt(s.mem, root, level, k).value.frame
    requires SameTables(s.mem, s'.mem, root) && OnlySlot(s.mem, s'.mem, root, level, k, e)
    requires s'.free == s.free && Confined(s.mem, s'.mem, root)
    ensures Grown(s, s', root) && Stepped(s, s', root, level, k, e.frame, e.user)
  {
    hide LeafAt, Confined;
    assert Node(level - 1, k) in Tables(s.mem, root);
    SameTableSet(s.mem, s'.mem, root);
    LeavesKept(s.mem, s'.mem, root, level, k, e);
  }

  lemma SameTableSet(m: Memory, m': Memory, root: Frame)
    requires SameTables(m, m', root)
    ensures Tables(m', root) == Tables(m, root)
  {}

  lemma LeavesKept(m: Memory, m': Memory, root: Frame, level: nat, k: nat, e: Pte)
    requires 2 <= level <= 4
    requires SlotAt(m, root, level, k).Some? && Links(SlotAt(m, root, level, k).value) && Links(e)
    requires OnlySlot(m, m', root, level, k, e)
    ensures SameLeaves(m, m', root)
  {}

  lemma EnsureExisting(s: Machine, root: Frame, level: nat, k: nat, user: bool)
    requires 2 <= level <= 4
    requires TreeMachine(s, root)
    requires SlotAt(s.mem, root, level, k).Some? && Links(SlotAt(s.mem, root, level, k).value)
    requires user ==> UserAbove(s, root, level, k)
    ensures var e := SlotAt(s.mem, root, level, k).value;
            var s' := s.(mem := WriteAt(s.mem, root, level, k, e.(writable := true, user := e.user || user)));
            TreeMachine(s', root) && Grown(s, s', root) && Stepped(s, s', root, level, k, e.frame, user)
  {
    var e := SlotAt(s.mem, root, level, k).value;
    var e' := e.(writable := true, user := e.user || user);
    var s' := s.(mem := WriteAt(s.mem, root, level, k, e'));
    assert e.user ==> UserAbove(s, root, level, k);
    WriteSlot(s.mem, root, level, k, e');
    WriteKeepsTree(s.mem, root, s.free, level, k, e');
    WriteConfined(s.mem, root, level, k, e');
    RewrittenLink(s, s', root, level, k, e');
  }

  /** As RewrittenLink, for a table that was not there. */
  lemma AddedLink(s: Machine, s': Machine, root: Frame, level: nat, k: nat, f: Frame, e: Pte)
    requires 2 <= level <= 4
    requires SlotAt(s.mem, root, level, k) == Some(ABSENT)
    requires f in s.free
    requires Links(e) && e.frame == f
    requires OnlyTable(s.mem, s'.mem, root, level, k, f) && LinkedSlots(s.mem, s'.mem, root, level, k, e)
    requires s'.free == s.free - {f} && Confined(s.mem, s'.mem, root)
    ensures Grown(s, s', root) && Stepped(s, s', root, level, k, f, e.user)
  {
    hide LeafAt, Confined;
    assert Node(level - 1, k) !in Tables(s.mem, root);
    OneTableMore(s.mem, s'.mem, root, level, k, f);
    AddedLinkSlots(s.mem, s'.mem, root, level, k, e);
  }

  lemma OneTableMore(m: Memory, m': Memory, root: Frame, level: nat, k: nat, f: Frame)
    requires 2 <= level <= 4
    requires OnlyTable(m, m', root, level, k, f)
    ensures Tables(m', root) == Tables(m, root) + {Node(level - 1, k)}
  {}

  lemma AddedLinkSlots(m: Memory, m': Memory, root: Frame, level: nat, k: nat, e: Pte)
    requires 2 <= level <= 4
    requires SlotAt(m, root, level, k) == Some(ABSENT)
    requires Links(e)
    requires LinkedSlots(m, m', root, level, k, e)
    ensures SameLeaves(m, m', root) && SlotsKept(m, m', root)
  {
    assert forall j: nat :: j / ENTRIES == k ==> SlotAt(m, root, level - 1, j) == None;
    forall p: nat ensures LeafAt(m', root, p) == LeafAt(m, root, p) {
      assert SlotAt(m', root, 2, p / ENTRIES) == SlotAt(m, root, 2, p / ENTRIES)
          || (level == 2 && k == p / ENTRIES)
          || (level == 3 && k == p / ENTRIES / ENTRIES);
      assert SlotAt(m', root, 1, p) == SlotAt(m, root, 1, p) || (level == 2 && k == p / ENTRIES);
    }
  }

  lemma LinkConfined(m: Memory, root: Frame, level: nat, k: nat, c: Frame, e: Pte)
    requires 2 <= level <= 4 && TableAt(m, root, level, k / ENTRIES).Some?
    requires OnlyTable(m, LinkAt(m, root, level, k, c, e), root, level, k, c)
    ensures Confined(m, LinkAt(m, root, level, k, c, e), root)
  {
    var m' := LinkAt(m, root, level, k, c, e);
    assert TableAt(m', root, level - 1, k) == Some(c);
    assert TableAt(m', root, level, k / ENTRIES) == TableAt(m, root, level, k / ENTRIES);
  }

  lemma EnsureFresh(s: Machine, root: Frame, level: nat, k: nat, user: bool, f: Frame)
    requires 2 <= level <= 4
    requires TreeMachine(s, root)
    requires SlotAt(s.mem, root, level, k) == Some(ABSENT)
    requires f in s.free
    requires user ==> UserAbove(s, root, level, k)
    ensures var s' := Machine(LinkAt(s.mem, root, level, k, f, Interior(f, user)), s.free - {f});
            TreeMachine(s', root) && Grown(s, s', root) && Stepped(s, s', root, level, k, f, user)
  {
    var s' := Machine(LinkAt(s.mem, root, level, k, f, Interior(f, user)), s.free - {f});
    LinkSlots(s.mem, root, level, k, f, Interior(f, user));
    LinkKeepsTree(s.mem, root, s.free, level, k, f, Interior(f, user));
    LinkConfined(s.mem, root, level, k, f, Interior(f, user));
    AddedLink(s, s', root, level, k, f, Interior(f, user));
  }

  /** One interior step, when a frame is there for a table that is missing. */
  lemma EnsureStep(s: Machine, root: Frame, level: nat, k: nat, user: bool)
    requires 2 <= level <= 4
    requires TreeMachine(s, root)
    requires SlotAt(s.mem, root, level, k).Some? && !SlotAt(s.mem, root, level, k).value.huge
    requires Node(level - 1, k) !in Tables(s.mem, root) ==> s.free != {}
    requires user ==> UserAbove(s, root, level, k)
    ensures var t := TableAt(s.mem, root, level, k / ENTRIES).value;
            var (s', c) := EnsureTable(s, t, k % ENTRIES, user);
            c.Some? && TreeMachine(s', root) && Grown(s, s', root) && Stepped(s, s', root, level, k, c.value, user)
  {
    if SlotAt(s.mem, root, level, k).value.present {
      EnsureExisting(s, root, level, k, user);
    } else {
      EnsureFresh(s, root, level, k, user, LeastOf(s.free));
    }
  }

  // ---------------------------------------------------------------------------
  // The whole descent
  // ---------------------------------------------------------------------------

  /** Tables needed to reach a page directory entry, and a page table entry. */
  function LargePath(d: nat): set<Node> {
    {Node(3, d / ENTRIES / ENTRIES), Node(2, d / ENTRIES)}
  }

  function SmallPath(p: nat): set<Node> {
    LargePath(p / ENTRIES) + {Node(1, p / ENTRIES)}
  }

  /** Tables built out of a reserved set of places leave enough frames for the rest of it. */
  lemma EnoughKept(s: Machine, s': Machine, root: Frame, nodes: set<Node>)
    requires Enough(s, root, nodes)
    requires Grown(s, s', root) && Tables(s'.mem, root) <= Tables(s.mem, root) + nodes
    ensures Enough(s', root, nodes)
  {
    var t, t' := Tables(s.mem, root), Tables(s'.mem, root);
    assert t' == t + (t' - t);
    assert nodes - t == (nodes - t') + (t' - t);
  }

  lemma EnoughForOne(s: Machine, root: Frame, nodes: set<Node>, x: Node)
    requires Enough(s, root, nodes) && x in nodes && x !in Tables(s.mem, root)
    ensures s.free != {}
  {
    assert x in nodes - Tables(s.mem, root);
  }

  /** With frames for the missing tables, the descent succeeds and changes no leaf. */
  lemma DescendStep(s: Machine, root: Frame, d: nat, user: bool)
    requires TreeMachine(s, root)
    requires d / ENTRIES / ENTRIES / ENTRIES == 0
    requires Enough(s, root, LargePath(d))
    ensures var (s', c) := Descend(s, root, d, user);
            && c.Some? && TreeMachine(s', root) && Grown(s, s', root)
            && TableAt(s'.mem, root, 2, d / ENTRIES) == c
            && (user ==> UserAbove(s', root, 2, d))
            && Tables(s'.mem, root) == Tables(s.mem, root) + LargePath(d)
            && SlotAt(s'.mem, root, 2, d) ==
               if Node(2, d / ENTRIES) in Tables(s.mem, root) then SlotAt(s.mem, root, 2, d) else Some(ABSENT)
  {
    hide Grown, Distinct, Allocated, UserClosed, AllocTable;
    var k4, k3 := d / ENTRIES / ENTRIES, d / ENTRIES;
    assert TableAt(s.mem, root, 4, k4 / ENTRIES) == Some(root);
    if Node(3, k4) !in Tables(s.mem, root) { EnoughForOne(s, root, LargePath(d), Node(3, k4)); }
    EnsureStep(s, root, 4, k4, user);
    var (s3, t3) := EnsureTable(s, root, k4 % ENTRIES, user);
    EnoughKept(s, s3, root, LargePath(d));
    if Node(2, k3) !in Tables(s3.mem, root) { EnoughForOne(s3, root, LargePath(d), Node(2, k3)); }
    assert TableAt(s3.mem, root, 3, k3 / ENTRIES) == t3;
    EnsureStep(s3, root, 3, k3, user);
    var (s2, t2) := EnsureTable(s3, t3.value, k3 % ENTRIES, user);
    GrownTrans(s, s3, s2, root);
    AddTwo(Tables(s.mem, root), Tables(s3.mem, root), Tables(s2.mem, root), Node(3, k4), Node(2, k3));
  }

  lemma AddTwo(a: set<Node>, b: set<Node>, c: set<Node>, x: Node, y: Node)
    requires b == a + {x} && c == b + {y}
    ensures c == a + {x, y}
  {}

  // ---------------------------------------------------------------------------
  // One mapping call
  // ---------------------------------------------------------------------------

  /** The invariant of an address space between calls. */
  ghost predicate SpaceOk(s: Machine, root: Frame) {
    TreeMachine(s, root) && Populated(s.mem, root)
  }

  /** A refused call: no frame taken, no table added, every leaf as it was. */
  ghost predicate Refused(s: Machine, s': Machine, root: Frame) {
    && SpaceOk(s', root)
    && s'.free == s.free
    && Balanced(s, s', root)
    && Tables(s'.mem, root) == Tables(s.mem, root)
    && SameLeaves(s.mem, s'.mem, root)
  }

  /** A call that used only tables already there. */
  lemma GrownInPlace(s: Machine, s': Machine, root: Frame)
    requires SpaceOk(s, root) && TreeMachine(s', root) && Grown(s, s', root)
    requires Tables(s'.mem, root) == Tables(s.mem, root)
    ensures Refused(s, s', root)
  {
    PopulatedKept(s.mem, s'.mem, root);
    assert s.free == s'.free + (s.free - s'.free);
    assert |s.free - s'.free| == 0;
  }

  lemma PopulatedKept(m: Memory, m': Memory, root: Frame)
    requires Populated(m, root) && SlotsKept(m, m', root)
    requires forall l: nat, n: nat :: Node(l, n) in Tables(m', root) - Tables(m, root) ==> HasEntry(m', root, l, n)
    ensures Populated(m', root)
  {}

  /** The tables above a linked table are linked. */
  lemma PathLinked(m: Memory, root: Frame, d: nat)
    requires SlotAt(m, root, 2, d).Some?
    ensures LargePath(d) <= Tables(m, root)
  {}

  lemma SmallPathLinked(m: Memory, root: Frame, p: nat)
    requires SlotAt(m, root, 1, p).Some?
    ensures SmallPath(p) <= Tables(m, root)
  {}

  /** Leaves after the leaf of page `p` was filled in. */
  ghost predicate LeafAdded(m: Memory, m': Memory, root: Frame, p: nat, leaf: Pte) {
    forall q: nat :: LeafAt(m', root, q) ==
      if q == p then Some(LeafMapping(leaf, leaf.frame)) else LeafAt(m, root, q)
  }

  /** Filling an absent page-table entry. */
  lemma FillSmall(s: Machine, root: Frame, p: nat, leaf: Pte)
    requires TreeMachine(s, root)
    requires SlotAt(s.mem, root, 1, p) == Some(ABSENT)
    requires leaf.present && !leaf.huge
    requires leaf.user ==> UserAbove(s, root, 1, p)
    ensures var s' := s.(mem := WriteAt(s.mem, root, 1, p, leaf));
            && TreeMachine(s', root)
            && SlotsKept(s.mem, s'.mem, root)
            && SlotAt(s'.mem, root, 1, p) == Some(leaf)
            && SameTables(s.mem, s'.mem, root)
            && Tables(s'.mem, root) == Tables(s.mem, root)
            && LeafAdded(s.mem, s'.mem, root, p, leaf)
            && Confined(s.mem, s'.mem, root)
  {
    WriteSlot(s.mem, root, 1, p, leaf);
    WriteConfined(s.mem, root, 1, p, leaf);
    WriteKeepsTree(s.mem, root, s.free, 1, p, leaf);
    FilledSmall(s.mem, WriteAt(s.mem, root, 1, p, leaf), root, p, leaf);
  }

  lemma FilledSmall(m: Memory, m': Memory, root: Frame, p: nat, leaf: Pte)
    requires SlotAt(m, root, 1, p) == Some(ABSENT)
    requires leaf.present && !leaf.huge
    requires SameTables(m, m', root) && OnlySlot(m, m', root, 1, p, leaf)
    ensures SlotsKept(m, m', root) && Tables(m', root) == Tables(m, root)
    ensures LeafAdded(m, m', root, p, leaf)
  {
    SameTableSet(m, m', root);
    assert SlotAt(m, root, 2, p / ENTRIES).Some? && Links(SlotAt(m, root, 2, p / ENTRIES).value);
    forall q: nat
      ensures LeafAt(m', root, q) == if q == p then Some(LeafMapping(leaf, leaf.frame)) else LeafAt(m, root, q)
    {
      assert SlotAt(m', root, 2, q / ENTRIES) == SlotAt(m, root, 2, q / ENTRIES);
      assert SlotAt(m', root, 1, q) == if q == p then Some(leaf) else SlotAt(m, root, 1, q);
    }
  }

  /** What mapping page `p` to `leaf` did, by its result. */
  ghost predicate SmallOutcome(s: Machine, s': Machine, root: Frame, p: nat, leaf: Pte, ok: bool) {
    if !ok then Refused(s, s', root)
    else
      && SpaceOk(s', root)
      && Balanced(s, s', root)
      && Tables(s'.mem, root) == Tables(s.mem, root) + SmallPath(p)
      && LeafAdded(s.mem, s'.mem, root, p, leaf)
  }

  /** The tables down to the page table of `p` are there, and their building changed no leaf. */
  ghost predicate PathBuilt(s: Machine, s': Machine, root: Frame, p: nat, t: Frame, user: bool) {
    && TreeMachine(s', root) && Grown(s, s', root)
    && TableAt(s'.mem, root, 1, p / ENTRIES) == Some(t)
    && (user ==> UserAbove(s', root, 1, p))
    && Tables(s'.mem, root) == Tables(s.mem, root) + SmallPath(p)
  }

  /** The third interior step, when no large page is in the way. */
  lemma SmallPathBuilt(s: Machine, root: Frame, p: nat, user: bool)
    requires TreeMachine(s, root)
    requires p < PAGES
    requires Enough(s, root, SmallPath(p))
    requires var e := SlotAt(s.mem, root, 2, p / ENTRIES); e.Some? ==> !e.value.huge
    ensures var (s2, t2) := Descend(s, root, p / ENTRIES, user);
            t2.Some? &&
            var (s1, t1) := EnsureTable(s2, t2.value, p / ENTRIES % ENTRIES, user);
            t1.Some? && PathBuilt(s, s1, root, p, t1.value, user)
  {
    var d := p / ENTRIES;
    EnoughSubset(s, root, LargePath(d), SmallPath(p));
    DescendStep(s, root, d, user);
    var (s2, t2) := Descend(s, root, d, user);
    EnoughKept(s, s2, root, SmallPath(p));
    ThirdStep(s, s2, root, p, user);
  }

  lemma ThirdStep(s: Machine, s2: Machine, root: Frame, p: nat, user: bool)
    requires TreeMachine(s2, root) && Grown(s, s2, root)
    requires Tables(s2.mem, root) == Tables(s.mem, root) + LargePath(p / ENTRIES)
    requires Enough(s2, root, SmallPath(p))
    requires SlotAt(s2.mem, root, 2, p / ENTRIES).Some? && !SlotAt(s2.mem, root, 2, p / ENTRIES).value.huge
    requires user ==> UserAbove(s2, root, 2, p / ENTRIES)
    ensures var t2 := TableAt(s2.mem, root, 2, p / ENTRIES / ENTRIES).value;
            var (s1, t1) := EnsureTable(s2, t2, p / ENTRIES % ENTRIES, user);
            t1.Some? && PathBuilt(s, s1, root, p, t1.value, user)
  {
    var d := p / ENTRIES;
    if Node(1, d) !in Tables(s2.mem, root) { EnoughForOne(s2, root, SmallPath(p), Node(1, d)); }
    EnsureStep(s2, root, 2, d, user);
    var (s1, t1) := EnsureTable(s2, TableAt(s2.mem, root, 2, d / ENTRIES).value, d % ENTRIES, user);
    GrownTrans(s, s2, s1, root);
    AddUnion(Tables(s.mem, root), Tables(s2.mem, root), Tables(s1.mem, root), LargePath(d), {Node(1, d)});
  }

  lemma AddUnion(a: set<Node>, b: set<Node>, c: set<Node>, x: set<Node>, y: set<Node>)
    requires b == a + x && c == b + y
    ensures c == a + (x + y)
  {}

  lemma EnoughSubset(s: Machine, root: Frame, a: set<Node>, b: set<Node>)
    requires a <= b && Enough(s, root, b)
    ensures Enough(s, root, a)
  {
    var t := Tables(s.mem, root);
    assert b - t == (a - t) + (b - t - a);
  }

  /** Every interior table of the path to `p` now has an entry. */
  lemma SmallPathPopulated(m: Memory, root: Frame, p: nat, l: nat, n: nat)
    requires SlotAt(m, root, 1, p).Some? && SlotAt(m, root, 1, p).value.present
    requires Node(l, n) in SmallPath(p)
    ensures HasEntry(m, root, l, n)
  {}

  /** The last write of map_page, on the tables it built. */
  lemma SmallAdded(s: Machine, s1: Machine, root: Frame, p: nat, leaf: Pte)
    requires SpaceOk(s, root)
    requires TreeMachine(s1, root) && Grown(s, s1, root)
    requires Tables(s1.mem, root) == Tables(s.mem, root) + SmallPath(p)
    requires SlotAt(s1.mem, root, 1, p).Some? && !SlotAt(s1.mem, root, 1, p).value.present
    requires leaf.present && !leaf.huge
    requires leaf.user ==> UserAbove(s1, root, 1, p)
    ensures SmallOutcome(s, s1.(mem := WriteAt(s1.mem, root, 1, p, leaf)), root, p, leaf, true)
  {
    assert SlotAt(s1.mem, root, 1, p) == Some(ABSENT);
    FillSmall(s1, root, p, leaf);
    var m' := WriteAt(s1.mem, root, 1, p, leaf);
    assert SlotsKept(s.mem, m', root);
    forall l: nat, n: nat | Node(l, n) in Tables(m', root) - Tables(s.mem, root) ensures HasEntry(m', root, l, n) {
      SmallPathPopulated(m', root, p, l, n);
    }
    PopulatedKept(s.mem, m', root);
    ConfinedTrans(s, s1, s1.(mem := m'), root);
  }

  /** Linked tables need no frames. */
  lemma EnoughLinked(s: Machine, root: Frame, nodes: set<Node>)
    requires nodes <= Tables(s.mem, root)
    ensures Enough(s, root, nodes)
  {
    assert nodes - Tables(s.mem, root) == {};
  }

  /** A large page covers `p`: refused. */
  lemma SmallUnderLarge(s: Machine, root: Frame, p: nat, leaf: Pte)
    requires SpaceOk(s, root)
    requires p < PAGES
    requires var e := SlotAt(s.mem, root, 2, p / ENTRIES); e.Some? && e.value.huge
    ensures var (s', ok) := MapSmall(s, root, p, leaf); !ok && Refused(s, s', root)
    ensures LeafAt(s.mem, root, p).Some?
  {
    var d := p / ENTRIES;
    PathLinked(s.mem, root, d);
    EnoughLinked(s, root, LargePath(d));
    DescendStep(s, root, d, leaf.user);
    var (s2, t2) := Descend(s, root, d, leaf.user);
    AddNothing(Tables(s.mem, root), LargePath(d));
    GrownInPlace(s, s2, root);
    assert SlotAt(s2.mem, root, 2, d) == SlotAt(s.mem, root, 2, d);
    BlockedBySlot(s, root, p, leaf);
  }

  lemma BlockedBySlot(s: Machine, root: Frame, p: nat, leaf: Pte)
    requires var (s2, t2) := Descend(s, root, p / ENTRIES, leaf.user);
             && TableAt(s2.mem, root, 2, p / ENTRIES / ENTRIES) == t2
             && SlotAt(s2.mem, root, 2, p / ENTRIES).Some? && SlotAt(s2.mem, root, 2, p / ENTRIES).value.huge
    ensures MapSmall(s, root, p, leaf) == (Descend(s, root, p / ENTRIES, leaf.user).0, false)
  {}

  lemma AddNothing(a: set<Node>, x: set<Node>)
    requires x <= a
    ensures a + x == a
  {}

  /** The check and the write at the page table. */
  lemma SmallLeafStep(s: Machine, s1: Machine, root: Frame, p: nat, t: Frame, leaf: Pte)
    requires SpaceOk(s, root)
    requires PathBuilt(s, s1, root, p, t, leaf.user)
    requires var e := SlotAt(s.mem, root, 2, p / ENTRIES); e.Some? ==> !e.value.huge
    requires leaf.present && !leaf.huge
    ensures var e := s1.mem[t][p % ENTRIES];
            var s' := if e.present then s1 else s1.(mem := SetEntry(s1.mem, t, p % ENTRIES, leaf));
            e.present == LeafAt(s.mem, root, p).Some? && SmallOutcome(s, s', root, p, leaf, !e.present)
  {
    LeafBelowLink(s1.mem, root, p);
    if s1.mem[t][p % ENTRIES].present {
      assert LeafAt(s.mem, root, p).Some?;
      SmallPathLinked(s.mem, root, p);
      AddNothing(Tables(s.mem, root), SmallPath(p));
      GrownInPlace(s, s1, root);
    } else {
      SmallAdded(s, s1, root, p, leaf);
    }
  }

  lemma LeafBelowLink(m: Memory, root: Frame, p: nat)
    requires TableAt(m, root, 1, p / ENTRIES).Some?
    ensures SlotAt(m, root, 1, p).Some? && SlotAt(m, root, 2, p / ENTRIES).Some?
    ensures Links(SlotAt(m, root, 2, p / ENTRIES).value)
    ensures LeafAt(m, root, p).Some? == SlotAt(m, root, 1, p).value.present
  {}

  lemma SmallUnfold(s: Machine, root: Frame, p: nat, leaf: Pte)
    requires var (s2, t2) := Descend(s, root, p / ENTRIES, leaf.user);
             t2.Some? && EnsureTable(s2, t2.value, p / ENTRIES % ENTRIES, leaf.user).1.Some?
    ensures var (s2, t2) := Descend(s, root, p / ENTRIES, leaf.user);
            var (s1, t1) := EnsureTable(s2, t2.value, p / ENTRIES % ENTRIES, leaf.user);
            MapSmall(s, root, p, leaf) ==
            if s1.mem[t1.value][p % ENTRIES].present then (s1, false)
            else (s1.(mem := SetEntry(s1.mem, t1.value, p % ENTRIES, leaf)), true)
  {}

  /** A page mapped by a page table has all its tables. */
  lemma MappedSmallLinked(s: Machine, root: Frame, p: nat)
    requires var e := SlotAt(s.mem, root, 2, p / ENTRIES); e.Some? ==> !e.value.huge
    requires LeafAt(s.mem, root, p).Some?
    ensures Enough(s, root, SmallPath(p))
  {
    SmallPathLinked(s.mem, root, p);
    EnoughLinked(s, root, SmallPath(p));
  }

  /** No large page covers `p`. */
  lemma SmallUncovered(s: Machine, root: Frame, p: nat, leaf: Pte)
    requires SpaceOk(s, root)
    requires p < PAGES
    requires leaf.present && !leaf.huge
    requires Enough(s, root, SmallPath(p))
    requires var e := SlotAt(s.mem, root, 2, p / ENTRIES); e.Some? ==> !e.value.huge
    ensures var (s', ok) := MapSmall(s, root, p, leaf);
            ok == LeafAt(s.mem, root, p).None? && SmallOutcome(s, s', root, p, leaf, ok)
  {
    hide LeafAt, SmallOutcome, MapSmall, EnsureTable, Descend, Enough, Populated, TreeOk, PathBuilt, SlotAt, TableAt;
    SmallPathBuilt(s, root, p, leaf.user);
    var (s2, t2) := Descend(s, root, p / ENTRIES, leaf.user);
    var (s1, t1) := EnsureTable(s2, t2.value, p / ENTRIES % ENTRIES, leaf.user);
    SmallLeafStep(s, s1, root, p, t1.value, leaf);
    SmallUnfold(s, root, p, leaf);
  }

  /** map_page refines the flat map: with frames for the missing tables of an unmapped page it succeeds
      exactly when the page is unmapped, adds that one mapping, and otherwise changes nothing. */
  lemma MapSmallRefines(s: Machine, root: Frame, p: nat, leaf: Pte)
    requires SpaceOk(s, root)
    requires p < PAGES
    requires leaf.present && !leaf.huge
    requires LeafAt(s.mem, root, p).None? ==> Enough(s, root, SmallPath(p))
    ensures var (s', ok) := MapSmall(s, root, p, leaf);
            ok == LeafAt(s.mem, root, p).None? && SmallOutcome(s, s', root, p, leaf, ok)
  {
    hide LeafAt, MapSmall, Refused, SpaceOk, Enough, SlotAt, TableAt;
    var e := SlotAt(s.mem, root, 2, p / ENTRIES);
    if e.Some? && e.value.huge {
      SmallUnderLarge(s, root, p, leaf);
    } else {
      if LeafAt(s.mem, root, p).Some? { MappedSmallLinked(s, root, p); }
      SmallUncovered(s, root, p, leaf);
    }
  }

  // ---------------------------------------------------------------------------
  // Large pages
  // ---------------------------------------------------------------------------

  ghost predicate LargeAdded(m: Memory, m': Memory, root: Frame, d: nat, leaf: Pte) {
    forall q: nat :: LeafAt(m', root, q) ==
      if q / ENTRIES == d then Some(LeafMapping(leaf, leaf.frame + q % ENTRIES)) else LeafAt(m, root, q)
  }

  ghost predicate RegionFree(m: Memory, root: Frame, d: nat) {
    forall q: nat :: q / ENTRIES == d ==> LeafAt(m, root, q).None?
  }

  ghost predicate LargeOutcome(s: Machine, s': Machine, root: Frame, d: nat, leaf: Pte, ok: bool) {
    if !ok then Refused(s, s', root)
    else
      && SpaceOk(s', root)
      && Balanced(s, s', root)
      && Tables(s'.mem, root) == Tables(s.mem, root) + LargePath(d)
      && LargeAdded(s.mem, s'.mem, root, d, leaf)
  }

  lemma FilledLarge(m: Memory, m': Memory, root: Frame, d: nat, leaf: Pte)
    requires SlotAt(m, root, 2, d) == Some(ABSENT)
    requires leaf.present && leaf.huge
    requires SameTables(m, m', root) && OnlySlot(m, m', root, 2, d, leaf)
    ensures SlotsKept(m, m', root) && Tables(m', root) == Tables(m, root)
    ensures LargeAdded(m, m', root, d, leaf)
  {
    SameTableSet(m, m', root);
    forall q: nat ensures LeafAt(m', root, q) ==
      if q / ENTRIES == d then Some(LeafMapping(leaf, leaf.frame + q % ENTRIES)) else LeafAt(m, root, q)
    {
      assert SlotAt(m', root, 2, q / ENTRIES) ==
             if q / ENTRIES == d then Some(leaf) else SlotAt(m, root, 2, q / ENTRIES);
      assert SlotAt(m', root, 1, q) == SlotAt(m, root, 1, q);
    }
  }

  lemma LargePathPopulated(m: Memory, root: Frame, d: nat, l: nat, n: nat)
    requires SlotAt(m, root, 2, d).Some? && SlotAt(m, root, 2, d).value.present
    requires Node(l, n) in LargePath(d)
    ensures HasEntry(m, root, l, n)
  {}

  /** The last write of map_page_large, on the tables it built. */
  lemma LargeWritten(s: Machine, s2: Machine, root: Frame, d: nat, leaf: Pte)
    requires SpaceOk(s, root)
    requires TreeMachine(s2, root) && Grown(s, s2, root)
    requires Tables(s2.mem, root) == Tables(s.mem, root) + LargePath(d)
    requires SlotAt(s2.mem, root, 2, d) == Some(ABSENT)
    requires leaf.present && leaf.huge && leaf.frame % ENTRIES == 0
    requires leaf.user ==> UserAbove(s2, root, 2, d)
    ensures LargeOutcome(s, s2.(mem := WriteAt(s2.mem, root, 2, d, leaf)), root, d, leaf, true)
  {
    var m' := WriteAt(s2.mem, root, 2, d, leaf);
    WriteSlot(s2.mem, root, 2, d, leaf);
    WriteKeepsTree(s2.mem, root, s2.free, 2, d, leaf);
    WriteConfined(s2.mem, root, 2, d, leaf);
    ConfinedTrans(s, s2, s2.(mem := m'), root);
    FilledLarge(s2.mem, m', root, d, leaf);
    LargePopulated(s.mem, s2.mem, m', root, d);
  }

  lemma LargePopulated(m: Memory, m2: Memory, m': Memory, root: Frame, d: nat)
    requires Populated(m, root) && SlotsKept(m, m2, root) && SlotsKept(m2, m', root)
    requires Tables(m', root) == Tables(m, root) + LargePath(d)
    requires SlotAt(m', root, 2, d).Some? && SlotAt(m', root, 2, d).value.present
    ensures Populated(m', root)
  {
    forall l: nat, n: nat | Node(l, n) in Tables(m', root) - Tables(m, root) ensures HasEntry(m', root, l, n) {
      LargePathPopulated(m', root, d, l, n);
    }
    PopulatedKept(m, m', root);
  }

  /** A directory entry is present exactly when some page under it is mapped: a linked table is
      never empty. */
  lemma PresentIffMapped(m: Memory, root: Frame, d: nat)
    requires EntriesOk(m, root) && Populated(m, root)
    ensures (SlotAt(m, root, 2, d).Some? && SlotAt(m, root, 2, d).value.present) <==> !RegionFree(m, root, d)
  {
    var e := SlotAt(m, root, 2, d);
    if e.Some? && e.value.present {
      if e.value.huge {
        var q := ENTRIES * d;
        assert q / ENTRIES == d && LeafAt(m, root, q).Some?;
      } else {
        assert TableAt(m, root, 1, d).Some?;
        assert HasEntry(m, root, 1, d);
        var q: nat :| q / ENTRIES == d && SlotAt(m, root, 1, q).Some? && SlotAt(m, root, 1, q).value.present;
        assert LeafAt(m, root, q).Some?;
      }
    } else if !RegionFree(m, root, d) {
      var q: nat :| q / ENTRIES == d && LeafAt(m, root, q).Some?;
      assert TableAt(m, root, 1, d).Some?;
    }
  }

  lemma LargeUnfold(s: Machine, root: Frame, d: nat, leaf: Pte)
    requires var (s2, t2) := Descend(s, root, d, leaf.user);
             TableAt(s2.mem, root, 2, d / ENTRIES) == t2 && t2.Some?
    ensures var (s2, t2) := Descend(s, root, d, leaf.user);
            MapLarge(s, root, d, leaf) ==
            if SlotAt(s2.mem, root, 2, d).value.present then (s2, false)
            else (s2.(mem := WriteAt(s2.mem, root, 2, d, leaf)), true)
  {}

  /** map_page_large refines the flat map: with frames for the missing tables of a free region it
      succeeds exactly when no page of the 2 MiB region is mapped, maps all 512, and otherwise changes nothing. */
  lemma MapLargeRefines(s: Machine, root: Frame, d: nat, leaf: Pte)
    requires SpaceOk(s, root)
    requires ENTRIES * d < PAGES
    requires leaf.present && leaf.huge && leaf.frame % ENTRIES == 0
    requires RegionFree(s.mem, root, d) ==> Enough(s, root, LargePath(d))
    ensures var (s', ok) := MapLarge(s, root, d, leaf);
            ok == RegionFree(s.mem, root, d) && LargeOutcome(s, s', root, d, leaf, ok)
  {
    PresentIffMapped(s.mem, root, d);
    if !RegionFree(s.mem, root, d) {
      PathLinked(s.mem, root, d);
      EnoughLinked(s, root, LargePath(d));
    }
    DescendStep(s, root, d, leaf.user);
    var (s2, t2) := Descend(s, root, d, leaf.user);
    LargeUnfold(s, root, d, leaf);
    LargeLeafStep(s, s2, root, d, leaf);
  }

  lemma LargeLeafStep(s: Machine, s2: Machine, root: Frame, d: nat, leaf: Pte)
    requires SpaceOk(s, root)
    requires TreeMachine(s2, root) && Grown(s, s2, root)
    requires TableAt(s2.mem, root, 2, d / ENTRIES).Some?
    requires Tables(s2.mem, root) == Tables(s.mem, root) + LargePath(d)
    requires SlotAt(s2.mem, root, 2, d) ==
             if Node(2, d / ENTRIES) in Tables(s.mem, root) then SlotAt(s.mem, root, 2, d) else Some(ABSENT)
    requires leaf.present && leaf.huge && leaf.frame % ENTRIES == 0
    requires leaf.user ==> UserAbove(s2, root, 2, d)
    ensures SlotAt(s2.mem, root, 2, d).value.present <==>
            SlotAt(s.mem, root, 2, d).Some? && SlotAt(s.mem, root, 2, d).value.present
    ensures var p := SlotAt(s2.mem, root, 2, d).value.present;
            LargeOutcome(s, if p then s2 else s2.(mem := WriteAt(s2.mem, root, 2, d, leaf)), root, d, leaf, !p)
  {
    if SlotAt(s2.mem, root, 2, d).value.present {
      PathLinked(s.mem, root, d);
      AddNothing(Tables(s.mem, root), LargePath(d));
      GrownInPlace(s, s2, root);
    } else {
      assert SlotAt(s2.mem, root, 2, d) == Some(ABSENT);
      LargeWritten(s, s2, root, d, leaf);
    }
  }
}
