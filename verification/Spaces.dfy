/** Several address spaces on one machine: who owns which frame, and what an operation on one space
    means for the others. */
module Spaces {
  import opened Options
  import opened PageTree
  import opened Mapper
  import opened Ranges

  /** The frames of a space's tables, its root included. */
  ghost function Owned(m: Memory, root: Frame): set<Frame> {
    set f: Frame | Owns(m, root, f)
  }

  /** Two spaces share no table. */
  ghost predicate Separate(m: Memory, root: Frame, other: Frame) {
    Owned(m, root) !! Owned(m, other)
  }

  // ---------------------------------------------------------------------------
  // A call on one space, seen from another
  // ---------------------------------------------------------------------------

  /** A call on one space writes no table of another. */
  lemma OtherFramesKept(s: Machine, s': Machine, root: Frame, other: Frame, f: Frame)
    requires SpaceOk(s, other) && Balanced(s, s', root) && Separate(s.mem, root, other)
    requires f in Owned(s.mem, other)
    ensures s'.mem[f] == s.mem[f] && !Owns(s'.mem, root, f)
  {
    assert f !in s.free && !Owns(s.mem, root, f);
  }

  lemma {:induction false} OtherTableKept(s: Machine, s': Machine, root: Frame, other: Frame, l: nat, n: nat)
    requires SpaceOk(s, other) && Balanced(s, s', root) && Separate(s.mem, root, other)
    requires 1 <= l <= 4
    ensures TableAt(s'.mem, other, l, n) == TableAt(s.mem, other, l, n)
    decreases 4 - l
  {
    hide SpaceOk, Balanced;
    if l < 4 {
      OtherTableKept(s, s', root, other, l + 1, n / ENTRIES);
      var t := TableAt(s.mem, other, l + 1, n / ENTRIES);
      if t.Some? {
        assert t.value in Owned(s.mem, other);
        OtherFramesKept(s, s', root, other, t.value);
      }
    }
  }

  ghost predicate SameSlots(m: Memory, m': Memory, root: Frame) {
    forall l: nat, k: nat :: 1 <= l <= 4 ==> SlotAt(m', root, l, k) == SlotAt(m, root, l, k)
  }

  lemma OtherSlotsKept(s: Machine, s': Machine, root: Frame, other: Frame)
    requires SpaceOk(s, other) && Balanced(s, s', root) && Separate(s.mem, root, other)
    ensures SameTables(s.mem, s'.mem, other) && SameSlots(s.mem, s'.mem, other)
  {
    hide SpaceOk, Balanced;
    forall l: nat, n: nat | 1 <= l <= 4 ensures TableAt(s'.mem, other, l, n) == TableAt(s.mem, other, l, n) {
      OtherTableKept(s, s', root, other, l, n);
    }
    forall l: nat, k: nat | 1 <= l <= 4 ensures SlotAt(s'.mem, other, l, k) == SlotAt(s.mem, other, l, k) {
      var t := TableAt(s.mem, other, l, k / ENTRIES);
      if t.Some? {
        assert t.value in Owned(s.mem, other);
        OtherFramesKept(s, s', root, other, t.value);
      }
    }
  }

  /** Same tables and slots: the space is as sound as it was, and says the same of every page. */
  lemma SameSpace(s: Machine, s': Machine, root: Frame)
    requires SpaceOk(s, root) && SameTables(s.mem, s'.mem, root) && SameSlots(s.mem, s'.mem, root)
    requires forall f :: f in s'.free ==> f in s.free || f !in Owned(s.mem, root)
    ensures SpaceOk(s', root) && SameLeaves(s.mem, s'.mem, root)
    ensures Owned(s'.mem, root) == Owned(s.mem, root)
  {
    hide LeafAt;
    SamePopulated(s.mem, s'.mem, root);
    SameLeafAt(s.mem, s'.mem, root);
    assert forall f: Frame :: Owns(s'.mem, root, f) <==> Owns(s.mem, root, f);
    forall l: nat, n: nat | 1 <= l <= 4 && TableAt(s'.mem, root, l, n).Some?
      ensures TableAt(s'.mem, root, l, n).value !in s'.free
    {
      assert TableAt(s.mem, root, l, n).value in Owned(s.mem, root);
    }
  }

  lemma SamePopulated(m: Memory, m': Memory, root: Frame)
    requires Populated(m, root) && SameTables(m, m', root) && SameSlots(m, m', root)
    ensures Populated(m', root)
  {
    forall l: nat, n: nat | 1 <= l <= 3 && TableAt(m', root, l, n).Some? ensures HasEntry(m', root, l, n) {
      assert HasEntry(m, root, l, n);
      var k: nat :| k / ENTRIES == n && SlotAt(m, root, l, k).Some? && SlotAt(m, root, l, k).value.present;
      assert SlotAt(m', root, l, k) == SlotAt(m, root, l, k);
    }
  }

  lemma SameLeafAt(m: Memory, m': Memory, root: Frame)
    requires SameSlots(m, m', root)
    ensures SameLeaves(m, m', root)
  {}

  /** A mapping call on one space leaves a space with other tables alone: it stays sound, keeps its
      tables and its leaves, and still shares none. */
  lemma OtherSpaceKept(s: Machine, s': Machine, root: Frame, other: Frame)
    requires SpaceOk(s, other) && Balanced(s, s', root) && Separate(s.mem, root, other)
    ensures SpaceOk(s', other) && SameLeaves(s.mem, s'.mem, other)
    ensures Owned(s'.mem, other) == Owned(s.mem, other) && Tables(s'.mem, other) == Tables(s.mem, other)
    ensures Separate(s'.mem, root, other)
    ensures forall p: nat :: p < PAGES ==> Walk(s'.mem, other, p) == Walk(s.mem, other, p)
  {
    hide SpaceOk, Walk, LeafAt, TablesKept, Confined, Tables, SameSlots, SameTables;
    OtherSlotsKept(s, s', root, other);
    SameSpace(s, s', other);
    SameTableSet(s.mem, s'.mem, other);
    forall f | f in Owned(s.mem, other) ensures !Owns(s'.mem, root, f) {
      OtherFramesKept(s, s', root, other, f);
    }
    forall p: nat | p < PAGES ensures Walk(s'.mem, other, p) == Walk(s.mem, other, p) {
      SpaceWalk(s, other, p);
      SpaceWalk(s', other, p);
    }
  }

  lemma SpaceWalk(s: Machine, root: Frame, p: nat)
    requires SpaceOk(s, root) && p < PAGES
    ensures Walk(s.mem, root, p) == LeafAt(s.mem, root, p)
  {
    WalkIsLeaf(s.mem, root, p);
  }

  // ---------------------------------------------------------------------------
  // Every frame taken becomes a table
  // ---------------------------------------------------------------------------

  ghost predicate LinkedIn(m: Memory, root: Frame, nodes: set<Node>) {
    forall x :: x in nodes ==> 1 <= x.level <= 3 && TableAt(m, root, x.level, x.number).Some?
  }

  ghost function FramesOf(m: Memory, root: Frame, nodes: set<Node>): set<Frame>
    requires LinkedIn(m, root, nodes)
  {
    set x | x in nodes :: TableAt(m, root, x.level, x.number).value
  }

  lemma {:induction false} DistinctCount(m: Memory, root: Frame, nodes: set<Node>)
    requires Distinct(m, root) && LinkedIn(m, root, nodes)
    ensures |FramesOf(m, root, nodes)| == |nodes|
    decreases |nodes|
  {
    if nodes != {} {
      hide Distinct, FramesOf, TableAt;
      var x :| x in nodes;
      var rest := nodes - {x};
      DistinctCount(m, root, rest);
      OneMoreFrame(m, root, rest, x);
      assert nodes == rest + {x};
    } else {
      assert FramesOf(m, root, nodes) == {};
    }
  }

  lemma OneMoreFrame(m: Memory, root: Frame, rest: set<Node>, x: Node)
    requires Distinct(m, root) && LinkedIn(m, root, rest + {x}) && x !in rest
    ensures LinkedIn(m, root, rest)
    ensures |FramesOf(m, root, rest + {x})| == |FramesOf(m, root, rest)| + 1
  {
    hide TableAt;
    var f := TableAt(m, root, x.level, x.number).value;
    assert FramesOf(m, root, rest + {x}) == FramesOf(m, root, rest) + {f};
    assert f !in FramesOf(m, root, rest);
  }

  lemma SubsetOfSameSize(a: set<Frame>, b: set<Frame>)
    requires a <= b && |a| == |b|
    ensures a == b
  {
    assert b == a + (b - a);
    assert |b - a| == 0;
  }

  lemma SizeDifference<T>(a: set<T>, b: set<T>)
    requires a <= b
    ensures |b - a| == |b| - |a|
  {
    assert b == a + (b - a);
  }

  lemma TakenAreTables(s: Machine, s': Machine, root: Frame)
    requires SpaceOk(s', root) && Balanced(s, s', root) && Tables(s.mem, root) <= Tables(s'.mem, root)
    ensures Owned(s'.mem, root) == Owned(s.mem, root) + (s.free - s'.free)
  {
    hide SpaceOk, Confined;
    var added, taken := Tables(s'.mem, root) - Tables(s.mem, root), s.free - s'.free;
    SizeDifference(Tables(s.mem, root), Tables(s'.mem, root));
    SizeDifference(s'.free, s.free);
    assert Distinct(s'.mem, root) by { assert TreeOk(s'.mem, root, s'.free) by { SpaceTree(s', root); } }
    DistinctCount(s'.mem, root, added);
    AddedTaken(s, s', root, added);
    SubsetOfSameSize(FramesOf(s'.mem, root, added), taken);
    OwnedGrows(s, s', root, added);
  }

  lemma SpaceTree(s: Machine, root: Frame)
    requires SpaceOk(s, root)
    ensures TreeOk(s.mem, root, s.free)
  {}

  lemma AddedTaken(s: Machine, s': Machine, root: Frame, added: set<Node>)
    requires TablesKept(s, s', root) && added == Tables(s'.mem, root) - Tables(s.mem, root)
    ensures LinkedIn(s'.mem, root, added) && FramesOf(s'.mem, root, added) <= s.free - s'.free
  {
    forall x | x in added
      ensures 1 <= x.level <= 3 && TableAt(s'.mem, root, x.level, x.number).Some?
      ensures TableAt(s'.mem, root, x.level, x.number).value in s.free - s'.free
    {
      assert x == Node(x.level, x.number);
    }
  }

  lemma OwnedGrows(s: Machine, s': Machine, root: Frame, added: set<Node>)
    requires TablesKept(s, s', root) && added == Tables(s'.mem, root) - Tables(s.mem, root)
    requires LinkedIn(s'.mem, root, added)
    ensures Owned(s'.mem, root) == Owned(s.mem, root) + FramesOf(s'.mem, root, added)
  {
    forall f: Frame | Owns(s'.mem, root, f) ensures Owns(s.mem, root, f) || f in FramesOf(s'.mem, root, added) {
      var l: nat, n: nat :| 1 <= l <= 4 && TableAt(s'.mem, root, l, n) == Some(f);
      if TableAt(s.mem, root, l, n) != Some(f) {
        assert Node(l, n) in added;
      }
    }
    forall f: Frame | Owns(s.mem, root, f) ensures Owns(s'.mem, root, f) {
      var l: nat, n: nat :| 1 <= l <= 4 && TableAt(s.mem, root, l, n) == Some(f);
      assert TableAt(s'.mem, root, l, n) == Some(f);
    }
    forall x | x in added ensures Owns(s'.mem, root, TableAt(s'.mem, root, x.level, x.number).value) {
    }
  }

  // ---------------------------------------------------------------------------
  // New spaces and clients
  // ---------------------------------------------------------------------------

  /** A new address space: one zeroed frame and nothing mapped. */
  lemma FreshSpace(s: Machine)
    requires s.free != {}
    ensures var (s', root) := AllocTable(s);
            && root == LeastOf(s.free) && s'.free == s.free - {root}
            && SpaceOk(s', root) && Agrees(s', root, map[]) && Tables(s'.mem, root) == {}
            && (forall l: nat, n: nat :: 1 <= l <= 4 ==>
                  TableAt(s'.mem, root, l, n) == if l == 4 && n == 0 then Some(root) else None)
  {
    var (s', root) := AllocTable(s);
    forall l: nat, n: nat | 1 <= l <= 4
      ensures TableAt(s'.mem, root, l, n) == if l == 4 && n == 0 then Some(root) else None
    {
      FreshTables(s'.mem, root, l, n);
    }
    assert forall l: nat, k: nat :: 1 <= l <= 4 && SlotAt(s'.mem, root, l, k).Some? ==>
      SlotAt(s'.mem, root, l, k) == Some(ABSENT);
  }

  lemma {:induction false} FreshTables(m: Memory, root: Frame, l: nat, n: nat)
    requires m[root] == EmptyTable() && 1 <= l <= 4
    ensures TableAt(m, root, l, n) == if l == 4 && n == 0 then Some(root) else None
    decreases 4 - l
  {
    if l < 4 { FreshTables(m, root, l + 1, n / ENTRIES); }
  }

  /** Creating a space writes one frame, the only table of the new space. */
  lemma CreateWrites(s: Machine)
    requires s.free != {}
    ensures var (s', root) := AllocTable(s);
            Owned(s'.mem, root) == {root} && forall f: Frame :: f != root ==> s'.mem[f] == s.mem[f]
  {
    FreshSpace(s);
    var (s', root) := AllocTable(s);
    assert TableAt(s'.mem, root, 4, 0) == Some(root);
  }

  /** Writing a frame that is no table of a space leaves the space alone. */
  lemma {:induction false} ForeignTable(m: Memory, m': Memory, root: Frame, f: Frame, l: nat, n: nat)
    requires !Owns(m, root, f) && (forall g: Frame :: g != f ==> m'[g] == m[g]) && 1 <= l <= 4
    ensures TableAt(m', root, l, n) == TableAt(m, root, l, n)
    decreases 4 - l
  {
    if l < 4 { ForeignTable(m, m', root, f, l + 1, n / ENTRIES); }
  }

  lemma ForeignWrite(m: Memory, m': Memory, root: Frame, f: Frame)
    requires !Owns(m, root, f) && forall g: Frame :: g != f ==> m'[g] == m[g]
    ensures SameTables(m, m', root) && SameSlots(m, m', root)
  {
    forall l: nat, n: nat | 1 <= l <= 4 ensures TableAt(m', root, l, n) == TableAt(m, root, l, n) {
      ForeignTable(m, m', root, f, l, n);
    }
    forall l: nat, k: nat | 1 <= l <= 4 ensures SlotAt(m', root, l, k) == SlotAt(m, root, l, k) {
      assert TableAt(m', root, l, k / ENTRIES) == TableAt(m, root, l, k / ENTRIES);
      assert TableAt(m, root, l, k / ENTRIES) != Some(f);
    }
  }

  lemma CreateKeeps(s: Machine, other: Frame, flat: Flat)
    requires s.free != {} && SpaceOk(s, other) && Agrees(s, other, flat)
    ensures var (s', root) := AllocTable(s);
            && SpaceOk(s', other) && Agrees(s', other, flat) && Owned(s'.mem, other) == Owned(s.mem, other)
            && Separate(s'.mem, other, root)
  {
    hide Agrees, AllocTable, Tables, SameTables, SameSlots, LeafAt;
    FreshSpace(s);
    CreateWrites(s);
    var (s', root) := AllocTable(s);
    NotOwned(s, other, root);
    ForeignWrite(s.mem, s'.mem, other, root);
    SameSpace(s, s', other);
    SameAgrees(s, s', other, flat);
  }

  lemma NotOwned(s: Machine, root: Frame, f: Frame)
    requires SpaceOk(s, root) && f in s.free
    ensures !Owns(s.mem, root, f) && f !in Owned(s.mem, root)
  {}

  /** A space keeps what it owns apart from everything that was neither free nor its own. */
  lemma StaysApart(s: Machine, s': Machine, root: Frame, others: set<Frame>)
    requires Owned(s'.mem, root) == Owned(s.mem, root) + (s.free - s'.free)
    requires Owned(s.mem, root) !! others && others !! s.free
    ensures Owned(s'.mem, root) !! others
  {}

  lemma BalancedFree(s: Machine, s': Machine, root: Frame)
    requires Balanced(s, s', root)
    ensures s'.free <= s.free
  {}

  lemma SameAgrees(s: Machine, s': Machine, root: Frame, flat: Flat)
    requires Agrees(s, root, flat) && SameLeaves(s.mem, s'.mem, root)
    ensures Agrees(s', root, flat)
  {}

  lemma FreeChanged(s: Machine, s': Machine, root: Frame, flat: Flat)
    requires SpaceOk(s, root) && Agrees(s, root, flat) && s'.mem == s.mem
    requires forall f :: f in s'.free ==> f in s.free || f !in Owned(s.mem, root)
    ensures SpaceOk(s', root) && Agrees(s', root, flat)
  {
    SameSpace(s, s', root);
  }
}
