/** The four-level page-table tree, read from physical memory.

    Physical memory is a total store of frames, each seen as a table of 512 decoded
    entries.  A table is named by its level (4 is the root, 1 a page table) and by the
    number all virtual pages below it share: page number p passes through the entry
    numbered p at level 1, p/512 at level 2, p/512/512 at level 3 and p/512/512/512 at
    level 4, and the entry numbered k at level l lies in table k/512 of that level.
 */
module PageTree {
  import opened Options

  const ENTRIES: nat := 512
  const FRAMES: nat := 0x100_0000_0000           // 2^40 frames: addresses below 2^52
  const PAGES: nat := 0x10_0000_0000             // 2^36 virtual pages: 48-bit addresses

  type Frame = f: nat | f < FRAMES

  /** A decoded page-table entry; `attributes` holds the bits with no field of their own. */
  datatype Pte = Pte(present: bool, writable: bool, user: bool, huge: bool,
                     noExecute: bool, frame: Frame, attributes: nat)

  const ABSENT: Pte := Pte(false, false, false, false, false, 0, 0)

  type Table = t: seq<Pte> | |t| == ENTRIES witness seq(ENTRIES, _ => ABSENT)

  function EmptyTable(): Table { seq(ENTRIES, _ => ABSENT) }

  type Memory = m: seq<Table> | |m| == FRAMES witness seq(FRAMES, _ => EmptyTable())

  function SetEntry(m: Memory, f: Frame, i: nat, e: Pte): Memory
    requires i < ENTRIES
  {
    m[f := m[f][i := e]]
  }

  /** An entry that links a lower table. */
  predicate Links(e: Pte) {
    e.present && !e.huge
  }

  /** The frame of table `n` at `level`, if the tables above it link one. */
  function TableAt(m: Memory, root: Frame, level: nat, n: nat): Option<Frame>
    requires 1 <= level <= 4
    decreases 4 - level, 0
  {
    if level == 4 then
      if n == 0 then Some(root) else None
    else
      match SlotAt(m, root, level + 1, n)
      case None => None
      case Some(e) => if Links(e) then Some(e.frame) else None
  }

  /** Entry `k` of `level`, if its table exists. */
  function SlotAt(m: Memory, root: Frame, level: nat, k: nat): Option<Pte>
    requires 1 <= level <= 4
    decreases 4 - level, 1
  {
    match TableAt(m, root, level, k / ENTRIES)
    case None => None
    case Some(f) => Some(m[f][k % ENTRIES])
  }

  // ---------------------------------------------------------------------------
  // Invariant
  // ---------------------------------------------------------------------------

  /** What every entry of a table at `level` looks like. */
  predicate EntryOk(level: nat, e: Pte) {
    if !e.present then
      e == ABSENT
    else if e.huge then
      level == 2 && e.frame % ENTRIES == 0
    else
      level > 1 ==> e.writable && !e.noExecute
  }

  /** No frame is linked twice: the tables form a tree, without sharing or cycles. */
  ghost predicate Distinct(m: Memory, root: Frame) {
    forall l: nat, n: nat, l': nat, n': nat ::
      1 <= l <= 4 && 1 <= l' <= 4 && TableAt(m, root, l, n).Some? ==>
      TableAt(m, root, l, n) == TableAt(m, root, l', n') ==>
      l == l' && n == n'
  }

  ghost predicate EntriesOk(m: Memory, root: Frame) {
    forall l: nat, k: nat :: 1 <= l <= 4 && SlotAt(m, root, l, k).Some? ==> EntryOk(l, SlotAt(m, root, l, k).value)
  }

  /** A user entry is reached through user entries only. */
  ghost predicate UserClosed(m: Memory, root: Frame) {
    forall l: nat, k: nat :: 1 <= l <= 3 && SlotAt(m, root, l, k).Some? && SlotAt(m, root, l, k).value.user
      ==> SlotAt(m, root, l + 1, k / ENTRIES).Some? && SlotAt(m, root, l + 1, k / ENTRIES).value.user
  }

  /** Every linked frame has been taken from the free set. */
  ghost predicate Allocated(m: Memory, root: Frame, free: set<Frame>) {
    forall l: nat, n: nat :: 1 <= l <= 4 && TableAt(m, root, l, n).Some? ==> TableAt(m, root, l, n).value !in free
  }

  ghost predicate TreeOk(m: Memory, root: Frame, free: set<Frame>) {
    Distinct(m, root) && EntriesOk(m, root) && UserClosed(m, root) && Allocated(m, root, free)
  }

  ghost predicate HasEntry(m: Memory, root: Frame, level: nat, n: nat)
    requires 1 <= level <= 4
  {
    exists k: nat :: k / ENTRIES == n && SlotAt(m, root, level, k).Some? && SlotAt(m, root, level, k).value.present
  }

  /** No linked table but the root is empty. */
  ghost predicate Populated(m: Memory, root: Frame) {
    forall l: nat, n: nat :: 1 <= l <= 3 && TableAt(m, root, l, n).Some? ==> HasEntry(m, root, l, n)
  }

  /** Each linked frame is referenced by exactly one entry, and the root by none. */
  lemma LinkedOnce(m: Memory, root: Frame, l: nat, k: nat, l': nat, k': nat)
    requires Distinct(m, root) && 2 <= l <= 4 && 2 <= l' <= 4
    requires SlotAt(m, root, l, k).Some? && Links(SlotAt(m, root, l, k).value)
    requires SlotAt(m, root, l', k').Some? && Links(SlotAt(m, root, l', k').value)
    ensures SlotAt(m, root, l, k).value.frame == SlotAt(m, root, l', k').value.frame <==> l == l' && k == k'
    ensures SlotAt(m, root, l, k).value.frame != root
  {
    assert TableAt(m, root, l - 1, k) == Some(SlotAt(m, root, l, k).value.frame);
    assert TableAt(m, root, l' - 1, k') == Some(SlotAt(m, root, l', k').value.frame);
    assert TableAt(m, root, 4, 0) == Some(root);
  }

  // ---------------------------------------------------------------------------
  // One write
  // ---------------------------------------------------------------------------

  /** Replacing `e` by `e'` at `level` leaves the linked table, if any, the same. */
  predicate KeepsLink(level: nat, e: Pte, e': Pte) {
    level == 1 || (Links(e') == Links(e) && (Links(e) ==> e'.frame == e.frame))
  }

  /** Memory after entry `k` of `level` was set to `e`. */
  function WriteAt(m: Memory, root: Frame, level: nat, k: nat, e: Pte): Memory
    requires 1 <= level <= 4 && TableAt(m, root, level, k / ENTRIES).Some?
  {
    SetEntry(m, TableAt(m, root, level, k / ENTRIES).value, k % ENTRIES, e)
  }

  /** Slots after entry `k` of `level` has become `e`, with no link changed. */
  ghost predicate OnlySlot(m: Memory, m': Memory, root: Frame, level: nat, k: nat, e: Pte) {
    forall l: nat, j: nat :: 1 <= l <= 4 ==>
      SlotAt(m', root, l, j) == if l == level && j == k then Some(e) else SlotAt(m, root, l, j)
  }

  ghost predicate SameTables(m: Memory, m': Memory, root: Frame) {
    forall l: nat, n: nat :: 1 <= l <= 4 ==> TableAt(m', root, l, n) == TableAt(m, root, l, n)
  }

  /** A write that keeps the link of its entry changes no table's place. */
  lemma {:induction false} WriteKeepsTable(m: Memory, root: Frame, level: nat, k: nat, e: Pte, l: nat, n: nat)
    requires 1 <= level <= 4 && 1 <= l <= 4
    requires Distinct(m, root)
    requires SlotAt(m, root, level, k).Some?
    requires KeepsLink(level, SlotAt(m, root, level, k).value, e)
    ensures TableAt(WriteAt(m, root, level, k, e), root, l, n) == TableAt(m, root, l, n)
    decreases 4 - l
  {
    if l < 4 {
      WriteKeepsTable(m, root, level, k, e, l + 1, n / ENTRIES);
    }
  }

  /** A write that keeps the link of its entry changes that slot and nothing else. */
  lemma WriteSlot(m: Memory, root: Frame, level: nat, k: nat, e: Pte)
    requires 1 <= level <= 4
    requires Distinct(m, root)
    requires SlotAt(m, root, level, k).Some?
    requires KeepsLink(level, SlotAt(m, root, level, k).value, e)
    ensures var m' := WriteAt(m, root, level, k, e);
            SameTables(m, m', root) && OnlySlot(m, m', root, level, k, e)
  {
    var m' := WriteAt(m, root, level, k, e);
    forall l: nat, n: nat | 1 <= l <= 4 ensures TableAt(m', root, l, n) == TableAt(m, root, l, n) {
      WriteKeepsTable(m, root, level, k, e, l, n);
    }
    forall l: nat, j: nat | 1 <= l <= 4
      ensures SlotAt(m', root, l, j) == if l == level && j == k then Some(e) else SlotAt(m, root, l, j)
    {
      assert TableAt(m', root, l, j / ENTRIES) == TableAt(m, root, l, j / ENTRIES);
    }
  }

  /** Such a write keeps the tree if the new entry is sound and its user bit has support above. */
  lemma WriteKeepsTree(m: Memory, root: Frame, free: set<Frame>, level: nat, k: nat, e: Pte)
    requires 1 <= level <= 4
    requires TreeOk(m, root, free)
    requires SlotAt(m, root, level, k).Some?
    requires KeepsLink(level, SlotAt(m, root, level, k).value, e)
    requires EntryOk(level, e)
    requires SlotAt(m, root, level, k).value.user ==> e.user
    requires e.user && level < 4 ==>
               SlotAt(m, root, level + 1, k / ENTRIES).Some? && SlotAt(m, root, level + 1, k / ENTRIES).value.user
    ensures TreeOk(WriteAt(m, root, level, k, e), root, free)
  {
    WriteSlot(m, root, level, k, e);
    var m' := WriteAt(m, root, level, k, e);
    assert SameTables(m, m', root);
    assert OnlySlot(m, m', root, level, k, e);
    forall l: nat, j: nat | 1 <= l <= 3 && SlotAt(m', root, l, j).Some? && SlotAt(m', root, l, j).value.user
      ensures SlotAt(m', root, l + 1, j / ENTRIES).Some? && SlotAt(m', root, l + 1, j / ENTRIES).value.user
    {
    }
  }

  // ---------------------------------------------------------------------------
  // Linking a fresh table
  // ---------------------------------------------------------------------------

  /** Memory after frame `c` was zeroed and linked from entry `k` of `level`. */
  function LinkAt(m: Memory, root: Frame, level: nat, k: nat, c: Frame, e: Pte): Memory
    requires 1 <= level <= 4 && TableAt(m, root, level, k / ENTRIES).Some?
  {
    SetEntry(m[c := EmptyTable()], TableAt(m, root, level, k / ENTRIES).value, k % ENTRIES, e)
  }

  /** After linking fresh frame `c` at entry `k` of `level`, table `k` below it is `c`. */
  lemma {:induction false} LinkTable(m: Memory, root: Frame, level: nat, k: nat, c: Frame, e: Pte, l: nat, n: nat)
    requires 2 <= level <= 4 && 1 <= l <= 4
    requires Distinct(m, root)
    requires SlotAt(m, root, level, k).Some? && !Links(SlotAt(m, root, level, k).value)
    requires forall l: nat, n: nat :: 1 <= l <= 4 ==> TableAt(m, root, l, n) != Some(c)
    requires Links(e) && e.frame == c
    ensures TableAt(LinkAt(m, root, level, k, c, e), root, l, n)
            == if l == level - 1 && n == k then Some(c) else TableAt(m, root, l, n)
    decreases 4 - l
  {
    if l < 4 {
      LinkTable(m, root, level, k, c, e, l + 1, n / ENTRIES);
      var m', t := LinkAt(m, root, level, k, c, e), TableAt(m, root, level, k / ENTRIES).value;
      var above := TableAt(m, root, l + 1, n / ENTRIES);
      if l + 1 == level - 1 && n / ENTRIES == k {
        assert above == None;
        assert SlotAt(m', root, l + 1, n) == Some(ABSENT);
      } else if above == Some(t) {
        assert l + 1 == level && n / ENTRIES == k / ENTRIES;
      } else {
        assert SlotAt(m', root, l + 1, n) == SlotAt(m, root, l + 1, n);
      }
    }
  }

  ghost predicate OnlyTable(m: Memory, m': Memory, root: Frame, level: nat, k: nat, c: Frame) {
    forall l: nat, n: nat :: 1 <= l <= 4 ==>
      TableAt(m', root, l, n) == if l == level - 1 && n == k then Some(c) else TableAt(m, root, l, n)
  }

  ghost predicate LinkedSlots(m: Memory, m': Memory, root: Frame, level: nat, k: nat, e: Pte) {
    forall l: nat, j: nat :: 1 <= l <= 4 ==>
      SlotAt(m', root, l, j) ==
      if l == level && j == k then Some(e)
      else if l == level - 1 && j / ENTRIES == k then Some(ABSENT)
      else SlotAt(m, root, l, j)
  }

  lemma LinkSlots(m: Memory, root: Frame, level: nat, k: nat, c: Frame, e: Pte)
    requires 2 <= level <= 4
    requires Distinct(m, root)
    requires SlotAt(m, root, level, k).Some? && !Links(SlotAt(m, root, level, k).value)
    requires forall l: nat, n: nat :: 1 <= l <= 4 ==> TableAt(m, root, l, n) != Some(c)
    requires Links(e) && e.frame == c
    ensures var m' := LinkAt(m, root, level, k, c, e);
            OnlyTable(m, m', root, level, k, c) && LinkedSlots(m, m', root, level, k, e)
  {
    var m' := LinkAt(m, root, level, k, c, e);
    forall l: nat, n: nat | 1 <= l <= 4
      ensures TableAt(m', root, l, n) == if l == level - 1 && n == k then Some(c) else TableAt(m, root, l, n)
    {
      LinkTable(m, root, level, k, c, e, l, n);
    }
    assert TableAt(m, root, level - 1, k) == None;
    forall l: nat, j: nat | 1 <= l <= 4
      ensures SlotAt(m', root, l, j) ==
              if l == level && j == k then Some(e)
              else if l == level - 1 && j / ENTRIES == k then Some(ABSENT)
              else SlotAt(m, root, l, j)
    {
      assert TableAt(m', root, l, j / ENTRIES) ==
             if l == level - 1 && j / ENTRIES == k then Some(c) else TableAt(m, root, l, j / ENTRIES);
    }
  }

  /** Linking a frame taken from the free set keeps the tree. */
  lemma LinkKeepsTree(m: Memory, root: Frame, free: set<Frame>, level: nat, k: nat, c: Frame, e: Pte)
    requires 2 <= level <= 4
    requires TreeOk(m, root, free)
    requires SlotAt(m, root, level, k) == Some(ABSENT)
    requires c in free
    requires Links(e) && e.frame == c && EntryOk(level, e)
    requires e.user && level < 4 ==>
               SlotAt(m, root, level + 1, k / ENTRIES).Some? && SlotAt(m, root, level + 1, k / ENTRIES).value.user
    ensures TreeOk(LinkAt(m, root, level, k, c, e), root, free - {c})
  {
    LinkSlots(m, root, level, k, c, e);
    var m' := LinkAt(m, root, level, k, c, e);
    assert OnlyTable(m, m', root, level, k, c);
    assert LinkedSlots(m, m', root, level, k, e);
    forall l: nat, j: nat | 1 <= l <= 3 && SlotAt(m', root, l, j).Some? && SlotAt(m', root, l, j).value.user
      ensures SlotAt(m', root, l + 1, j / ENTRIES).Some? && SlotAt(m', root, l + 1, j / ENTRIES).value.user
    {
    }
  }

  // ---------------------------------------------------------------------------
  // The walk
  // ---------------------------------------------------------------------------

  /** What a virtual page maps to, with the rights in force. */
  datatype Mapping = Mapping(frame: nat, writable: bool, user: bool, noExecute: bool, attributes: nat)

  /** The lower half of the walk, through directory-pointer entry `e3` reached by root entry `e4`. */
  function WalkDirectory(m: Memory, e4: Pte, e3: Pte, p: nat): Option<Mapping> {
    var e2 := m[e3.frame][p / ENTRIES % ENTRIES];
    if !e2.present then None
    else if e2.huge then
      Some(Mapping(e2.frame + p % ENTRIES, e4.writable && e3.writable && e2.writable,
                   e4.user && e3.user && e2.user, e4.noExecute || e3.noExecute || e2.noExecute, e2.attributes))
    else
    var e1 := m[e2.frame][p % ENTRIES];
    if !e1.present then None
    else
      Some(Mapping(e1.frame, e4.writable && e3.writable && e2.writable && e1.writable,
                   e4.user && e3.user && e2.user && e1.user,
                   e4.noExecute || e3.noExecute || e2.noExecute || e1.noExecute, e1.attributes))
  }

  /** The four-level walk: rights are the intersection of every level
      (Intel SDM volume 3A, sections 4.5 and 4.6). */
  function Walk(m: Memory, root: Frame, p: nat): Option<Mapping> {
    var e4 := m[root][p / ENTRIES / ENTRIES / ENTRIES % ENTRIES];
    if !e4.present then None else
    var e3 := m[e4.frame][p / ENTRIES / ENTRIES % ENTRIES];
    if !e3.present then None
    else if e3.huge then
      Some(Mapping(e3.frame + p % (ENTRIES * ENTRIES), e4.writable && e3.writable, e4.user && e3.user,
                   e4.noExecute || e3.noExecute, e3.attributes))
    else WalkDirectory(m, e4, e3, p)
  }

  function LeafMapping(e: Pte, frame: nat): Mapping {
    Mapping(frame, e.writable, e.user, e.noExecute, e.attributes)
  }

  /** What the leaf entry alone says about page `p`. */
  function LeafAt(m: Memory, root: Frame, p: nat): Option<Mapping> {
    var e2 := SlotAt(m, root, 2, p / ENTRIES);
    if e2.Some? && e2.value.present && e2.value.huge then
      Some(LeafMapping(e2.value, e2.value.frame + p % ENTRIES))
    else
      var e1 := SlotAt(m, root, 1, p);
      if e1.Some? && e1.value.present then Some(LeafMapping(e1.value, e1.value.frame)) else None
  }

  /** In a sound tree the rights of the whole walk are the leaf's own rights. */
  lemma WalkIsLeaf(m: Memory, root: Frame, p: nat)
    requires EntriesOk(m, root) && UserClosed(m, root)
    requires p < PAGES
    ensures Walk(m, root, p) == LeafAt(m, root, p)
  {}
}
