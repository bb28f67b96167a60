/** The steps of a mapping call whatever memory holds: no tree, no soundness, no frames assumed. */
module AnyMemory {
  import opened Options
  import opened PageTree
  import opened Mapper

  /** One interior step.  It is refused exactly on an entry with the large bit, present or not, and then
      changes nothing; an entry that is present keeps its table and gains permissions; any other becomes
      the link to a wiped frame, and nothing but that frame and that entry is touched. */
  lemma InteriorStep(s: Machine, t: Frame, i: nat, user: bool)
    requires i < 512
    ensures var e := s.mem[t][i];
            var (s', c) := EnsureTable(s, t, i, user);
            && (c.None? <==> e.huge) && (c.None? ==> s' == s)
            && (!e.huge && e.present ==>
                  && c == Some(e.frame) && s'.free == s.free
                  && s'.mem[t][i] == e.(writable := true, user := e.user || user)
                  && forall g: Frame, j: nat :: j < 512 && (g != t || j != i) ==> s'.mem[g][j] == s.mem[g][j])
            && (!e.huge && !e.present ==>
                  && c.Some? && s'.free == s.free - {c.value}
                  && (if s.free == {} then c.value == 0
                      else c.value in s.free && forall f :: f in s.free ==> c.value <= f)
                  && s'.mem[t][i] == Pte(true, true, user, false, false, c.value, 0)
                  && forall g: Frame, j: nat :: j < 512 && (g != t || j != i) ==>
                       s'.mem[g][j] ==
                       if g == c.value then Pte(false, false, false, false, false, 0, 0) else s.mem[g][j])
  {}

  /** The three tables a call passes, and the states it passes them in. */
  ghost function Passed(s: Machine, root: Frame, p: nat, user: bool, steps: nat): (Machine, Option<Frame>)
    requires steps <= 3
  {
    if steps == 0 then (s, Some(root)) else
    var (s', t) := Passed(s, root, p, user, steps - 1);
    if t.None? then (s', None)
    else EnsureTable(s', t.value, if steps == 1 then p / 512 / 512 / 512 % 512
                                  else if steps == 2 then p / 512 / 512 % 512 else p / 512 % 512, user)
  }

  /** map_page past its argument checks succeeds exactly when no step is refused and the last entry is not
      present; then that entry is the leaf and nothing else changes after the steps; a refused call leaves
      what its steps left. */
  lemma SmallAnywhere(s: Machine, root: Frame, p: nat, leaf: Pte)
    ensures var (s1, t1) := Passed(s, root, p, leaf.user, 3);
            var (s', ok) := MapSmall(s, root, p, leaf);
            && (ok <==> t1.Some? && !s1.mem[t1.value][p % 512].present)
            && s'.free == s1.free && (!ok ==> s' == s1)
            && (ok ==> s'.mem == s1.mem[t1.value := s1.mem[t1.value][p % 512 := leaf]])
  {
    hide EnsureTable;
    PassedTwo(s, root, p, leaf.user);
    var (s2, t2) := Descend(s, root, p / 512, leaf.user);
    assert Passed(s, root, p, leaf.user, 3) ==
           if t2.None? then (s2, None) else EnsureTable(s2, t2.value, p / 512 % 512, leaf.user);
  }

  /** map_page_large likewise, one table higher. */
  lemma LargeAnywhere(s: Machine, root: Frame, d: nat, leaf: Pte)
    ensures var (s2, t2) := Passed(s, root, d * 512, leaf.user, 2);
            var (s', ok) := MapLarge(s, root, d, leaf);
            && (ok <==> t2.Some? && !s2.mem[t2.value][d % 512].present)
            && s'.free == s2.free && (!ok ==> s' == s2)
            && (ok ==> s'.mem == s2.mem[t2.value := s2.mem[t2.value][d % 512 := leaf]])
  {
    hide EnsureTable;
    PassedTwo(s, root, d * 512, leaf.user);
    assert d * 512 / 512 == d;
  }

  lemma PassedTwo(s: Machine, root: Frame, p: nat, user: bool)
    ensures Passed(s, root, p, user, 2) == Descend(s, root, p / 512, user)
  {
    hide EnsureTable;
    assert Passed(s, root, p, user, 0) == (s, Some(root));
    assert Passed(s, root, p, user, 1) == EnsureTable(s, root, p / 512 / 512 / 512 % 512, user);
  }

  /** The entry that names page `p` in a table of `level`. */
  function EntryFor(m: Memory, t: Frame, level: nat, p: nat): Pte
    requires 1 <= level <= 4
  {
    m[t][if level == 4 then p / 0x800_0000 % 512 else if level == 3 then p / 0x4_0000 % 512
         else if level == 2 then p / 0x200 % 512 else p % 512]
  }

  /** The table that holds entry `k` of a path. */
  function TableOf(root: Frame, es: seq<Pte>, k: nat): Frame
    requires k <= |es|
  {
    if k == 0 then root else es[k - 1].frame
  }

  /** The entries a walk passes, from the root down to the one it ends at. */
  ghost predicate Path(m: Memory, root: Frame, p: nat, es: seq<Pte>) {
    && 0 < |es| <= 4
    && (forall k :: 0 <= k < |es| ==> es[k].present && es[k] == EntryFor(m, TableOf(root, es, k), 4 - k, p))
    && (forall k :: 0 < k < |es| - 1 ==> !es[k].huge)
    && (|es| == 4 || (|es| >= 2 && es[|es| - 1].huge))
  }

  /** What a path says of the page. */
  ghost predicate PathSays(m: Memory, root: Frame, p: nat, es: seq<Pte>)
  {
    0 < |es| &&
    var w, last := Walk(m, root, p), es[|es| - 1];
    && w.Some?
    && (w.value.writable <==> forall k :: 0 <= k < |es| ==> es[k].writable)
    && (w.value.user <==> forall k :: 0 <= k < |es| ==> es[k].user)
    && (w.value.noExecute <==> exists k :: 0 <= k < |es| && es[k].noExecute)
    && w.value.attributes == last.attributes
    && w.value.frame == last.frame + (if |es| == 4 then 0 else if |es| == 3 then p % 0x200 else p % 0x4_0000)
  }

  /** The walk of any memory.  A page is mapped exactly when there is a path of present entries to a 4 KiB
      entry or to a large one of level 2 or 3; it is then writable, or open to user code, if every entry of
      the path is, not executable if some entry says so, and its frame and attributes are the last's. */
  lemma WalkAnywhere(m: Memory, root: Frame, p: nat)
    ensures Walk(m, root, p).Some? <==> exists es: seq<Pte> :: Path(m, root, p, es)
    ensures forall es: seq<Pte> :: Path(m, root, p, es) ==> PathSays(m, root, p, es)
  {
    hide Path;
    forall es: seq<Pte> | Path(m, root, p, es)
      ensures PathSays(m, root, p, es)
    {
      PathWalk(m, root, p, es);
    }
    if Walk(m, root, p).Some? { var es := PathOf(m, root, p); }
  }

  lemma Indices(p: nat)
    ensures p / 512 / 512 / 512 == p / 0x800_0000 && p / 512 / 512 == p / 0x4_0000
  {}

  lemma PathWalk(m: Memory, root: Frame, p: nat, es: seq<Pte>)
    requires Path(m, root, p, es)
    ensures PathSays(m, root, p, es)
  {
    Indices(p);
    assert es[0] == EntryFor(m, root, 4, p);
    assert es[1] == EntryFor(m, es[0].frame, 3, p);
    if |es| >= 3 { assert es[2] == EntryFor(m, es[1].frame, 2, p); }
    if |es| == 4 { assert es[3] == EntryFor(m, es[2].frame, 1, p); }
  }

  lemma PathOf(m: Memory, root: Frame, p: nat) returns (es: seq<Pte>)
    requires Walk(m, root, p).Some?
    ensures Path(m, root, p, es)
  {
    Indices(p);
    var e4 := EntryFor(m, root, 4, p);
    var e3 := EntryFor(m, e4.frame, 3, p);
    var e2 := EntryFor(m, e3.frame, 2, p);
    var e1 := EntryFor(m, e2.frame, 1, p);
    es := if e3.huge then [e4, e3] else if e2.huge then [e4, e3, e2] else [e4, e3, e2, e1];
  }
}
