/** Whole runs: any number of address spaces on one allocator, mapped into in any order, interleaved
    with clients that take frames and give back frames they hold. */
module Runs {
  import opened Options
  import opened PageTree
  import opened Mapper
  import opened Ranges
  import opened Spaces

  /** Mapping calls name a space by its position among those created so far. */
  datatype Op =
    | Create
    | Map(space: nat, large: bool, v: nat, f: nat, flags: Flags)
    | MapMany(space: nat, large: bool, v: nat, f: nat, n: nat, flags: Flags)
    | Alloc
    | Free(frame: Frame)

  /** The machine, the frames its clients hold and the root of every address space. */
  datatype System = System(machine: Machine, held: set<Frame>, roots: seq<Frame>)

  /** One operation; paging calls answer.  A space never created has no root table and is refused. */
  ghost function Step(y: System, op: Op): (System, Option<bool>) {
    match op
    case Create =>
      var (s, root) := AllocTable(y.machine);
      (y.(machine := s, roots := y.roots + [root]), Some(true))
    case Map(i, large, v, f, flags) =>
      if i >= |y.roots| then (y, Some(false)) else
      var (s, ok) := MapUnit(y.machine, y.roots[i], large, v, f, flags);
      (y.(machine := s), Some(ok))
    case MapMany(i, large, v, f, n, flags) =>
      if i >= |y.roots| then (y, Some(false)) else
      var (s, ok) := MapRange(y.machine, y.roots[i], large, v, f, n, flags);
      (y.(machine := s), Some(ok))
    case Alloc =>
      if y.machine.free == {} then (y, None) else
      var f := LeastOf(y.machine.free);
      (y.(machine := y.machine.(free := y.machine.free - {f}), held := y.held + {f}), None)
    case Free(f) =>
      (y.(machine := y.machine.(free := y.machine.free + {f}), held := y.held - {f}), None)
  }

  ghost function Run(y: System, ops: seq<Op>): (System, seq<Option<bool>>)
    decreases |ops|
  {
    if ops == [] then (y, []) else
    var (y', a) := Step(y, ops[0]);
    var (y'', rest) := Run(y', ops[1..]);
    (y'', [a] + rest)
  }

  /** Clients give back only frames they hold. */
  predicate Honest(y: System, op: Op) {
    op.Free? ==> op.frame in y.held
  }

  /** The operation finds the frames it needs: a frame for a new root, and for a call that can go
      through a frame for each table it misses. */
  ghost predicate Supplied(y: System, op: Op) {
    match op
    case Create => y.machine.free != {}
    case Map(i, large, v, f, flags) => i < |y.roots| ==> UnitSupplied(y.machine, y.roots[i], large, v, f, flags)
    case MapMany(i, large, v, f, n, flags) =>
      i < |y.roots| ==> RangeSupplied(y.machine, y.roots[i], large, v, f, n, flags)
    case _ => true
  }

  ghost predicate AllHonest(y: System, ops: seq<Op>)
    decreases |ops|
  {
    ops != [] ==> Honest(y, ops[0]) && AllHonest(Step(y, ops[0]).0, ops[1..])
  }

  /** Every operation is supplied in the state it meets. */
  ghost predicate AllSupplied(y: System, ops: seq<Op>)
    decreases |ops|
  {
    ops != [] ==> Supplied(y, ops[0]) && AllSupplied(Step(y, ops[0]).0, ops[1..])
  }

  /** The same operation on one flat map per space. */
  function FlatStep(flats: seq<Flat>, op: Op): (seq<Flat>, Option<bool>) {
    match op
    case Create => (flats + [map[]], Some(true))
    case Map(i, large, v, f, flags) =>
      if i >= |flats| then (flats, Some(false)) else
      var (flat, ok) := FlatUnit(flats[i], large, v, f, flags);
      (flats[i := flat], Some(ok))
    case MapMany(i, large, v, f, n, flags) =>
      if i >= |flats| then (flats, Some(false)) else
      var (flat, ok) := FlatRange(flats[i], large, v, f, n, flags);
      (flats[i := flat], Some(ok))
    case _ => (flats, None)
  }

  function FlatRun(flats: seq<Flat>, ops: seq<Op>): (seq<Flat>, seq<Option<bool>>)
    decreases |ops|
  {
    if ops == [] then (flats, []) else
    var (flats', a) := FlatStep(flats, ops[0]);
    var (flats'', rest) := FlatRun(flats', ops[1..]);
    (flats'', [a] + rest)
  }

  // ---------------------------------------------------------------------------
  // Invariant
  // ---------------------------------------------------------------------------

  /** Every space is sound and no frame is two things at once: free, held by a client, or a table of
      one space. */
  ghost predicate Valid(y: System) {
    && (forall i :: 0 <= i < |y.roots| ==>
          SpaceOk(y.machine, y.roots[i]) && Owned(y.machine.mem, y.roots[i]) !! y.held)
    && (forall i, j :: 0 <= i < j < |y.roots| ==> Separate(y.machine.mem, y.roots[i], y.roots[j]))
    && y.held !! y.machine.free
  }

  ghost predicate AllAgree(y: System, flats: seq<Flat>) {
    && |flats| == |y.roots|
    && (forall i :: 0 <= i < |y.roots| ==> Agrees(y.machine, y.roots[i], flats[i]))
  }

  ghost predicate IsTable(y: System, f: Frame) {
    exists i :: 0 <= i < |y.roots| && f in Owned(y.machine.mem, y.roots[i])
  }

  /** Every frame the system has, in any of the three roles. */
  ghost function Frames(y: System): set<Frame> {
    y.machine.free + y.held + set f: Frame | IsTable(y, f)
  }

  /** What one operation achieves. */
  ghost predicate StepOk(y: System, y': System, flats: seq<Flat>) {
    Valid(y') && AllAgree(y', flats) && Frames(y') == Frames(y)
  }

  // ---------------------------------------------------------------------------
  // One operation
  // ---------------------------------------------------------------------------

  /** A mapping call on space `i`: its own space advanced, the others are as they were. */
  lemma MappedStep(y: System, flats: seq<Flat>, i: nat, s: Machine, flat: Flat, nodes: set<Node>)
    requires Valid(y) && AllAgree(y, flats) && i < |y.roots|
    requires Advanced(y.machine, s, y.roots[i], nodes) && Agrees(s, y.roots[i], flat)
    ensures StepOk(y, y.(machine := s), flats[i := flat])
  {
    hide SpaceOk, Balanced, Owned, Tables, Walk, Agrees, Frames;
    var y', m, root := y.(machine := s), y.machine, y.roots[i];
    TakenAreTables(m, s, root);
    BalancedFree(m, s, root);
    forall j | 0 <= j < |y.roots|
      ensures SpaceOk(s, y.roots[j]) && Owned(s.mem, y.roots[j]) !! y.held
      ensures j != i ==> Owned(s.mem, y.roots[j]) == Owned(m.mem, y.roots[j]) && Separate(s.mem, root, y.roots[j])
      ensures Agrees(s, y.roots[j], flats[i := flat][j])
    {
      if j == i {
        StaysApart(m, s, root, y.held);
      } else {
        assert Separate(m.mem, root, y.roots[j]) by {
          assert Separate(m.mem, y.roots[if i < j then i else j], y.roots[if i < j then j else i]);
        }
        OtherSpaceKept(m, s, root, y.roots[j]);
        SameAgrees(m, s, y.roots[j], flats[j]);
      }
    }
    FramesMoved(y, y', i);
  }

  /** Frames that moved from the free set into one space were not lost. */
  lemma FramesMoved(y: System, y': System, i: nat)
    requires i < |y.roots| && y'.roots == y.roots && y'.held == y.held && y'.machine.free <= y.machine.free
    requires Owned(y'.machine.mem, y.roots[i]) == Owned(y.machine.mem, y.roots[i]) + (y.machine.free - y'.machine.free)
    requires forall j :: 0 <= j < |y.roots| && j != i ==>
               Owned(y'.machine.mem, y.roots[j]) == Owned(y.machine.mem, y.roots[j])
    ensures Frames(y') == Frames(y)
  {
    hide Owned;
    forall f: Frame ensures IsTable(y', f) <==> IsTable(y, f) || f in y.machine.free - y'.machine.free {
      if f in Owned(y'.machine.mem, y.roots[i]) {}
      if IsTable(y, f) {
        var j :| 0 <= j < |y.roots| && f in Owned(y.machine.mem, y.roots[j]);
        assert f in Owned(y'.machine.mem, y'.roots[j]);
      }
    }
  }

  lemma MapStep(y: System, flats: seq<Flat>, op: Op)
    requires Valid(y) && AllAgree(y, flats)
    requires op.Map? && op.space < |y.roots| && Supplied(y, op)
    ensures var (y', a) := Step(y, op);
            var (flats', b) := FlatStep(flats, op);
            a == b && StepOk(y, y', flats')
  {
    hide Agrees, UnitSupplied, MapUnit, FlatUnit, SpaceOk, UnitPath, StepOk, Advanced;
    var Map(i, large, v, f, flags) := op;
    UnitRefines(y.machine, y.roots[i], flats[i], large, v, f, flags);
    MappedStep(y, flats, i, MapUnit(y.machine, y.roots[i], large, v, f, flags).0,
               FlatUnit(flats[i], large, v, f, flags).0, UnitPath(large, v));
  }

  lemma MapManyStep(y: System, flats: seq<Flat>, op: Op)
    requires Valid(y) && AllAgree(y, flats)
    requires op.MapMany? && op.space < |y.roots| && Supplied(y, op)
    ensures var (y', a) := Step(y, op);
            var (flats', b) := FlatStep(flats, op);
            a == b && StepOk(y, y', flats')
  {
    hide Agrees, RangeSupplied, MapRange, FlatRange, SpaceOk, RangeNodes, StepOk, Advanced;
    var MapMany(i, large, v, f, n, flags) := op;
    RangeRefines(y.machine, y.roots[i], flats[i], large, v, f, n, flags);
    MappedStep(y, flats, i, MapRange(y.machine, y.roots[i], large, v, f, n, flags).0,
               FlatRange(flats[i], large, v, f, n, flags).0, RangeNodes(large, v, n));
  }

  lemma CreateStep(y: System, flats: seq<Flat>)
    requires Valid(y) && AllAgree(y, flats) && y.machine.free != {}
    ensures StepOk(y, Step(y, Create).0, flats + [map[]])
  {
    hide Agrees, AllocTable, Tables, SpaceOk, TableAt, Owned, Frames;
    var y', root := Step(y, Create).0, AllocTable(y.machine).1;
    FreshSpace(y.machine);
    CreateWrites(y.machine);
    forall j | 0 <= j < |y.roots|
      ensures SpaceOk(y'.machine, y.roots[j]) && Agrees(y'.machine, y.roots[j], flats[j])
      ensures Owned(y'.machine.mem, y.roots[j]) == Owned(y.machine.mem, y.roots[j])
      ensures Separate(y'.machine.mem, y.roots[j], root)
    {
      CreateKeeps(y.machine, y.roots[j], flats[j]);
    }
    FramesCreated(y, y', root);
  }

  lemma FramesCreated(y: System, y': System, root: Frame)
    requires y'.roots == y.roots + [root] && y'.held == y.held
    requires root in y.machine.free && y'.machine.free == y.machine.free - {root}
    requires Owned(y'.machine.mem, root) == {root}
    requires forall j :: 0 <= j < |y.roots| ==> Owned(y'.machine.mem, y.roots[j]) == Owned(y.machine.mem, y.roots[j])
    ensures Frames(y') == Frames(y)
  {
    hide Owned;
    forall f: Frame ensures IsTable(y', f) <==> IsTable(y, f) || f == root {
      assert y'.roots[|y.roots|] == root;
      if IsTable(y, f) {
        var j :| 0 <= j < |y.roots| && f in Owned(y.machine.mem, y.roots[j]);
        assert f in Owned(y'.machine.mem, y'.roots[j]);
      }
    }
  }

  /** Taking a frame leaves the tables alone; so does giving back one that is held. */
  lemma ClientStep(y: System, flats: seq<Flat>, op: Op)
    requires Valid(y) && AllAgree(y, flats)
    requires op.Alloc? || (op.Free? && op.frame in y.held)
    ensures StepOk(y, Step(y, op).0, flats)
  {
    hide Agrees, SpaceOk, Owned, Frames;
    var y' := Step(y, op).0;
    forall j | 0 <= j < |y.roots|
      ensures SpaceOk(y'.machine, y.roots[j]) && Owned(y.machine.mem, y.roots[j]) !! y'.held
      ensures Agrees(y'.machine, y.roots[j], flats[j])
    {
      FreeChanged(y.machine, y'.machine, y.roots[j], flats[j]);
      if op.Alloc? && y.machine.free != {} { NotOwned(y.machine, y.roots[j], LeastOf(y.machine.free)); }
    }
    FramesKept(y, y');
  }

  lemma FramesKept(y: System, y': System)
    requires y'.roots == y.roots && y'.machine.mem == y.machine.mem
    requires y'.machine.free + y'.held == y.machine.free + y.held
    ensures Frames(y') == Frames(y)
  {
    hide Owned;
    assert forall f: Frame :: IsTable(y', f) <==> IsTable(y, f);
  }

  /** A client's request moves the least free frame to those it holds, and a release moves it back. */
  lemma ClientMoves(y: System, f: Frame)
    ensures var y' := Step(y, Alloc).0;
            if y.machine.free == {} then y' == y
            else exists g :: && g in y.machine.free && (forall h :: h in y.machine.free ==> g <= h)
                             && y'.held == y.held + {g} && y'.machine == y.machine.(free := y.machine.free - {g})
                             && y'.roots == y.roots
    ensures var y' := Step(y, Free(f)).0;
            && f in y'.machine.free && f !in y'.held && y'.roots == y.roots && y'.machine.mem == y.machine.mem
            && forall g: Frame :: g != f ==>
                 (g in y'.machine.free <==> g in y.machine.free) && (g in y'.held <==> g in y.held)
  {
    if y.machine.free != {} { var g := LeastOf(y.machine.free); assert g in y.machine.free; }
  }

  /** Every operation answers as the flat maps do, keeps every space sound and every frame in one role,
      and loses none. */
  lemma StepRefines(y: System, flats: seq<Flat>, op: Op)
    requires Valid(y) && AllAgree(y, flats)
    requires Honest(y, op) && Supplied(y, op)
    ensures var (y', a) := Step(y, op);
            var (flats', b) := FlatStep(flats, op);
            a == b && StepOk(y, y', flats')
  {
    hide SpaceOk, Agrees, StepOk, MapUnit, MapRange, FlatUnit, FlatRange, Owned, UnitSupplied, RangeSupplied;
    match op
    case Create => CreateStep(y, flats);
    case Map(i, _, _, _, _) => if i < |y.roots| { MapStep(y, flats, op); } else { StepOkRefl(y, flats); }
    case MapMany(i, _, _, _, _, _) => if i < |y.roots| { MapManyStep(y, flats, op); } else { StepOkRefl(y, flats); }
    case Alloc => ClientStep(y, flats, op);
    case Free(_) => ClientStep(y, flats, op);
  }

  lemma StepOkRefl(y: System, flats: seq<Flat>)
    requires Valid(y) && AllAgree(y, flats)
    ensures StepOk(y, y, flats)
  {}

  // ---------------------------------------------------------------------------
  // Every run
  // ---------------------------------------------------------------------------

  /** Every run in which each operation finds its frames answers as the flat maps do, keeps the tables of
      every space a tree of its own frames, disjoint from the other spaces', the clients' and the free
      ones, and loses no frame. */
  lemma {:induction false} RunRefines(y: System, flats: seq<Flat>, ops: seq<Op>)
    requires Valid(y) && AllAgree(y, flats)
    requires AllHonest(y, ops) && AllSupplied(y, ops)
    ensures var (y', answers) := Run(y, ops);
            var (flats', answers') := FlatRun(flats, ops);
            answers == answers' && StepOk(y, y', flats')
    decreases |ops|
  {
    hide Valid, AllAgree, Frames, Step, FlatStep, Honest, Supplied;
    if ops != [] {
      StepRefines(y, flats, ops[0]);
      RunRefines(Step(y, ops[0]).0, FlatStep(flats, ops[0]).0, ops[1..]);
    }
  }

  lemma FlatStepKeeps(flats: seq<Flat>, op: Op, i: nat)
    requires i < |flats|
    ensures var flats' := FlatStep(flats, op).0;
            |flats| <= |flats'| && forall q :: q in flats[i] ==> q in flats'[i] && flats'[i][q] == flats[i][q]
  {
    if op.MapMany? && op.space == i {
      var MapMany(_, large, v, f, n, flags) := op;
      if RangeArgs(large, v, f, n) { FlatUnitsKeeps(flats[i], large, v, f, n, flags); }
    }
  }

  lemma {:induction false} FlatUnitsKeeps(flat: Flat, large: bool, v: nat, f: nat, n: nat, flags: Flags)
    ensures var flat' := FlatUnits(flat, large, v, f, n, flags).0;
            forall q :: q in flat ==> q in flat' && flat'[q] == flat[q]
    decreases n
  {
    hide UnitFits, UnitBlock;
    if n >= UnitPages(large) && UnitFits(flat, large, v, f, flags) {
      var u := UnitPages(large);
      FitDisjoint(flat, large, v, f, flags);
      FlatUnitsKeeps(flat + UnitBlock(large, v, f, flags), large, v + u, f + u, n - u, flags);
    }
  }

  lemma FitDisjoint(flat: Flat, large: bool, v: nat, f: nat, flags: Flags)
    requires UnitFits(flat, large, v, f, flags)
    ensures UnitBlock(large, v, f, flags).Keys !! flat.Keys
  {}

  lemma {:induction false} FlatRunKeeps(flats: seq<Flat>, ops: seq<Op>, i: nat)
    requires i < |flats|
    ensures var flats' := FlatRun(flats, ops).0;
            |flats| <= |flats'| && forall q :: q in flats[i] ==> q in flats'[i] && flats'[i][q] == flats[i][q]
    decreases |ops|
  {
    hide FlatStep;
    if ops != [] {
      FlatStepKeeps(flats, ops[0], i);
      FlatRunKeeps(FlatStep(flats, ops[0]).0, ops[1..], i);
    }
  }

  lemma ValidWalk(y: System, flats: seq<Flat>, i: nat, p: nat)
    requires Valid(y) && AllAgree(y, flats) && i < |y.roots| && p < PAGES
    ensures Walk(y.machine.mem, y.roots[i], p) == Lookup(flats[i], p)
  {
    hide Walk, LeafAt, Owned;
    SpaceWalk(y.machine, y.roots[i], p);
  }

  /** From the first address space on: whatever the run, the hardware walk of every page of every space
      gives exactly the frame and rights its flat map records. */
  lemma WalkAfterRun(s: Machine, held: set<Frame>, ops: seq<Op>)
    requires held !! s.free
    requires AllHonest(System(s, held, []), ops) && AllSupplied(System(s, held, []), ops)
    ensures var (y, answers) := Run(System(s, held, []), ops);
            var (flats, answers') := FlatRun([], ops);
            && answers == answers' && |flats| == |y.roots|
            && forall i, p: nat :: 0 <= i < |y.roots| && p < PAGES ==>
                 Walk(y.machine.mem, y.roots[i], p) == Lookup(flats[i], p)
  {
    hide Run, FlatRun, Walk, Owned, SpaceOk;
    var y0 := System(s, held, []);
    RunRefines(y0, [], ops);
    var y, flats := Run(y0, ops).0, FlatRun([], ops).0;
    forall i, p: nat | 0 <= i < |y.roots| && p < PAGES
      ensures Walk(y.machine.mem, y.roots[i], p) == Lookup(flats[i], p)
    {
      ValidWalk(y, flats, i, p);
    }
  }

  /** The flat maps a state stands for. */
  ghost function FlatsOf(y: System): seq<Flat> {
    seq(|y.roots|, i requires 0 <= i < |y.roots| => FlatOf(y.machine, y.roots[i]))
  }

  lemma FlatsOfAgree(y: System)
    ensures AllAgree(y, FlatsOf(y))
  {
    forall i | 0 <= i < |y.roots| ensures Agrees(y.machine, y.roots[i], FlatsOf(y)[i]) {
      FlatOfAgrees(y.machine, y.roots[i]);
    }
  }

  lemma {:induction false} RootsKept(y: System, ops: seq<Op>)
    ensures y.roots <= Run(y, ops).0.roots
    decreases |ops|
  {
    hide MapUnit, MapRange, AllocTable;
    if ops != [] { RootsKept(Step(y, ops[0]).0, ops[1..]); }
  }

  /** A mapping in force at any point of a run is in force, unchanged, at every later point. */
  lemma TranslationsPersist(y: System, ops: seq<Op>, i: nat, p: nat)
    requires Valid(y)
    requires AllHonest(y, ops) && AllSupplied(y, ops)
    requires i < |y.roots| && p < PAGES && Walk(y.machine.mem, y.roots[i], p).Some?
    ensures Walk(Run(y, ops).0.machine.mem, y.roots[i], p) == Walk(y.machine.mem, y.roots[i], p)
  {
    hide Walk, Run, FlatRun, Valid, AllAgree, FlatsOf;
    var flats := FlatsOf(y);
    FlatsOfAgree(y);
    RunRefines(y, flats, ops);
    AgreeSize(y, flats);
    FlatRunKeeps(flats, ops, i);
    RootsKept(y, ops);
    ValidWalk(y, flats, i, p);
    ValidWalk(Run(y, ops).0, FlatRun(flats, ops).0, i, p);
  }

  lemma AgreeSize(y: System, flats: seq<Flat>)
    requires AllAgree(y, flats)
    ensures |flats| == |y.roots|
  {}

  /** The operation maps into space `i`. */
  predicate MapsInto(op: Op, i: nat) {
    (op.Map? || op.MapMany?) && op.space == i
  }

  lemma {:induction false} FlatUntouched(flats: seq<Flat>, ops: seq<Op>, i: nat)
    requires i < |flats| && forall k :: 0 <= k < |ops| ==> !MapsInto(ops[k], i)
    ensures i < |FlatRun(flats, ops).0| && FlatRun(flats, ops).0[i] == flats[i]
    decreases |ops|
  {
    hide FlatUnit, FlatRange;
    if ops != [] {
      assert !MapsInto(ops[0], i);
      FlatUntouched(FlatStep(flats, ops[0]).0, ops[1..], i);
    }
  }

  /** Isolation: a run that maps nothing into a space, whatever it does to others, leaves the walk of
      its every page as it was. */
  lemma Isolation(y: System, ops: seq<Op>, i: nat, p: nat)
    requires Valid(y)
    requires AllHonest(y, ops) && AllSupplied(y, ops)
    requires i < |y.roots| && p < PAGES && forall k :: 0 <= k < |ops| ==> !MapsInto(ops[k], i)
    ensures Walk(Run(y, ops).0.machine.mem, y.roots[i], p) == Walk(y.machine.mem, y.roots[i], p)
  {
    hide Walk, Run, FlatRun, Valid, AllAgree, FlatsOf, MapsInto;
    var flats := FlatsOf(y);
    FlatsOfAgree(y);
    RunRefines(y, flats, ops);
    AgreeSize(y, flats);
    FlatUntouched(flats, ops, i);
    RootsKept(y, ops);
    ValidWalk(y, flats, i, p);
    ValidWalk(Run(y, ops).0, FlatRun(flats, ops).0, i, p);
  }

  // ---------------------------------------------------------------------------
  // A bound read off the operations alone
  // ---------------------------------------------------------------------------

  /** Frames an operation may take, from its arguments alone; a call whose checks fail takes none. */
  function Cost(op: Op): nat {
    match op
    case Create => 1
    case Map(_, large, v, f, flags) => if !UnitArgs(large, v, f, flags) then 0 else if large then 2 else 3
    case MapMany(_, large, v, f, n, _) => if RangeArgs(large, v, f, n) then Budget(large, v, n) else 0
    case Alloc => 1
    case Free(_) => 0
  }

  function TotalCost(ops: seq<Op>): nat {
    if ops == [] then 0 else Cost(ops[0]) + TotalCost(ops[1..])
  }

  lemma UnitPathBound(large: bool, v: nat)
    ensures |UnitPath(large, v)| <= if large then 2 else 3
  {}

  lemma SmallerEnough(s: Machine, root: Frame, nodes: set<Node>)
    requires |nodes| <= |s.free|
    ensures Enough(s, root, nodes)
  {
    var t := Tables(s.mem, root);
    assert nodes == (nodes - t) + (nodes * t);
  }

  lemma MapCost(y: System, op: Op)
    requires Valid(y) && op.Map? && op.space < |y.roots| && Cost(op) <= |y.machine.free|
    ensures Supplied(y, op) && |y.machine.free| <= |Step(y, op).0.machine.free| + Cost(op)
  {
    hide Agrees, MapUnit, FlatUnit, SpaceOk, UnitPath, Advanced, Enough, Owned;
    var Map(i, large, v, f, flags) := op;
    var s, root := y.machine, y.roots[i];
    if UnitArgs(large, v, f, flags) {
      UnitPathBound(large, v);
      SmallerEnough(s, root, UnitPath(large, v));
      FlatOfAgrees(s, root);
      UnitRefines(s, root, FlatOf(s, root), large, v, f, flags);
      TakenAtMost(s, MapUnit(s, root, large, v, f, flags).0, root, UnitPath(large, v));
    } else {
      RefusedUnit(s, root, large, v, f, flags);
    }
  }

  lemma RefusedUnit(s: Machine, root: Frame, large: bool, v: nat, f: nat, flags: Flags)
    requires !UnitArgs(large, v, f, flags)
    ensures MapUnit(s, root, large, v, f, flags) == (s, false)
  {}

  lemma MapManyCost(y: System, op: Op)
    requires Valid(y) && op.MapMany? && op.space < |y.roots| && Cost(op) <= |y.machine.free|
    ensures Supplied(y, op) && |y.machine.free| <= |Step(y, op).0.machine.free| + Cost(op)
  {
    hide Agrees, MapUnits, FlatUnits, SpaceOk, RangeNodes, Advanced, UnitsSupplied, Owned, Budget;
    var MapMany(i, large, v, f, n, flags) := op;
    var s, root := y.machine, y.roots[i];
    if RangeArgs(large, v, f, n) {
      RangeNodesBound(large, v, n);
      RangeReserved(s, root, large, v, f, n, flags);
      FlatOfAgrees(s, root);
      RangeRefines(s, root, FlatOf(s, root), large, v, f, n, flags);
      TakenAtMost(s, MapRange(s, root, large, v, f, n, flags).0, root, RangeNodes(large, v, n));
    }
  }

  lemma StepCost(y: System, op: Op)
    requires Valid(y) && Honest(y, op) && Cost(op) <= |y.machine.free|
    ensures Supplied(y, op) && |y.machine.free| <= |Step(y, op).0.machine.free| + Cost(op)
  {
    hide Valid, MapUnit, MapRange, UnitSupplied, RangeSupplied, Budget, RangeArgs, UnitArgs;
    match op
    case Create => assert |y.machine.free| >= 1;
    case Map(i, _, _, _, _) => if i < |y.roots| { MapCost(y, op); }
    case MapMany(i, _, _, _, _, _) => if i < |y.roots| { MapManyCost(y, op); }
    case Alloc =>
    case Free(_) => SizeDifference(y.machine.free, Step(y, op).0.machine.free);
  }

  /** Runs whose summed worst-case cost is free at the start are supplied throughout. */
  lemma {:induction false} CostSupplies(y: System, flats: seq<Flat>, ops: seq<Op>)
    requires Valid(y) && AllAgree(y, flats) && AllHonest(y, ops)
    requires TotalCost(ops) <= |y.machine.free|
    ensures AllSupplied(y, ops)
    decreases |ops|
  {
    hide Valid, AllAgree, Frames, Step, FlatStep, Honest, Supplied, Cost;
    if ops != [] {
      StepCost(y, ops[0]);
      StepRefines(y, flats, ops[0]);
      CostSupplies(Step(y, ops[0]).0, FlatStep(flats, ops[0]).0, ops[1..]);
    }
  }
}
