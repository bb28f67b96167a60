/** Runs told by their calls: which page is mapped after a run, and by which call. */
module RunHistory {
  import opened Options
  import opened PageTree
  import opened Mapper
  import opened Ranges
  import opened RangeOutcome
  import opened WalkOutcome
  import opened Runs
  import Spaces

  /** Pages an operation asks to map. */
  function PagesAsked(op: Op): nat {
    match op
    case Map(_, large, _, _, _) => if large then 512 else 1
    case MapMany(_, _, _, _, n, _) => n
    case _ => 0
  }

  function PageAsked(op: Op, k: nat): nat
    requires op.Map? || op.MapMany?
  {
    (op.v + k) % 0x10_0000_0000
  }

  /** The operation asks for page `p` of space `i`, as its `k`-th page, to be mapped as `m` says. */
  predicate Asks(op: Op, i: nat, k: nat, p: nat, m: Mapping) {
    && (op.Map? || op.MapMany?) && op.space == i
    && k < PagesAsked(op) && p == PageAsked(op, k)
    && m == Mapping(op.f + k, op.flags.writable, op.flags.user, op.flags.noExecute, op.flags.attributes)
  }

  /** All pages of the operation up to its `k`-th are mapped as asked. */
  ghost predicate MappedUpTo(flat: Flat, op: Op, i: nat, k: nat) {
    forall l: nat, p: nat, m: Mapping :: l <= k && Asks(op, i, l, p, m) ==> Lookup(flat, p) == Some(m)
  }

  // ---------------------------------------------------------------------------
  // One operation on the flat maps
  // ---------------------------------------------------------------------------

  /** A block from page `v` on that stays in one half. */
  lemma BlockPages(v: nat, f: nat, n: nat, flags: Flags, k: nat)
    requires Canonical(v) && k < n && (v < HALF ==> v + k < HALF) && (v >= HALF ==> v + k < VIRTUAL_PAGES)
    ensures (v + k) % 0x10_0000_0000 == PageOf(v) + k
    ensures PageOf(v) + k in Block(PageOf(v), f, n, flags)
    ensures Block(PageOf(v), f, n, flags)[PageOf(v) + k] ==
            Mapping(f + k, flags.writable, flags.user, flags.noExecute, flags.attributes)
  {}

  /** The pages before the first refused unit stay in one half. */
  lemma {:induction false} FittingHalf(flat: Flat, large: bool, v: nat, f: nat, n: nat, flags: Flags)
    requires Canonical(v)
    ensures var j := FittingPages(flat, large, v, f, n, flags);
            (v < HALF ==> v + j <= HALF) && (v >= HALF ==> v + j <= VIRTUAL_PAGES)
    decreases n
  {
    hide UnitFits, FittingPages, Canonical;
    var u := UnitPages(large);
    FittingStep(flat, large, v, f, n, flags);
    HalfBound(v);
    if n >= u && UnitFits(flat, large, v, f, flags) {
      UnitStays(flat, large, v, f, flags);
      if Canonical(v + u) {
        FittingHalf(flat, large, v + u, f + u, n - u, flags);
        HalfBound(v + u);
      } else {
        FittingStep(flat, large, v + u, f + u, n - u, flags);
        if UnitFits(flat, large, v + u, f + u, flags) { FitCanonical(flat, large, v + u, f + u, flags); }
      }
    }
  }

  lemma HalfBound(v: nat)
    ensures Canonical(v) <==> v < HALF || VIRTUAL_PAGES - HALF <= v < VIRTUAL_PAGES
  {}

  lemma UnitStays(flat: Flat, large: bool, v: nat, f: nat, flags: Flags)
    requires UnitFits(flat, large, v, f, flags)
    ensures (v < HALF ==> v + UnitPages(large) <= HALF) && v + UnitPages(large) <= VIRTUAL_PAGES
  {
    hide UnitBlock;
  }

  /** What an operation on space `i` adds to its flat map: a block of the pages it asks for, all of them
      if it answers true. */
  lemma StepBlock(flats: seq<Flat>, op: Op, i: nat) returns (j: nat)
    requires i < |flats| && MapsInto(op, i)
    ensures var (flats', a) := FlatStep(flats, op);
            && j <= PagesAsked(op) && (a == Some(true) ==> j == PagesAsked(op))
            && (j > 0 ==> Canonical(op.v) && (op.v < HALF ==> op.v + j <= HALF) && op.v + j <= VIRTUAL_PAGES)
            && (j > 0 && op.Map? ==> a == Some(true))
            && flats'[i] == flats[i] + Block(PageOf(op.v), op.f, j, op.flags)
  {
    hide FittingPages, FlatUnits, UnitBlock, Block;
    var flat := flats[i];
    NoBlock(flat, PageOf(op.v), op.f, op.flags);
    j := 0;
    if op.Map? {
      if UnitFits(flat, op.large, op.v, op.f, op.flags) {
        j := PagesAsked(op);
        UnitIsBlock(op.large, op.v, op.f, op.flags);
      }
    } else if RangeArgs(op.large, op.v, op.f, op.n) {
      RangeAdds(flat, op.large, op.v, op.f, op.n, op.flags);
      j := FittingPages(flat, op.large, op.v, op.f, op.n, op.flags);
      FittingHalf(flat, op.large, op.v, op.f, op.n, op.flags);
    }
  }

  lemma BlockBounds(p: nat, f: nat, n: nat, flags: Flags, q: nat)
    ensures q in Block(p, f, n, flags) <==> p <= q < p + n
  {}

  lemma NoBlock(flat: Flat, p: nat, f: nat, flags: Flags)
    ensures flat + Block(p, f, 0, flags) == flat
  {}

  lemma UnitIsBlock(large: bool, v: nat, f: nat, flags: Flags)
    ensures UnitBlock(large, v, f, flags) == Block(PageOf(v), f, if large then 512 else 1, flags)
  {}

  /** One operation: the pages of a call that answers true are mapped as asked, and a page newly mapped
      was asked for, by a call that answers true or by a range call that got that far. */
  lemma StepHistory(flats: seq<Flat>, op: Op, i: nat, p: nat, m: Mapping)
    requires i < |flats|
    ensures var (flats', a) := FlatStep(flats, op);
            && i < |flats'|
            && (a == Some(true) ==> forall k: nat :: Asks(op, i, k, p, m) ==> Lookup(flats'[i], p) == Some(m))
            && (Lookup(flats'[i], p) == Some(m) ==>
                  || Lookup(flats[i], p) == Some(m)
                  || exists k: nat :: Asks(op, i, k, p, m)
                                      && (a == Some(true) || (op.MapMany? && MappedUpTo(flats'[i], op, i, k))))
  {
    hide FlatUnit, FlatRange, PageOf, Block;
    if MapsInto(op, i) {
      var j := StepBlock(flats, op, i);
      BlockHistory(flats[i], op, i, j, p, m);
      var (flats', a) := FlatStep(flats, op);
      if Lookup(flats'[i], p) == Some(m) && Lookup(flats[i], p) != Some(m) {
        var k: nat :| k < j && Asks(op, i, k, p, m);
        forall l: nat, q: nat, m': Mapping | l <= k && Asks(op, i, l, q, m') ensures Lookup(flats'[i], q) == Some(m') {
          BlockHistory(flats[i], op, i, j, q, m');
        }
      }
    }
  }

  /** A block of the first `j` pages an operation asks for. */
  lemma BlockHistory(flat: Flat, op: Op, i: nat, j: nat, p: nat, m: Mapping)
    requires MapsInto(op, i) && j <= PagesAsked(op)
    requires j > 0 ==> Canonical(op.v) && (op.v < HALF ==> op.v + j <= HALF) && op.v + j <= VIRTUAL_PAGES
    ensures var flat' := flat + Block(PageOf(op.v), op.f, j, op.flags);
            && (forall k: nat :: k < j && Asks(op, i, k, p, m) ==> Lookup(flat', p) == Some(m))
            && (Lookup(flat', p) == Some(m) ==>
                  Lookup(flat, p) == Some(m) || exists k: nat :: k < j && Asks(op, i, k, p, m))
  {
    hide PageOf, Block, Canonical, Asks;
    var block := Block(PageOf(op.v), op.f, j, op.flags);
    forall k: nat | k < j && Asks(op, i, k, p, m) ensures p in block && block[p] == m {
      AskedBlock(op, i, j, k, p, m);
    }
    if p in block && block[p] == m {
      var k := AskedFor(op, i, j, p, m);
    }
  }

  lemma AskedBlock(op: Op, i: nat, j: nat, k: nat, p: nat, m: Mapping)
    requires MapsInto(op, i) && k < j <= PagesAsked(op) && Asks(op, i, k, p, m)
    requires Canonical(op.v) && (op.v < HALF ==> op.v + j <= HALF) && op.v + j <= VIRTUAL_PAGES
    ensures var block := Block(PageOf(op.v), op.f, j, op.flags); p in block && block[p] == m
  {
    hide PageOf, Block, Canonical;
    BlockPages(op.v, op.f, j, op.flags, k);
  }

  lemma AskedFor(op: Op, i: nat, j: nat, p: nat, m: Mapping) returns (k: nat)
    requires MapsInto(op, i) && j <= PagesAsked(op)
    requires j > 0 ==> Canonical(op.v) && (op.v < HALF ==> op.v + j <= HALF) && op.v + j <= VIRTUAL_PAGES
    requires var block := Block(PageOf(op.v), op.f, j, op.flags); p in block && block[p] == m
    ensures k < j && Asks(op, i, k, p, m)
  {
    hide PageOf, Block, Canonical;
    BlockBounds(PageOf(op.v), op.f, j, op.flags, p);
    k := p - PageOf(op.v);
    BlockPages(op.v, op.f, j, op.flags, k);
  }

  // ---------------------------------------------------------------------------
  // Whole runs
  // ---------------------------------------------------------------------------

  /** Call `j` of a run put page `p` of space `i` there, as its `k`-th page. */
  ghost predicate Put(flat: Flat, ops: seq<Op>, answers: seq<Option<bool>>, i: nat, j: nat, k: nat, p: nat, m: Mapping)
    requires |answers| == |ops|
  {
    && j < |ops| && Asks(ops[j], i, k, p, m)
    && (answers[j] == Some(true) || (ops[j].MapMany? && MappedUpTo(flat, ops[j], i, k)))
  }

  lemma {:induction false} AnswersAll(flats: seq<Flat>, ops: seq<Op>)
    ensures |FlatRun(flats, ops).1| == |ops|
    decreases |ops|
  {
    hide FlatStep;
    if ops != [] { AnswersAll(FlatStep(flats, ops[0]).0, ops[1..]); }
  }

  lemma UpToKept(flat: Flat, flat': Flat, op: Op, i: nat, k: nat)
    requires MappedUpTo(flat, op, i, k) && forall q :: q in flat ==> q in flat' && flat'[q] == flat[q]
    ensures MappedUpTo(flat', op, i, k)
  {}

  /** Pages of successful calls are mapped as asked at the end of the run. */
  lemma {:induction false} Forward(flats: seq<Flat>, ops: seq<Op>, i: nat, j: nat, k: nat, p: nat, m: Mapping)
    requires j < |ops| && Asks(ops[j], i, k, p, m)
    requires |FlatRun(flats, ops).1| == |ops| && FlatRun(flats, ops).1[j] == Some(true)
    ensures i < |FlatRun(flats, ops).0| && Lookup(FlatRun(flats, ops).0[i], p) == Some(m)
    decreases |ops|
  {
    hide FlatUnit, FlatRange, Asks;
    var (flats1, a) := FlatStep(flats, ops[0]);
    AnswersAll(flats1, ops[1..]);
    if j == 0 {
      AsksSpace(ops[0], i, k, p, m);
      StepHistory(flats, ops[0], i, p, m);
      FlatRunKeeps(flats1, ops[1..], i);
    } else {
      assert ops[1..][j - 1] == ops[j];
      assert FlatRun(flats, ops).1[1..] == FlatRun(flats1, ops[1..]).1;
      Forward(flats1, ops[1..], i, j - 1, k, p, m);
    }
  }

  lemma AsksSpace(op: Op, i: nat, k: nat, p: nat, m: Mapping)
    requires Asks(op, i, k, p, m)
    ensures MapsInto(op, i)
  {}

  /** A page mapped at the end was mapped at the start or put there by some call. */
  lemma {:induction false} Backward(flats: seq<Flat>, ops: seq<Op>, i: nat, p: nat, m: Mapping)
    requires var flats' := FlatRun(flats, ops).0; i < |flats'| && Lookup(flats'[i], p) == Some(m)
    requires |FlatRun(flats, ops).1| == |ops|
    ensures var (flats', answers) := FlatRun(flats, ops);
            || (i < |flats| && Lookup(flats[i], p) == Some(m))
            || exists j: nat, k: nat :: Put(flats'[i], ops, answers, i, j, k, p, m)
    decreases |ops|
  {
    hide FlatUnit, FlatRange, Asks, MappedUpTo;
    if ops != [] {
      var (flats1, a) := FlatStep(flats, ops[0]);
      var (flats', answers) := FlatRun(flats, ops);
      AnswersAll(flats1, ops[1..]);
      assert answers == [a] + FlatRun(flats1, ops[1..]).1;
      Backward(flats1, ops[1..], i, p, m);
      if i < |flats1| && Lookup(flats1[i], p) == Some(m) {
        if i < |flats| {
          StepHistory(flats, ops[0], i, p, m);
          if Lookup(flats[i], p) != Some(m) {
            var k: nat :| Asks(ops[0], i, k, p, m)
                          && (a == Some(true) || (ops[0].MapMany? && MappedUpTo(flats1[i], ops[0], i, k)));
            FlatRunKeeps(flats1, ops[1..], i);
            if a != Some(true) { UpToKept(flats1[i], flats'[i], ops[0], i, k); }
            assert Put(flats'[i], ops, answers, i, 0, k, p, m);
          }
        }
      } else {
        var j: nat, k: nat :| Put(flats'[i], ops[1..], answers[1..], i, j, k, p, m);
        assert Put(flats'[i], ops, answers, i, j + 1, k, p, m);
      }
    }
  }

  /** Every range call into space `i` answers true. */
  predicate RangesSucceed(ops: seq<Op>, answers: seq<Option<bool>>, i: nat)
    requires |answers| == |ops|
  {
    forall j :: 0 <= j < |ops| && ops[j].MapMany? && ops[j].space == i ==> answers[j] == Some(true)
  }

  /** After any run from the first space on, by its calls and their answers: every page of a call that
      answered true walks to the frame and rights asked for; every mapped page was asked for, as it is
      mapped, by a call that answered true or by a range call all of whose pages up to it are mapped; and if
      no range call into the space failed, a page is mapped exactly when a successful call covers it. */
  lemma WalkHistory(s: Machine, held: set<Frame>, ops: seq<Op>, i: nat, p: nat, m: Mapping)
    requires held !! s.free && p < PAGES
    requires AllHonest(System(s, held, []), ops) && AllSupplied(System(s, held, []), ops)
    requires i < |Run(System(s, held, []), ops).0.roots|
    ensures var (y, answers) := Run(System(s, held, []), ops);
            var w := Walk(y.machine.mem, y.roots[i], p);
            var flat := FlatOf(y.machine, y.roots[i]);
            && |answers| == |ops|
            && (forall j: nat, k: nat :: j < |ops| && Asks(ops[j], i, k, p, m) && answers[j] == Some(true) ==>
                  w == Some(m))
            && (w == Some(m) ==> exists j: nat, k: nat :: Put(flat, ops, answers, i, j, k, p, m))
            && (RangesSucceed(ops, answers, i) ==>
                  (w == Some(m) <==>
                   exists j: nat, k: nat :: j < |ops| && Asks(ops[j], i, k, p, m) && answers[j] == Some(true)))
  {
    hide Run, FlatRun, Walk, Asks, MappedUpTo, AllHonest, AllSupplied, Valid;
    var y0 := System(s, held, []);
    assert Valid(y0) && AllAgree(y0, []) by { NoSpaces(s, held); }
    RunRefines(y0, [], ops);
    AnswersAll([], ops);
    var (y, answers) := Run(y0, ops);
    var flats := FlatRun([], ops).0;
    ValidWalk(y, flats, i, p);
    SameFlat(y, flats, i);
    var w := Walk(y.machine.mem, y.roots[i], p);
    forall j: nat, k: nat | j < |ops| && Asks(ops[j], i, k, p, m) && answers[j] == Some(true) ensures w == Some(m) {
      Forward([], ops, i, j, k, p, m);
    }
    if w == Some(m) {
      Backward([], ops, i, p, m);
      var j: nat, k: nat :| Put(flats[i], ops, answers, i, j, k, p, m);
      assert Put(FlatOf(y.machine, y.roots[i]), ops, answers, i, j, k, p, m);
      if RangesSucceed(ops, answers, i) {
        AsksInto(ops[j], i, k, p, m);
        assert answers[j] == Some(true);
      }
    }
  }

  lemma AsksInto(op: Op, i: nat, k: nat, p: nat, m: Mapping)
    requires Asks(op, i, k, p, m)
    ensures op.MapMany? ==> op.space == i
  {}

  lemma NoSpaces(s: Machine, held: set<Frame>)
    requires held !! s.free
    ensures Valid(System(s, held, [])) && AllAgree(System(s, held, []), [])
  {}

  lemma SameLookups(a: Flat, b: Flat, s: Machine, root: Frame)
    requires Agrees(s, root, a) && Agrees(s, root, b)
    ensures a == b
  {
    hide LeafAt;
    forall q: nat ensures Lookup(a, q) == Lookup(b, q) {
      assert LeafAt(s.mem, root, q) == Lookup(a, q);
    }
    forall q ensures q in a <==> q in b {
      assert Lookup(a, q) == Lookup(b, q);
    }
    forall q | q in a ensures a[q] == b[q] {
      assert Lookup(a, q) == Lookup(b, q);
    }
  }

  /** Two flat maps that agree with one space are one. */
  lemma SameFlat(y: System, flats: seq<Flat>, i: nat)
    requires AllAgree(y, flats) && i < |y.roots|
    ensures flats[i] == FlatOf(y.machine, y.roots[i])
  {
    var flat := FlatOf(y.machine, y.roots[i]);
    FlatOfAgrees(y.machine, y.roots[i]);
    assert Agrees(y.machine, y.roots[i], flats[i]) && Agrees(y.machine, y.roots[i], flat);
    hide FlatOf, LeafAt;
    SameLookups(flats[i], flat, y.machine, y.roots[i]);
  }

  // ---------------------------------------------------------------------------
  // Answers
  // ---------------------------------------------------------------------------

  /** What a mapping operation must satisfy, by page number, to go through in an empty space. */
  predicate Sound(op: Op)
    requires op.Map? || op.MapMany?
  {
    && (op.large ==> op.v % 512 == 0 && op.f % 512 == 0 && PagesAsked(op) % 512 == 0)
    && PagesAsked(op) != 0 && (op.MapMany? ==> op.v + PagesAsked(op) < 0x10_0000_0000_0000)
    && (op.v + PagesAsked(op) <= 0x8_0000_0000
        || (0xF_FFF8_0000_0000 <= op.v && op.v + PagesAsked(op) <= 0x10_0000_0000_0000))
    && op.f + PagesAsked(op) <= 0x100_0000_0000
    && (op.large || !op.flags.huge)
  }

  /** None of the pages it asks for is mapped. */
  ghost predicate Unmapped(y: System, op: Op)
    requires (op.Map? || op.MapMany?) && op.space < |y.roots|
  {
    forall k: nat :: k < PagesAsked(op) ==> Walk(y.machine.mem, y.roots[op.space], PageAsked(op, k)).None?
  }

  lemma UnmappedIff(y: System, op: Op, flat: Flat)
    requires (op.Map? || op.MapMany?) && op.space < |y.roots| && Sound(op)
    requires SpaceOk(y.machine, y.roots[op.space]) && Agrees(y.machine, y.roots[op.space], flat)
    ensures Unmapped(y, op) <==> Block(PageOf(op.v), op.f, PagesAsked(op), op.flags).Keys !! flat.Keys
  {
    hide Walk, SpaceOk, Agrees, PageOf, Block, PageAsked, Sound, PagesAsked;
    var block := Block(PageOf(op.v), op.f, PagesAsked(op), op.flags);
    forall k: nat | k < PagesAsked(op)
      ensures PageAsked(op, k) in block
      ensures Walk(y.machine.mem, y.roots[op.space], PageAsked(op, k)) == Lookup(flat, PageAsked(op, k))
    {
      AskedInBlock(op, k);
      WalkIsLookup(y.machine, y.roots[op.space], flat, PageAsked(op, k));
    }
    if Unmapped(y, op) {
      forall q | q in block.Keys ensures q !in flat.Keys {
        var k := BlockAsked(op, q);
        assert Walk(y.machine.mem, y.roots[op.space], PageAsked(op, k)).None?;
      }
    } else {
      var k: nat :| k < PagesAsked(op) && Walk(y.machine.mem, y.roots[op.space], PageAsked(op, k)).Some?;
      assert PageAsked(op, k) in block.Keys && PageAsked(op, k) in flat.Keys;
    }
  }

  lemma AskedInBlock(op: Op, k: nat)
    requires (op.Map? || op.MapMany?) && Sound(op) && k < PagesAsked(op)
    ensures PageAsked(op, k) == PageOf(op.v) + k && PageAsked(op, k) < PAGES
    ensures PageAsked(op, k) in Block(PageOf(op.v), op.f, PagesAsked(op), op.flags)
  {
    BlockPages(op.v, op.f, PagesAsked(op), op.flags, k);
  }

  lemma BlockAsked(op: Op, q: nat) returns (k: nat)
    requires (op.Map? || op.MapMany?) && Sound(op)
    requires q in Block(PageOf(op.v), op.f, PagesAsked(op), op.flags)
    ensures k < PagesAsked(op) && PageAsked(op, k) == q
  {
    hide PageOf, Block, PageAsked, Sound, PagesAsked;
    BlockBounds(PageOf(op.v), op.f, PagesAsked(op), op.flags, q);
    k := q - PageOf(op.v);
    AskedInBlock(op, k);
  }

  lemma UnitSound(op: Op, flat: Flat)
    requires op.Map?
    ensures UnitFits(flat, op.large, op.v, op.f, op.flags) <==>
            Sound(op) && Block(PageOf(op.v), op.f, PagesAsked(op), op.flags).Keys !! flat.Keys
  {
    hide Block, PageOf;
  }

  lemma RangeSound(op: Op, flat: Flat)
    requires op.MapMany?
    ensures RangeArgs(op.large, op.v, op.f, op.n) && RangeFits(flat, op.large, op.v, op.f, op.n, op.flags) <==>
            Sound(op) && Block(PageOf(op.v), op.f, PagesAsked(op), op.flags).Keys !! flat.Keys
  {
    hide Block, PageOf;
  }

  /** Every operation answers true exactly when it should: a creation always; a mapping call on a space
      that exists, with aligned arguments in one canonical half and in physical reach, none of whose
      pages is mapped in the state it meets. */
  lemma StepAnswers(y: System, op: Op)
    requires Valid(y) && Supplied(y, op)
    ensures var a := Step(y, op).1;
            && (op.Create? ==> a == Some(true)) && (op.Alloc? || op.Free? ==> a == None)
            && (op.Map? || op.MapMany? ==>
                  a == Some(op.space < |y.roots| && Sound(op) && Unmapped(y, op)))
  {
    hide SpaceOk, Agrees, MapUnit, MapRange, FlatRange, UnitSupplied, RangeSupplied, Spaces.Owned, Unmapped, Sound,
         UnitFits, RangeArgs, RangeFits, Block;
    if (op.Map? || op.MapMany?) && op.space < |y.roots| {
      var s, root := y.machine, y.roots[op.space];
      var flat := FlatOf(s, root);
      FlatOfAgrees(s, root);
      if Sound(op) { UnmappedIff(y, op, flat); }
      if op.Map? {
        UnitRefines(s, root, flat, op.large, op.v, op.f, op.flags);
        UnitSound(op, flat);
      } else {
        RangeRefines(s, root, flat, op.large, op.v, op.f, op.n, op.flags);
        RangeExact(flat, op.large, op.v, op.f, op.n, op.flags);
        RangeSound(op, flat);
      }
    }
  }

  /** A mapping call that succeeds in a space without tables takes exactly its cost; so do a creation and
      a client's request while frames last. */
  lemma CostAttained(y: System, op: Op)
    requires Valid(y) && Supplied(y, op) && y.machine.free != {}
    requires op.Map? || op.MapMany? ==>
               && Step(y, op).1 == Some(true)
               && op.space < |y.roots| && Tables(y.machine.mem, y.roots[op.space]) == {}
    ensures op.Free? || |y.machine.free| == |Step(y, op).0.machine.free| + Cost(op)
  {
    hide SpaceOk, Agrees, MapUnit, FlatUnit, FlatRange, UnitSupplied, RangeSupplied, Spaces.Owned, TablesKept, Confined,
         UnitPath, RangeNodes, Budget, Walk, Tables, MapUnits;
    if op.Map? || op.MapMany? {
      StepAnswers(y, op);
      var s, root := y.machine, y.roots[op.space];
      var flat := FlatOf(s, root);
      FlatOfAgrees(s, root);
      if op.Map? {
        UnitRefines(s, root, flat, op.large, op.v, op.f, op.flags);
        SucceededArgs(s, root, op.large, op.v, op.f, op.flags);
        UnitPathSize(op.large, op.v);
        assert Tables(Step(y, op).0.machine.mem, root) == UnitPath(op.large, op.v);
      } else {
        RangeRefines(s, root, flat, op.large, op.v, op.f, op.n, op.flags);
        BudgetExact(op.large, op.v, op.n);
        assert {} + RangeNodes(op.large, op.v, op.n) == RangeNodes(op.large, op.v, op.n);
      }
    }
  }

  lemma UnitPathSize(large: bool, v: nat)
    ensures |UnitPath(large, v)| == if large then 2 else 3
  {}
}
