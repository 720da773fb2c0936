/**
 Address spaces over whole runs of mapping, unmapping and table creation.

 A state is a partial map from pages to frames for every space; two roots share
 the space of a page exactly when their top-level slots do.
 */
module PageRuns {
  import opened Collections
  import opened Bits
  import opened BuddySpec
  import opened BuddyTheorems
  import opened PageTable
  import opened PageForest

  datatype Vm = Vm(lists: Lists, forest: Forest)

  datatype Op =
    | Map(root: nat, page: nat, frame: nat, flags: Flags)
    | Unmap(root: nat, page: nat)
    | NewTable

  /** The frame that root `r` translates page `x` to. */
  function Translate(mem: map<nat, seq<nat>>, r: nat, x: nat): Option<nat> {
    match Lookup(mem, r, 3, x)
    case None => None
    case Some(w) => Some(FrameOf(w))
  }

  function SpaceOf(f: Forest, r: nat, x: nat): nat {
    SlotSpace(f, r, Index(3, x))
  }

  /** The kernel root's upper half is filled in and every root has the same spaces there. */
  ghost predicate Upper(f: Forest, kroot: nat) {
    && kroot in f.owner
    && (forall i: nat :: 256 <= i < ENTRIES ==> Present(Entry(f.mem, kroot, i)))
    && (forall r: nat, i: nat :: r in f.owner && 256 <= i < ENTRIES ==> SlotSpace(f, r, i) == SlotSpace(f, kroot, i))
  }

  ghost predicate VmInv(kroot: nat, s: Vm) {
    Core(s.forest) && Fresh(s.lists, s.forest) && Upper(s.forest, kroot)
  }

  predicate InUpperHalf(x: nat) {
    256 <= Index(3, x)
  }

  /** Roots exist, pages and frames are in range, and the page allocator does not run dry. */
  ghost predicate Legal(s: Vm, op: Op) {
    match op
    case Map(r, x, frame, flags) =>
      r in s.forest.owner && x < TWO36 && frame < TWO51 && MapWalk(s.lists, s.forest, r, 3, x, LeafWord(frame, flags)).Some?
    case Unmap(r, x) => r in s.forest.owner && x < TWO36
    case NewTable => AllocSpec(s.lists, 0).1.Some?
  }

  ghost function Step(kroot: nat, s: Vm, op: Op): Vm
    requires Legal(s, op) && kroot in s.forest.owner && kroot in s.forest.mem
  {
    match op
    case Map(r, x, frame, flags) =>
      var (l, f) := MapWalk(s.lists, s.forest, r, 3, x, LeafWord(frame, flags)).value;
      Vm(l, f)
    case Unmap(r, x) => s.(forest := s.forest.(mem := UnmapWalk(s.forest.mem, r, 3, x)))
    case NewTable => Vm(AllocSpec(s.lists, 0).0, CopyRoot(s.forest, kroot, AllocSpec(s.lists, 0).1.value))
  }

  /* ---- the abstract address spaces ---- */

  /** The last frame mapped at every (space, page). */
  type Spaces = map<(nat, nat), nat>

  ghost function AbsStep(s: Vm, a: Spaces, op: Op): Spaces {
    match op
    case Map(r, x, frame, _) => a[(SpaceOf(s.forest, r, x), x) := frame]
    case Unmap(r, x) => a - {(SpaceOf(s.forest, r, x), x)}
    case NewTable => a
  }

  ghost predicate RefinesAt(f: Forest, a: Spaces, r: nat, x: nat) {
    Translate(f.mem, r, x) == if (SpaceOf(f, r, x), x) in a then Some(a[(SpaceOf(f, r, x), x)]) else None
  }

  ghost predicate Refines(f: Forest, a: Spaces) {
    && (forall k :: k in a ==> k.0 in f.owner)
    && (forall r: nat, x: nat :: r in f.owner && x < TWO36 ==> RefinesAt(f, a, r, x))
  }

  lemma CoreRoots(f: Forest)
    requires Core(f)
    ensures RootsOk(f) && forall r :: r in f.owner ==> r in f.mem
  {
  }

  /** Two roots with one space at a page translate it alike. */
  lemma {:induction false} SameSpaceSameFrame(f: Forest, r: nat, s: nat, x: nat)
    requires Core(f) && r in f.owner && s in f.owner && x < TWO36 && SpaceOf(f, r, x) == SpaceOf(f, s, x)
    ensures Translate(f.mem, r, x) == Translate(f.mem, s, x)
  {
    if r != s {
      IndexBound(3, x);
      assert Entry(f.mem, r, Index(3, x)) == Entry(f.mem, s, Index(3, x));
    }
  }

  lemma SpaceIsRoot(f: Forest, r: nat, x: nat)
    requires Core(f) && r in f.owner && x < TWO36
    ensures SpaceOf(f, r, x) in f.owner
  {
    IndexBound(3, x);
  }

  /* ---- one step ---- */

  lemma MapKeepsUpper(f: Forest, g: Forest, kroot: nat)
    requires RootsOk(f) && Upper(f, kroot) && Extends(f, g) && LinksKept(f, g)
    ensures Upper(g, kroot)
  {
    forall r: nat, i: nat | r in g.owner && 256 <= i < ENTRIES ensures SlotSpace(g, r, i) == SlotSpace(g, kroot, i) {
      SameSlots(f, g, r, i);
      SameSlots(f, g, kroot, i);
    }
  }

  lemma UnmapKeepsUpper(f: Forest, g: Forest, kroot: nat)
    requires RootsOk(f) && Upper(f, kroot) && SameTables(f, g)
    ensures Upper(g, kroot)
  {
    assert forall r: nat, i: nat :: SlotSpace(g, r, i) == SlotSpace(f, r, i);
  }

  lemma CopyKeepsUpper(f: Forest, g: Forest, kroot: nat, p: nat)
    requires Upper(f, kroot) && Copied(f, g, kroot, p)
    ensures Upper(g, kroot)
  {
    forall r: nat, i: nat | r in g.owner && 256 <= i < ENTRIES ensures SlotSpace(g, r, i) == SlotSpace(g, kroot, i) {
      assert r == p || r in f.owner;
    }
  }

  /** Roots of `f` are roots of `g`, with the same spaces. */
  ghost predicate SpacesKept(f: Forest, g: Forest) {
    && f.owner.Keys <= g.owner.Keys
    && (forall r: nat, x: nat :: r in f.owner && x < TWO36 ==> SpaceOf(g, r, x) == SpaceOf(f, r, x))
  }

  lemma MapSpaces(f: Forest, g: Forest)
    requires RootsOk(f) && Extends(f, g)
    ensures SpacesKept(f, g)
  {
    forall r: nat, x: nat | r in f.owner && x < TWO36 ensures SpaceOf(g, r, x) == SpaceOf(f, r, x) {
      SameSlots(f, g, r, Index(3, x));
    }
  }

  lemma MapStep(kroot: nat, s: Vm, op: Op)
    requires VmInv(kroot, s) && op.Map? && Legal(s, op)
    ensures kroot in s.forest.owner && kroot in s.forest.mem
    ensures var s' := Step(kroot, s, op);
      VmInv(kroot, s') && SpacesKept(s.forest, s'.forest) && s'.forest.owner == s.forest.owner
  {
    hide Core, Fresh;
    CoreRoots(s.forest);
    RootOnWalk(s.forest, op.root, op.page);
    MapKeepsCore(s.lists, s.forest, op.root, 3, op.page, LeafWord(op.frame, op.flags));
    var s' := Step(kroot, s, op);
    MapKeepsUpper(s.forest, s'.forest, kroot);
    MapSpaces(s.forest, s'.forest);
  }

  /** Mapping changes what exactly the roots of one space see at exactly one page. */
  lemma MapTranslates(kroot: nat, s: Vm, op: Op, r: nat, x: nat)
    requires VmInv(kroot, s) && op.Map? && Legal(s, op) && r in s.forest.owner && x < TWO36
    ensures kroot in s.forest.owner && kroot in s.forest.mem
    ensures Translate(Step(kroot, s, op).forest.mem, r, x) ==
      if x == op.page && SpaceOf(s.forest, r, x) == SpaceOf(s.forest, op.root, x) then Some(op.frame)
      else Translate(s.forest.mem, r, x)
  {
    hide Core, Fresh;
    CoreRoots(s.forest);
    RootOnWalk(s.forest, op.root, op.page);
    RootOnWalk(s.forest, r, x);
    WordFacts(op.frame, op.flags);
    MapLookup(s.lists, s.forest, op.root, 3, op.page, LeafWord(op.frame, op.flags), r, x);
  }

  /** The leaf word of page `x` under root `r` carries exactly the flags `f`. */
  predicate MappedWith(mem: map<nat, seq<nat>>, r: nat, x: nat, f: Flags) {
    match Lookup(mem, r, 3, x)
    case None => false
    case Some(w) => CarriesFlags(w, f)
  }

  /** The flags a caller asks for are the ones read back, under every root of the space; no other word changes. */
  lemma MapStoresFlags(kroot: nat, s: Vm, op: Op, r: nat, x: nat)
    requires VmInv(kroot, s) && op.Map? && Legal(s, op) && r in s.forest.owner && x < TWO36
    ensures kroot in s.forest.owner && kroot in s.forest.mem
    ensures var mem := Step(kroot, s, op).forest.mem;
      if x == op.page && SpaceOf(s.forest, r, x) == SpaceOf(s.forest, op.root, x) then
        MappedWith(mem, r, x, op.flags) && Translate(mem, r, x) == Some(op.frame)
      else Lookup(mem, r, 3, x) == Lookup(s.forest.mem, r, 3, x)
  {
    hide Core, Fresh, CarriesFlags;
    CoreRoots(s.forest);
    RootOnWalk(s.forest, op.root, op.page);
    RootOnWalk(s.forest, r, x);
    WordFacts(op.frame, op.flags);
    WordBits(op.frame, op.flags);
    MapLookup(s.lists, s.forest, op.root, 3, op.page, LeafWord(op.frame, op.flags), r, x);
  }

  lemma UnmapStep(kroot: nat, s: Vm, op: Op)
    requires VmInv(kroot, s) && op.Unmap? && Legal(s, op)
    ensures kroot in s.forest.owner && kroot in s.forest.mem
    ensures var s' := Step(kroot, s, op);
      VmInv(kroot, s') && SpacesKept(s.forest, s'.forest) && s'.forest.owner == s.forest.owner
  {
    hide Core, Fresh, SlotSpace, UnmapWalk, SameTables;
    CoreRoots(s.forest);
    RootOnWalk(s.forest, op.root, op.page);
    UnmapKeepsCore(s.forest, op.root, 3, op.page);
    var g := s.forest.(mem := UnmapWalk(s.forest.mem, op.root, 3, op.page));
    LeafFresh(s.lists, s.forest, g);
    UnmapKeepsUpper(s.forest, g, kroot);
    SameTablesSlots(s.forest, g);
  }

  lemma UnmapTranslates(kroot: nat, s: Vm, op: Op, r: nat, x: nat)
    requires VmInv(kroot, s) && op.Unmap? && Legal(s, op) && r in s.forest.owner && x < TWO36
    ensures kroot in s.forest.owner && kroot in s.forest.mem
    ensures Translate(Step(kroot, s, op).forest.mem, r, x) ==
      if x == op.page && SpaceOf(s.forest, r, x) == SpaceOf(s.forest, op.root, x) then None
      else Translate(s.forest.mem, r, x)
  {
    hide Core, Fresh;
    CoreRoots(s.forest);
    RootOnWalk(s.forest, op.root, op.page);
    RootOnWalk(s.forest, r, x);
    UnmapLookup(s.forest, op.root, 3, op.page, r, x);
  }

  lemma FreshPage(l: Lists, f: Forest)
    requires Core(f) && Fresh(l, f) && AllocSpec(l, 0).1.Some?
    ensures var (l1, p) := (AllocSpec(l, 0).0, AllocSpec(l, 0).1.value);
      && p !in f.tags && p < TWO51
      && Inv(l1) && FreeSet(l) == FreeSet(l1) + iset{p} && p !in FreeSet(l1)
  {
    hide Core, Inv, FreeSet;
    AllocPage(l);
    CoreKeys(f);
    assert AllocSpec(l, 0).1.value in FreeSet(l);
  }

  lemma CopyFresh(l: Lists, f: Forest, kroot: nat)
    requires Core(f) && Fresh(l, f) && AllocSpec(l, 0).1.Some? && kroot in f.owner && kroot in f.mem
    ensures Fresh(AllocSpec(l, 0).0, CopyRoot(f, kroot, AllocSpec(l, 0).1.value))
  {
    hide Core, Inv, FreeSet;
    FreshPage(l, f);
  }

  lemma NewTableStep(kroot: nat, s: Vm)
    requires VmInv(kroot, s) && Legal(s, NewTable)
    ensures kroot in s.forest.owner && kroot in s.forest.mem
    ensures var s' := Step(kroot, s, NewTable); var p := AllocSpec(s.lists, 0).1.value;
      && VmInv(kroot, s') && SpacesKept(s.forest, s'.forest)
      && Copied(s.forest, s'.forest, kroot, p)
  {
    hide Core, Fresh;
    CoreRoots(s.forest);
    FreshPage(s.lists, s.forest);
    var p := AllocSpec(s.lists, 0).1.value;
    CopyCore(s.forest, kroot, p);
    CopyFresh(s.lists, s.forest, kroot);
    CopyKeepsUpper(s.forest, Step(kroot, s, NewTable).forest, kroot, p);
  }

  /** A new table starts with the kernel's translations and changes nobody else's. */
  lemma NewTableTranslates(kroot: nat, s: Vm, r: nat, x: nat)
    requires VmInv(kroot, s) && Legal(s, NewTable) && x < TWO36
    ensures kroot in s.forest.owner && kroot in s.forest.mem
    ensures var s' := Step(kroot, s, NewTable); var p := AllocSpec(s.lists, 0).1.value;
      && Translate(s'.forest.mem, p, x) == Translate(s.forest.mem, kroot, x)
      && (r in s.forest.owner ==> Translate(s'.forest.mem, r, x) == Translate(s.forest.mem, r, x))
  {
    hide Core, Fresh;
    NewTableStep(kroot, s);
    CoreRoots(s.forest);
    CoreEdges(s.forest);
    var s', p := Step(kroot, s, NewTable), AllocSpec(s.lists, 0).1.value;
    RootOnWalk(s.forest, kroot, x);
    CopyLookupNew(s.forest, s'.forest, kroot, p, x);
    if r in s.forest.owner {
      RootOnWalk(s.forest, r, x);
      CopyLookup(s.forest, s'.forest, kroot, p, r, 3, x);
    }
  }

  /* ---- runs ---- */

  /** Every operation keeps the tables a forest, the free pages apart and the upper half shared. */
  lemma StepKeepsVm(kroot: nat, s: Vm, op: Op)
    requires VmInv(kroot, s) && Legal(s, op)
    ensures kroot in s.forest.owner && kroot in s.forest.mem
    ensures VmInv(kroot, Step(kroot, s, op)) && SpacesKept(s.forest, Step(kroot, s, op).forest)
  {
    hide VmInv;
    match op
    case Map(_, _, _, _) => MapStep(kroot, s, op);
    case Unmap(_, _) => UnmapStep(kroot, s, op);
    case NewTable => NewTableStep(kroot, s);
  }

  ghost predicate LegalRun(kroot: nat, s: Vm, ops: seq<Op>)
    requires VmInv(kroot, s)
    decreases |ops|
  {
    ops == [] || (Legal(s, ops[0]) && (StepKeepsVm(kroot, s, ops[0]); LegalRun(kroot, Step(kroot, s, ops[0]), ops[1..])))
  }

  ghost function Run(kroot: nat, s: Vm, ops: seq<Op>): Vm
    requires VmInv(kroot, s) && LegalRun(kroot, s, ops)
    decreases |ops|
  {
    if ops == [] then s
    else
      StepKeepsVm(kroot, s, ops[0]);
      Run(kroot, Step(kroot, s, ops[0]), ops[1..])
  }

  ghost function AbsRun(kroot: nat, s: Vm, a: Spaces, ops: seq<Op>): Spaces
    requires VmInv(kroot, s) && LegalRun(kroot, s, ops)
    decreases |ops|
  {
    if ops == [] then a
    else
      StepKeepsVm(kroot, s, ops[0]);
      AbsRun(kroot, Step(kroot, s, ops[0]), AbsStep(s, a, ops[0]), ops[1..])
  }

  lemma {:induction false} RunKeepsVm(kroot: nat, s: Vm, ops: seq<Op>)
    requires VmInv(kroot, s) && LegalRun(kroot, s, ops)
    ensures VmInv(kroot, Run(kroot, s, ops)) && SpacesKept(s.forest, Run(kroot, s, ops).forest)
    decreases |ops|
  {
    hide VmInv;
    if ops == [] {
    } else {
      StepKeepsVm(kroot, s, ops[0]);
      RunKeepsVm(kroot, Step(kroot, s, ops[0]), ops[1..]);
    }
  }

  /** One step of the tables is one step of the partial maps. */
  lemma StepRefinesAt(kroot: nat, s: Vm, a: Spaces, op: Op, r: nat, x: nat)
    requires VmInv(kroot, s) && Legal(s, op) && Refines(s.forest, a) && x < TWO36
    requires kroot in s.forest.owner && kroot in s.forest.mem && r in Step(kroot, s, op).forest.owner
    ensures RefinesAt(Step(kroot, s, op).forest, AbsStep(s, a, op), r, x)
  {
    hide Core, Fresh, Upper, Translate;
    var s' := Step(kroot, s, op);
    StepKeepsVm(kroot, s, op);
    assert r in s.forest.owner ==> RefinesAt(s.forest, a, r, x);
    match op
    case Map(_, _, _, _) =>
      MapStep(kroot, s, op);
      MapTranslates(kroot, s, op, r, x);
    case Unmap(_, _) =>
      UnmapStep(kroot, s, op);
      UnmapTranslates(kroot, s, op, r, x);
    case NewTable =>
      NewTableStep(kroot, s);
      NewTableTranslates(kroot, s, r, x);
      assert RefinesAt(s.forest, a, kroot, x);
      if r !in s.forest.owner {
        NewSpaceIsEmpty(s.forest, s'.forest, a, kroot, r, x);
      }
  }

  /** A slot the kernel root lacks becomes a space of the new root's own, where nothing is mapped. */
  lemma NewSpaceIsEmpty(f: Forest, g: Forest, a: Spaces, kroot: nat, p: nat, x: nat)
    requires Copied(f, g, kroot, p) && x < TWO36 && RefinesAt(f, a, kroot, x) && (forall k :: k in a ==> k.0 in f.owner)
    requires Translate(g.mem, p, x) == Translate(f.mem, kroot, x)
    ensures RefinesAt(g, a, p, x)
  {
    IndexBound(3, x);
  }

  lemma AbsKeysAreSpaces(kroot: nat, s: Vm, a: Spaces, op: Op)
    requires VmInv(kroot, s) && Legal(s, op) && (forall k :: k in a ==> k.0 in s.forest.owner)
    requires kroot in s.forest.owner && kroot in s.forest.mem
    ensures forall k :: k in AbsStep(s, a, op) ==> k.0 in Step(kroot, s, op).forest.owner
  {
    hide Core, Fresh, Upper;
    StepKeepsVm(kroot, s, op);
    if op.Map? {
      SpaceIsRoot(s.forest, op.root, op.page);
    }
  }

  lemma StepRefines(kroot: nat, s: Vm, a: Spaces, op: Op)
    requires VmInv(kroot, s) && Legal(s, op) && Refines(s.forest, a)
    ensures kroot in s.forest.owner && kroot in s.forest.mem
    ensures Refines(Step(kroot, s, op).forest, AbsStep(s, a, op))
  {
    hide VmInv, RefinesAt, AbsStep;
    StepKeepsVm(kroot, s, op);
    AbsKeysAreSpaces(kroot, s, a, op);
    forall r: nat, x: nat | r in Step(kroot, s, op).forest.owner && x < TWO36
      ensures RefinesAt(Step(kroot, s, op).forest, AbsStep(s, a, op), r, x)
    {
      StepRefinesAt(kroot, s, a, op, r, x);
    }
  }

  /**
   Page-table refinement: after any run every root translates every page to the
   frame last mapped there in its space, or to nothing.
   */
  lemma {:induction false} RunRefines(kroot: nat, s: Vm, a: Spaces, ops: seq<Op>)
    requires VmInv(kroot, s) && LegalRun(kroot, s, ops) && Refines(s.forest, a)
    ensures Refines(Run(kroot, s, ops).forest, AbsRun(kroot, s, a, ops))
    decreases |ops|
  {
    hide VmInv, Refines, AbsStep;
    if ops == [] {
    } else {
      StepKeepsVm(kroot, s, ops[0]);
      StepRefines(kroot, s, a, ops[0]);
      RunRefines(kroot, Step(kroot, s, ops[0]), AbsStep(s, a, ops[0]), ops[1..]);
    }
  }

  /* ---- what a forest means ---- */

  /** Some root whose space at page `x` is `a` translates it. */
  ghost predicate Mapped(f: Forest, a: nat, x: nat) {
    exists r: nat :: MappedThrough(f, r, a, x)
  }

  ghost predicate MappedThrough(f: Forest, r: nat, a: nat, x: nat) {
    r in f.owner && SpaceOf(f, r, x) == a && Translate(f.mem, r, x).Some?
  }

  ghost function MappedFrame(f: Forest, a: nat, x: nat): nat
    requires Mapped(f, a, x)
  {
    var r: nat :| MappedThrough(f, r, a, x);
    Translate(f.mem, r, x).value
  }

  /** The partial map of every space. */
  ghost function Meaning(f: Forest): Spaces {
    map a, x | a in f.owner.Keys && 0 <= x < TWO36 && Mapped(f, a, x) :: (a, x) := MappedFrame(f, a, x)
  }

  /** Every forest is refined by its meaning. */
  lemma ForestRefinesMeaning(f: Forest)
    requires Core(f)
    ensures Refines(f, Meaning(f))
  {
    hide Core, Translate, SpaceOf;
    forall r: nat, x: nat | r in f.owner && x < TWO36 ensures RefinesAt(f, Meaning(f), r, x) {
      MeaningAt(f, r, x);
    }
  }

  lemma MeaningAt(f: Forest, r: nat, x: nat)
    requires Core(f) && r in f.owner && x < TWO36
    ensures RefinesAt(f, Meaning(f), r, x)
  {
    hide Core, Translate, SpaceOf;
    SpaceIsRoot(f, r, x);
    var a := SpaceOf(f, r, x);
    if Mapped(f, a, x) {
      var s: nat :| MappedThrough(f, s, a, x) && MappedFrame(f, a, x) == Translate(f.mem, s, x).value;
      SameSpaceSameFrame(f, r, s, x);
    } else {
      assert !MappedThrough(f, r, a, x);
    }
  }

  /**
   From any state of the tables at all, a run leads every root to translate
   every page to the frame last mapped in its space, or else to what the space
   held at the start.
   */
  lemma RunsRefineMeaning(kroot: nat, s: Vm, ops: seq<Op>)
    requires VmInv(kroot, s) && LegalRun(kroot, s, ops)
    ensures Refines(Run(kroot, s, ops).forest, AbsRun(kroot, s, Meaning(s.forest), ops))
  {
    hide Refines, Meaning;
    ForestRefinesMeaning(s.forest);
    RunRefines(kroot, s, Meaning(s.forest), ops);
  }

  /** Kernel-half coherence: in every reachable state all roots agree on all higher-half pages. */
  lemma KernelHalfCoherent(kroot: nat, s: Vm, ops: seq<Op>, r: nat, x: nat)
    requires VmInv(kroot, s) && LegalRun(kroot, s, ops)
    requires r in Run(kroot, s, ops).forest.owner && x < TWO36 && InUpperHalf(x)
    ensures Translate(Run(kroot, s, ops).forest.mem, r, x) == Translate(Run(kroot, s, ops).forest.mem, kroot, x)
  {
    hide Core, Fresh, Run, LegalRun;
    RunKeepsVm(kroot, s, ops);
    IndexBound(3, x);
    SameSpaceSameFrame(Run(kroot, s, ops).forest, r, kroot, x);
  }

  /* ---- privacy of the lower half ---- */

  /** The kernel root maps nothing below the middle, and no two roots share a space there. */
  ghost predicate LowerPrivate(f: Forest, kroot: nat) {
    && (forall i: nat :: i < 256 ==> !Present(Entry(f.mem, kroot, i)))
    && (forall r: nat, s: nat, i: nat :: r in f.owner && s in f.owner && r != s && i < 256 ==> SlotSpace(f, r, i) != SlotSpace(f, s, i))
  }

  /** The kernel root is used for higher-half mappings only. */
  predicate KernelMapsHigh(kroot: nat, op: Op) {
    op.Map? && op.root == kroot ==> InUpperHalf(op.page)
  }

  /** A map changes at most one slot of one root. */
  lemma MapRootRows(l: Lists, f: Forest, t: nat, v: nat, word: nat, u: nat, j: nat)
    requires Core(f) && Fresh(l, f) && t in f.owner && v < TWO36 && u in f.owner && !(u == t && j == Index(3, v))
    requires MapWalk(l, f, t, 3, v, word).Some?
    ensures Entry(MapWalk(l, f, t, 3, v, word).value.1.mem, u, j) == Entry(f.mem, u, j)
  {
    hide Core, Fresh, MapWalk;
    CoreRoots(f);
    RootOnWalk(f, t, v);
    var (l1, g) := Grown(l, f, t, 3, v);
    GrowStep(l, f, t, 3, v, word);
    GrowDescend(l, f, t, 3, v, word);
    if !Present(Entry(f.mem, t, Index(3, v))) {
      GrowPages(l, f, t, 3, v);
    }
    MapKeepsCore(l1, g, FrameOf(Entry(g.mem, t, Index(3, v))), 2, v, word);
    assert u in g.tags && g.tags[u].level == 3;
  }

  lemma MapKeepsPrivate(kroot: nat, l: Lists, f: Forest, r: nat, x: nat, word: nat)
    requires Core(f) && Fresh(l, f) && r in f.owner && x < TWO36 && MapWalk(l, f, r, 3, x, word).Some?
    requires LowerPrivate(f, kroot) && kroot in f.owner && (r == kroot ==> InUpperHalf(x))
    ensures LowerPrivate(MapWalk(l, f, r, 3, x, word).value.1, kroot)
  {
    hide Core, Fresh, MapWalk, SlotSpace, Entry;
    var g := MapWalk(l, f, r, 3, x, word).value.1;
    CoreRoots(f);
    RootOnWalk(f, r, x);
    MapKeepsCore(l, f, r, 3, x, word);
    forall i: nat | i < 256 ensures !Present(Entry(g.mem, kroot, i)) {
      MapRootRows(l, f, r, x, word, kroot, i);
    }
    RootSlotsKept(f, g);
  }

  lemma UnmapKeepsPrivate(kroot: nat, f: Forest, r: nat, x: nat)
    requires Core(f) && r in f.owner && x < TWO36 && LowerPrivate(f, kroot) && kroot in f.owner
    ensures LowerPrivate(f.(mem := UnmapWalk(f.mem, r, 3, x)), kroot)
  {
    hide Core, UnmapWalk, SlotSpace;
    CoreRoots(f);
    RootOnWalk(f, r, x);
    UnmapKeepsCore(f, r, 3, x);
    SameTablesSlots(f, f.(mem := UnmapWalk(f.mem, r, 3, x)));
  }

  lemma StepKeepsPrivate(kroot: nat, s: Vm, op: Op)
    requires VmInv(kroot, s) && Legal(s, op) && LowerPrivate(s.forest, kroot) && KernelMapsHigh(kroot, op)
    ensures kroot in s.forest.owner && kroot in s.forest.mem
    ensures LowerPrivate(Step(kroot, s, op).forest, kroot)
  {
    hide Core, Fresh, MapWalk, UnmapWalk, LowerPrivate, Upper;
    StepKeepsVm(kroot, s, op);
    match op
    case Map(r, x, frame, flags) => MapKeepsPrivate(kroot, s.lists, s.forest, r, x, LeafWord(frame, flags));
    case Unmap(r, x) => UnmapKeepsPrivate(kroot, s.forest, r, x);
    case NewTable =>
      NewTableStep(kroot, s);
      CoreRoots(s.forest);
      CopyKeepsPrivate(s.forest, Step(kroot, s, op).forest, kroot, AllocSpec(s.lists, 0).1.value);
  }

  lemma RootSlotsKept(f: Forest, g: Forest)
    requires RootsOk(f) && Extends(f, g)
    ensures forall r: nat, i: nat :: r in f.owner ==> SlotSpace(g, r, i) == SlotSpace(f, r, i)
  {
    forall r: nat, i: nat | r in f.owner ensures SlotSpace(g, r, i) == SlotSpace(f, r, i) {
      SameSlots(f, g, r, i);
    }
  }

  lemma CopyKeepsPrivate(f: Forest, g: Forest, kroot: nat, p: nat)
    requires RootsOk(f) && LowerPrivate(f, kroot) && Copied(f, g, kroot, p)
    ensures LowerPrivate(g, kroot)
  {
    forall r: nat, s: nat, i: nat | r in g.owner && s in g.owner && r != s && i < 256
      ensures SlotSpace(g, r, i) != SlotSpace(g, s, i)
    {
      assert r in f.owner ==> SlotSpace(f, r, i) in f.owner;
      assert s in f.owner ==> SlotSpace(f, s, i) in f.owner;
    }
  }

  ghost predicate KernelMapsHighRun(kroot: nat, ops: seq<Op>) {
    forall i :: 0 <= i < |ops| ==> KernelMapsHigh(kroot, ops[i])
  }

  lemma {:induction false} RunKeepsPrivate(kroot: nat, s: Vm, ops: seq<Op>)
    requires VmInv(kroot, s) && LegalRun(kroot, s, ops) && LowerPrivate(s.forest, kroot) && KernelMapsHighRun(kroot, ops)
    ensures LowerPrivate(Run(kroot, s, ops).forest, kroot)
    decreases |ops|
  {
    hide VmInv, LowerPrivate;
    if ops == [] {
    } else {
      StepKeepsVm(kroot, s, ops[0]);
      StepKeepsPrivate(kroot, s, ops[0]);
      RunKeepsPrivate(kroot, Step(kroot, s, ops[0]), ops[1..]);
    }
  }

  /** Two roots, the kernel's without lower slots, share no lower space. */
  lemma TwoRootsArePrivate(f: Forest, boot: nat, kroot: nat)
    requires Core(f) && f.owner.Keys == {boot, kroot} && forall i: nat :: i < 256 ==> !Present(Entry(f.mem, kroot, i))
    ensures LowerPrivate(f, kroot)
  {
    hide Core, SlotSpace, Entry, Present;
    forall r: nat, s: nat, i: nat | r in f.owner && s in f.owner && r != s && i < 256
      ensures SlotSpace(f, r, i) != SlotSpace(f, s, i)
    {
      assert r in f.owner.Keys && s in f.owner.Keys;
      NotShared(f, r, s, i);
    }
  }

  lemma NotShared(f: Forest, r: nat, s: nat, i: nat)
    requires Core(f) && r in f.owner && s in f.owner && r != s && i < ENTRIES
    requires !Present(Entry(f.mem, r, i)) || !Present(Entry(f.mem, s, i))
    ensures SlotSpace(f, r, i) != SlotSpace(f, s, i)
  {
    hide Core, SlotSpace, Entry, Present;
    CoreSharing(f);
  }

  lemma CoreSharing(f: Forest)
    requires Core(f)
    ensures Sharing(f)
  {
  }

  /**
   From the state the kernel boots into, and while it maps no lower page itself,
   mapping or unmapping one through a table is invisible in all others.
   */
  lemma LowerHalfIsPrivate(kroot: nat, boot: nat, s: Vm, ops: seq<Op>, op: Op, other: nat, x: nat)
    requires VmInv(kroot, s) && LegalRun(kroot, s, ops) && KernelMapsHighRun(kroot, ops)
    requires s.forest.owner.Keys == {boot, kroot} && forall i: nat :: i < 256 ==> !Present(Entry(s.forest.mem, kroot, i))
    requires var s1 := Run(kroot, s, ops);
      && Legal(s1, op) && (op.Map? || op.Unmap?) && !InUpperHalf(op.page)
      && other in s1.forest.owner && other != op.root && x < TWO36
    ensures var s1 := Run(kroot, s, ops);
      && kroot in s1.forest.owner && kroot in s1.forest.mem
      && Translate(Step(kroot, s1, op).forest.mem, other, x) == Translate(s1.forest.mem, other, x)
  {
    hide Core, LowerPrivate, Run, LegalRun, Legal, Step;
    TwoRootsArePrivate(s.forest, boot, kroot);
    PrivateSpacesStayPrivate(kroot, s, ops, op, other, x);
  }

  /** The same from any state in which no two roots share a lower space. */
  lemma PrivateSpacesStayPrivate(kroot: nat, s: Vm, ops: seq<Op>, op: Op, other: nat, x: nat)
    requires VmInv(kroot, s) && LegalRun(kroot, s, ops) && LowerPrivate(s.forest, kroot) && KernelMapsHighRun(kroot, ops)
    requires var s1 := Run(kroot, s, ops);
      && Legal(s1, op) && (op.Map? || op.Unmap?) && !InUpperHalf(op.page)
      && other in s1.forest.owner && other != op.root && x < TWO36
    ensures var s1 := Run(kroot, s, ops);
      && kroot in s1.forest.owner && kroot in s1.forest.mem
      && Translate(Step(kroot, s1, op).forest.mem, other, x) == Translate(s1.forest.mem, other, x)
  {
    hide VmInv, Run, LegalRun, Translate, SlotSpace;
    var s1 := Run(kroot, s, ops);
    RunKeepsVm(kroot, s, ops);
    RunKeepsPrivate(kroot, s, ops);
    StepKeepsVm(kroot, s1, op);
    if op.Map? {
      MapTranslates(kroot, s1, op, other, x);
    } else {
      UnmapTranslates(kroot, s1, op, other, x);
    }
  }
}
