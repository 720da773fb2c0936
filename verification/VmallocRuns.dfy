/**
 The arena over whole runs: vmalloc whether it is served or not, vfree, table
 creation, and other users of the same buddy, in any order.

 `others` are the pages those users hold; `lost` are the frames that unserved
 calls took, which no call gives back.
 */
module VmallocRuns {
  import opened Collections
  import opened Bits
  import opened BuddySpec
  import opened BuddyTheorems
  import opened BuddyRuns
  import opened PageTable
  import opened PageForest
  import opened PageRuns
  import opened VmRanges
  import opened VmallocSpec
  import opened VmallocTheorems

  datatype World = World(k: Kernel, others: iset<nat>, lost: iset<nat>)

  ghost function TablePages(f: Forest): iset<nat> {
    iset t: nat | t in f.mem
  }

  ghost function UsedFrames(kroot: nat, k: Kernel): iset<nat> {
    Frames(kroot, k.vm, UsedPages(k.ranges))
  }

  /** Five kinds of pages that share none and make up `total`. */
  ghost predicate Ledger(total: iset<nat>, free: iset<nat>, tables: iset<nat>, used: iset<nat>, others: iset<nat>, lost: iset<nat>) {
    && total == free + tables + used + others + lost
    && free !! tables && free !! used && free !! others && free !! lost
    && tables !! used && tables !! others && tables !! lost
    && used !! others && used !! lost && others !! lost
  }

  ghost predicate Booked(kroot: nat, w: World, total: iset<nat>) {
    Ledger(total, FreeSet(w.k.vm.lists), TablePages(w.k.vm.forest), UsedFrames(kroot, w.k), w.others, w.lost)
  }

  /** The arena is sound and every page of `total` is accounted for. */
  ghost predicate WorldInv(kroot: nat, w: World, zone: iset<nat>, total: iset<nat>) {
    KernelInv(kroot, w.k, zone) && w.others <= zone && Booked(kroot, w, total)
  }

  datatype KernelOp =
    | DoVmalloc(size: nat, flags: Flags)
    | DoVfree(addr: nat, cr3: nat)
    | DoNewTable
    | OtherAlloc(order: nat)
    | OtherFree(page: nat, order: nat)

  /** The buddy does not run dry, no range is freed twice, CR3 is a root, others free aligned blocks they hold. */
  ghost predicate LegalOp(kroot: nat, w: World, op: KernelOp) {
    match op
    case DoVmalloc(size, flags) => Vmalloc(kroot, w.k, size, flags).Some?
    case DoVfree(addr, cr3) => cr3 in w.k.vm.forest.owner && (InUseStart(w.k.ranges, addr) || !Starts(w.k.ranges, addr))
    case DoNewTable => AllocSpec(w.k.vm.lists, 0).1.Some? && kroot in w.k.vm.forest.owner && kroot in w.k.vm.forest.mem
    case OtherAlloc(o) => o <= MAX_ORDER
    case OtherFree(p, o) => o <= MAX_ORDER && Aligned(p, o) && Block(p, o) <= w.others
  }

  ghost function WithLists(k: Kernel, l: Lists): Kernel {
    k.(vm := k.vm.(lists := l))
  }

  ghost function StepKernel(kroot: nat, w: World, op: KernelOp): World
    requires LegalOp(kroot, w, op)
  {
    match op
    case DoVmalloc(size, flags) =>
      var k' := Vmalloc(kroot, w.k, size, flags).value.0;
      w.(k := k', lost := if Fits(w.k.ranges, size) then w.lost else w.lost + Frames(kroot, k'.vm, MappedBy(0, size)))
    case DoVfree(addr, cr3) => w.(k := Vfree(kroot, w.k, cr3, addr))
    case DoNewTable => w.(k := w.k.(vm := PageRuns.Step(kroot, w.k.vm, NewTable)))
    case OtherAlloc(o) =>
      var (l, p) := AllocSpec(w.k.vm.lists, o);
      w.(k := WithLists(w.k, l), others := if p.Some? then w.others + Block(p.value, o) else w.others)
    case OtherFree(p, o) =>
      w.(k := WithLists(w.k, FreeSpec(w.k.vm.lists, p, o)), others := w.others - Block(p, o))
  }

  /* ---- frames behind pages ---- */

  lemma SameFrames(kroot: nat, s: Vm, s': Vm, pages: iset<nat>, changed: iset<nat>)
    requires SameOutside(kroot, s, s', changed) && pages !! changed && forall v :: v in pages ==> v < TWO36
    ensures Frames(kroot, s', pages) == Frames(kroot, s, pages)
  {
    hide Translate;
    forall p: nat ensures FrameOfPage(kroot, s', pages, p) <==> FrameOfPage(kroot, s, pages, p) {
    }
  }

  lemma FramesOfBoth(kroot: nat, s: Vm, a: iset<nat>, b: iset<nat>)
    ensures Frames(kroot, s, a + b) == Frames(kroot, s, a) + Frames(kroot, s, b)
  {
    hide Translate;
    forall p: nat ensures FrameOfPage(kroot, s, a + b, p) <==> FrameOfPage(kroot, s, a, p) || FrameOfPage(kroot, s, b, p) {
      if FrameOfPage(kroot, s, a, p) {
        var v: nat :| v in a && Translate(s.forest.mem, kroot, v) == Some(p);
        assert v in a + b;
      }
      if FrameOfPage(kroot, s, b, p) {
        var v: nat :| v in b && Translate(s.forest.mem, kroot, v) == Some(p);
        assert v in a + b;
      }
    }
  }

  /** Pages backed by frames of their own: fewer pages have exactly the other frames. */
  lemma FramesWithout(kroot: nat, s: Vm, a: iset<nat>, gone: iset<nat>, zone: iset<nat>)
    requires Backed(kroot, s, a, zone) && gone <= a
    ensures Frames(kroot, s, a - gone) == Frames(kroot, s, a) - Frames(kroot, s, gone) && Frames(kroot, s, gone) <= Frames(kroot, s, a)
  {
    hide Translate, FreeSet;
    forall p: nat
      ensures FrameOfPage(kroot, s, a - gone, p) <==> FrameOfPage(kroot, s, a, p) && !FrameOfPage(kroot, s, gone, p)
      ensures FrameOfPage(kroot, s, gone, p) ==> FrameOfPage(kroot, s, a, p)
    {
      if FrameOfPage(kroot, s, a, p) && !FrameOfPage(kroot, s, gone, p) {
        var v: nat :| v in a && Translate(s.forest.mem, kroot, v) == Some(p);
        assert v in a - gone;
      }
    }
  }

  /* ---- one step ---- */

  lemma LedgerTake(total: iset<nat>, free: iset<nat>, tables: iset<nat>, used: iset<nat>, others: iset<nat>, lost: iset<nat>,
                   free': iset<nat>, tables': iset<nat>, frames: iset<nat>)
    requires Ledger(total, free, tables, used, others, lost)
    requires free == free' + tables' + frames && free' !! tables' && frames !! free' && frames !! tables'
    ensures Ledger(total, free', tables + tables', used + frames, others, lost)
    ensures Ledger(total, free', tables + tables', used, others, lost + frames)
    ensures tables' == iset{} ==> Ledger(total, free', tables, used, others + frames, lost)
  {
  }

  lemma LedgerGiveBack(total: iset<nat>, free: iset<nat>, tables: iset<nat>, used: iset<nat>, others: iset<nat>, lost: iset<nat>,
                       frames: iset<nat>)
    requires Ledger(total, free, tables, used, others, lost)
    ensures frames <= used ==> Ledger(total, free + frames, tables, used - frames, others, lost)
    ensures frames <= others ==> Ledger(total, free + frames, tables, used, others - frames, lost)
  {
  }

  lemma UsedPagesLow(kroot: nat, k: Kernel, zone: iset<nat>)
    requires KernelInv(kroot, k, zone)
    ensures forall v :: v in UsedPages(k.ranges) ==> v < TWO36
    ensures Backed(kroot, k.vm, UsedPages(k.ranges), zone) && VmInv(kroot, k.vm) && Tiles(k.ranges, VMALLOC_START, VMALLOC_END)
  {
    hide Core, Translate, FreeSet;
  }

  lemma GrownTables(f: Forest, g: Forest)
    requires f.mem.Keys <= g.mem.Keys
    ensures TablePages(g) == TablePages(f) + NewTables(f, g)
  {
    assert forall t :: t in f.mem ==> t in g.mem.Keys;
  }

  lemma OneNewTable(f: Forest, g: Forest, p: nat)
    requires g.mem.Keys == f.mem.Keys + {p} && p !in f.mem
    ensures NewTables(f, g) == iset{p}
  {
    assert forall t: nat :: t in g.mem.Keys <==> t in f.mem.Keys || t == p;
  }

  lemma SameTablePages(f: Forest, g: Forest)
    requires f.mem.Keys == g.mem.Keys
    ensures TablePages(g) == TablePages(f)
  {
    assert forall t: nat :: t in f.mem <==> t in g.mem.Keys;
  }

  lemma VmallocKeepsWorld(kroot: nat, w: World, size: nat, flags: Flags, zone: iset<nat>, total: iset<nat>)
    requires WorldInv(kroot, w, zone, total) && LegalOp(kroot, w, DoVmalloc(size, flags))
    ensures WorldInv(kroot, StepKernel(kroot, w, DoVmalloc(size, flags)), zone, total)
  {
    hide KernelInv, Vmalloc, Frames, FreeSet, UsedPages, Fits, Ledger, TablePages, NewTables, Granted, SameOutside, MappedBy;
    var k := w.k;
    var (k', addr) := Vmalloc(kroot, k, size, flags).value;
    VmallocConserves(kroot, k, size, flags, zone);
    UsedPagesLow(kroot, k, zone);
    var pages, new' := UsedPages(k.ranges), MappedBy(addr, size);
    SameFrames(kroot, k.vm, k'.vm, pages, new');
    FramesOfBoth(kroot, k'.vm, pages, new');
    GrownTables(k.vm.forest, k'.vm.forest);
    FramesNotTables(k.vm.forest, k'.vm.forest, Frames(kroot, k'.vm, new'));
    LedgerTake(total, FreeSet(k.vm.lists), TablePages(k.vm.forest), UsedFrames(kroot, k), w.others, w.lost,
               FreeSet(k'.vm.lists), NewTables(k.vm.forest, k'.vm.forest), Frames(kroot, k'.vm, new'));
    NothingAsked(kroot, k, k', addr, size);
  }

  lemma FramesNotTables(f: Forest, g: Forest, frames: iset<nat>)
    requires forall p :: p in frames ==> p !in g.mem
    ensures frames !! NewTables(f, g)
  {
  }

  /** A call that asks for no page maps none. */
  lemma NothingAsked(kroot: nat, k: Kernel, k': Kernel, addr: nat, size: nat)
    ensures PageCount(size) == 0 ==> Fits(k.ranges, size) && MappedBy(addr, size) == iset{} && Frames(kroot, k'.vm, MappedBy(addr, size)) == iset{}
  {
  }

  lemma VfreeKeepsWorld(kroot: nat, w: World, addr: nat, cr3: nat, zone: iset<nat>, total: iset<nat>)
    requires WorldInv(kroot, w, zone, total) && LegalOp(kroot, w, DoVfree(addr, cr3))
    ensures WorldInv(kroot, StepKernel(kroot, w, DoVfree(addr, cr3)), zone, total)
  {
    hide KernelInv, Vfree, Frames, FreeSet, UsedPages, Ledger, TablePages, SameOutside, Backed, Tiles;
    var k := w.k;
    if !Starts(k.ranges, addr) {
      ReleaseNowhere(k.ranges, addr);
      NothingFreed(kroot, k, cr3, addr);
    } else {
      var r :| r in k.ranges && r.inUse && r.addr == addr;
      assert r == Range(addr, r.size, true);
      var k', gone := Vfree(kroot, k, cr3, addr), Interval(Vpn(addr), r.size / PAGE_SIZE);
      VfreeConserves(kroot, k, cr3, addr, r.size, zone);
      UsedPagesLow(kroot, k, zone);
      ReleasedPages(k.ranges, addr, r.size);
      var pages := UsedPages(k.ranges);
      SameFrames(kroot, k.vm, k'.vm, pages - gone, gone);
      FramesWithout(kroot, k.vm, pages, gone, zone);
      SameTablePages(k.vm.forest, k'.vm.forest);
      LedgerGiveBack(total, FreeSet(k.vm.lists), TablePages(k.vm.forest), UsedFrames(kroot, k), w.others, w.lost,
                     Frames(kroot, k.vm, gone));
    }
  }

  lemma NothingFreed(kroot: nat, k: Kernel, cr3: nat, addr: nat)
    requires ReleaseRange(k.ranges, addr) == (k.ranges, None)
    ensures Vfree(kroot, k, cr3, addr) == k
  {
  }

  /** A new root table: one free page becomes a table, the kernel root translates as before. */
  lemma NewTableStepEffect(kroot: nat, s: Vm)
    requires VmInv(kroot, s) && AllocSpec(s.lists, 0).1.Some? && kroot in s.forest.owner && kroot in s.forest.mem
    ensures var s', p := PageRuns.Step(kroot, s, NewTable), AllocSpec(s.lists, 0).1.value;
      && VmInv(kroot, s') && SameOutside(kroot, s, s', iset{})
      && FreeSet(s.lists) == FreeSet(s'.lists) + iset{p} && p !in FreeSet(s'.lists)
      && p in FreeSet(s.lists) && p !in s.forest.mem && s'.forest.mem.Keys == s.forest.mem.Keys + {p}
  {
    hide Core, Fresh, Upper, Translate, FreeSet, Inv;
    NewTableStep(kroot, s);
    AllocKeepsVm(kroot, s);
    forall v: nat | v < TWO36
      ensures Translate(PageRuns.Step(kroot, s, NewTable).forest.mem, kroot, v) == Translate(s.forest.mem, kroot, v)
    {
      NewTableTranslates(kroot, s, kroot, v);
    }
  }

  lemma NewTableKeepsKernel(kroot: nat, k: Kernel, s': Vm, p: nat, zone: iset<nat>)
    requires KernelInv(kroot, k, zone) && VmInv(kroot, s') && SameOutside(kroot, k.vm, s', iset{})
    requires FreeSet(k.vm.lists) == FreeSet(s'.lists) + iset{p} && s'.forest.mem.Keys == k.vm.forest.mem.Keys + {p}
    requires p in FreeSet(k.vm.lists)
    ensures KernelInv(kroot, k.(vm := s'), zone)
  {
    hide VmInv, Translate, FreeSet;
    forall q | q in s'.forest.mem ensures q == p || q in k.vm.forest.mem {
      assert q in s'.forest.mem.Keys;
    }
    forall v: nat | v < TWO36 ensures Translate(s'.forest.mem, kroot, v) == Translate(k.vm.forest.mem, kroot, v) {
    }
  }

  lemma NewTableKeepsWorld(kroot: nat, w: World, zone: iset<nat>, total: iset<nat>)
    requires WorldInv(kroot, w, zone, total) && LegalOp(kroot, w, DoNewTable)
    ensures WorldInv(kroot, StepKernel(kroot, w, DoNewTable), zone, total)
  {
    hide KernelInv, VmInv, PageRuns.Step, FreeSet, Inv, Ledger, Frames, TablePages, SameOutside, UsedPages, AllocSpec;
    var s := w.k.vm;
    var s', p := PageRuns.Step(kroot, s, NewTable), AllocSpec(s.lists, 0).1.value;
    UsedPagesLow(kroot, w.k, zone);
    NewTableStepEffect(kroot, s);
    NewTableKeepsKernel(kroot, w.k, s', p, zone);
    SameFrames(kroot, s, s', UsedPages(w.k.ranges), iset{});
    GrownTables(s.forest, s'.forest);
    OneNewTable(s.forest, s'.forest, p);
    LedgerTake(total, FreeSet(s.lists), TablePages(s.forest), UsedFrames(kroot, w.k), w.others, w.lost,
               FreeSet(s'.lists), iset{p}, iset{});
    assert UsedFrames(kroot, w.k) + iset{} == UsedFrames(kroot, w.k);
  }

  /** Other free lists under the same tables, with nothing of the arena on them. */
  lemma ListsKeepKernel(kroot: nat, k: Kernel, l: Lists, zone: iset<nat>)
    requires KernelInv(kroot, k, zone) && Inv(l) && FreeSet(l) <= zone
    requires FreeSet(l) !! TablePages(k.vm.forest) && FreeSet(l) !! UsedFrames(kroot, k)
    ensures KernelInv(kroot, WithLists(k, l), zone) && UsedFrames(kroot, WithLists(k, l)) == UsedFrames(kroot, k)
  {
    hide Core, Upper, Translate, FreeSet, Inv;
    var k' := WithLists(k, l);
    forall t | t in k.vm.forest.mem ensures t !in FreeSet(l) {
      assert t in TablePages(k.vm.forest);
    }
    forall v: nat | v in UsedPages(k.ranges)
      ensures Translate(k.vm.forest.mem, kroot, v).Some? && Translate(k.vm.forest.mem, kroot, v).value !in FreeSet(l)
    {
      assert FrameOfPage(kroot, k.vm, UsedPages(k.ranges), Translate(k.vm.forest.mem, kroot, v).value);
    }
    forall p: nat
      ensures FrameOfPage(kroot, k'.vm, UsedPages(k.ranges), p) <==> FrameOfPage(kroot, k.vm, UsedPages(k.ranges), p)
    {
    }
  }

  lemma OtherAllocKeepsWorld(kroot: nat, w: World, o: nat, zone: iset<nat>, total: iset<nat>)
    requires WorldInv(kroot, w, zone, total) && LegalOp(kroot, w, OtherAlloc(o))
    ensures WorldInv(kroot, StepKernel(kroot, w, OtherAlloc(o)), zone, total)
  {
    hide KernelInv, FreeSet, Inv, TablePages, UsedFrames, AllocSpec, Block;
    var l0 := w.k.vm.lists;
    KernelLists(kroot, w.k, zone);
    AllocKeepsInv(l0, o);
    var (l, p) := AllocSpec(l0, o);
    if p.Some? {
      TakenDisjoint(l, p.value, o);
      LedgerTake(total, FreeSet(l0), TablePages(w.k.vm.forest), UsedFrames(kroot, w.k), w.others, w.lost,
                 FreeSet(l), iset{}, Block(p.value, o));
    }
    ListsKeepKernel(kroot, w.k, l, zone);
  }

  lemma KernelLists(kroot: nat, k: Kernel, zone: iset<nat>)
    requires KernelInv(kroot, k, zone)
    ensures Inv(k.vm.lists) && FreeSet(k.vm.lists) <= zone
  {
    hide Core, Upper, Translate, FreeSet, Inv;
  }

  lemma OtherFreeKeepsWorld(kroot: nat, w: World, p: nat, o: nat, zone: iset<nat>, total: iset<nat>)
    requires WorldInv(kroot, w, zone, total) && LegalOp(kroot, w, OtherFree(p, o))
    ensures WorldInv(kroot, StepKernel(kroot, w, OtherFree(p, o)), zone, total)
  {
    hide KernelInv, FreeSet, Inv, TablePages, UsedFrames, FreeSpec, Block;
    var l0 := w.k.vm.lists;
    KernelLists(kroot, w.k, zone);
    TakenDisjoint(l0, p, o);
    FreeKeepsInv(l0, p, o);
    LedgerGiveBack(total, FreeSet(l0), TablePages(w.k.vm.forest), UsedFrames(kroot, w.k), w.others, w.lost, Block(p, o));
    ListsKeepKernel(kroot, w.k, FreeSpec(l0, p, o), zone);
  }

  lemma StepKeepsWorld(kroot: nat, w: World, op: KernelOp, zone: iset<nat>, total: iset<nat>)
    requires WorldInv(kroot, w, zone, total) && LegalOp(kroot, w, op)
    ensures WorldInv(kroot, StepKernel(kroot, w, op), zone, total)
  {
    hide WorldInv, LegalOp, StepKernel;
    match op
    case DoVmalloc(size, flags) => VmallocKeepsWorld(kroot, w, size, flags, zone, total);
    case DoVfree(addr, cr3) => VfreeKeepsWorld(kroot, w, addr, cr3, zone, total);
    case DoNewTable => NewTableKeepsWorld(kroot, w, zone, total);
    case OtherAlloc(o) => OtherAllocKeepsWorld(kroot, w, o, zone, total);
    case OtherFree(p, o) => OtherFreeKeepsWorld(kroot, w, p, o, zone, total);
  }

  /* ---- runs ---- */

  ghost predicate LegalKernelRun(kroot: nat, w: World, ops: seq<KernelOp>)
    decreases |ops|
  {
    ops == [] || (LegalOp(kroot, w, ops[0]) && LegalKernelRun(kroot, StepKernel(kroot, w, ops[0]), ops[1..]))
  }

  ghost function RunKernel(kroot: nat, w: World, ops: seq<KernelOp>): World
    requires LegalKernelRun(kroot, w, ops)
    decreases |ops|
  {
    if ops == [] then w else RunKernel(kroot, StepKernel(kroot, w, ops[0]), ops[1..])
  }

  /**
   After any run, with requests that no range served among them, the ranges tile
   the arena, its mapped pages are exactly the pages in use, each backed by a
   frame of its own, and every page is free, a table, in use, held by another
   user of the buddy, or lost to an unserved call: exactly one of these.
   */
  lemma {:induction false} RunKeepsWorld(kroot: nat, w: World, ops: seq<KernelOp>, zone: iset<nat>, total: iset<nat>)
    requires WorldInv(kroot, w, zone, total) && LegalKernelRun(kroot, w, ops)
    ensures WorldInv(kroot, RunKernel(kroot, w, ops), zone, total)
    decreases |ops|
  {
    hide WorldInv, StepKernel, LegalOp;
    if ops == [] {
    } else {
      StepKeepsWorld(kroot, w, ops[0], zone, total);
      RunKeepsWorld(kroot, StepKernel(kroot, w, ops[0]), ops[1..], zone, total);
    }
  }

  /** Every request of the run finds a range, or asks for nothing. */
  ghost predicate AllServed(kroot: nat, w: World, ops: seq<KernelOp>)
    requires LegalKernelRun(kroot, w, ops)
    decreases |ops|
  {
    ops == [] || ((ops[0].DoVmalloc? ==> Fits(w.k.ranges, ops[0].size)) && AllServed(kroot, StepKernel(kroot, w, ops[0]), ops[1..]))
  }

  /** A run loses no frame if and only if every request in it is served. */
  lemma {:induction false} LosesNothingIffServed(kroot: nat, w: World, ops: seq<KernelOp>, zone: iset<nat>, total: iset<nat>)
    requires WorldInv(kroot, w, zone, total) && LegalKernelRun(kroot, w, ops)
    ensures w.lost <= RunKernel(kroot, w, ops).lost
    ensures RunKernel(kroot, w, ops).lost == w.lost <==> AllServed(kroot, w, ops)
    decreases |ops|
  {
    hide WorldInv, StepKernel, LegalOp, Fits;
    if ops == [] {
    } else {
      StepKeepsWorld(kroot, w, ops[0], zone, total);
      StepLoses(kroot, w, ops[0], zone, total);
      LosesNothingIffServed(kroot, StepKernel(kroot, w, ops[0]), ops[1..], zone, total);
    }
  }

  lemma StepLoses(kroot: nat, w: World, op: KernelOp, zone: iset<nat>, total: iset<nat>)
    requires WorldInv(kroot, w, zone, total) && LegalOp(kroot, w, op)
    ensures w.lost <= StepKernel(kroot, w, op).lost
    ensures StepKernel(kroot, w, op).lost == w.lost <==> (op.DoVmalloc? ==> Fits(w.k.ranges, op.size))
  {
    hide KernelInv, Vmalloc, Vfree, FreeSet, Translate, Fits;
    if op.DoVmalloc? && !Fits(w.k.ranges, op.size) {
      UnservedTakesFrame(kroot, w.k, op.size, op.flags, zone);
      var k' := Vmalloc(kroot, w.k, op.size, op.flags).value.0;
      var p :| p in Frames(kroot, k'.vm, MappedBy(0, op.size)) && p in FreeSet(w.k.vm.lists);
    }
  }

  lemma UnservedTakesFrame(kroot: nat, k: Kernel, size: nat, flags: Flags, zone: iset<nat>)
    requires KernelInv(kroot, k, zone) && Vmalloc(kroot, k, size, flags).Some? && !Fits(k.ranges, size)
    ensures var k' := Vmalloc(kroot, k, size, flags).value.0;
      exists p :: p in Frames(kroot, k'.vm, MappedBy(0, size)) && p in FreeSet(k.vm.lists)
  {
    hide VmInv, Vmalloc, FreeSet, Translate, Backed, NewTables;
    var k' := Vmalloc(kroot, k, size, flags).value.0;
    VmallocConserves(kroot, k, size, flags, zone);
    ExhaustedVmallocLeaks(kroot, k, size, flags);
    var p := Translate(k'.vm.forest.mem, kroot, 0).value;
    assert Vpn(0) == 0 && 0 in MappedBy(0, size);
    assert FrameOfPage(kroot, k'.vm, MappedBy(0, size), p);
    assert p in Frames(kroot, k'.vm, MappedBy(0, size));
  }

  /** `vmalloc_init` starts such a run: one free range, over an arena nobody has mapped. */
  lemma InitialWorld(kroot: nat, s: Vm, zone: iset<nat>)
    requires VmInv(kroot, s) && FreeSet(s.lists) <= zone && SmallFrames(zone) && OnlyMapped(kroot, s, iset{})
    ensures WorldInv(kroot, World(Kernel(s, WholeArena()), iset{}, iset{}), zone, FreeSet(s.lists) + TablePages(s.forest))
  {
    hide VmInv, Translate, FreeSet;
    var rs := WholeArena();
    assert rs[1..] == [];
    assert Tiles(rs[1..], VMALLOC_END, VMALLOC_END);
    assert UsedPages(rs) == iset{};
    NoPages(kroot, s, 0);
    FreshTables(kroot, s);
  }

  function WholeArena(): seq<Range> {
    [Range(VMALLOC_START, VMALLOC_END - VMALLOC_START, false)]
  }

  lemma FreshTables(kroot: nat, s: Vm)
    requires VmInv(kroot, s)
    ensures FreeSet(s.lists) !! TablePages(s.forest)
  {
    hide Core, Upper, FreeSet, Inv;
  }

  /** Boundaries between ranges are never removed, and a range in use keeps its address and size until it is freed. */
  lemma {:induction false} RangesPersist(kroot: nat, w: World, ops: seq<KernelOp>, zone: iset<nat>, total: iset<nat>, a: nat, r: Range)
    requires WorldInv(kroot, w, zone, total) && LegalKernelRun(kroot, w, ops)
    ensures Starts(w.k.ranges, a) ==> Starts(RunKernel(kroot, w, ops).k.ranges, a)
    ensures r in w.k.ranges && r.inUse && (forall i :: 0 <= i < |ops| && ops[i].DoVfree? ==> ops[i].addr != r.addr) ==>
      r in RunKernel(kroot, w, ops).k.ranges
    decreases |ops|
  {
    hide WorldInv, StepKernel, LegalOp;
    if ops == [] {
    } else {
      StepKeepsWorld(kroot, w, ops[0], zone, total);
      StepKeepsRanges(kroot, w, ops[0], zone, total, a, r);
      RangesPersist(kroot, StepKernel(kroot, w, ops[0]), ops[1..], zone, total, a, r);
    }
  }

  lemma StepKeepsRanges(kroot: nat, w: World, op: KernelOp, zone: iset<nat>, total: iset<nat>, a: nat, r: Range)
    requires WorldInv(kroot, w, zone, total) && LegalOp(kroot, w, op)
    ensures Starts(w.k.ranges, a) ==> Starts(StepKernel(kroot, w, op).k.ranges, a)
    ensures r in w.k.ranges && r.inUse && (op.DoVfree? ==> op.addr != r.addr) ==> r in StepKernel(kroot, w, op).k.ranges
  {
    hide VmInv, Vmalloc, Backed, OnlyMapped, ReleasePages, ReleaseRange, Starts, Booked, Fits, UsedPages;
    match op
    case DoVmalloc(size, flags) => VmallocConserves(kroot, w.k, size, flags, zone);
    case DoVfree(addr, cr3) =>
      if Starts(w.k.ranges, addr) {
        var s :| s in w.k.ranges && s.inUse && s.addr == addr;
        assert s == Range(addr, s.size, true);
        ReleaseRangeFrees(w.k.ranges, VMALLOC_START, VMALLOC_END, addr, s.size);
      } else {
        ReleaseNowhere(w.k.ranges, addr);
      }
    case _ =>
  }
}
