/**
 Address space that vfree does not give back.

 First fit splits every request off the back of the low range until that range
 is too small, and freed ranges are never merged.  After k pairs of vmalloc and
 vfree of one size the arena is free throughout and yet in k + 1 pieces.
 */
module VmallocChurn {
  import opened Collections
  import opened BuddySpec
  import opened PageTable
  import opened PageForest
  import opened PageRuns
  import opened VmRanges
  import opened VmallocSpec
  import opened VmallocTheorems
  import opened VmallocMemory
  import opened VmallocRuns

  /** `k` free ranges of `b` bytes from `at` on. */
  function Chips(at: nat, b: nat, k: nat): seq<Range>
    decreases k
  {
    if k == 0 then [] else [Range(at, b, false)] + Chips(at + b, b, k - 1)
  }

  /** The address of the j-th piece from the top of the arena. */
  function PieceAt(b: nat, j: nat): int {
    VMALLOC_END - b * j
  }

  /** The arena with `k` pieces of `b` bytes split off. */
  function Fragmented(b: nat, k: nat): seq<Range>
    requires b * k < VMALLOC_END - VMALLOC_START
  {
    [Range(VMALLOC_START, VMALLOC_END - VMALLOC_START - b * k, false)] + Chips(PieceAt(b, k), b, k)
  }

  lemma NextPiece(b: nat, k: nat)
    ensures b * (k + 1) == b * k + b
    ensures PieceAt(b, k + 1) + b == PieceAt(b, k)
  {
  }

  /** The next request is split off the low range. */
  lemma MapFromFragments(b: nat, k: nat)
    requires b > 0 && b % PAGE_SIZE == 0 && b * (k + 1) < VMALLOC_END - VMALLOC_START
    ensures b * k < VMALLOC_END - VMALLOC_START
    ensures MapRange(Fragmented(b, k), b) ==
      ([Range(VMALLOC_START, VMALLOC_END - VMALLOC_START - b * (k + 1), false), Range(PieceAt(b, k + 1), b, true)]
         + Chips(PieceAt(b, k), b, k), Some(PieceAt(b, k + 1)))
  {
    NextPiece(b, k);
    assert Fragmented(b, k)[1..] == Chips(PieceAt(b, k), b, k);
  }

  /** And freed where it is. */
  lemma ReleaseToFragments(b: nat, k: nat)
    requires b > 0 && b % PAGE_SIZE == 0 && b * (k + 1) < VMALLOC_END - VMALLOC_START
    ensures b * k < VMALLOC_END - VMALLOC_START
    ensures ReleaseRange(MapRange(Fragmented(b, k), b).0, PieceAt(b, k + 1)) == (Fragmented(b, k + 1), Some(b))
  {
    NextPiece(b, k);
    MapFromFragments(b, k);
    var low, high := Range(VMALLOC_START, VMALLOC_END - VMALLOC_START - b * (k + 1), false), Range(PieceAt(b, k + 1), b, true);
    var rest := Chips(PieceAt(b, k), b, k);
    var rs := [low, high] + rest;
    assert rs[1..] == [high] + rest && ([high] + rest)[1..] == rest;
    assert ReleaseRange([high] + rest, high.addr) == ([high.(inUse := false)] + rest, Some(b));
    assert Chips(PieceAt(b, k + 1), b, k + 1) == [high.(inUse := false)] + rest;
  }

  /** `k` pairs of a request of `b` bytes and its release. */
  function Churned(rs: seq<Range>, b: nat, k: nat): seq<Range> {
    if k == 0 then rs
    else
      var (rs1, at) := MapRange(Churned(rs, b, k - 1), b);
      if at.None? then rs1 else ReleaseRange(rs1, at.value).0
  }

  /** For every size and every number of pairs that leave the low range something, the pieces are exactly these. */
  lemma {:induction false} ChurnFragments(b: nat, k: nat)
    requires b > 0 && b % PAGE_SIZE == 0 && b * k < VMALLOC_END - VMALLOC_START
    ensures Churned(WholeArena(), b, k) == Fragmented(b, k)
  {
    if k == 0 {
      assert b * 0 == 0;
    } else {
      NextPiece(b, k - 1);
      ChurnFragments(b, k - 1);
      MapFromFragments(b, k - 1);
      ReleaseToFragments(b, k - 1);
    }
  }

  lemma {:induction false} ChipsAreFree(at: nat, b: nat, k: nat)
    ensures forall r :: r in Chips(at, b, k) ==> !r.inUse && r.size == b
    ensures |Chips(at, b, k)| == k
    decreases k
  {
    if k == 0 {
    } else {
      ChipsAreFree(at + b, b, k - 1);
    }
  }

  /** The whole arena is free, and a request is served if and only if one piece is as large. */
  lemma FragmentsServe(b: nat, k: nat, size: nat)
    requires b * k < VMALLOC_END - VMALLOC_START && PageCount(size) > 0
    ensures UsedPages(Fragmented(b, k)) == iset{}
    ensures Fits(Fragmented(b, k), size) <==>
      || PageCount(size) * PAGE_SIZE <= VMALLOC_END - VMALLOC_START - b * k
      || (k > 0 && PageCount(size) * PAGE_SIZE <= b)
  {
    var low, chips := Range(VMALLOC_START, VMALLOC_END - VMALLOC_START - b * k, false), Chips(PieceAt(b, k), b, k);
    ChipsAreFree(PieceAt(b, k), b, k);
    var rs := Fragmented(b, k);
    assert rs == [low] + chips && low in rs;
    assert forall r :: r in rs ==> !r.inUse;
    assert k > 0 ==> chips[0] in rs && chips[0].size == b;
    forall v: nat ensures !UsedPage(rs, v) {
    }
  }

  /* ---- as a run of the kernel ---- */

  /** Pairs `i` to `k` of vmalloc and vfree of `m` pages. */
  function PairOps(m: nat, i: nat, k: nat, flags: Flags, cr3: nat): seq<KernelOp>
    requires i <= k && m * PAGE_SIZE * k < VMALLOC_END
    decreases k - i
  {
    if i == k then []
    else
      PieceBelow(m * PAGE_SIZE, i + 1, k);
      [DoVmalloc(m * PAGE_SIZE, flags), DoVfree(PieceAt(m * PAGE_SIZE, i + 1), cr3)] + PairOps(m, i + 1, k, flags, cr3)
  }

  lemma {:induction false} PieceBelow(b: nat, i: nat, k: nat)
    requires i <= k
    ensures b * i <= b * k
  {
  }

  lemma PageCountOf(m: nat)
    requires m * PAGE_SIZE <= 0x1000_0000_0000
    ensures PageCount(m * PAGE_SIZE) == m
  {
  }

  ghost function ReserveOf(kroot: nat, w: World): int {
    Reserve(w.k.vm.lists, w.k.vm.forest, kroot)
  }

  /** Enough memory for one request of `m` pages and for all tables the arena can have. */
  ghost predicate Provided(kroot: nat, w: World, m: nat) {
    ReserveOf(kroot, w) >= |ArenaTags(w.k.vm.forest, kroot)| + m
  }

  /** One pair: served, undone, one piece more, nothing taken from the reserve. */
  lemma PairStep(kroot: nat, w: World, zone: iset<nat>, total: iset<nat>, m: nat, i: nat, flags: Flags, cr3: nat)
    requires WorldInv(kroot, w, zone, total) && cr3 in w.k.vm.forest.owner && m > 0
    requires m * PAGE_SIZE * (i + 1) < VMALLOC_END - VMALLOC_START && m * PAGE_SIZE * i < VMALLOC_END - VMALLOC_START
    requires w.k.ranges == Fragmented(m * PAGE_SIZE, i) && Provided(kroot, w, m)
    ensures var op1, op2 := DoVmalloc(m * PAGE_SIZE, flags), DoVfree(PieceAt(m * PAGE_SIZE, i + 1), cr3);
      && LegalOp(kroot, w, op1)
      && var w1 := StepKernel(kroot, w, op1);
      && LegalOp(kroot, w1, op2)
      && var w2 := StepKernel(kroot, w1, op2);
      && WorldInv(kroot, w2, zone, total) && cr3 in w2.k.vm.forest.owner && w2.lost == w.lost
      && w2.k.ranges == Fragmented(m * PAGE_SIZE, i + 1)
      && ReserveOf(kroot, w2) == ReserveOf(kroot, w) && ArenaTags(w2.k.vm.forest, kroot) == ArenaTags(w.k.vm.forest, kroot)
  {
    hide KernelInv, Vmalloc, Vfree, Reserve, ArenaTags, Booked, Fits, Fragmented, MapRange, ReleaseRange, UsedPages;
    var b := m * PAGE_SIZE;
    var op1, op2 := DoVmalloc(b, flags), DoVfree(PieceAt(b, i + 1), cr3);
    NextPiece(b, i);
    SmallPiece(m, i);
    PageCountOf(m);
    FragmentsServe(b, i, b);
    ServedSucceeds(kroot, w.k, b, flags, zone);
    StepKeepsWorld(kroot, w, op1, zone, total);
    var w1 := StepKernel(kroot, w, op1);
    VmallocConserves(kroot, w.k, b, flags, zone);
    MapFromFragments(b, i);
    VmallocRanges(kroot, w.k, b, flags);
    PieceInUse(w1.k.ranges, b, i);
    StepKeepsWorld(kroot, w1, op2, zone, total);
    VfreeReturns(kroot, w1.k, cr3, PieceAt(b, i + 1), m, zone);
    VfreeConserves(kroot, w1.k, cr3, PieceAt(b, i + 1), b, zone);
    ReleaseToFragments(b, i);
    VfreeRanges(kroot, w1.k, cr3, PieceAt(b, i + 1));
  }

  lemma SmallPiece(m: nat, i: nat)
    requires m * PAGE_SIZE * (i + 1) < VMALLOC_END - VMALLOC_START
    ensures m * PAGE_SIZE < VMALLOC_END - VMALLOC_START && m * PAGE_SIZE <= VMALLOC_END - VMALLOC_START - m * PAGE_SIZE * i
  {
    NextPiece(m * PAGE_SIZE, i);
  }

  lemma VmallocRanges(kroot: nat, k: Kernel, size: nat, flags: Flags)
    requires Vmalloc(kroot, k, size, flags).Some?
    ensures Vmalloc(kroot, k, size, flags).value.0.ranges == MapRange(k.ranges, PageCount(size) * PAGE_SIZE).0
  {
  }

  lemma VfreeRanges(kroot: nat, k: Kernel, cr3: nat, addr: nat)
    ensures Vfree(kroot, k, cr3, addr).ranges == ReleaseRange(k.ranges, addr).0
  {
  }

  lemma PieceInUse(rs: seq<Range>, b: nat, i: nat)
    requires |rs| > 1 && PieceAt(b, i + 1) >= 0 && rs[1] == Range(PieceAt(b, i + 1), b, true)
    ensures InUseStart(rs, PieceAt(b, i + 1)) && Range(PieceAt(b, i + 1), b, true) in rs
  {
    assert rs[1] in rs;
  }

  /** The pairs are a legal run, each request is served, and the arena ends in pieces, all of them free. */
  lemma {:induction false} PairsFragment(kroot: nat, w: World, zone: iset<nat>, total: iset<nat>, m: nat, i: nat, k: nat, flags: Flags, cr3: nat)
    requires WorldInv(kroot, w, zone, total) && cr3 in w.k.vm.forest.owner && m > 0 && i <= k
    requires m * PAGE_SIZE * k < VMALLOC_END - VMALLOC_START && m * PAGE_SIZE * i < VMALLOC_END - VMALLOC_START
    requires w.k.ranges == Fragmented(m * PAGE_SIZE, i) && Provided(kroot, w, m)
    ensures LegalKernelRun(kroot, w, PairOps(m, i, k, flags, cr3))
    ensures var w' := RunKernel(kroot, w, PairOps(m, i, k, flags, cr3));
      && WorldInv(kroot, w', zone, total) && w'.lost == w.lost
      && w'.k.ranges == Fragmented(m * PAGE_SIZE, k) && UsedPages(w'.k.ranges) == iset{}
      && ReserveOf(kroot, w') == ReserveOf(kroot, w) && ArenaTags(w'.k.vm.forest, kroot) == ArenaTags(w.k.vm.forest, kroot)
    decreases k - i
  {
    hide WorldInv, Reserve, ArenaTags, Fragmented, LegalOp, StepKernel, UsedPages;
    if i == k {
      PageCountOf(0);
      FragmentsServe(m * PAGE_SIZE, k, 1);
    } else {
      PieceBelow(m * PAGE_SIZE, i + 1, k);
      PairStep(kroot, w, zone, total, m, i, flags, cr3);
      var op1, op2, rest := DoVmalloc(m * PAGE_SIZE, flags), DoVfree(PieceAt(m * PAGE_SIZE, i + 1), cr3), PairOps(m, i + 1, k, flags, cr3);
      var w2 := StepKernel(kroot, StepKernel(kroot, w, op1), op2);
      PairsFragment(kroot, w2, zone, total, m, i + 1, k, flags, cr3);
      var ops := PairOps(m, i, k, flags, cr3);
      assert ops == [op1, op2] + rest && ops[1..] == [op2] + rest && ([op2] + rest)[1..] == rest;
      assert LegalKernelRun(kroot, StepKernel(kroot, w, op1), ops[1..]);
    }
  }

  lemma WholeIsUnbroken(b: nat)
    ensures b * 0 < VMALLOC_END - VMALLOC_START && Fragmented(b, 0) == WholeArena()
  {
    assert b * 0 == 0;
  }

  lemma {:induction false} RunThenOne(kroot: nat, w: World, ops: seq<KernelOp>, op: KernelOp)
    requires LegalKernelRun(kroot, w, ops) && LegalOp(kroot, RunKernel(kroot, w, ops), op)
    ensures LegalKernelRun(kroot, w, ops + [op])
    ensures RunKernel(kroot, w, ops + [op]) == StepKernel(kroot, RunKernel(kroot, w, ops), op)
    decreases |ops|
  {
    hide LegalOp, StepKernel;
    if ops == [] {
      assert [] + [op] == [op] && [op][1..] == [];
    } else {
      assert (ops + [op])[1..] == ops[1..] + [op];
      RunThenOne(kroot, StepKernel(kroot, w, ops[0]), ops[1..], op);
    }
  }

  /** One page more than the largest piece. */
  lemma NoPieceServes(m: nat, k: nat)
    requires k > 0 && m * PAGE_SIZE * k < VMALLOC_END - VMALLOC_START <= m * PAGE_SIZE * (k + 1)
    ensures PageCount((m + 1) * PAGE_SIZE) == m + 1 && !Fits(Fragmented(m * PAGE_SIZE, k), (m + 1) * PAGE_SIZE)
  {
    hide Fits, Fragmented, UsedPages;
    PieceBelow(m * PAGE_SIZE, 1, k);
    NextPiece(m * PAGE_SIZE, k);
    PageCountOf(m + 1);
    FragmentsServe(m * PAGE_SIZE, k, (m + 1) * PAGE_SIZE);
  }

  /** An unserved call goes ahead all the same, given four free pages per page. */
  lemma UnservedSucceeds(kroot: nat, k: Kernel, zone: iset<nat>, size: nat, flags: Flags)
    requires KernelInv(kroot, k, zone) && !Fits(k.ranges, size)
    requires Reserve(k.vm.lists, k.vm.forest, kroot) >= |ArenaTags(k.vm.forest, kroot)| + 4 * PageCount(size)
    ensures Vmalloc(kroot, k, size, flags).Some?
  {
    hide VmInv, Backed, OnlyMapped, ArenaTags, ArenaTables, FreeSet, BackPages, MapRange, Weight, PageCount;
    FitsIsServed(k, size);
    TablesFit(kroot, k.vm);
    EnoughPages(kroot, k.vm, 0, PageCount(size), flags);
  }

  lemma TablesFit(kroot: nat, s: Vm)
    requires VmInv(kroot, s)
    ensures |ArenaTables(s.forest, kroot)| <= |ArenaTags(s.forest, kroot)|
  {
    hide Core, ArenaTags, ArenaTables;
    TablesAreFew(s.forest, kroot);
  }

  /** One page more than the largest piece: the call goes ahead, unserved, and loses frames. */
  lemma UnservedRequest(kroot: nat, w: World, zone: iset<nat>, total: iset<nat>, m: nat, k: nat, flags: Flags)
    requires WorldInv(kroot, w, zone, total) && k > 0
    requires m * PAGE_SIZE * k < VMALLOC_END - VMALLOC_START <= m * PAGE_SIZE * (k + 1)
    requires w.k.ranges == Fragmented(m * PAGE_SIZE, k) && Provided(kroot, w, 4 * (m + 1))
    ensures var op := DoVmalloc((m + 1) * PAGE_SIZE, flags);
      && LegalOp(kroot, w, op) && !Fits(w.k.ranges, (m + 1) * PAGE_SIZE)
      && StepKernel(kroot, w, op).lost != w.lost
  {
    hide KernelInv, Vmalloc, ArenaTags, ArenaTables, Booked, Fits, Fragmented, UsedPages, Weight, PageCount;
    NoPieceServes(m, k);
    UnservedSucceeds(kroot, w.k, zone, (m + 1) * PAGE_SIZE, flags);
    StepLoses(kroot, w, DoVmalloc((m + 1) * PAGE_SIZE, flags), zone, total);
  }

  /**
   A reachable arena that is free throughout and serves nobody: after k pairs of
   m pages that leave no larger piece, a request of m + 1 pages finds no range,
   maps pages from address 0 and loses their frames.
   */
  lemma FreeArenaServesNobody(kroot: nat, w: World, zone: iset<nat>, total: iset<nat>, m: nat, k: nat, flags: Flags, cr3: nat)
    requires WorldInv(kroot, w, zone, total) && w.k.ranges == WholeArena() && cr3 in w.k.vm.forest.owner && m > 0 && k > 0
    requires m * PAGE_SIZE * k < VMALLOC_END - VMALLOC_START <= m * PAGE_SIZE * (k + 1)
    requires Provided(kroot, w, 4 * (m + 1))
    ensures var ops, last := PairOps(m, 0, k, flags, cr3), DoVmalloc((m + 1) * PAGE_SIZE, flags);
      && LegalKernelRun(kroot, w, ops + [last]) && LegalKernelRun(kroot, w, ops)
      && UsedPages(RunKernel(kroot, w, ops).k.ranges) == iset{} && RunKernel(kroot, w, ops).lost == w.lost
      && RunKernel(kroot, w, ops + [last]).lost != w.lost
  {
    hide WorldInv, ArenaTags, Fragmented, LegalOp, StepKernel, UsedPages, Reserve, RunKernel, LegalKernelRun;
    WholeIsUnbroken(m * PAGE_SIZE);
    PairsFragment(kroot, w, zone, total, m, 0, k, flags, cr3);
    var ops := PairOps(m, 0, k, flags, cr3);
    UnservedRequest(kroot, RunKernel(kroot, w, ops), zone, total, m, k, flags);
    RunThenOne(kroot, w, ops, DoVmalloc((m + 1) * PAGE_SIZE, flags));
  }

  /** 8191 pairs of 2 GiB are such a run. */
  lemma TwoGiBPairs()
    ensures var m, k := 0x8_0000, 8191;
      m * PAGE_SIZE * k < VMALLOC_END - VMALLOC_START <= m * PAGE_SIZE * (k + 1)
  {
  }
}
