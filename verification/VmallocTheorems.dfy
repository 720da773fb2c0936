/**
 Conservation of frames by vmalloc and vfree, over single calls and whole runs.
 */
module VmallocTheorems {
  import opened Collections
  import Bits
  import opened BuddySpec
  import opened BuddyTheorems
  import opened PageTable
  import opened PageForest
  import opened PageRuns
  import opened VmRanges
  import opened VmallocSpec

  predicate UsedPage(rs: seq<Range>, v: nat) {
    ARENA_LO <= v < ARENA_HI && InUseAt(rs, VMALLOC_START + (v - ARENA_LO) * PAGE_SIZE)
  }

  /** The page numbers of the ranges in use. */
  ghost function UsedPages(rs: seq<Range>): iset<nat> {
    iset v: nat | UsedPage(rs, v)
  }

  /** Frame numbers the buddy may hand out: all of them fit the word format and the source's `int`. */
  ghost predicate SmallFrames(zone: iset<nat>) {
    forall q :: q in zone ==> q < 0x8000_0000
  }

  /** No page of the arena outside `pages` is mapped. */
  ghost predicate OnlyMapped(kroot: nat, s: Vm, pages: iset<nat>) {
    forall v: nat :: ARENA_LO <= v < ARENA_HI && v !in pages ==> Translate(s.forest.mem, kroot, v) == None
  }

  /** The ranges tile the arena; the mapped arena pages are the pages in use, each backed by its own frame. */
  ghost predicate KernelInv(kroot: nat, k: Kernel, zone: iset<nat>) {
    && VmInv(kroot, k.vm)
    && Tiles(k.ranges, VMALLOC_START, VMALLOC_END)
    && FreeSet(k.vm.lists) <= zone && SmallFrames(zone)
    && Backed(kroot, k.vm, UsedPages(k.ranges), zone)
    && OnlyMapped(kroot, k.vm, UsedPages(k.ranges))
  }

  /** A range of the arena as an interval of page numbers. */
  lemma RangePages(at: nat, size: nat, a: nat)
    requires VMALLOC_START <= at < VMALLOC_END && at + size <= VMALLOC_END
    requires (at - VMALLOC_START) % PAGE_SIZE == 0 && size % PAGE_SIZE == 0
    requires ARENA_LO <= a < ARENA_HI
    ensures at <= VMALLOC_START + (a - ARENA_LO) * PAGE_SIZE < at + size <==> Between(Vpn(at), size / PAGE_SIZE, a)
    ensures Vpn(at) + size / PAGE_SIZE <= ARENA_HI && ARENA_LO <= Vpn(at)
  {
    ArenaVpn(at);
    var first, n := (at - VMALLOC_START) / 4096, size / 4096;
    assert at - VMALLOC_START == first * 4096 && size == n * 4096;
  }

  lemma IntervalInArena(at: nat, size: nat)
    requires VMALLOC_START <= at < VMALLOC_END && at + size <= VMALLOC_END
    requires (at - VMALLOC_START) % PAGE_SIZE == 0 && size % PAGE_SIZE == 0
    ensures ARENA_LO <= Vpn(at) && Vpn(at) + size / PAGE_SIZE <= ARENA_HI
  {
    RangePages(at, size, ARENA_LO);
  }

  lemma GrantedPages(rs: seq<Range>, rs': seq<Range>, at: nat, size: nat)
    requires Tiles(rs', VMALLOC_START, VMALLOC_END) && Granted(rs, rs', at, size)
    ensures ARENA_LO <= Vpn(at) && Vpn(at) + size / PAGE_SIZE <= ARENA_HI
    ensures UsedPages(rs') == UsedPages(rs) + Interval(Vpn(at), size / PAGE_SIZE)
    ensures Interval(Vpn(at), size / PAGE_SIZE) !! UsedPages(rs)
  {
    TilesBounds(rs', VMALLOC_START, VMALLOC_END);
    assert Range(at, size, true) in rs';
    IntervalInArena(at, size);
    forall v: nat
      ensures UsedPage(rs', v) <==> UsedPage(rs, v) || Between(Vpn(at), size / PAGE_SIZE, v)
      ensures Between(Vpn(at), size / PAGE_SIZE, v) ==> !UsedPage(rs, v)
    {
      if ARENA_LO <= v < ARENA_HI {
        RangePages(at, size, v);
      }
    }
  }

  lemma ReleasedPages(rs: seq<Range>, at: nat, size: nat)
    requires Tiles(rs, VMALLOC_START, VMALLOC_END) && Range(at, size, true) in rs
    ensures var rs' := ReleaseRange(rs, at).0; var gone := Interval(Vpn(at), size / PAGE_SIZE);
      && ARENA_LO <= Vpn(at) && Vpn(at) + size / PAGE_SIZE <= ARENA_HI
      && UsedPages(rs') == UsedPages(rs) - gone && gone <= UsedPages(rs)
  {
    TilesBounds(rs, VMALLOC_START, VMALLOC_END);
    ReleaseRangeFrees(rs, VMALLOC_START, VMALLOC_END, at, size);
    IntervalInArena(at, size);
    var rs' := ReleaseRange(rs, at).0;
    forall v: nat
      ensures UsedPage(rs', v) <==> UsedPage(rs, v) && !Between(Vpn(at), size / PAGE_SIZE, v)
      ensures Between(Vpn(at), size / PAGE_SIZE, v) ==> UsedPage(rs, v)
    {
      if ARENA_LO <= v < ARENA_HI {
        RangePages(at, size, v);
      }
    }
  }

  /** Some range is free and large enough, or nothing is asked for. */
  predicate Fits(rs: seq<Range>, size: nat) {
    PageCount(size) == 0 || exists r :: r in rs && !r.inUse && r.size >= PageCount(size) * PAGE_SIZE
  }

  /** The pages a call maps. */
  ghost function MappedBy(addr: nat, size: nat): iset<nat> {
    Interval(Vpn(addr), PageCount(size))
  }

  lemma FitsIsServed(k: Kernel, size: nat)
    requires Tiles(k.ranges, VMALLOC_START, VMALLOC_END) && PageCount(size) > 0
    ensures Fits(k.ranges, size) <==> MapRange(k.ranges, PageCount(size) * PAGE_SIZE).1.Some?
  {
    MapRangeGrants(k.ranges, PageCount(size) * PAGE_SIZE);
  }

  /** The free pages whose number fits the source's `int`. */
  ghost function SmallFree(l: Lists): set<nat> {
    set q: nat | 0 <= q < 0x8000_0000 && FreePage(l, q)
  }

  lemma {:induction false} AtMost(n: nat, a: set<nat>)
    requires forall q :: q in a ==> q < n
    ensures |a| <= n
    decreases n
  {
    if n == 0 {
      assert a == {};
    } else {
      AtMost(n - 1, a - {n - 1});
    }
  }

  /** Every page mapped takes a free page of its own, so a successful loop is no longer than there are free pages. */
  lemma {:induction false} BackPagesUse(kroot: nat, s: Vm, virt: nat, n: nat, flags: Flags)
    requires VmInv(kroot, s) && BackPages(kroot, s, virt, n, flags).Some? && SmallFrames(FreeSet(s.lists))
    ensures n <= |SmallFree(s.lists)|
    decreases n
  {
    hide VmInv, Translate, BackPage, FreePage, NewTables, AllocSpec;
    if n == 0 {
    } else {
      BackPageEffect(kroot, s, virt, flags);
      var s1, p := BackPage(kroot, s, virt, flags).value, AllocSpec(s.lists, 0).1.value;
      assert forall q :: q in FreeSet(s1.lists) ==> q in FreeSet(s.lists);
      assert p in FreeSet(s.lists) && p !in FreeSet(s1.lists);
      Shrinks(s1.lists, s.lists, p);
      BackPagesUse(kroot, s1, virt + PAGE_SIZE, n - 1, flags);
    }
  }

  lemma Shrinks(l1: Lists, l: Lists, p: nat)
    requires FreeSet(l1) <= FreeSet(l) && p in FreeSet(l) && p !in FreeSet(l1) && p < 0x8000_0000
    ensures |SmallFree(l1)| < |SmallFree(l)|
  {
    hide FreePage;
    var a, b := SmallFree(l1), SmallFree(l);
    forall q | q in a ensures q in b - {p} {
      assert q in FreeSet(l1);
    }
    assert p in b && b == a + {p} + (b - a - {p});
  }

  /** A call that succeeds asks for fewer pages than lie below the arena, because it was given a frame for each. */
  lemma SucceedsBelowArena(kroot: nat, k: Kernel, size: nat, flags: Flags, zone: iset<nat>)
    requires KernelInv(kroot, k, zone) && Vmalloc(kroot, k, size, flags).Some?
    ensures PageCount(size) <= 0x8000_0000
  {
    hide VmInv, Translate, BackPages, Backed;
    var r := MapRange(k.ranges, PageCount(size) * PAGE_SIZE).1;
    BackPagesUse(kroot, k.vm, if r.Some? then r.value else 0, PageCount(size), flags);
    AtMost(0x8000_0000, SmallFree(k.vm.lists));
  }

  /** What a call hands its caller: a granted range, or 0 and the ranges as they were. */
  ghost predicate Answered(rs: seq<Range>, rs': seq<Range>, addr: nat, size: nat) {
    if Fits(rs, size) && PageCount(size) > 0 then
      && Granted(rs, rs', addr, PageCount(size) * PAGE_SIZE)
      && UsedPages(rs') == UsedPages(rs) + MappedBy(addr, size)
    else rs' == rs && addr == 0
  }

  /**
   vmalloc, whether or not a range fits: the free pages lose exactly the frames
   of the pages it maps and the page tables made on the way, no other page of
   the arena changes, and the invariant of the arena is kept.
   */
  lemma VmallocConserves(kroot: nat, k: Kernel, size: nat, flags: Flags, zone: iset<nat>)
    requires KernelInv(kroot, k, zone) && Vmalloc(kroot, k, size, flags).Some?
    ensures var (k', addr) := Vmalloc(kroot, k, size, flags).value;
      && KernelInv(kroot, k', zone)
      && k'.vm.forest.owner == k.vm.forest.owner && k.vm.forest.mem.Keys <= k'.vm.forest.mem.Keys
      && FreeSet(k.vm.lists) == FreeSet(k'.vm.lists) + NewTables(k.vm.forest, k'.vm.forest) + Frames(kroot, k'.vm, MappedBy(addr, size))
      && FreeSet(k'.vm.lists) !! NewTables(k.vm.forest, k'.vm.forest)
      && Frames(kroot, k'.vm, MappedBy(addr, size)) !! FreeSet(k'.vm.lists)
      && (forall p :: p in Frames(kroot, k'.vm, MappedBy(addr, size)) ==> p !in k'.vm.forest.mem)
      && Answered(k.ranges, k'.ranges, addr, size) && MappedBy(addr, size) !! UsedPages(k.ranges)
      && SameOutside(kroot, k.vm, k'.vm, MappedBy(addr, size))
  {
    hide VmInv, Translate, FreeSet, Backed, BackPages, FirstFit, Granted;
    var n := PageCount(size);
    var (k', addr) := Vmalloc(kroot, k, size, flags).value;
    var pages := UsedPages(k.ranges);
    if n == 0 {
      assert BackPages(kroot, k.vm, 0, 0, flags) == Some(k.vm) by { BackNone(kroot, k.vm, 0, flags); }
      NoPages(kroot, k.vm, Vpn(0));
    } else if Fits(k.ranges, size) {
      FitsIsServed(k, size);
      MapRangeGrants(k.ranges, n * PAGE_SIZE);
      GrantedPages(k.ranges, k'.ranges, addr, n * PAGE_SIZE);
      assert n * PAGE_SIZE / PAGE_SIZE == n;
      BackPagesEffect(kroot, k.vm, addr, n, flags, pages, zone);
      FramesInZone(kroot, k'.vm, MappedBy(addr, size), pages + MappedBy(addr, size), zone);
    } else {
      FitsIsServed(k, size);
      MapRangeGrants(k.ranges, n * PAGE_SIZE);
      SucceedsBelowArena(kroot, k, size, flags, zone);
      assert Vpn(0) == 0;
      BackPagesEffect(kroot, k.vm, 0, n, flags, pages, zone);
      FramesInZone(kroot, k'.vm, MappedBy(0, size), pages + MappedBy(0, size), zone);
      FewerBacked(kroot, k'.vm, pages, pages + MappedBy(0, size), zone);
    }
  }

  lemma FewerBacked(kroot: nat, s: Vm, pages: iset<nat>, all: iset<nat>, zone: iset<nat>)
    requires Backed(kroot, s, all, zone) && pages <= all
    ensures Backed(kroot, s, pages, zone)
  {
    hide Translate, FreeSet;
  }

  lemma BackNone(kroot: nat, s: Vm, virt: nat, flags: Flags)
    ensures BackPages(kroot, s, virt, 0, flags) == Some(s)
  {
  }

  /** vfree: every frame of the range returns to the free pages, once, and nothing else does. */
  lemma VfreeConserves(kroot: nat, k: Kernel, cr3: nat, addr: nat, size: nat, zone: iset<nat>)
    requires KernelInv(kroot, k, zone) && Range(addr, size, true) in k.ranges && cr3 in k.vm.forest.owner
    ensures var k' := Vfree(kroot, k, cr3, addr); var gone := Interval(Vpn(addr), size / PAGE_SIZE);
      && KernelInv(kroot, k', zone)
      && k'.vm.forest.owner == k.vm.forest.owner && k'.vm.forest.mem.Keys == k.vm.forest.mem.Keys
      && FreeSet(k'.vm.lists) == FreeSet(k.vm.lists) + Frames(kroot, k.vm, gone)
      && UsedPages(k'.ranges) == UsedPages(k.ranges) - gone
      && SameOutside(kroot, k.vm, k'.vm, gone)
  {
    hide VmInv, Translate, FreeSet, Backed, ReleasePages, ReleaseRange;
    var k', gone := Vfree(kroot, k, cr3, addr), Interval(Vpn(addr), size / PAGE_SIZE);
    ReleaseRangeFrees(k.ranges, VMALLOC_START, VMALLOC_END, addr, size);
    ReleasedPages(k.ranges, addr, size);
    ReleasePagesEffect(kroot, k.vm, cr3, addr, size / PAGE_SIZE, UsedPages(k.ranges), zone);
    FramesInZone(kroot, k.vm, gone, UsedPages(k.ranges), zone);
  }

  lemma FramesInZone(kroot: nat, s: Vm, pages: iset<nat>, all: iset<nat>, zone: iset<nat>)
    requires Backed(kroot, s, all, zone) && pages <= all
    ensures Frames(kroot, s, pages) <= zone && Frames(kroot, s, pages) !! FreeSet(s.lists)
    ensures forall p :: p in Frames(kroot, s, pages) ==> p !in s.forest.mem
  {
    hide Translate, FreeSet;
  }

  /** An address no range starts at is left alone. */
  lemma {:induction false} ReleaseNowhere(rs: seq<Range>, addr: nat)
    requires !Starts(rs, addr)
    ensures ReleaseRange(rs, addr) == (rs, None)
  {
    if rs == [] {
    } else {
      assert rs == [rs[0]] + rs[1..];
      InUseCons(rs[0], rs[1..], addr);
      ReleaseNowhere(rs[1..], addr);
    }
  }

  /** vmalloc then vfree restores the free pages, except for the tables the mapping made. */
  lemma VmallocThenVfree(kroot: nat, k: Kernel, size: nat, flags: Flags, cr3: nat, zone: iset<nat>)
    requires KernelInv(kroot, k, zone) && Vmalloc(kroot, k, size, flags).Some? && Fits(k.ranges, size)
    requires cr3 in k.vm.forest.owner && PageCount(size) > 0
    ensures var (k1, addr) := Vmalloc(kroot, k, size, flags).value; var k2 := Vfree(kroot, k1, cr3, addr);
      && KernelInv(kroot, k2, zone)
      && FreeSet(k2.vm.lists) == FreeSet(k.vm.lists) - NewTables(k.vm.forest, k1.vm.forest)
      && UsedPages(k2.ranges) == UsedPages(k.ranges)
  {
    hide VmInv, Translate, FreeSet, Backed, Vmalloc, Vfree;
    var n := PageCount(size);
    var (k1, addr) := Vmalloc(kroot, k, size, flags).value;
    VmallocConserves(kroot, k, size, flags, zone);
    VfreeConserves(kroot, k1, cr3, addr, n * PAGE_SIZE, zone);
    assert n * PAGE_SIZE / PAGE_SIZE == n;
    FramesInZone(kroot, k1.vm, MappedBy(addr, size), UsedPages(k1.ranges), zone);
    var frames, tables := Frames(kroot, k1.vm, MappedBy(addr, size)), NewTables(k.vm.forest, k1.vm.forest);
    assert frames !! tables;
  }

  /* ---- an exhausted arena ---- */

  /** Every page the call took from the buddy is a new table or backs a newly granted page. */
  ghost predicate Accounted(kroot: nat, k: Kernel, k': Kernel) {
    FreeSet(k.vm.lists) == FreeSet(k'.vm.lists) + NewTables(k.vm.forest, k'.vm.forest)
                             + Frames(kroot, k'.vm, UsedPages(k'.ranges) - UsedPages(k.ranges))
  }

  /** The mapping loop, at any address, only takes pages and only adds mappings. */
  lemma {:induction false} BackPagesGrow(kroot: nat, s: Vm, virt: nat, n: nat, flags: Flags, x: nat)
    requires VmInv(kroot, s) && BackPages(kroot, s, virt, n, flags).Some? && x < TWO36
    ensures var s' := BackPages(kroot, s, virt, n, flags).value;
      && VmInv(kroot, s') && FreeSet(s'.lists) <= FreeSet(s.lists)
      && (forall p :: p in s'.forest.mem && p !in s.forest.mem ==> p in FreeSet(s.lists))
      && (Translate(s.forest.mem, kroot, x).Some? ==> Translate(s'.forest.mem, kroot, x).Some?)
    decreases n
  {
    hide VmInv, Translate, BackPage, FreeSet;
    if n == 0 {
    } else {
      BackPageEffect(kroot, s, virt, flags);
      var s1 := BackPage(kroot, s, virt, flags).value;
      assert x != Vpn(virt) ==> x !in Interval(Vpn(virt), 1);
      BackPagesGrow(kroot, s1, virt + PAGE_SIZE, n - 1, flags, x);
    }
  }

  /** When no range fits, the loop still runs: page 0 gets mapped and its frame is lost to the buddy. */
  lemma ExhaustedVmallocLeaks(kroot: nat, k: Kernel, size: nat, flags: Flags)
    requires VmInv(kroot, k.vm) && Tiles(k.ranges, VMALLOC_START, VMALLOC_END)
    requires Vmalloc(kroot, k, size, flags).Some? && !Fits(k.ranges, size)
    ensures AllocSpec(k.vm.lists, 0).1.Some?
    ensures var (k', addr) := Vmalloc(kroot, k, size, flags).value; var p := AllocSpec(k.vm.lists, 0).1.value;
      && addr == 0 && k'.ranges == k.ranges
      && Translate(k'.vm.forest.mem, kroot, 0).Some?
      && p in FreeSet(k.vm.lists) && p !in FreeSet(k'.vm.lists) && p !in k'.vm.forest.mem
      && !Accounted(kroot, k, k')
  {
    hide VmInv, Translate, BackPage, FreeSet, FirstFit;
    var n := PageCount(size);
    var (k', addr) := Vmalloc(kroot, k, size, flags).value;
    FitsIsServed(k, size);
    MapRangeGrants(k.ranges, n * PAGE_SIZE);
    BackPageEffect(kroot, k.vm, 0, flags);
    var s1 := BackPage(kroot, k.vm, 0, flags).value;
    assert BackPages(kroot, k.vm, 0, n, flags) == BackPages(kroot, s1, PAGE_SIZE, n - 1, flags);
    BackPagesGrow(kroot, s1, PAGE_SIZE, n - 1, flags, 0);
    assert UsedPages(k'.ranges) - UsedPages(k.ranges) == iset{};
    NoPages(kroot, k'.vm, 0);
  }

  /** A call accounts for every page it takes if and only if some free range is large enough, or no page is asked for. */
  lemma VmallocAccountsIffFits(kroot: nat, k: Kernel, size: nat, flags: Flags, zone: iset<nat>)
    requires KernelInv(kroot, k, zone) && Vmalloc(kroot, k, size, flags).Some?
    ensures Accounted(kroot, k, Vmalloc(kroot, k, size, flags).value.0) <==> Fits(k.ranges, size)
  {
    hide VmInv, Translate, FreeSet, Backed, Vmalloc, Fits;
    if Fits(k.ranges, size) {
      VmallocConserves(kroot, k, size, flags, zone);
      var (k', addr) := Vmalloc(kroot, k, size, flags).value;
      assert PageCount(size) == 0 ==> MappedBy(addr, size) == iset{};
      assert UsedPages(k'.ranges) - UsedPages(k.ranges) == MappedBy(addr, size);
    } else {
      ExhaustedVmallocLeaks(kroot, k, size, flags);
    }
  }

  /* ---- what a caller gets for a size in bytes ---- */

  /** Rounding up to pages: less than a page more than asked for, and nothing at all where the sum wraps. */
  lemma PagesForBytes(size: nat)
    requires size < 0x1_0000_0000_0000_0000
    ensures PageCount(size) == 0 <==> size == 0 || size > 0x1_0000_0000_0000_0000 - PAGE_SIZE
    ensures PageCount(size) > 0 ==> size <= PageCount(size) * PAGE_SIZE < size + PAGE_SIZE
  {
  }

  /** Byte `b` lies on a page mapped with exactly the flags `f`, to a frame of `zone`. */
  ghost predicate UsableByte(kroot: nat, s: Vm, b: nat, f: Flags, zone: iset<nat>) {
    && MappedWith(s.forest.mem, kroot, Vpn(b), f)
    && Translate(s.forest.mem, kroot, Vpn(b)).Some? && Translate(s.forest.mem, kroot, Vpn(b)).value in zone
  }

  /** The range `r` answers a request for `size` bytes. */
  ghost predicate CoversRequest(kroot: nat, k: Kernel, r: Range, size: nat, f: Flags, zone: iset<nat>) {
    && r in k.ranges && r.inUse && size <= r.size < size + PAGE_SIZE
    && forall b: nat :: r.addr <= b < r.addr + size ==> Covers(r, b) && UsableByte(kroot, k.vm, b, f, zone)
  }

  /**
   A served request gets at least as many bytes as it asked for and less than a
   page more, and every byte asked for lies on a page of its own range mapped
   with the flags asked for.
   */
  lemma ServedCoversRequest(kroot: nat, k: Kernel, size: nat, flags: Flags, zone: iset<nat>) returns (r: Range)
    requires KernelInv(kroot, k, zone) && Vmalloc(kroot, k, size, flags).Some? && Fits(k.ranges, size)
    requires 0 < size <= 0x1_0000_0000_0000_0000 - PAGE_SIZE
    ensures var (k', addr) := Vmalloc(kroot, k, size, flags).value;
      && r.addr == addr && VMALLOC_START <= addr && addr + size <= VMALLOC_END
      && r !in k.ranges && CoversRequest(kroot, k', r, size, flags, zone)
  {
    hide VmInv, Translate, FreeSet, Backed, BackPages, FirstFit, MappedWith, Vpn;
    var n := PageCount(size);
    var (k', addr) := Vmalloc(kroot, k, size, flags).value;
    PagesForBytes(size);
    VmallocConserves(kroot, k, size, flags, zone);
    r := Range(addr, n * PAGE_SIZE, true);
    GrantedPages(k.ranges, k'.ranges, addr, n * PAGE_SIZE);
    TilesBounds(k'.ranges, VMALLOC_START, VMALLOC_END);
    BackPagesFlags(kroot, k.vm, addr, n, flags);
    assert r in k.ranges ==> InUseAt(k.ranges, addr);
    forall b: nat | addr <= b < addr + size ensures UsableByte(kroot, k'.vm, b, flags, zone) {
      ByteOnPage(addr, n, b);
      assert Vpn(b) in MappedBy(addr, size);
      BackedAt(kroot, k'.vm, UsedPages(k'.ranges), zone, Vpn(b));
    }
  }

  lemma ByteOnPage(addr: nat, n: nat, b: nat)
    requires VMALLOC_START <= addr && addr + n * PAGE_SIZE <= VMALLOC_END && (addr - VMALLOC_START) % PAGE_SIZE == 0
    requires addr <= b < addr + n * PAGE_SIZE
    ensures Between(Vpn(addr), n, Vpn(b))
  {
    ArenaVpn(addr);
    ArenaVpn(b);
  }

  lemma BackedAt(kroot: nat, s: Vm, pages: iset<nat>, zone: iset<nat>, v: nat)
    requires Backed(kroot, s, pages, zone) && v in pages
    ensures Translate(s.forest.mem, kroot, v).Some? && Translate(s.forest.mem, kroot, v).value in zone
  {
  }

  lemma FirstFrameTaken(kroot: nat, s: Vm, virt: nat, n: nat, flags: Flags)
    requires VmInv(kroot, s) && n > 0
    ensures BackPages(kroot, s, virt, n, flags) != Some(s)
  {
    hide VmInv, Translate, BackPage, FreeSet;
    if BackPages(kroot, s, virt, n, flags).Some? {
      BackPageEffect(kroot, s, virt, flags);
      BackPagesGrow(kroot, BackPage(kroot, s, virt, flags).value, virt + PAGE_SIZE, n - 1, flags, 0);
      assert AllocSpec(s.lists, 0).1.value in FreeSet(s.lists);
    }
  }

  /** A call does nothing and answers 0 exactly for size 0 and for the sizes whose rounding wraps around. */
  lemma NothingIffEmpty(kroot: nat, k: Kernel, size: nat, flags: Flags, zone: iset<nat>)
    requires KernelInv(kroot, k, zone) && size < 0x1_0000_0000_0000_0000
    ensures Vmalloc(kroot, k, size, flags) == Some((k, 0)) <==>
      size == 0 || size > 0x1_0000_0000_0000_0000 - PAGE_SIZE
  {
    hide VmInv, Translate, FreeSet, Backed, BackPages, FirstFit;
    PagesForBytes(size);
    if PageCount(size) == 0 {
      BackNone(kroot, k.vm, 0, flags);
    } else if Vmalloc(kroot, k, size, flags) == Some((k, 0)) {
      var r := MapRange(k.ranges, PageCount(size) * PAGE_SIZE).1;
      FirstFrameTaken(kroot, k.vm, if r.Some? then r.value else 0, PageCount(size), flags);
    }
  }
}
