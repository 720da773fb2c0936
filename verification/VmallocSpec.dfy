/**
 vmalloc and vfree end to end: ranges, page tables and the buddy's free pages.

 `Kernel` is the state the three layers share.  A page number is *backed* when
 the kernel root translates it to a frame that vmalloc took from the buddy.
 */
module VmallocSpec {
  import opened Collections
  import opened Bits
  import opened BuddySpec
  import opened BuddyTheorems
  import opened PageTable
  import opened PageForest
  import opened PageRuns
  import opened VmRanges

  datatype Kernel = Kernel(vm: Vm, ranges: seq<Range>)

  /** `PAGE_COUNT(size)`, with the wrap-around of `size_t`. */
  function PageCount(size: nat): nat {
    (size + (PAGE_SIZE - 1)) % 0x1_0000_0000_0000_0000 / PAGE_SIZE
  }

  /** One iteration of `_vmalloc`: a page from the buddy, mapped at `virt` through the kernel root. */
  function BackPage(kroot: nat, s: Vm, virt: nat, flags: Flags): Option<Vm> {
    var (l, p) := AllocSpec(s.lists, 0);
    if p.None? then None
    else
      match MapWalk(l, s.forest, kroot, 3, Vpn(virt), LeafWord(p.value, flags))
      case None => None
      case Some(r) => Some(Vm(r.0, r.1))
  }

  /** The mapping loop of `_vmalloc`; `None` when the buddy runs dry. */
  function BackPages(kroot: nat, s: Vm, virt: nat, n: nat, flags: Flags): Option<Vm>
    decreases n
  {
    if n == 0 then Some(s)
    else
      match BackPage(kroot, s, virt, flags)
      case None => None
      case Some(s1) => BackPages(kroot, s1, virt + PAGE_SIZE, n - 1, flags)
  }

  /** `_vmalloc`; the address is 0 when no range was found, and the loop runs all the same. */
  function Vmalloc(kroot: nat, k: Kernel, size: nat, flags: Flags): Option<(Kernel, nat)> {
    var n := PageCount(size);
    var (rs, r) := MapRange(k.ranges, n * PAGE_SIZE);
    var addr := if r.Some? then r.value else 0;
    match BackPages(kroot, k.vm, addr, n, flags)
    case None => None
    case Some(vm) => Some((Kernel(vm, rs), addr))
  }

  /** One iteration of `_vrelease_pages`: the frame is looked up through CR3, the page unmapped from the kernel root. */
  function ReleasePage(kroot: nat, s: Vm, cr3: nat, virt: nat): Vm {
    var p := Translate(s.forest.mem, cr3, Vpn(virt));
    Vm(FreeSpec(s.lists, if p.Some? then p.value else 0, 0),
       s.forest.(mem := UnmapWalk(s.forest.mem, kroot, 3, Vpn(virt))))
  }

  function ReleasePages(kroot: nat, s: Vm, cr3: nat, virt: nat, n: nat): Vm
    decreases n
  {
    if n == 0 then s else ReleasePages(kroot, ReleasePage(kroot, s, cr3, virt), cr3, virt + PAGE_SIZE, n - 1)
  }

  /** `_vfree`. */
  function Vfree(kroot: nat, k: Kernel, cr3: nat, addr: nat): Kernel {
    var (rs, size) := ReleaseRange(k.ranges, addr);
    Kernel(if size.Some? then ReleasePages(kroot, k.vm, cr3, addr, size.value / PAGE_SIZE) else k.vm, rs)
  }

  /* ---- pages of the arena ---- */

  const ARENA_LO: nat := 0xd_0000_0000
  const ARENA_HI: nat := 0xe_0000_0000

  /** An address of the arena and its page number. */
  lemma ArenaVpn(a: nat)
    requires VMALLOC_START <= a < VMALLOC_END
    ensures Vpn(a) == ARENA_LO + (a - VMALLOC_START) / PAGE_SIZE && ARENA_LO <= Vpn(a) < ARENA_HI
  {
    var d := a - VMALLOC_START;
    assert a / 4096 == VMALLOC_START / 4096 + d / 4096;
  }

  /** The next page's number, short of the wrap-around. */
  lemma NextVpn(virt: nat)
    requires Vpn(virt) + 1 < TWO36
    ensures Vpn(virt + PAGE_SIZE) == Vpn(virt) + 1
  {
    assert (virt + 4096) / 4096 == virt / 4096 + 1;
  }

  lemma ArenaIsUpper(v: nat)
    requires ARENA_LO <= v < ARENA_HI
    ensures v < TWO36 && InUpperHalf(v)
  {
    Digits(v);
    assert v / 512 / 512 / 512 == v / 134217728;
  }

  predicate Between(v: nat, n: nat, x: nat) {
    v <= x < v + n
  }

  /** `n` page numbers from `v` on. */
  ghost function Interval(v: nat, n: nat): iset<nat> {
    iset x: nat | Between(v, n, x)
  }

  /** Every page of `pages` is backed by its own frame of `zone`, neither free nor a table. */
  ghost predicate Backed(kroot: nat, s: Vm, pages: iset<nat>, zone: iset<nat>) {
    && (forall v: nat :: v in pages ==>
          && v < TWO36 && Translate(s.forest.mem, kroot, v).Some?
          && var p := Translate(s.forest.mem, kroot, v).value; p in zone && p !in FreeSet(s.lists) && p !in s.forest.mem)
    && (forall v: nat, w: nat :: v in pages && w in pages && v != w ==>
          Translate(s.forest.mem, kroot, v) != Translate(s.forest.mem, kroot, w))
  }

  ghost predicate FrameOfPage(kroot: nat, s: Vm, pages: iset<nat>, p: nat) {
    exists v: nat :: v in pages && Translate(s.forest.mem, kroot, v) == Some(p)
  }

  /** The frames behind `pages`. */
  ghost function Frames(kroot: nat, s: Vm, pages: iset<nat>): iset<nat> {
    iset p: nat | FrameOfPage(kroot, s, pages, p)
  }

  /** Outside `pages`, below 2^36, `s'` translates as `s` does. */
  ghost predicate SameOutside(kroot: nat, s: Vm, s': Vm, pages: iset<nat>) {
    forall x: nat :: x < TWO36 && x !in pages ==> Translate(s'.forest.mem, kroot, x) == Translate(s.forest.mem, kroot, x)
  }

  /* ---- backing pages ---- */

  lemma AllocKeepsVm(kroot: nat, s: Vm)
    requires VmInv(kroot, s) && AllocSpec(s.lists, 0).1.Some?
    ensures var (l, p) := AllocSpec(s.lists, 0);
      && kroot in s.forest.owner && VmInv(kroot, Vm(l, s.forest)) && p.value < TWO51 && p.value !in s.forest.mem
      && FreeSet(s.lists) == FreeSet(l) + iset{p.value} && p.value !in FreeSet(l)
  {
    hide Core, Inv, FreeSet;
    AllocPage(s.lists);
    assert AllocSpec(s.lists, 0).1.value in FreeSet(s.lists);
  }

  /** One page of vmalloc: its frame and the new tables leave the free pages, one translation appears. */
  lemma BackPageEffect(kroot: nat, s: Vm, virt: nat, flags: Flags)
    requires VmInv(kroot, s) && BackPage(kroot, s, virt, flags).Some?
    ensures AllocSpec(s.lists, 0).1.Some?
    ensures var s' := BackPage(kroot, s, virt, flags).value; var p := AllocSpec(s.lists, 0).1.value;
      && VmInv(kroot, s') && s'.forest.owner == s.forest.owner && s.forest.mem.Keys <= s'.forest.mem.Keys
      && FreeSet(s.lists) == FreeSet(s'.lists) + NewTables(s.forest, s'.forest) + iset{p}
      && p !in FreeSet(s'.lists) && p !in s'.forest.mem && FreeSet(s'.lists) !! NewTables(s.forest, s'.forest)
      && Translate(s'.forest.mem, kroot, Vpn(virt)) == Some(p)
      && SameOutside(kroot, s, s', Interval(Vpn(virt), 1))
  {
    hide Core, Fresh, Upper, Translate, MapWalk, Inv, FreeSet, LeafWord;
    AllocKeepsVm(kroot, s);
    var l, p := AllocSpec(s.lists, 0).0, AllocSpec(s.lists, 0).1.value;
    var s1, op := Vm(l, s.forest), Map(kroot, Vpn(virt), p, flags);
    var s' := BackPage(kroot, s, virt, flags).value;
    CoreRoots(s.forest);
    MapStep(kroot, s1, op);
    assert s' == Step(kroot, s1, op);
    RootOnWalk(s.forest, kroot, Vpn(virt));
    WordFacts(p, flags);
    MapKeepsCore(l, s.forest, kroot, 3, Vpn(virt), LeafWord(p, flags));
    forall x: nat | x < TWO36
      ensures Translate(s'.forest.mem, kroot, x) == if x == Vpn(virt) then Some(p) else Translate(s.forest.mem, kroot, x)
    {
      MapTranslates(kroot, s1, op, kroot, x);
    }
  }

  /** A page just backed joins the backed pages. */
  lemma BackPageBacked(kroot: nat, s: Vm, virt: nat, flags: Flags, pages: iset<nat>, zone: iset<nat>)
    requires VmInv(kroot, s) && BackPage(kroot, s, virt, flags).Some?
    requires Backed(kroot, s, pages, zone) && FreeSet(s.lists) <= zone && Vpn(virt) !in pages
    ensures var s' := BackPage(kroot, s, virt, flags).value;
      && Backed(kroot, s', pages + iset{Vpn(virt)}, zone) && FreeSet(s'.lists) <= zone
      && FreeSet(s.lists) == FreeSet(s'.lists) + NewTables(s.forest, s'.forest) + Frames(kroot, s', iset{Vpn(virt)})
  {
    hide VmInv, Translate, BackPage, FreeSet;
    BackPageEffect(kroot, s, virt, flags);
    var s', p, v := BackPage(kroot, s, virt, flags).value, AllocSpec(s.lists, 0).1.value, Vpn(virt);
    assert p in FreeSet(s.lists);
    forall x: nat | x in pages
      ensures Translate(s'.forest.mem, kroot, x) == Translate(s.forest.mem, kroot, x)
      ensures var q := Translate(s.forest.mem, kroot, x); q.Some? && q.value !in FreeSet(s'.lists) && q.value !in s'.forest.mem && q.value != p
    {
      var q := Translate(s.forest.mem, kroot, x).value;
      assert q !in FreeSet(s.lists);
      assert q in s'.forest.mem ==> q in s.forest.mem || q in NewTables(s.forest, s'.forest);
    }
    assert Frames(kroot, s', iset{v}) == iset{p} by {
      forall q: nat ensures FrameOfPage(kroot, s', iset{v}, q) <==> q == p {
        assert v in iset{v};
      }
    }
  }

  lemma NoPages(kroot: nat, s: Vm, v: nat)
    ensures Interval(v, 0) == iset{} && Frames(kroot, s, iset{}) == iset{} && NewTables(s.forest, s.forest) == iset{}
  {
  }

  lemma SplitInterval(v: nat, n: nat)
    requires n > 0
    ensures Interval(v, n) == iset{v} + Interval(v + 1, n - 1) && v !in Interval(v + 1, n - 1)
  {
  }

  /** The frames of a range are the first page's and the rest's. */
  lemma JoinFrames(kroot: nat, s1: Vm, s': Vm, v: nat, n: nat)
    requires n > 0 && v < TWO36 && SameOutside(kroot, s1, s', Interval(v + 1, n - 1))
    ensures Frames(kroot, s', Interval(v, n)) == Frames(kroot, s1, iset{v}) + Frames(kroot, s', Interval(v + 1, n - 1))
  {
    hide Translate;
    SplitInterval(v, n);
    forall q: nat
      ensures FrameOfPage(kroot, s', Interval(v, n), q) <==>
        FrameOfPage(kroot, s1, iset{v}, q) || FrameOfPage(kroot, s', Interval(v + 1, n - 1), q)
    {
      assert v in iset{v};
    }
  }

  /** All pages of a range: backed by frames and tables taken from the buddy, everything else untouched. */
  lemma {:induction false} BackPagesEffect(kroot: nat, s: Vm, virt: nat, n: nat, flags: Flags, pages: iset<nat>, zone: iset<nat>)
    requires VmInv(kroot, s) && BackPages(kroot, s, virt, n, flags).Some? && Vpn(virt) + n <= TWO36
    requires Backed(kroot, s, pages, zone) && FreeSet(s.lists) <= zone && Interval(Vpn(virt), n) !! pages
    ensures var s' := BackPages(kroot, s, virt, n, flags).value; var new' := Interval(Vpn(virt), n);
      && VmInv(kroot, s') && s'.forest.owner == s.forest.owner && s.forest.mem.Keys <= s'.forest.mem.Keys
      && Backed(kroot, s', pages + new', zone) && FreeSet(s'.lists) <= zone
      && FreeSet(s.lists) == FreeSet(s'.lists) + NewTables(s.forest, s'.forest) + Frames(kroot, s', new')
      && FreeSet(s'.lists) !! NewTables(s.forest, s'.forest)
      && SameOutside(kroot, s, s', new')
    decreases n
  {
    hide VmInv, Translate, BackPage, FreeSet, Backed;
    var v := Vpn(virt);
    if n == 0 {
      NoPages(kroot, s, v);
      assert pages + Interval(v, 0) == pages;
    } else {
      var s1 := BackPage(kroot, s, virt, flags).value;
      assert v in Interval(v, n);
      BackPageEffect(kroot, s, virt, flags);
      BackPageBacked(kroot, s, virt, flags, pages, zone);
      var s' := BackPages(kroot, s, virt, n, flags).value;
      if n > 1 {
        NextVpn(virt);
        SplitInterval(v, n);
        BackPagesEffect(kroot, s1, virt + PAGE_SIZE, n - 1, flags, pages + iset{v}, zone);
        assert pages + iset{v} + Interval(v + 1, n - 1) == pages + Interval(v, n);
        JoinFrames(kroot, s1, s', v, n);
      } else {
        assert BackPages(kroot, s1, virt + PAGE_SIZE, 0, flags) == Some(s1);
        assert Interval(v, 1) == iset{v};
      }
    }
  }

  /** Outside `pages`, below 2^36, `s'` has the leaf words of `s`. */
  ghost predicate SameWords(kroot: nat, s: Vm, s': Vm, pages: iset<nat>) {
    forall x: nat :: x < TWO36 && x !in pages ==> Lookup(s'.forest.mem, kroot, 3, x) == Lookup(s.forest.mem, kroot, 3, x)
  }

  lemma BackPageFlags(kroot: nat, s: Vm, virt: nat, flags: Flags)
    requires VmInv(kroot, s) && BackPage(kroot, s, virt, flags).Some?
    ensures var s' := BackPage(kroot, s, virt, flags).value; var v := Vpn(virt);
      VmInv(kroot, s') && MappedWith(s'.forest.mem, kroot, v, flags) && SameWords(kroot, s, s', iset{v})
  {
    hide Core, Fresh, Upper, Lookup, MapWalk, Inv, FreeSet, LeafWord, MappedWith;
    AllocKeepsVm(kroot, s);
    var l, p := AllocSpec(s.lists, 0).0, AllocSpec(s.lists, 0).1.value;
    var s1, op := Vm(l, s.forest), Map(kroot, Vpn(virt), p, flags);
    CoreRoots(s.forest);
    MapStep(kroot, s1, op);
    assert BackPage(kroot, s, virt, flags).value == Step(kroot, s1, op);
    forall x: nat | x < TWO36
      ensures x == Vpn(virt) ==> MappedWith(Step(kroot, s1, op).forest.mem, kroot, x, flags)
      ensures x != Vpn(virt) ==> Lookup(Step(kroot, s1, op).forest.mem, kroot, 3, x) == Lookup(s.forest.mem, kroot, 3, x)
    {
      MapStoresFlags(kroot, s1, op, kroot, x);
    }
  }

  /** Every page of the range is mapped with exactly the flags asked for, and no other leaf word changes. */
  lemma {:induction false} BackPagesFlags(kroot: nat, s: Vm, virt: nat, n: nat, flags: Flags)
    requires VmInv(kroot, s) && BackPages(kroot, s, virt, n, flags).Some? && Vpn(virt) + n <= TWO36
    ensures var s' := BackPages(kroot, s, virt, n, flags).value; var new' := Interval(Vpn(virt), n);
      && (forall x: nat :: x in new' ==> MappedWith(s'.forest.mem, kroot, x, flags))
      && SameWords(kroot, s, s', new')
    decreases n
  {
    hide VmInv, Lookup, BackPage, MappedWith;
    var v := Vpn(virt);
    if n == 0 {
    } else {
      var s1 := BackPage(kroot, s, virt, flags).value;
      var s' := BackPages(kroot, s, virt, n, flags).value;
      BackPageFlags(kroot, s, virt, flags);
      SplitInterval(v, n);
      if n > 1 {
        NextVpn(virt);
        BackPagesFlags(kroot, s1, virt + PAGE_SIZE, n - 1, flags);
        SameWord(kroot, s1, s', v, flags);
      } else {
        assert BackPages(kroot, s1, virt + PAGE_SIZE, 0, flags) == Some(s1);
      }
    }
  }

  lemma SameWord(kroot: nat, s: Vm, s': Vm, v: nat, flags: Flags)
    requires Lookup(s'.forest.mem, kroot, 3, v) == Lookup(s.forest.mem, kroot, 3, v)
    ensures MappedWith(s'.forest.mem, kroot, v, flags) <==> MappedWith(s.forest.mem, kroot, v, flags)
  {
  }

  /* ---- releasing pages ---- */

  lemma FreeKeepsVm(kroot: nat, s: Vm, p: nat)
    requires VmInv(kroot, s) && p !in FreeSet(s.lists) && p !in s.forest.mem && p < TWO51
    ensures var l := FreeSpec(s.lists, p, 0);
      VmInv(kroot, Vm(l, s.forest)) && FreeSet(l) == FreeSet(s.lists) + iset{p}
  {
    hide Core, Upper, FreeSpec;
    assert Block(p, 0) == iset{p};
    assert Taken(s.lists, p, 0) by {
      forall q: nat | InBlock(q, p, 0) ensures !FreePage(s.lists, q) {
        assert q == p;
      }
    }
    FreeKeepsInv(s.lists, p, 0);
  }

  /** CR3 may be any root: the arena lies in the kernel half. */
  lemma Cr3SeesArena(kroot: nat, s: Vm, cr3: nat, v: nat)
    requires VmInv(kroot, s) && cr3 in s.forest.owner && ARENA_LO <= v < ARENA_HI
    ensures kroot in s.forest.owner && Translate(s.forest.mem, cr3, v) == Translate(s.forest.mem, kroot, v)
  {
    hide Core, Fresh, Translate;
    ArenaIsUpper(v);
    IndexBound(3, v);
    SameSpaceSameFrame(s.forest, cr3, kroot, v);
  }

  /** One page of vfree: exactly its frame returns to the free pages, exactly its translation ends. */
  lemma ReleasePageEffect(kroot: nat, s: Vm, cr3: nat, virt: nat, pages: iset<nat>, zone: iset<nat>)
    requires VmInv(kroot, s) && cr3 in s.forest.owner && ARENA_LO <= Vpn(virt) < ARENA_HI
    requires Backed(kroot, s, pages, zone) && Vpn(virt) in pages && (forall q :: q in zone ==> q < TWO51)
    ensures var s' := ReleasePage(kroot, s, cr3, virt); var v := Vpn(virt);
      && VmInv(kroot, s') && s'.forest.owner == s.forest.owner && s'.forest.mem.Keys == s.forest.mem.Keys
      && Translate(s.forest.mem, kroot, v).Some?
      && FreeSet(s'.lists) == FreeSet(s.lists) + iset{Translate(s.forest.mem, kroot, v).value}
      && Translate(s'.forest.mem, kroot, v) == None && SameOutside(kroot, s, s', iset{v})
  {
    hide Core, Fresh, Upper, Translate, UnmapWalk, FreeSpec, FreeSet;
    var v := Vpn(virt);
    Cr3SeesArena(kroot, s, cr3, v);
    var p := Translate(s.forest.mem, kroot, v).value;
    FreeKeepsVm(kroot, s, p);
    var s1, op := Vm(FreeSpec(s.lists, p, 0), s.forest), Unmap(kroot, v);
    CoreRoots(s.forest);
    UnmapStep(kroot, s1, op);
    RootOnWalk(s.forest, kroot, v);
    UnmapKeepsCore(s.forest, kroot, 3, v);
    forall x: nat | x < TWO36
      ensures Translate(Step(kroot, s1, op).forest.mem, kroot, x) == if x == v then None else Translate(s.forest.mem, kroot, x)
    {
      UnmapTranslates(kroot, s1, op, kroot, x);
    }
  }

  lemma ReleasePageBacked(kroot: nat, s: Vm, cr3: nat, virt: nat, pages: iset<nat>, zone: iset<nat>)
    requires VmInv(kroot, s) && cr3 in s.forest.owner && ARENA_LO <= Vpn(virt) < ARENA_HI
    requires Backed(kroot, s, pages, zone) && Vpn(virt) in pages && (forall q :: q in zone ==> q < TWO51)
    ensures Backed(kroot, ReleasePage(kroot, s, cr3, virt), pages - iset{Vpn(virt)}, zone)
  {
    hide VmInv, Translate, ReleasePage, FreeSet;
    ReleasePageEffect(kroot, s, cr3, virt, pages, zone);
    var s', v := ReleasePage(kroot, s, cr3, virt), Vpn(virt);
    forall x: nat | x in pages && x != v
      ensures Translate(s'.forest.mem, kroot, x) == Translate(s.forest.mem, kroot, x)
      ensures Translate(s.forest.mem, kroot, x).value !in FreeSet(s'.lists)
    {
      assert Translate(s.forest.mem, kroot, x) != Translate(s.forest.mem, kroot, v);
    }
  }

  /** All pages of a range: each frame goes back once, and nothing else moves. */
  lemma {:induction false} ReleasePagesEffect(kroot: nat, s: Vm, cr3: nat, virt: nat, n: nat, pages: iset<nat>, zone: iset<nat>)
    requires VmInv(kroot, s) && cr3 in s.forest.owner && (n > 0 ==> ARENA_LO <= Vpn(virt)) && Vpn(virt) + n <= ARENA_HI
    requires Backed(kroot, s, pages, zone) && Interval(Vpn(virt), n) <= pages && (forall q :: q in zone ==> q < TWO51)
    ensures var s' := ReleasePages(kroot, s, cr3, virt, n); var gone := Interval(Vpn(virt), n);
      && VmInv(kroot, s') && s'.forest.owner == s.forest.owner && s'.forest.mem.Keys == s.forest.mem.Keys
      && Backed(kroot, s', pages - gone, zone)
      && FreeSet(s'.lists) == FreeSet(s.lists) + Frames(kroot, s, gone)
      && SameOutside(kroot, s, s', gone)
      && (forall x: nat :: x in gone ==> Translate(s'.forest.mem, kroot, x) == None)
    decreases n
  {
    hide VmInv, Translate, ReleasePage, FreeSet, Backed;
    var v := Vpn(virt);
    if n == 0 {
      NoPages(kroot, s, v);
      assert pages - Interval(v, 0) == pages;
    } else {
      var s1 := ReleasePage(kroot, s, cr3, virt);
      assert v in Interval(v, n);
      ReleasePageEffect(kroot, s, cr3, virt, pages, zone);
      ReleasePageBacked(kroot, s, cr3, virt, pages, zone);
      SplitInterval(v, n);
      NextVpn(virt);
      ReleasePagesEffect(kroot, s1, cr3, virt + PAGE_SIZE, n - 1, pages - iset{v}, zone);
      assert pages - iset{v} - Interval(v + 1, n - 1) == pages - Interval(v, n);
      ReleasedFrames(kroot, s, s1, v, n);
    }
  }

  lemma ReleasedFrames(kroot: nat, s: Vm, s1: Vm, v: nat, n: nat)
    requires n > 0 && v + n <= TWO36 && SameOutside(kroot, s, s1, iset{v}) && Translate(s.forest.mem, kroot, v).Some?
    ensures Frames(kroot, s, Interval(v, n)) == iset{Translate(s.forest.mem, kroot, v).value} + Frames(kroot, s1, Interval(v + 1, n - 1))
  {
    hide Translate;
    SplitInterval(v, n);
    forall q: nat
      ensures FrameOfPage(kroot, s, Interval(v, n), q) <==>
        Translate(s.forest.mem, kroot, v) == Some(q) || FrameOfPage(kroot, s1, Interval(v + 1, n - 1), q)
    {
      assert v in Interval(v, n);
    }
  }
}
