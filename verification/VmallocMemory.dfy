/**
 How much memory the arena needs.

 Four free pages for every page asked for suffice at any address.  In the arena
 it is one page each, and one for every page table the arena still lacks: the
 sum of the free pages and the arena's tables falls by exactly one per page.
 */
module VmallocMemory {
  import opened Collections
  import Bits
  import opened BuddySpec
  import opened BuddyTheorems
  import opened PageTable
  import opened PageForest
  import opened PageRuns
  import opened VmRanges
  import opened VmallocSpec
  import opened VmallocTheorems

  lemma {:induction false} NoWeight(l: seq<seq<nat>>)
    requires forall o :: 0 <= o < |l| ==> l[o] == []
    ensures Weight(l) == 0
  {
    if l == [] {
    } else {
      NoWeight(l[..|l| - 1]);
      NoShift(|l| - 1);
    }
  }

  lemma {:induction false} NoShift(o: nat)
    ensures Bits.Shl(0, o) == 0
  {
    if o == 0 {
    } else {
      NoShift(o - 1);
    }
  }

  /** A page can be allocated whenever any is free. */
  lemma PageAvailable(l: Lists)
    requires Inv(l) && Weight(l) > 0
    ensures AllocSpec(l, 0).1.Some?
  {
    hide Inv, AllocSpec;
    AllocKeepsInv(l, 0);
    if AllocSpec(l, 0).1.None? {
      NoWeight(l);
    }
  }

  /** A map needs no more pages than levels it may have to fill in. */
  lemma {:induction false} MapSucceeds(l: Lists, f: Forest, t: nat, level: nat, v: nat, word: nat)
    requires Core(f) && Fresh(l, f) && OnWalk(f, t, level, v) && level <= 3 && Weight(l) >= level
    ensures MapWalk(l, f, t, level, v, word).Some?
    ensures Weight(MapWalk(l, f, t, level, v, word).value.0) >= Weight(l) - level
    decreases level
  {
    hide Core, Inv, FreeSet, AllocSpec, Weight;
    IndexBound(level, v);
    if level == 0 {
    } else {
      CoreEdges(f);
      var w := Entry(f.mem, t, Index(level, v));
      if Present(w) {
        StepOnWalk(f, t, level, v);
        MapSucceeds(l, f, FrameOf(w), level - 1, v, word);
      } else {
        PageAvailable(l);
        AllocPage(l);
        GrowPages(l, f, t, level, v);
        var (l1, g) := Grown(l, f, t, level, v);
        CoreEdges(g);
        WordFacts(AllocSpec(l, 0).1.value, Flags(false, false, false, false));
        StepOnWalk(g, t, level, v);
        MapSucceeds(l1, g, AllocSpec(l, 0).1.value, level - 1, v, word);
      }
    }
  }

  lemma BackPageSucceeds(kroot: nat, s: Vm, virt: nat, flags: Flags)
    requires VmInv(kroot, s) && Weight(s.lists) >= 4
    ensures BackPage(kroot, s, virt, flags).Some?
    ensures Weight(BackPage(kroot, s, virt, flags).value.lists) >= Weight(s.lists) - 4
  {
    hide Core, Upper, FreeSet, Weight, MapWalk;
    PageAvailable(s.lists);
    AllocPage(s.lists);
    AllocKeepsVm(kroot, s);
    CoreRoots(s.forest);
    RootOnWalk(s.forest, kroot, Vpn(virt));
    var (l, p) := AllocSpec(s.lists, 0);
    MapSucceeds(l, s.forest, kroot, 3, Vpn(virt), LeafWord(p.value, flags));
  }

  /** Four free pages for every page asked for are always enough. */
  lemma {:induction false} EnoughPages(kroot: nat, s: Vm, virt: nat, n: nat, flags: Flags)
    requires VmInv(kroot, s) && Weight(s.lists) >= 4 * n
    ensures BackPages(kroot, s, virt, n, flags).Some?
    decreases n
  {
    hide VmInv, BackPage, Weight, Translate;
    if n == 0 {
    } else {
      BackPageSucceeds(kroot, s, virt, flags);
      BackPageEffect(kroot, s, virt, flags);
      EnoughPages(kroot, BackPage(kroot, s, virt, flags).value, virt + PAGE_SIZE, n - 1, flags);
    }
  }

  /* ---- the tables of the arena ---- */

  const ARENA_TABLES: nat := 0x80_0000 + 0x4000 + 0x20

  /** Level-`level` prefixes of the arena's pages run from `FirstPrefix`, `PrefixCount` of them. */
  function FirstPrefix(level: nat): nat {
    if level == 0 then 0x680_0000 else if level == 1 then 0x3_4000 else 0x1a0
  }

  function PrefixCount(level: nat): nat {
    if level == 0 then 0x80_0000 else if level == 1 then 0x4000 else 0x20
  }

  /** The root slot above a prefix. */
  function TopDigit(level: nat, prefix: nat): nat {
    if level == 0 then prefix / 512 / 512 else if level == 1 then prefix / 512 else prefix
  }

  function ArenaTag(f: Forest, kroot: nat, level: nat, prefix: nat): Tag {
    Tag(SlotSpace(f, kroot, TopDigit(level, prefix)), level, prefix)
  }

  predicate IsArenaTag(f: Forest, kroot: nat, t: Tag) {
    && t.level <= 2 && FirstPrefix(t.level) <= t.prefix < FirstPrefix(t.level) + PrefixCount(t.level)
    && t == ArenaTag(f, kroot, t.level, t.prefix)
  }

  /** The first `n` tags of one level. */
  function LevelTags(f: Forest, kroot: nat, level: nat, n: nat): (s: set<Tag>)
    ensures |s| <= n
    ensures forall t :: t in s <==>
      t.level == level && FirstPrefix(level) <= t.prefix < FirstPrefix(level) + n && t == ArenaTag(f, kroot, level, t.prefix)
  {
    if n == 0 then {} else LevelTags(f, kroot, level, n - 1) + {ArenaTag(f, kroot, level, FirstPrefix(level) + n - 1)}
  }

  function ArenaTags(f: Forest, kroot: nat): (s: set<Tag>)
    ensures |s| <= ARENA_TABLES
    ensures forall t :: t in s <==> IsArenaTag(f, kroot, t)
  {
    var s := LevelTags(f, kroot, 0, PrefixCount(0)) + LevelTags(f, kroot, 1, PrefixCount(1)) + LevelTags(f, kroot, 2, PrefixCount(2));
    assert forall t :: t in s <==> IsArenaTag(f, kroot, t);
    s
  }

  function Tagged(tags: map<nat, Tag>, allowed: set<Tag>): set<nat> {
    set t | t in tags && tags[t] in allowed
  }

  /** The tables that serve the arena in the kernel's space. */
  function ArenaTables(f: Forest, kroot: nat): set<nat> {
    Tagged(f.tags, ArenaTags(f, kroot))
  }

  lemma OneMoreTagged(tags: map<nat, Tag>, tags': map<nat, Tag>, p: nat, allowed: set<Tag>)
    requires tags'.Keys == tags.Keys + {p} && p !in tags && tags'[p] in allowed
    requires forall t :: t in tags ==> tags'[t] == tags[t]
    ensures |Tagged(tags', allowed)| == |Tagged(tags, allowed)| + 1
  {
    forall t: nat ensures t in Tagged(tags', allowed) <==> t in Tagged(tags, allowed) || t == p {
      assert t in tags'.Keys <==> t in tags.Keys || t == p;
    }
    assert Tagged(tags', allowed) == Tagged(tags, allowed) + {p};
  }

  /** Tables with tags of their own are no more than the tags. */
  lemma {:induction false} OneTagEach(tags: map<nat, Tag>, tables: set<nat>, allowed: set<Tag>)
    requires forall t :: t in tables ==> t in tags && tags[t] in allowed
    requires forall t, u :: t in tables && u in tables && tags[t] == tags[u] ==> t == u
    ensures |tables| <= |allowed|
    decreases |tables|
  {
    if tables == {} {
    } else {
      var t :| t in tables;
      OneTagEach(tags, tables - {t}, allowed - {tags[t]});
    }
  }

  /** While a slot of the arena is empty, the arena has fewer tables than tags. */
  lemma GapLeavesRoom(f: Forest, kroot: nat, t: nat, i: nat)
    requires Core(f) && Gap(f, t, i) && IsArenaTag(f, kroot, ChildTag(f, t, i))
    ensures |ArenaTables(f, kroot)| < |ArenaTags(f, kroot)|
  {
    hide ArenaTags, IsArenaTag, Entry;
    var missing := ChildTag(f, t, i);
    assert TagsInjective(f) && Gaps(f);
    hide Core;
    OneTagEach(f.tags, ArenaTables(f, kroot), ArenaTags(f, kroot) - {missing});
    assert missing in ArenaTags(f, kroot);
  }

  lemma SameArenaTags(f: Forest, g: Forest, kroot: nat)
    requires g.owner == f.owner && kroot in f.owner && |f.owner[kroot]| == ENTRIES
    ensures forall t :: IsArenaTag(g, kroot, t) <==> IsArenaTag(f, kroot, t)
    ensures ArenaTags(g, kroot) == ArenaTags(f, kroot)
  {
    hide ArenaTags;
    forall t ensures IsArenaTag(g, kroot, t) <==> IsArenaTag(f, kroot, t) {
      assert FirstPrefix(t.level) <= t.prefix < FirstPrefix(t.level) + PrefixCount(t.level) && t.level <= 2 ==> TopDigit(t.level, t.prefix) < ENTRIES;
    }
  }

  /** One more table. */
  lemma InstalledCounts(f: Forest, g: Forest, kroot: nat, t: nat, i: nat, p: nat)
    requires Installed(f, g, t, i, p) && IsArenaTag(f, kroot, ChildTag(f, t, i)) && kroot in f.owner && |f.owner[kroot]| == ENTRIES
    ensures |ArenaTables(g, kroot)| == |ArenaTables(f, kroot)| + 1 && ArenaTags(g, kroot) == ArenaTags(f, kroot)
  {
    hide IsArenaTag, ArenaTags, ChildTag, Entry, Tagged;
    SameArenaTags(f, g, kroot);
    OneMoreTagged(f.tags, g.tags, p, ArenaTags(f, kroot));
  }

  lemma SameTagsCount(f: Forest, g: Forest, kroot: nat)
    requires g.tags == f.tags && g.owner == f.owner
    ensures ArenaTables(g, kroot) == ArenaTables(f, kroot) && ArenaTags(g, kroot) == ArenaTags(f, kroot)
  {
    hide ArenaTags, Tagged;
    forall t ensures IsArenaTag(g, kroot, t) <==> IsArenaTag(f, kroot, t) {
      assert SlotSpace(g, kroot, TopDigit(t.level, t.prefix)) == SlotSpace(f, kroot, TopDigit(t.level, t.prefix));
    }
    hide IsArenaTag;
    assert ArenaTags(g, kroot) == ArenaTags(f, kroot);
  }

  /** A table below the root on the walk of an arena page, in the kernel's space, has an arena tag. */
  lemma WalkTagInArena(f: Forest, kroot: nat, level: nat, v: nat)
    requires ARENA_LO <= v < ARENA_HI && level <= 2
    ensures IsArenaTag(f, kroot, Tag(SlotSpace(f, kroot, Index(3, v)), level, Prefix(level, v)))
  {
    Digits(v);
    var a := v / 512;
    var b := a / 512;
    assert Prefix(0, v) == a && Prefix(1, v) == Prefix(0, a) == b && Prefix(2, v) == Prefix(1, a) == Prefix(0, b) == b / 512;
    assert 0x680_0000 <= a < 0x700_0000;
    assert 0x3_4000 <= b < 0x3_8000;
    assert 0x1a0 <= b / 512 < 0x1c0;
  }

  /** Free pages and arena tables together. */
  function Reserve(l: Lists, f: Forest, kroot: nat): int {
    Weight(l) + |ArenaTables(f, kroot)|
  }

  /** The walk stands on a table of the kernel's space. */
  ghost predicate InKernelSpace(f: Forest, kroot: nat, t: nat, level: nat, v: nat) {
    SlotSpace(f, t, Index(level, v)) == SlotSpace(f, kroot, Index(3, v))
  }

  lemma RootRow(f: Forest, kroot: nat)
    requires Core(f) && kroot in f.owner
    ensures |f.owner[kroot]| == ENTRIES
  {
  }

  lemma ChildOnWalk(f: Forest, kroot: nat, t: nat, level: nat, v: nat)
    requires Core(f) && OnWalk(f, t, level, v) && 1 <= level <= 3 && InKernelSpace(f, kroot, t, level, v)
    ensures ChildTag(f, t, Index(level, v)) == Tag(SlotSpace(f, kroot, Index(3, v)), level - 1, Prefix(level - 1, v))
  {
    hide Core;
    PrefixStep(level - 1, v);
  }

  lemma ChildInSpace(f: Forest, kroot: nat, t: nat, c: nat, level: nat, v: nat)
    requires Core(f) && OnWalk(f, t, level, v) && 1 <= level <= 3 && InKernelSpace(f, kroot, t, level, v)
    requires Points(f, t, Index(level, v), c)
    ensures InKernelSpace(f, kroot, c, level - 1, v)
  {
    CoreEdges(f);
    assert RootsOk(f);
    hide Core;
    ChildOnWalk(f, kroot, t, level, v);
  }

  /** A map in the arena takes nothing from the reserve and succeeds while it covers the tables there can be. */
  lemma {:induction false} MapSucceedsInArena(l: Lists, f: Forest, kroot: nat, t: nat, level: nat, v: nat, word: nat)
    requires Core(f) && Fresh(l, f) && OnWalk(f, t, level, v) && level <= 3 && ARENA_LO <= v < ARENA_HI
    requires kroot in f.owner && InKernelSpace(f, kroot, t, level, v)
    requires Reserve(l, f, kroot) >= |ArenaTags(f, kroot)|
    ensures MapWalk(l, f, t, level, v, word).Some?
    ensures var (l1, g) := MapWalk(l, f, t, level, v, word).value;
      Reserve(l1, g, kroot) == Reserve(l, f, kroot) && ArenaTags(g, kroot) == ArenaTags(f, kroot)
    decreases level
  {
    hide Core, Inv, FreeSet, AllocSpec, Weight, ArenaTables, ArenaTags, IsArenaTag, InKernelSpace;
    IndexBound(level, v);
    if level == 0 {
      SameTagsCount(f, f.(mem := Write(f.mem, t, Index(0, v), word)), kroot);
    } else {
      var i := Index(level, v);
      var w := Entry(f.mem, t, i);
      if Present(w) {
        CoreEdges(f);
        StepOnWalk(f, t, level, v);
        ChildInSpace(f, kroot, t, FrameOf(w), level, v);
        MapSucceedsInArena(l, f, kroot, FrameOf(w), level - 1, v, word);
      } else {
        GrowInArena(l, f, kroot, t, level, v);
        var (l1, g) := Grown(l, f, t, level, v);
        MapSucceedsInArena(l1, g, kroot, AllocSpec(l, 0).1.value, level - 1, v, word);
      }
    }
  }

  lemma GrowInArena(l: Lists, f: Forest, kroot: nat, t: nat, level: nat, v: nat)
    requires Core(f) && Fresh(l, f) && OnWalk(f, t, level, v) && 1 <= level <= 3 && ARENA_LO <= v < ARENA_HI
    requires kroot in f.owner && InKernelSpace(f, kroot, t, level, v) && !Present(Entry(f.mem, t, Index(level, v)))
    requires Reserve(l, f, kroot) >= |ArenaTags(f, kroot)|
    ensures AllocSpec(l, 0).1.Some?
    ensures var (l1, g) := Grown(l, f, t, level, v); var p := AllocSpec(l, 0).1.value;
      && Core(g) && Fresh(l1, g) && OnWalk(g, p, level - 1, v) && kroot in g.owner && InKernelSpace(g, kroot, p, level - 1, v)
      && Reserve(l1, g, kroot) == Reserve(l, f, kroot) && ArenaTags(g, kroot) == ArenaTags(f, kroot)
  {
    hide Core, Inv, FreeSet, AllocSpec, Weight, ArenaTables, ArenaTags, IsArenaTag, InKernelSpace;
    var i := Index(level, v);
    IndexBound(level, v);
    ChildOnWalk(f, kroot, t, level, v);
    WalkTagInArena(f, kroot, level - 1, v);
    GapLeavesRoom(f, kroot, t, i);
    PageAvailable(l);
    AllocPage(l);
    GrowPages(l, f, t, level, v);
    var (l1, g) := Grown(l, f, t, level, v);
    var p := AllocSpec(l, 0).1.value;
    RootRow(f, kroot);
    InstalledCounts(f, g, kroot, t, i, p);
    CoreEdges(g);
    WordFacts(p, Flags(false, false, false, false));
    StepOnWalk(g, t, level, v);
    SameSpaceInGrown(f, g, kroot, t, i, p, level, v);
    ChildInSpace(g, kroot, t, p, level, v);
  }

  lemma SameSpaceInGrown(f: Forest, g: Forest, kroot: nat, t: nat, i: nat, p: nat, level: nat, v: nat)
    requires Core(f) && Installed(f, g, t, i, p) && OnWalk(f, t, level, v) && InKernelSpace(f, kroot, t, level, v) && kroot in f.owner
    ensures OnWalk(g, t, level, v) && InKernelSpace(g, kroot, t, level, v)
  {
    assert RootsOk(f);
    hide Core;
    SameSlots(f, g, t, Index(level, v));
    SameSlots(f, g, kroot, Index(3, v));
  }

  /* ---- vmalloc and vfree ---- */

  lemma BackPageInArena(kroot: nat, s: Vm, virt: nat, flags: Flags)
    requires VmInv(kroot, s) && ARENA_LO <= Vpn(virt) < ARENA_HI
    requires Reserve(s.lists, s.forest, kroot) >= |ArenaTags(s.forest, kroot)| + 1
    ensures BackPage(kroot, s, virt, flags).Some?
    ensures var s' := BackPage(kroot, s, virt, flags).value;
      && Reserve(s'.lists, s'.forest, kroot) == Reserve(s.lists, s.forest, kroot) - 1
      && ArenaTags(s'.forest, kroot) == ArenaTags(s.forest, kroot)
  {
    hide Core, Inv, FreeSet, Weight, MapWalk, ArenaTags, Upper, Fresh;
    TablesAreFew(s.forest, kroot);
    PageAvailableIn(s);
    AllocKeepsVm(kroot, s);
    CoreRoots(s.forest);
    RootOnWalk(s.forest, kroot, Vpn(virt));
    var (l, p) := AllocSpec(s.lists, 0);
    MapSucceedsInArena(l, s.forest, kroot, kroot, 3, Vpn(virt), LeafWord(p.value, flags));
  }

  lemma PageAvailableIn(s: Vm)
    requires Core(s.forest) && Fresh(s.lists, s.forest) && Weight(s.lists) > 0
    ensures AllocSpec(s.lists, 0).1.Some? && Weight(AllocSpec(s.lists, 0).0) == Weight(s.lists) - 1
  {
    hide Core, Inv, FreeSet, Weight, AllocSpec;
    PageAvailable(s.lists);
    AllocPage(s.lists);
  }

  lemma TablesAreFew(f: Forest, kroot: nat)
    requires Core(f)
    ensures |ArenaTables(f, kroot)| <= |ArenaTags(f, kroot)|
  {
    hide ArenaTags, IsArenaTag;
    assert TagsInjective(f);
    hide Core;
    OneTagEach(f.tags, ArenaTables(f, kroot), ArenaTags(f, kroot));
  }

  /** A page each, and one for every table the arena can lack, suffice for a range of the arena. */
  lemma {:induction false} EnoughForArena(kroot: nat, s: Vm, virt: nat, n: nat, flags: Flags)
    requires VmInv(kroot, s) && (n > 0 ==> ARENA_LO <= Vpn(virt)) && Vpn(virt) + n <= ARENA_HI
    requires Reserve(s.lists, s.forest, kroot) >= |ArenaTags(s.forest, kroot)| + n
    ensures BackPages(kroot, s, virt, n, flags).Some?
    ensures var s' := BackPages(kroot, s, virt, n, flags).value;
      && Reserve(s'.lists, s'.forest, kroot) == Reserve(s.lists, s.forest, kroot) - n
      && ArenaTags(s'.forest, kroot) == ArenaTags(s.forest, kroot)
    decreases n
  {
    hide VmInv, BackPage, Reserve, Translate, ArenaTags;
    if n == 0 {
    } else {
      BackPageInArena(kroot, s, virt, flags);
      BackPageEffect(kroot, s, virt, flags);
      NextVpn(virt);
      EnoughForArena(kroot, BackPage(kroot, s, virt, flags).value, virt + PAGE_SIZE, n - 1, flags);
    }
  }

  lemma FreeWeighs(kroot: nat, s: Vm, p: nat)
    requires VmInv(kroot, s) && p !in FreeSet(s.lists)
    ensures Weight(FreeSpec(s.lists, p, 0)) == Weight(s.lists) + 1
  {
    hide Core, Upper, FreeSpec;
    assert Taken(s.lists, p, 0) by {
      forall q: nat | InBlock(q, p, 0) ensures !FreePage(s.lists, q) {
        assert q == p;
      }
    }
    FreeKeepsInv(s.lists, p, 0);
  }

  /** The release loop puts one page per page back into the reserve. */
  lemma {:induction false} ReleaseReturns(kroot: nat, s: Vm, cr3: nat, virt: nat, n: nat, pages: iset<nat>, zone: iset<nat>)
    requires VmInv(kroot, s) && cr3 in s.forest.owner && (n > 0 ==> ARENA_LO <= Vpn(virt)) && Vpn(virt) + n <= ARENA_HI
    requires Backed(kroot, s, pages, zone) && Interval(Vpn(virt), n) <= pages && (forall q :: q in zone ==> q < TWO51)
    ensures var s' := ReleasePages(kroot, s, cr3, virt, n);
      && Reserve(s'.lists, s'.forest, kroot) == Reserve(s.lists, s.forest, kroot) + n
      && ArenaTags(s'.forest, kroot) == ArenaTags(s.forest, kroot)
    decreases n
  {
    hide VmInv, Translate, ReleasePage, FreeSet, Backed, ArenaTags, Reserve;
    if n == 0 {
    } else {
      var v := Vpn(virt);
      assert v in Interval(v, n);
      ReleaseOneReturns(kroot, s, cr3, virt, pages, zone);
      ReleasePageEffect(kroot, s, cr3, virt, pages, zone);
      ReleasePageBacked(kroot, s, cr3, virt, pages, zone);
      SplitInterval(v, n);
      NextVpn(virt);
      ReleaseReturns(kroot, ReleasePage(kroot, s, cr3, virt), cr3, virt + PAGE_SIZE, n - 1, pages - iset{v}, zone);
    }
  }

  lemma ReleaseOneReturns(kroot: nat, s: Vm, cr3: nat, virt: nat, pages: iset<nat>, zone: iset<nat>)
    requires VmInv(kroot, s) && cr3 in s.forest.owner && ARENA_LO <= Vpn(virt) < ARENA_HI
    requires Backed(kroot, s, pages, zone) && Vpn(virt) in pages
    ensures var s' := ReleasePage(kroot, s, cr3, virt);
      && Reserve(s'.lists, s'.forest, kroot) == Reserve(s.lists, s.forest, kroot) + 1
      && ArenaTags(s'.forest, kroot) == ArenaTags(s.forest, kroot)
  {
    hide VmInv, Translate, FreeSet, ArenaTags, UnmapWalk, FreeSpec, Weight;
    var s' := ReleasePage(kroot, s, cr3, virt);
    Cr3SeesArena(kroot, s, cr3, Vpn(virt));
    FreeWeighs(kroot, s, Translate(s.forest.mem, kroot, Vpn(virt)).value);
    SameTagsCount(s.forest, s'.forest, kroot);
  }

  lemma GrantedInArena(rs: seq<Range>, addr: nat, n: nat)
    requires Tiles(rs, VMALLOC_START, VMALLOC_END) && Range(addr, n * PAGE_SIZE, true) in rs
    ensures ARENA_LO <= Vpn(addr) && Vpn(addr) + n <= ARENA_HI
  {
    TilesBounds(rs, VMALLOC_START, VMALLOC_END);
    IntervalInArena(addr, n * PAGE_SIZE);
    assert n * PAGE_SIZE / PAGE_SIZE == n;
  }

  /** A request that some range serves succeeds while the reserve covers it and the tables the arena can have. */
  lemma ServedSucceeds(kroot: nat, k: Kernel, size: nat, flags: Flags, zone: iset<nat>)
    requires KernelInv(kroot, k, zone) && Fits(k.ranges, size)
    requires Reserve(k.vm.lists, k.vm.forest, kroot) >= |ArenaTags(k.vm.forest, kroot)| + PageCount(size)
    ensures Vmalloc(kroot, k, size, flags).Some?
    ensures var k' := Vmalloc(kroot, k, size, flags).value.0;
      && Reserve(k'.vm.lists, k'.vm.forest, kroot) == Reserve(k.vm.lists, k.vm.forest, kroot) - PageCount(size)
      && ArenaTags(k'.vm.forest, kroot) == ArenaTags(k.vm.forest, kroot)
  {
    hide VmInv, BackPages, Reserve, ArenaTags, Backed, OnlyMapped, FirstFit, FreeSet;
    var n := PageCount(size);
    if n == 0 {
      BackNone(kroot, k.vm, 0, flags);
    } else {
      FitsIsServed(k, size);
      MapRangeGrants(k.ranges, n * PAGE_SIZE);
      var (rs, addr) := MapRange(k.ranges, n * PAGE_SIZE);
      GrantedInArena(rs, addr.value, n);
      EnoughForArena(kroot, k.vm, addr.value, n, flags);
    }
  }

  /** vfree puts the range's pages back. */
  lemma VfreeReturns(kroot: nat, k: Kernel, cr3: nat, addr: nat, n: nat, zone: iset<nat>)
    requires KernelInv(kroot, k, zone) && Range(addr, n * PAGE_SIZE, true) in k.ranges && cr3 in k.vm.forest.owner
    ensures var k' := Vfree(kroot, k, cr3, addr);
      && Reserve(k'.vm.lists, k'.vm.forest, kroot) == Reserve(k.vm.lists, k.vm.forest, kroot) + n
      && ArenaTags(k'.vm.forest, kroot) == ArenaTags(k.vm.forest, kroot)
  {
    hide VmInv, ReleasePages, Reserve, ArenaTags, Backed, OnlyMapped, FreeSet;
    ReleaseRangeFrees(k.ranges, VMALLOC_START, VMALLOC_END, addr, n * PAGE_SIZE);
    ReleasedPages(k.ranges, addr, n * PAGE_SIZE);
    assert n * PAGE_SIZE / PAGE_SIZE == n;
    GrantedInArena(k.ranges, addr, n);
    ReleaseReturns(kroot, k.vm, cr3, addr, n, UsedPages(k.ranges), zone);
  }
}
