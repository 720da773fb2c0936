/**
 `mm_init` from the boot loader's tables to the first vmalloc: the state in
 which every run of the memory stack starts.
 */
module Boot {
  import opened Collections
  import opened Bits
  import opened BuddySpec
  import opened BuddyTheorems
  import opened BuddyRuns
  import opened Buddy
  import opened EarlyAlloc
  import opened PageTable
  import opened PageForest
  import opened PageRuns
  import opened Mapper
  import opened VmRanges
  import opened VmallocSpec
  import opened VmallocTheorems
  import opened VmallocRuns
  import opened Vmallocator

  /** The loader's tables: one root, nothing in the arena, upper slots empty or tables, no page of a usable region. */
  ghost predicate LoaderTables(f: Forest, boot: nat, regions: seq<Zone>) {
    && Core(f) && f.owner.Keys == {boot}
    && (forall i: nat :: 256 <= i < ENTRIES ==> Entry(f.mem, boot, i) == 0 || Present(Entry(f.mem, boot, i)))
    && ArenaEmpty(f.mem, boot)
    && (forall k: nat :: PageAt(regions, k).Some? ==> PageAt(regions, k).value !in f.mem)
  }

  /** A single empty root table is such a start. */
  lemma BlankRootIsLoaderTables(boot: nat, regions: seq<Zone>)
    requires boot < TWO51 && forall k: nat :: PageAt(regions, k) != Some(boot)
    ensures LoaderTables(Forest(map[boot := ZeroPage()], map[boot := Tag(boot, 3, 0)], map[boot := seq(ENTRIES, _ => boot)]), boot, regions)
  {
    var f := Forest(map[boot := ZeroPage()], map[boot := Tag(boot, 3, 0)], map[boot := seq(ENTRIES, _ => boot)]);
    BlankRootCore(f, boot);
    hide Core, PageAt;
    forall i: nat ensures Entry(f.mem, boot, i) == 0 {
    }
  }

  lemma BlankRootCore(f: Forest, boot: nat)
    requires boot < TWO51
    requires f == Forest(map[boot := ZeroPage()], map[boot := Tag(boot, 3, 0)], map[boot := seq(ENTRIES, _ => boot)])
    ensures Core(f)
  {
    forall i: nat ensures Entry(f.mem, boot, i) == 0 {
    }
    assert forall t, i, u :: !Points(f, t, i, u);
    assert Shapes(f) && RootsOk(f);
    hide RootsOk, Shapes, ZeroPage;
    assert TagsInjective(f) && Gaps(f);
  }

  predicate LowerEmpty(mem: map<nat, seq<nat>>, root: nat) {
    forall i: nat :: i < 256 ==> !Present(Entry(mem, root, i))
  }

  /** What the buddy is seeded with is no table and fits a page-table word. */
  lemma SeededIsFresh(l: Lists, f: Forest, boot: set<nat>, zones: seq<Zone>, count: nat, bump: nat)
    requires Inv(l) && FreeSet(l) == SeededBefore(zones, bump, |zones|, 0)
    requires RegionsDisjoint(zones) && Below4G(zones) && count <= bump
    requires TablesFrom(f.mem.Keys, boot, zones, 0, count)
    ensures Fresh(l, f)
  {
    forall q | q in FreeSet(l) ensures q < TWO51 && q !in f.mem {
      SeedsAvoidBump(zones, bump, q);
      SeededIsInOrder(zones, bump, q);
      assert !HandedOut(zones, 0, count, q);
    }
  }

  lemma SeededIsInOrder(zones: seq<Zone>, bump: nat, q: nat)
    requires Below4G(zones) && q in SeededBefore(zones, bump, |zones|, 0)
    ensures q < 0x10_0000 && exists k: nat :: PageAt(zones, k) == Some(q)
  {
    var y: nat, j: nat :| y < |zones| && Seeds(zones, bump, y, j) && q == zones[y].pfnBase + j;
    PageAtOrdinal(zones, y, j);
  }

  lemma LoaderTablesFrom(f: Forest, boot: nat, regions: seq<Zone>)
    requires LoaderTables(f, boot, regions)
    ensures TablesFrom(f.mem.Keys, f.mem.Keys, regions, 0, 0)
  {
    hide PageAt, Core;
  }

  lemma ZonesBelow4G(zones: seq<Zone>)
    requires Below4G(zones)
    ensures SmallFrames(ZonePages(zones)) && forall q: nat :: InZones(zones, q) ==> q < 0x10_0000
  {
  }

  lemma FreeInZones(buddy: BuddyAllocator)
    requires buddy.Valid()
    ensures FreeSet(buddy.Lists()) <= ZonePages(buddy.zones) && Inv(buddy.Lists())
  {
  }

  /** No page of the vmalloc arena is mapped. */
  ghost predicate ArenaEmpty(mem: map<nat, seq<nat>>, kroot: nat) {
    forall v: nat :: ARENA_LO <= v < ARENA_HI ==> Translate(mem, kroot, v) == None
  }

  /** `kernel_top_pgt_init` on the loader's tables, the buddy still empty. */
  method KernelTables(regions: seq<Zone>, bootTables: map<nat, seq<nat>>, boot: nat, ghost tags: map<nat, Tag>, ghost owner: map<nat, seq<nat>>)
    returns (mapper: PageMapper, bump: BumpAllocator)
    requires RegionsDisjoint(regions) && Below4G(regions) && PageAt(regions, 256).Some?
    requires LoaderTables(Forest(bootTables, tags, owner), boot, regions)
    ensures fresh(mapper.Repr()) && fresh(bump) && bump !in mapper.Repr() && bump.regions == mapper.buddy.zones == regions
    ensures mapper.Valid() && mapper.buddy.Lists() == EmptyPool.lists && mapper.owner.Keys == {boot, mapper.kroot}
    ensures TablesFrom(mapper.mem.Keys, bootTables.Keys, regions, 0, bump.bumpAllocated)
    ensures ArenaEmpty(mapper.mem, mapper.kroot)
    ensures LowerEmpty(bootTables, boot) ==> LowerEmpty(mapper.mem, mapper.kroot)
  {
    hide Core, Upper, FreeSet, Translate, PageAt, Inv, TablesFrom, BuddyAllocator.ValidExcept;
    ZonesBelow4G(regions);
    var buddy := new BuddyAllocator(regions, 0x10_0000);
    EmptyIsFree();
    FreeInZones(buddy);
    mapper := new PageMapper(buddy, bootTables, boot, tags, owner);
    bump := new BumpAllocator(regions);
    LoaderTablesFrom(mapper.Tables(), boot, regions);
    mapper.KernelTopPgtInit(bump);
    forall v: nat | ARENA_LO <= v < ARENA_HI ensures Translate(mapper.mem, mapper.kroot, v) == None {
      ArenaIsUpper(v);
    }
  }

  /** `buddy_init`, after other early users have taken `early` pages from the bump allocator. */
  method BuddyInit(mapper: PageMapper, bump: BumpAllocator, early: nat, ghost boot: set<nat>)
    requires mapper.Valid() && mapper.buddy.Lists() == EmptyPool.lists && bump !in mapper.Repr()
    requires bump.regions == mapper.buddy.zones && RegionsDisjoint(bump.regions) && Below4G(bump.regions)
    requires TablesFrom(mapper.mem.Keys, boot, bump.regions, 0, bump.bumpAllocated)
    modifies mapper.buddy.Repr(), bump
    ensures mapper.Valid()
    ensures FreeSet(mapper.buddy.Lists()) == SeededBefore(bump.regions, bump.bumpAllocated, |bump.regions|, 0)
    ensures old(bump.bumpAllocated) <= bump.bumpAllocated
  {
    hide Core, Upper, FreeSet, PageAt, Inv, TablesFrom, BuddyAllocator.ValidExcept, SeededBefore;
    ghost var count := bump.bumpAllocated;
    for i := 0 to early
      invariant count <= bump.bumpAllocated
      modifies bump
    {
      var _ := bump.BumpPage();
    }
    EarlyAlloc.Seed(mapper.buddy, bump.bumpAllocated);
    FreeInZones(mapper.buddy);
    SeededIsFresh(mapper.buddy.Lists(), mapper.Tables(), boot, bump.regions, count, bump.bumpAllocated);
  }

  /**
   `mm_init`: the memory stack starts in a state that every run of vmalloc,
   vfree, table creation and other users of the buddy preserves.  If the loader's
   tables map nothing in the lower half, no two roots share a lower space.
   */
  method MmInit(regions: seq<Zone>, bootTables: map<nat, seq<nat>>, boot: nat, ghost tags: map<nat, Tag>,
                ghost owner: map<nat, seq<nat>>, early: nat)
    returns (vmalloc: Vmalloc)
    requires RegionsDisjoint(regions) && Below4G(regions) && PageAt(regions, 256).Some?
    requires LoaderTables(Forest(bootTables, tags, owner), boot, regions)
    ensures vmalloc.Valid() && FreeSet(vmalloc.State().vm.lists) <= vmalloc.Zone()
    ensures WorldInv(vmalloc.mapper.kroot, World(vmalloc.State(), iset{}, iset{}), vmalloc.Zone(),
                     FreeSet(vmalloc.State().vm.lists) + TablePages(vmalloc.State().vm.forest))
    ensures LowerEmpty(bootTables, boot) ==> LowerPrivate(vmalloc.mapper.Tables(), vmalloc.mapper.kroot)
    ensures vmalloc.mapper.owner.Keys == {boot, vmalloc.mapper.kroot}
  {
    hide Core, Fresh, Upper, FreeSet, Translate, PageAt, Inv, TablesFrom, BuddyAllocator.ValidExcept, SeededBefore, LoaderTables, WorldInv, LowerPrivate, TablePages;
    ZonesBelow4G(regions);
    var mapper, bump := KernelTables(regions, bootTables, boot, tags, owner);
    BuddyInit(mapper, bump, early, bootTables.Keys);
    FreeInZones(mapper.buddy);
    vmalloc := new Vmalloc(mapper);
    InitialWorld(mapper.kroot, mapper.State(), vmalloc.Zone());
    if LowerEmpty(bootTables, boot) {
      TwoRootsArePrivate(mapper.Tables(), boot, mapper.kroot);
    }
  }
}
