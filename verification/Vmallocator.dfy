/**
 vmalloc on its linked list of range nodes, over the page mapper and the buddy.

 Page indices are unbounded here; the source's `int` loop counters limit a
 single request to 2 GiB.
 */
module Vmallocator {
  import opened Collections
  import opened BuddySpec
  import opened BuddyTheorems
  import opened Buddy
  import opened PageTable
  import opened PageForest
  import opened PageRuns
  import opened Mapper
  import opened VmRanges
  import opened VmallocSpec
  import opened VmallocTheorems

  class RangeNode {
    var inUse: bool
    var size: nat
    var addr: nat
    var next: RangeNode?

    constructor (addr: nat, size: nat, inUse: bool, next: RangeNode?)
      ensures this.addr == addr && this.size == size && this.inUse == inUse && this.next == next
    {
      this.addr, this.size, this.inUse, this.next := addr, size, inUse, next;
    }
  }

  /** First fit passes over ranges that are in use or too small. */
  lemma {:induction false} FirstFitSkips(rs: seq<Range>, i: nat, size: nat)
    requires i <= |rs| && forall j :: 0 <= j < i ==> rs[j].inUse || rs[j].size < size
    ensures FirstFit(rs, size) == (rs[..i] + FirstFit(rs[i..], size).0, FirstFit(rs[i..], size).1)
  {
    if i > 0 {
      FirstFitSkips(rs[1..], i - 1, size);
      assert rs[1..][..i - 1] == rs[1..i] && rs[1..][i - 1..] == rs[i..];
      var tail := FirstFit(rs[i..], size).0;
      assert [rs[0]] + (rs[1..i] + tail) == rs[..i] + tail;
    } else {
      assert rs[0..] == rs && rs[..0] + FirstFit(rs, size).0 == FirstFit(rs, size).0;
    }
  }

  lemma FirstFitAt(rs: seq<Range>, i: nat, size: nat)
    requires i < |rs| && (forall j :: 0 <= j < i ==> rs[j].inUse || rs[j].size < size) && !rs[i].inUse && rs[i].size >= size
    ensures var r := rs[i];
      FirstFit(rs, size) ==
        if r.size == size then (rs[i := r.(inUse := true)], Some(r.addr))
        else (rs[..i] + [r.(size := r.size - size), Range(r.addr + r.size - size, size, true)] + rs[i + 1..],
              Some(r.addr + r.size - size))
  {
    var r := rs[i];
    FirstFitSkips(rs, i, size);
    assert rs[i..][0] == r && rs[i..][1..] == rs[i + 1..];
    if r.size == size {
      assert rs[..i] + ([r.(inUse := true)] + rs[i + 1..]) == rs[i := r.(inUse := true)];
    } else {
      var pair := [r.(size := r.size - size), Range(r.addr + r.size - size, size, true)];
      assert rs[..i] + (pair + rs[i + 1..]) == rs[..i] + pair + rs[i + 1..];
    }
  }

  lemma {:induction false} ReleaseSkips(rs: seq<Range>, i: nat, addr: nat)
    requires i <= |rs| && forall j :: 0 <= j < i ==> rs[j].addr != addr
    ensures ReleaseRange(rs, addr) == (rs[..i] + ReleaseRange(rs[i..], addr).0, ReleaseRange(rs[i..], addr).1)
  {
    if i > 0 {
      ReleaseSkips(rs[1..], i - 1, addr);
      assert rs[1..][..i - 1] == rs[1..i] && rs[1..][i - 1..] == rs[i..];
      var tail := ReleaseRange(rs[i..], addr).0;
      assert [rs[0]] + (rs[1..i] + tail) == rs[..i] + tail;
    } else {
      assert rs[0..] == rs && rs[..0] + ReleaseRange(rs, addr).0 == ReleaseRange(rs, addr).0;
    }
  }

  ghost function NodeAt(ns: seq<RangeNode>, i: nat): RangeNode? {
    if i < |ns| then ns[i] else null
  }

  ghost predicate DistinctNodes(ns: seq<RangeNode>) {
    forall i, j :: 0 <= i < j < |ns| ==> ns[i] != ns[j]
  }

  ghost function InsertAfter(ns: seq<RangeNode>, i: nat, x: RangeNode): (r: seq<RangeNode>)
    requires i < |ns|
    ensures |r| == |ns| + 1
    ensures forall k {:trigger r[k]} :: 0 <= k < |r| ==> r[k] == if k <= i then ns[k] else if k == i + 1 then x else ns[k - 1]
    ensures forall n :: n in r ==> n == x || n in ns
  {
    ns[..i + 1] + [x] + ns[i + 1..]
  }

  /** Range `i` of `rs` replaced by two. */
  ghost function Splice(rs: seq<Range>, i: nat, low: Range, high: Range): (r: seq<Range>)
    requires i < |rs|
    ensures |r| == |rs| + 1
    ensures forall k {:trigger r[k]} :: 0 <= k < |r| ==> r[k] == if k < i then rs[k] else if k == i then low else if k == i + 1 then high else rs[k - 1]
  {
    rs[..i] + [low, high] + rs[i + 1..]
  }

  lemma InsertDistinct(ns: seq<RangeNode>, i: nat, x: RangeNode)
    requires i < |ns| && DistinctNodes(ns) && x !in ns
    ensures DistinctNodes(InsertAfter(ns, i, x))
  {
    hide InsertAfter;
  }

  class RangeList {
    var root: RangeNode?
    ghost var nodes: seq<RangeNode>
    ghost var contents: seq<Range>  // what the nodes hold

    ghost function Repr(): (r: set<object>)
      reads this
      ensures forall n :: n in nodes ==> n in r
    {
      {this} + (set n: RangeNode | n in nodes :: n as object)
    }

    ghost predicate Valid()
      reads this, nodes
    {
      && DistinctNodes(nodes)
      && root == NodeAt(nodes, 0)
      && (forall i {:trigger nodes[i].next} :: 0 <= i < |nodes| ==> nodes[i].next == NodeAt(nodes, i + 1))
      && |contents| == |nodes| && (forall i :: 0 <= i < |nodes| ==> contents[i] == Range(nodes[i].addr, nodes[i].size, nodes[i].inUse))
    }

    ghost function Ranges(): seq<Range>
      reads this
    {
      contents
    }

    /** `vmalloc_init`. */
    constructor ()
      ensures Valid() && fresh(Repr()) && Ranges() == [Range(VMALLOC_START, VMALLOC_END - VMALLOC_START, false)]
    {
      var node := new RangeNode(VMALLOC_START, VMALLOC_END - VMALLOC_START, false, null);
      root := node;
      nodes := [node];
      contents := [Range(VMALLOC_START, VMALLOC_END - VMALLOC_START, false)];
    }

    method MapRange(size: nat) returns (addr: Option<nat>)
      requires Valid()
      modifies this, nodes
      ensures Valid() && fresh(Repr() - old(Repr()))
      ensures (Ranges(), addr) == VmRanges.MapRange(old(Ranges()), size)
    {
      if size == 0 || size % PAGE_SIZE != 0 {
        return None;
      }
      ghost var rs := Ranges();
      ghost var i := 0;
      var curr := root;
      while curr != null
        invariant Valid() && Ranges() == rs && nodes == old(nodes)
        invariant 0 <= i <= |nodes| && curr == NodeAt(nodes, i)
        invariant forall j :: 0 <= j < i ==> rs[j].inUse || rs[j].size < size
        decreases |nodes| - i
      {
        if !curr.inUse {
          if curr.size == size {
            FirstFitAt(rs, i, size);
            curr.inUse := true;
            contents := rs[i := rs[i].(inUse := true)];
            return Some(curr.addr);
          }
          if curr.size > size {
            FirstFitAt(rs, i, size);
            var at := Split(curr, i, size);
            return Some(at);
          }
        }
        i := i + 1;
        curr := curr.next;
      }
      FirstFitSkips(rs, i, size);
      assert rs[i..] == [] && rs[..i] + [] == rs;
      return None;
    }

    /** A larger free range gives up its back part to a new node behind it. */
    method Split(curr: RangeNode, ghost i: nat, size: nat) returns (at: nat)
      requires Valid() && i < |nodes| && nodes[i] == curr && curr.size > size
      modifies this, curr
      ensures Valid() && fresh(Repr() - old(Repr()))
      ensures at == old(curr.addr + curr.size - size)
      ensures Ranges() == Splice(old(Ranges()), i, old(Range(curr.addr, curr.size - size, curr.inUse)), Range(at, size, true))
    {
      ghost var ns, rs := nodes, Ranges();
      ghost var low := rs[i].(size := curr.size - size);
      assert forall k :: 0 <= k < |ns| && k != i ==> ns[k] != curr;
      at := curr.addr + curr.size - size;
      hide InsertAfter, DistinctNodes, Splice;
      var split := new RangeNode(at, size, true, curr.next);
      InsertDistinct(ns, i, split);
      curr.next := split;
      curr.size := curr.size - size;
      nodes := InsertAfter(ns, i, split);
      forall k | 0 <= k < |nodes| ensures nodes[k].next == NodeAt(nodes, k + 1) {
        if i + 1 < k {
          assert old(ns[k - 1].next) == NodeAt(ns, k);
        }
      }
      contents := Splice(rs, i, low, Range(at, size, true));
      forall k | 0 <= k < |nodes| ensures contents[k] == Range(nodes[k].addr, nodes[k].size, nodes[k].inUse) {
        assert nodes[k] != curr && nodes[k] != split ==> nodes[k] in ns;
      }
    }

    /** The search loop of `_vfree`: the node at `addr` is marked free. */
    method Release(addr: nat) returns (size: Option<nat>)
      requires Valid()
      modifies this`contents, nodes
      ensures Valid() && (Ranges(), size) == ReleaseRange(old(Ranges()), addr)
    {
      ghost var rs := Ranges();
      ghost var i := 0;
      var curr := root;
      while curr != null
        invariant Valid() && Ranges() == rs
        invariant 0 <= i <= |nodes| && curr == NodeAt(nodes, i)
        invariant forall j :: 0 <= j < i ==> rs[j].addr != addr
        decreases |nodes| - i
      {
        if curr.addr == addr {
          ReleaseSkips(rs, i, addr);
          curr.inUse := false;
          contents := rs[..i] + ([rs[i].(inUse := false)] + rs[i + 1..]);
          return Some(curr.size);
        }
        i := i + 1;
        curr := curr.next;
      }
      ReleaseSkips(rs, i, addr);
      assert rs[i..] == [] && rs[..i] + [] == rs;
      return None;
    }
  }

  lemma BackNext(kroot: nat, s: Vm, virt: nat, n: nat, flags: Flags)
    requires n > 0 && BackPages(kroot, s, virt, n, flags).Some?
    ensures BackPage(kroot, s, virt, flags).Some?
    ensures BackPages(kroot, s, virt, n, flags) ==
      BackPages(kroot, BackPage(kroot, s, virt, flags).value, virt + PAGE_SIZE, n - 1, flags)
  {
    hide BackPage;
  }

  lemma ReleaseNext(kroot: nat, s: Vm, cr3: nat, virt: nat, n: nat)
    requires n > 0
    ensures ReleasePages(kroot, s, cr3, virt, n) ==
      ReleasePages(kroot, ReleasePage(kroot, s, cr3, virt), cr3, virt + PAGE_SIZE, n - 1)
  {
    hide ReleasePage;
  }

  lemma ReleaseNone(kroot: nat, s: Vm, cr3: nat, virt: nat)
    ensures ReleasePages(kroot, s, cr3, virt, 0) == s
  {
  }

  /** A frame of the zones that is not free may be freed as one page. */
  lemma OnePage(l: Lists, p: nat, zones: seq<Zone>)
    requires p !in FreeSet(l) && p in ZonePages(zones)
    ensures Taken(l, p, 0) && Block(p, 0) <= ZonePages(zones)
  {
    assert Block(p, 0) == iset{p};
    forall q: nat | InBlock(q, p, 0) ensures !FreePage(l, q) {
      assert q == p;
    }
  }

  class Vmalloc {
    const mapper: PageMapper
    const ranges: RangeList

    ghost function Repr(): set<object>
      reads ranges
    {
      {this} + ranges.Repr() + mapper.Repr()
    }

    ghost predicate Valid()
      reads this, ranges, ranges.nodes, mapper.Repr()
    {
      && ranges.Repr() !! mapper.Repr()
      && this !in ranges.Repr() + mapper.Repr()
      && ranges.Valid() && mapper.Valid()
    }

    ghost function State(): Kernel
      reads this, ranges, mapper, mapper.buddy.Repr()
      requires mapper.buddy.Valid()
    {
      Kernel(mapper.State(), ranges.Ranges())
    }

    ghost function Zone(): iset<nat> {
      ZonePages(mapper.buddy.zones)
    }

    constructor (mapper: PageMapper)
      requires mapper.Valid()
      ensures Valid() && this.mapper == mapper
      ensures State() == Kernel(old(mapper.State()), [Range(VMALLOC_START, VMALLOC_END - VMALLOC_START, false)])
    {
      hide PageMapper.Valid, PageMapper.ValidTables;
      this.mapper := mapper;
      ranges := new RangeList();
    }

    /** One iteration of the mapping loop. */
    method Back(virt: nat, flags: Flags)
      requires Valid() && BackPage(mapper.kroot, mapper.State(), virt, flags).Some?
      modifies mapper.Repr()
      ensures Valid() && mapper.kroot == old(mapper.kroot) && ranges.Ranges() == old(ranges.Ranges())
      ensures Some(mapper.State()) == BackPage(old(mapper.kroot), old(mapper.State()), virt, flags)
    {
      hide Core, Fresh, Upper, MapWalk, AllocSpec, LeafWord;
      AllocKeepsVm(mapper.kroot, mapper.State());
      var page := mapper.buddy.AllocPages(0, 0);
      mapper.MapPage(mapper.kroot, page.value, virt, flags);
    }

    /** The mapping loop of `_vmalloc`. */
    method BackRange(addr: nat, n: nat, flags: Flags)
      requires Valid() && BackPages(mapper.kroot, mapper.State(), addr, n, flags).Some?
      modifies mapper.Repr()
      ensures Valid() && mapper.kroot == old(mapper.kroot) && ranges.Ranges() == old(ranges.Ranges())
      ensures Some(mapper.State()) == BackPages(old(mapper.kroot), old(mapper.State()), addr, n, flags)
    {
      hide Core, Fresh, Upper, BuddyAllocator.Valid, BackPages, BackPage;
      ghost var kroot, s0 := mapper.kroot, mapper.State();
      for i := 0 to n
        invariant Valid() && mapper.kroot == kroot && ranges.Ranges() == old(ranges.Ranges())
        invariant BackPages(kroot, mapper.State(), addr + PAGE_SIZE * i, n - i, flags) == BackPages(kroot, s0, addr, n, flags)
      {
        BackNext(kroot, mapper.State(), addr + PAGE_SIZE * i, n - i, flags);
        Back(addr + PAGE_SIZE * i, flags);
      }
      BackNone(kroot, mapper.State(), addr + PAGE_SIZE * n, flags);
    }

    /** `_vmalloc`; a null result is 0, and the mapping loop runs regardless. */
    method Alloc(size: nat, flags: Flags) returns (addr: nat)
      requires Valid() && VmallocSpec.Vmalloc(mapper.kroot, State(), size, flags).Some?
      modifies Repr()
      ensures Valid() && mapper.kroot == old(mapper.kroot) && fresh(Repr() - old(Repr()))
      ensures Some((State(), addr)) == VmallocSpec.Vmalloc(old(mapper.kroot), old(State()), size, flags)
    {
      hide Core, Fresh, Upper, BuddyAllocator.Valid, BackPages, VmRanges.MapRange, RangeList.Valid, PageMapper.ValidTables;
      var alignedSize := PageCount(size) * PAGE_SIZE;
      var range := ranges.MapRange(alignedSize);
      addr := if range.Some? then range.value else 0;
      BackRange(addr, alignedSize / PAGE_SIZE, flags);
    }

    /** One iteration of `_vrelease_pages`: look the frame up through CR3, give it back, unmap the page. */
    method ReleaseOne(cr3: nat, virt: nat, ghost pages: iset<nat>)
      requires Valid() && cr3 in mapper.owner && ARENA_LO <= Vpn(virt) < ARENA_HI
      requires Backed(mapper.kroot, mapper.State(), pages, Zone()) && Vpn(virt) in pages && SmallFrames(Zone())
      modifies mapper.Repr()
      ensures Valid() && mapper.kroot == old(mapper.kroot) && ranges.Ranges() == old(ranges.Ranges())
      ensures mapper.State() == ReleasePage(old(mapper.kroot), old(mapper.State()), cr3, virt)
    {
      hide Core, Fresh, Upper, UnmapWalk, FreeSpec, Translate, BuddyAllocator.ValidExcept, FreePage, FreeSet;
      ghost var s, kroot := mapper.State(), mapper.kroot;
      Cr3SeesArena(kroot, s, cr3, Vpn(virt));
      var pfn := mapper.VirtToPfn(cr3, virt);
      FreeKeepsVm(kroot, s, pfn);
      OnePage(s.lists, pfn, mapper.buddy.zones);
      mapper.buddy.FreePages(pfn, 0);
      mapper.UnmapPage(mapper.kroot, virt);
    }

    /** `_vrelease_pages`. */
    method ReleaseAll(cr3: nat, addr: nat, n: nat, ghost pages: iset<nat>)
      requires Valid() && cr3 in mapper.owner && ARENA_LO <= Vpn(addr) && Vpn(addr) + n <= ARENA_HI
      requires Backed(mapper.kroot, mapper.State(), pages, Zone()) && Interval(Vpn(addr), n) <= pages && SmallFrames(Zone())
      modifies mapper.Repr()
      ensures Valid() && mapper.kroot == old(mapper.kroot) && ranges.Ranges() == old(ranges.Ranges())
      ensures mapper.State() == ReleasePages(old(mapper.kroot), old(mapper.State()), cr3, addr, n)
    {
      hide Core, Fresh, Upper, BuddyAllocator.Valid, ReleasePages, ReleasePage, Translate, Backed;
      ghost var s0, kroot, zone, v := mapper.State(), mapper.kroot, Zone(), Vpn(addr);
      assert pages - Interval(v, 0) == pages;
      for i := 0 to n
        invariant Valid() && mapper.kroot == kroot && ranges.Ranges() == old(ranges.Ranges()) && cr3 in mapper.owner
        invariant ReleasePages(kroot, mapper.State(), cr3, addr + PAGE_SIZE * i, n - i) == ReleasePages(kroot, s0, cr3, addr, n)
        invariant Backed(kroot, mapper.State(), pages - Interval(v, i), zone)
        invariant i < n ==> Vpn(addr + PAGE_SIZE * i) == v + i
      {
        ghost var virt := addr + PAGE_SIZE * i;
        assert v + i in Interval(v, n) && v + i !in Interval(v, i);
        ReleasePageEffect(kroot, mapper.State(), cr3, virt, pages - Interval(v, i), zone);
        ReleasePageBacked(kroot, mapper.State(), cr3, virt, pages - Interval(v, i), zone);
        assert pages - Interval(v, i) - iset{v + i} == pages - Interval(v, i + 1);
        ReleaseNext(kroot, mapper.State(), cr3, virt, n - i);
        if i + 1 < n {
          NextVpn(virt);
        }
        ReleaseOne(cr3, addr + PAGE_SIZE * i, pages - Interval(v, i));
      }
      ReleaseNone(kroot, mapper.State(), cr3, addr + PAGE_SIZE * n);
    }

    /** `_vfree`, on the address of a range in use, or on one where no range starts. */
    method Free(addr: nat, cr3: nat)
      requires Valid() && KernelInv(mapper.kroot, State(), Zone()) && cr3 in mapper.owner
      requires InUseStart(State().ranges, addr) || !Starts(State().ranges, addr)
      modifies Repr()
      ensures Valid() && mapper.kroot == old(mapper.kroot) && ranges.nodes == old(ranges.nodes)
      ensures State() == Vfree(old(mapper.kroot), old(State()), cr3, addr)
    {
      hide Core, Fresh, Upper, BuddyAllocator.Valid, ReleasePages, ReleaseRange, Backed, RangeList.Valid, Interval, OnlyMapped, Starts, InUseStart;
      ghost var pages, rs := UsedPages(State().ranges), State().ranges;
      if Starts(rs, addr) {
        FreeTarget(rs, addr);
      } else {
        ReleaseNowhere(rs, addr);
      }
      var found := ranges.Release(addr);
      if found.Some? {
        ReleaseAll(cr3, addr, found.value / PAGE_SIZE, pages);
      }
    }
  }

  /** What vfree finds at the start of a range in use. */
  lemma FreeTarget(rs: seq<Range>, addr: nat)
    requires Tiles(rs, VMALLOC_START, VMALLOC_END) && InUseStart(rs, addr)
    ensures var size := ReleaseRange(rs, addr).1;
      && size.Some? && ARENA_LO <= Vpn(addr) && Vpn(addr) + size.value / PAGE_SIZE <= ARENA_HI
      && Interval(Vpn(addr), size.value / PAGE_SIZE) <= UsedPages(rs)
  {
    var r :| r in rs && r.inUse && r.addr == addr;
    assert r == Range(addr, r.size, true);
    ReleaseRangeFrees(rs, VMALLOC_START, VMALLOC_END, addr, r.size);
    ReleasedPages(rs, addr, r.size);
  }
}
