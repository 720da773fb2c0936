/**
 The hand-off from the early bump allocator to the buddy allocator.

 Regions are page-aligned and a page is its frame number.  The source computes a
 page's physical address in 32 bits; below 4 GiB that does not wrap.
 The seeding loop is the source's own: it advances its index twice per
 iteration and so frees only every other page.
 */
module EarlyAlloc {
  import opened Bits
  import opened Collections
  import opened BuddySpec
  import opened BuddyRuns
  import opened Buddy

  /** The `k`-th page when pages are counted in region order. */
  function PageAt(regions: seq<Zone>, k: nat): Option<nat> {
    if regions == [] then None
    else if k < regions[0].size then Some(regions[0].pfnBase + k)
    else PageAt(regions[1..], k - regions[0].size)
  }

  function Total(regions: seq<Zone>): nat {
    if regions == [] then 0 else regions[0].size + Total(regions[1..])
  }

  /** The position of page `i` of region `z` in that count. */
  function Ordinal(regions: seq<Zone>, z: nat, i: nat): nat
    requires z <= |regions|
  {
    Total(regions[..z]) + i
  }

  /** Regions share no page. */
  predicate RegionsDisjoint(regions: seq<Zone>) {
    forall i, j :: 0 <= i < j < |regions| ==>
      regions[i].pfnBase + regions[i].size <= regions[j].pfnBase || regions[j].pfnBase + regions[j].size <= regions[i].pfnBase
  }

  predicate Below4G(regions: seq<Zone>) {
    forall i :: 0 <= i < |regions| ==> regions[i].pfnBase + regions[i].size <= 0x10_0000
  }

  lemma {:induction false} TotalSucc(regions: seq<Zone>, z: nat)
    requires z < |regions|
    ensures Total(regions[..z + 1]) == Total(regions[..z]) + regions[z].size
  {
    if z > 0 {
      TotalSucc(regions[1..], z - 1);
      assert regions[1..][..z - 1] == regions[..z][1..] && regions[1..][..z] == regions[..z + 1][1..];
    } else {
      assert regions[..1][1..] == [];
    }
  }

  lemma {:induction false} PageAtOrdinal(regions: seq<Zone>, z: nat, i: nat)
    requires z < |regions| && i < regions[z].size
    ensures PageAt(regions, Ordinal(regions, z, i)) == Some(regions[z].pfnBase + i)
  {
    if z == 0 {
    } else {
      assert regions[..z][1..] == regions[1..][..z - 1];
      PageAtOrdinal(regions[1..], z - 1, i);
    }
  }

  lemma {:induction false} PageAtRegion(regions: seq<Zone>, k: nat) returns (z: nat, i: nat)
    requires PageAt(regions, k).Some?
    ensures z < |regions| && i < regions[z].size && k == Ordinal(regions, z, i)
    ensures PageAt(regions, k) == Some(regions[z].pfnBase + i)
  {
    if k < regions[0].size {
      z, i := 0, k;
    } else {
      z, i := PageAtRegion(regions[1..], k - regions[0].size);
      assert regions[..z + 1][1..] == regions[1..][..z];
      z := z + 1;
    }
  }

  /** Different positions of disjoint regions are different pages. */
  lemma PageAtInjective(regions: seq<Zone>, k: nat, k': nat)
    requires RegionsDisjoint(regions) && k != k'
    ensures PageAt(regions, k).Some? ==> PageAt(regions, k) != PageAt(regions, k')
  {
    if PageAt(regions, k).Some? && PageAt(regions, k) == PageAt(regions, k') {
      var z, i := PageAtRegion(regions, k);
      var z', i' := PageAtRegion(regions, k');
      assert false;
    }
  }

  lemma {:induction false} PageAtMono(regions: seq<Zone>, j: nat, k: nat)
    requires j <= k && PageAt(regions, k).Some?
    ensures PageAt(regions, j).Some?
  {
    if j >= regions[0].size {
      PageAtMono(regions[1..], j - regions[0].size, k - regions[0].size);
    }
  }

  lemma PageAtLow(regions: seq<Zone>, k: nat)
    requires Below4G(regions) && PageAt(regions, k).Some?
    ensures PageAt(regions, k).value < 0x10_0000
  {
    var z, i := PageAtRegion(regions, k);
  }

  lemma Wrap32(p: nat)
    ensures p * 4096 % 0x1_0000_0000 / 4096 == p % 0x10_0000
  {
    Shifted(p);
    var r := p % 0x10_0000;
    assert r * 4096 / 4096 == r;
  }

  lemma Shifted(p: nat)
    ensures p * 4096 % 0x1_0000_0000 == p % 0x10_0000 * 4096
  {
    var q, r := p / 0x10_0000, p % 0x10_0000;
    assert p * 4096 == q * 0x1_0000_0000 + r * 4096 && r * 4096 < 0x1_0000_0000;
  }

  class BumpAllocator {
    const regions: seq<Zone>
    var bumpAllocated: nat

    constructor (regions: seq<Zone>)
      ensures this.regions == regions && bumpAllocated == 0
    {
      this.regions := regions;
      bumpAllocated := 0;
    }

    /**
     `bump_page`: the next page in region order, or none when all are handed
     out.  A page above 4 GiB comes back as the one its low address bits name.
     */
    method BumpPage() returns (page: Option<nat>)
      modifies this
      ensures match PageAt(regions, old(bumpAllocated))
        case None => page == None
        case Some(p) => page == Some(p % 0x10_0000)
      ensures Below4G(regions) ==> page == PageAt(regions, old(bumpAllocated))
      ensures bumpAllocated == old(bumpAllocated) + if page.Some? then 1 else 0
    {
      if Below4G(regions) && PageAt(regions, bumpAllocated).Some? {
        PageAtLow(regions, bumpAllocated);
      }
      var left: nat := bumpAllocated;
      for i := 0 to |regions|
        invariant bumpAllocated == old(bumpAllocated)
        invariant PageAt(regions[i..], left) == PageAt(regions, bumpAllocated)
      {
        var pageCount := regions[i].size;
        if pageCount > left {
          var phys := regions[i].pfnBase * 4096;
          bumpAllocated := bumpAllocated + 1;
          Wrap32(regions[i].pfnBase + left);
          return Some((phys + left * 4096) % 0x1_0000_0000 / 4096);  // unsigned int in the source
        }
        left := left - pageCount;
      }
      return None;
    }
  }

  /* ---- seeding ---- */

  /** How many pages at the start of zone `z` the bump allocator owns. */
  function Skip(zones: seq<Zone>, z: nat, bump: nat): nat
    requires z < |zones|
  {
    if bump <= Total(zones[..z]) then 0
    else if bump - Total(zones[..z]) < zones[z].size then bump - Total(zones[..z])
    else zones[z].size
  }

  /** Page `i` of zone `z` is seeded: every other page from the first one the bump allocator left. */
  predicate Seeds(zones: seq<Zone>, bump: nat, z: nat, i: nat)
    requires z < |zones|
  {
    i < zones[z].size && Skip(zones, z, bump) <= i && (i - Skip(zones, z, bump)) % 2 == 0
  }

  ghost predicate SeededPage(zones: seq<Zone>, bump: nat, z: nat, i: nat, q: nat) {
    exists y: nat, j: nat :: y < |zones| && (y < z || (y == z && j < i)) && Seeds(zones, bump, y, j) && q == zones[y].pfnBase + j
  }

  /** The pages seeded before page `i` of zone `z`. */
  ghost function SeededBefore(zones: seq<Zone>, bump: nat, z: nat, i: nat): iset<nat> {
    iset q: nat | SeededPage(zones, bump, z, i, q)
  }

  lemma SeedOne(zones: seq<Zone>, bump: nat, z: nat, i: nat)
    requires RegionsDisjoint(zones) && z < |zones| && Seeds(zones, bump, z, i)
    ensures zones[z].pfnBase + i !in SeededBefore(zones, bump, z, i)
    ensures InZones(zones, zones[z].pfnBase + i)
    ensures SeededBefore(zones, bump, z, i + 2) == SeededBefore(zones, bump, z, i) + iset{zones[z].pfnBase + i}
  {
    var p := zones[z].pfnBase + i;
    forall q: nat ensures SeededPage(zones, bump, z, i + 2, q) <==> SeededPage(zones, bump, z, i, q) || q == p {
      if SeededPage(zones, bump, z, i + 2, q) {
        var y: nat, j: nat :| y < |zones| && (y < z || (y == z && j < i + 2)) && Seeds(zones, bump, y, j) && q == zones[y].pfnBase + j;
        assert y == z && j >= i ==> j == i;
      }
    }
  }

  lemma SkipOne(zones: seq<Zone>, bump: nat, z: nat, i: nat)
    requires z < |zones| && !Seeds(zones, bump, z, i)
    ensures SeededBefore(zones, bump, z, i + 1) == SeededBefore(zones, bump, z, i)
  {
    forall q: nat ensures SeededPage(zones, bump, z, i + 1, q) <==> SeededPage(zones, bump, z, i, q) {
      if SeededPage(zones, bump, z, i + 1, q) {
        var y: nat, j: nat :| y < |zones| && (y < z || (y == z && j < i + 1)) && Seeds(zones, bump, y, j) && q == zones[y].pfnBase + j;
        assert y == z ==> j != i;
      }
    }
  }

  lemma ZoneDone(zones: seq<Zone>, bump: nat, z: nat, i: nat)
    requires z < |zones| && zones[z].size <= i
    ensures SeededBefore(zones, bump, z, i) == SeededBefore(zones, bump, z + 1, 0)
  {
    forall q: nat ensures SeededPage(zones, bump, z, i, q) <==> SeededPage(zones, bump, z + 1, 0, q) {
      if SeededPage(zones, bump, z + 1, 0, q) {
        var y: nat, j: nat :| y < |zones| && y < z + 1 && Seeds(zones, bump, y, j) && q == zones[y].pfnBase + j;
        assert y == z ==> j < i;
      }
    }
  }

  /**
   `buddy_init`'s seeding loop: exactly every other page past the bump
   allocator's is freed, once.
   */
  method Seed(buddy: BuddyAllocator, bumpAllocated: nat)
    requires buddy.Valid() && buddy.Lists() == EmptyPool.lists && RegionsDisjoint(buddy.zones)
    modifies buddy.Repr()
    ensures buddy.Valid()
    ensures FreeSet(buddy.Lists()) == SeededBefore(buddy.zones, bumpAllocated, |buddy.zones|, 0)
  {
    EmptyIsFree();
    var pageIdx: nat := 0;
    for z := 0 to |buddy.zones|
      invariant buddy.Valid()
      invariant pageIdx < bumpAllocated <==> Total(buddy.zones[..z]) < bumpAllocated
      invariant pageIdx < bumpAllocated ==> pageIdx == Total(buddy.zones[..z])
      invariant FreeSet(buddy.Lists()) == SeededBefore(buddy.zones, bumpAllocated, z, 0)
    {
      TotalSucc(buddy.zones, z);
      pageIdx := SeedZone(buddy, bumpAllocated, z, pageIdx);
    }
  }

  method SeedZone(buddy: BuddyAllocator, bumpAllocated: nat, z: nat, start: nat) returns (pageIdx: nat)
    requires buddy.Valid() && RegionsDisjoint(buddy.zones) && z < |buddy.zones|
    requires start < bumpAllocated <==> Total(buddy.zones[..z]) < bumpAllocated
    requires start < bumpAllocated ==> start == Total(buddy.zones[..z])
    requires FreeSet(buddy.Lists()) == SeededBefore(buddy.zones, bumpAllocated, z, 0)
    modifies buddy.Repr()
    ensures buddy.Valid()
    ensures pageIdx < bumpAllocated <==> Total(buddy.zones[..z]) + buddy.zones[z].size < bumpAllocated
    ensures pageIdx < bumpAllocated ==> pageIdx == Total(buddy.zones[..z]) + buddy.zones[z].size
    ensures FreeSet(buddy.Lists()) == SeededBefore(buddy.zones, bumpAllocated, z + 1, 0)
  {
    var zone := buddy.zones[z];
    ghost var skip := Skip(buddy.zones, z, bumpAllocated);
    pageIdx := start;
    var i: nat := 0;
    while i < zone.size
      invariant buddy.Valid() && i <= zone.size + 1
      invariant pageIdx < bumpAllocated <==> Total(buddy.zones[..z]) + i < bumpAllocated
      invariant pageIdx < bumpAllocated ==> pageIdx == Total(buddy.zones[..z]) + i && i <= skip
      invariant pageIdx >= bumpAllocated ==> i >= skip && (i - skip) % 2 == 0
      invariant i > zone.size ==> pageIdx >= bumpAllocated && skip < zone.size
      invariant FreeSet(buddy.Lists()) == SeededBefore(buddy.zones, bumpAllocated, z, i)
    {
      if pageIdx < bumpAllocated {
        pageIdx := pageIdx + 1;
        SkipOne(buddy.zones, bumpAllocated, z, i);
        i := i + 1;
        continue;
      }
      var curOrder := OrderFor(zone.size - i);
      SeedPage(buddy, bumpAllocated, z, i, curOrder);
      pageIdx := pageIdx + Pow2(curOrder);
      i := i + Pow2(curOrder);
      i := i + 1;
    }
    ZoneDone(buddy.zones, bumpAllocated, z, i);
  }

  /** The order search of `buddy_init`: it leaves order 0 only when no page is left. */
  method OrderFor(left: nat) returns (curOrder: nat)
    ensures curOrder == if left > 0 then 0 else MAX_ORDER
  {
    curOrder := 0;
    while left < Pow2(curOrder) && curOrder < MAX_ORDER
      invariant curOrder <= MAX_ORDER && (left > 0 ==> curOrder == 0)
      decreases MAX_ORDER - curOrder
    {
      curOrder := curOrder + 1;
    }
  }

  method SeedPage(buddy: BuddyAllocator, bumpAllocated: nat, z: nat, i: nat, curOrder: nat)
    requires buddy.Valid() && RegionsDisjoint(buddy.zones) && z < |buddy.zones| && Seeds(buddy.zones, bumpAllocated, z, i)
    requires FreeSet(buddy.Lists()) == SeededBefore(buddy.zones, bumpAllocated, z, i) && curOrder == 0
    modifies buddy.Repr()
    ensures buddy.Valid()
    ensures FreeSet(buddy.Lists()) == SeededBefore(buddy.zones, bumpAllocated, z, i + 2)
  {
    var pfn := buddy.zones[z].pfnBase + i;
    SeedOne(buddy.zones, bumpAllocated, z, i);
    assert Block(pfn, 0) == iset{pfn};
    assert Taken(buddy.Lists(), pfn, 0) by {
      TakenDisjoint(buddy.Lists(), pfn, 0);
    }
    buddy.FreePages(pfn, curOrder);
  }

  /** Every seeded page is in a zone and none is a page the bump allocator handed out. */
  lemma SeedsAvoidBump(zones: seq<Zone>, bump: nat, q: nat)
    requires RegionsDisjoint(zones) && q in SeededBefore(zones, bump, |zones|, 0)
    ensures InZones(zones, q)
    ensures forall k: nat :: k < bump ==> PageAt(zones, k) != Some(q)
  {
    var y: nat, j: nat :| y < |zones| && Seeds(zones, bump, y, j) && q == zones[y].pfnBase + j;
    PageAtOrdinal(zones, y, j);
    forall k: nat | k < bump ensures PageAt(zones, k) != Some(q) {
      PageAtInjective(zones, Ordinal(zones, y, j), k);
    }
  }
}
