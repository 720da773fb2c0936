/**
 The buddy allocator on its real state: the page array's fields and the sixteen
 free lists threaded through it, updated in place.

 Repair: `alloc_pages_nolock` pops a block without clearing its FREE flag.
 `AllocPagesNolock` does as the source does and says when the flag survives;
 `AllocPages` clears it.
 */
module Buddy {
  import opened Bits
  import opened Collections
  import opened BuddySpec
  import opened BuddyTheorems
  import opened BuddyRuns
  import opened IntrusiveList

  const BUDDY_ZERO: nat := 1  // the only flag there is

  datatype Zone = Zone(pfnBase: nat, size: nat)

  predicate InZones(zones: seq<Zone>, pfn: nat) {
    exists i :: 0 <= i < |zones| && zones[i].pfnBase <= pfn < zones[i].pfnBase + zones[i].size
  }

  ghost function ZonePages(zones: seq<Zone>): iset<nat> {
    iset q: nat | InZones(zones, q)
  }

  /** The FREE flag is set on the heads of free blocks and on `stale`, and `buddy_order` tells their list. */
  ghost predicate FlagsMatch(free: seq<bool>, order: seq<int>, lists: Lists, stale: int) {
    && |free| == |order|
    && (forall o, p {:trigger p in lists[o]} :: 0 <= o < N_ORDERS && p in lists[o] ==> p < |free| && free[p] && order[p] == o)
    && (forall p :: 0 <= p < |free| && free[p] && p != stale ==> 0 <= order[p] < N_ORDERS && p in lists[order[p]])
    && (0 <= stale < |free| ==> free[stale])
  }

  /** The page fields and counters describe the free lists `l`, all of whose pages lie in the zones. */
  ghost predicate Describes(zones: seq<Zone>, free: seq<bool>, order: seq<int>, count: seq<int>, l: Lists, stale: int) {
    && |free| <= 0x1_0000_0000
    && (forall q: nat :: InZones(zones, q) ==> q < |free|)
    && Inv(l) && FreeSet(l) <= ZonePages(zones)
    && |count| == N_ORDERS && (forall o :: 0 <= o < N_ORDERS ==> count[o] == |l[o]|)
    && FlagsMatch(free, order, l, stale)
  }

  lemma TakeOut(zones: seq<Zone>, free: seq<bool>, order: seq<int>, count: seq<int>, l: Lists, stale: int,
                p: nat, o: nat, s: seq<nat>)
    requires Describes(zones, free, order, count, l, stale)
    requires o < N_ORDERS && p in l[o] && Distinct(s) && |s| == |l[o]| - 1
    requires forall x :: x in s <==> x in l[o] && x != p
    ensures p < |free| && order[p] == o
    ensures p != stale ==> Describes(zones, free[p := false], order, count[o := count[o] - 1], l[o := s], stale)
    ensures stale == -1 ==> Describes(zones, free, order, count[o := count[o] - 1], l[o := s], p)
  {
    RemoveBlock(l, p, o, s);
    TakeOutFlags(free, order, l, stale, p, o, s);
  }

  lemma TakeOutFlags(free: seq<bool>, order: seq<int>, l: Lists, stale: int, p: nat, o: nat, s: seq<nat>)
    requires FlagsMatch(free, order, l, stale)
    requires o < N_ORDERS && p in l[o] && forall x :: x in s <==> x in l[o] && x != p
    ensures p < |free| && order[p] == o
    ensures p != stale ==> FlagsMatch(free[p := false], order, l[o := s], stale)
    ensures stale == -1 ==> FlagsMatch(free, order, l[o := s], p)
  {
    var l1: Lists := l[o := s];
    forall o', x | 0 <= o' < N_ORDERS && x in l1[o'] ensures x in l[o'] && x < |free| && free[x] && order[x] == o' && x != p {
    }
    forall x | 0 <= x < |free| && free[x] && x != p && x != stale ensures 0 <= order[x] < N_ORDERS && x in l1[order[x]] {
      assert x in l[order[x]];
    }
  }

  lemma PutIn(zones: seq<Zone>, free: seq<bool>, order: seq<int>, count: seq<int>, l: Lists, stale: int, p: nat, o: nat)
    requires Describes(zones, free, order, count, l, stale)
    requires o <= MAX_ORDER && Aligned(p, o) && Taken(l, p, o) && Block(p, o) <= ZonePages(zones)
    requires o < MAX_ORDER ==> GetBuddy(p, o) !in l[o]
    requires p != stale
    ensures p < |free| && forall o' :: 0 <= o' < N_ORDERS ==> p !in l[o']
    ensures Describes(zones, free[p := true], order[p := o], count[o := count[o] + 1], l[o := [p] + l[o]], stale)
  {
    AddBlock(l, p, o);
    assert InBlock(p, p, o) && p in Block(p, o);
    forall o' | 0 <= o' < N_ORDERS ensures p !in l[o'] {
      if p in l[o'] {
        FreeListed(l, p, o');
        assert InBlock(p, p, o');
      }
    }
    PutInFlags(free, order, l, stale, p, o);
  }

  lemma PutInFlags(free: seq<bool>, order: seq<int>, l: Lists, stale: int, p: nat, o: nat)
    requires FlagsMatch(free, order, l, stale)
    requires o < N_ORDERS && p < |free| && p != stale && forall o' :: 0 <= o' < N_ORDERS ==> p !in l[o']
    ensures FlagsMatch(free[p := true], order[p := o], l[o := [p] + l[o]], stale)
  {
    var l1: Lists := l[o := [p] + l[o]];
    var free1, order1 := free[p := true], order[p := o];
    forall o', x | 0 <= o' < N_ORDERS && x in l1[o'] ensures x < |free| && free1[x] && order1[x] == o' {
      assert x in l[o'] || (o' == o && x == p);
    }
    forall x | 0 <= x < |free| && free1[x] && x != stale ensures 0 <= order1[x] < N_ORDERS && x in l1[order1[x]] {
      assert x != p ==> x in l[order[x]];
    }
  }

  lemma BuddyBelow32(p: nat, o: nat)
    requires o <= MAX_ORDER && Aligned(p, o) && p < 0x1_0000_0000
    ensures GetBuddy(p, o) < 0x1_0000_0000
  {
    BuddyFacts(p, o);
    ShrMono(p, GetBuddy(p, o), o + 1, 32);
    Below32(p);
    Below32(GetBuddy(p, o));
  }

  /** The four guards of `free_pages_nolock` on the buddy `b`. */
  predicate Guards(zones: seq<Zone>, free: seq<bool>, order: seq<int>, b: nat, o: nat) {
    InZones(zones, b) && b < |free| && free[b] && b < |order| && order[b] == o && o != MAX_ORDER
  }

  /** The guards hold exactly when the buddy is a free block of the same order, or is the page with the stale flag. */
  lemma MergeGuard(zones: seq<Zone>, free: seq<bool>, order: seq<int>, count: seq<int>, l: Lists, stale: int, p: nat, o: nat)
    requires Describes(zones, free, order, count, l, stale)
    requires o <= MAX_ORDER && Aligned(p, o) && p < |free|
    ensures var b := GetBuddy(p, o);
      && (InZones(zones, b) ==> b < |free|)
      && (Guards(zones, free, order, b, o) <==>
            o < MAX_ORDER && (b in l[o] || (b == stale && InZones(zones, b) && b < |order| && order[b] == o)))
  {
    var b := GetBuddy(p, o);
    if b in l[o] {
      FreeListed(l, b, o);
      assert InBlock(b, b, o) && b in FreeSet(l);
    }
  }

  /**
   Why the surviving flag matters: a page popped from its own order's list still
   passes all four guards when its buddy is freed, though it is on no free list.
   */
  lemma StaleFlagPassesGuards(zones: seq<Zone>, free: seq<bool>, order: seq<int>, count: seq<int>, l: Lists, stale: nat, o: nat)
    requires Describes(zones, free, order, count, l, stale) && stale < |free| && stale !in FreeSet(l)
    requires o < MAX_ORDER && order[stale] == o && Aligned(stale, o) && InZones(zones, stale) && GetBuddy(stale, o) < |free|
    ensures var b := GetBuddy(GetBuddy(stale, o), o);
      b == stale && Guards(zones, free, order, b, o) && b !in l[o]
  {
    hide GetBuddy, FreePage, FreeSet, Inv;
    BuddyFacts(stale, o);
    MergeGuard(zones, free, order, count, l, stale, GetBuddy(stale, o), o);
    NotListed(l, stale, o);
  }

  /**
   And what follows: from the state a direct pop of the source leaves, freeing
   the buddy merges the page just handed out.  The merged block is freed one
   order up, and the pages its holder still uses are on the free lists.
   */
  lemma StaleFlagGivesPageAway(zones: seq<Zone>, free: seq<bool>, order: seq<int>, count: seq<int>, l0: Lists, l: Lists, held: nat, o: nat)
    requires o < MAX_ORDER && Inv(l0) && l0[o] != [] && (l, Some(held)) == AllocSpec(l0, o)
    requires Describes(zones, free, order, count, l, held) && held < |free| && order[held] == o && InZones(zones, held)
    requires GetBuddy(held, o) < |free| && Taken(l, GetBuddy(held, o), o)
    ensures Aligned(held, o)
    ensures var page := GetBuddy(held, o); var m := if held > page then page else held;
      && GetBuddy(page, o) == held && Guards(zones, free, order, held, o)
      && Aligned(m, o + 1) && Taken(l, m, o + 1) && Inv(FreeSpec(l, m, o + 1))
      && FreeSet(FreeSpec(l, m, o + 1)) == FreeSet(l) + Block(page, o) + Block(held, o)
      && held in FreeSet(FreeSpec(l, m, o + 1))
  {
    hide GetBuddy, FreePage, AllocSpec, FreeSpec, Inv, FlagsMatch;
    AllocKeepsInv(l0, o);
    BuddyFacts(held, o);
    var page := GetBuddy(held, o);
    var m := if held > page then page else held;
    assert InBlock(held, held, o) && held in Block(held, o);
    NotFree(l, held, o);
    StaleFlagPassesGuards(zones, free, order, count, l, held, o);
    PairTaken(l, page, held, m, o);
    FreeKeepsInv(l, m, o + 1);
  }

  lemma NotFree(l: Lists, p: nat, o: nat)
    requires Taken(l, p, o)
    ensures p !in FreeSet(l)
  {
    assert InBlock(p, p, o);
  }

  /** Two buddies that are taken make one block that is. */
  lemma PairTaken(l: Lists, page: nat, held: nat, m: nat, o: nat)
    requires o < MAX_ORDER && Aligned(page, o) && held == GetBuddy(page, o) && m == if held > page then page else held
    requires Taken(l, page, o) && Taken(l, held, o)
    ensures Aligned(m, o + 1) && Taken(l, m, o + 1) && Block(m, o + 1) == Block(page, o) + Block(held, o)
  {
    BuddyFacts(page, o);
    BuddyFacts(held, o);
    BlockHalves(page, o);
    BlockHalves(held, o);
    TakenDisjoint(l, page, o);
    TakenDisjoint(l, held, o);
    TakenDisjoint(l, m, o + 1);
  }

  lemma NotListed(l: Lists, p: nat, o: nat)
    requires Inv(l) && o < N_ORDERS && p !in FreeSet(l)
    ensures p !in l[o]
  {
    if p in l[o] {
      FreeListed(l, p, o);
      assert InBlock(p, p, o);
    }
  }

  /** What the recursive call of a merging free starts from, and that it finishes the job. */
  lemma MergeCall(zones: seq<Zone>, l: Lists, p: nat, o: nat)
    requires o < MAX_ORDER && Inv(l) && Aligned(p, o) && Taken(l, p, o) && GetBuddy(p, o) in l[o]
    requires Block(p, o) <= ZonePages(zones) && FreeSet(l) <= ZonePages(zones)
    ensures var b := GetBuddy(p, o);
      var l1: Lists, m := l[o := Remove(l[o], b)], if b > p then p else b;
      && Aligned(m, o + 1) && Taken(l1, m, o + 1) && Block(m, o + 1) <= ZonePages(zones)
      && FreeSpec(l, p, o) == FreeSpec(l1, m, o + 1)
      && FreeSet(l1) + Block(m, o + 1) == FreeSet(l) + Block(p, o)
  {
    MergeStep(l, p, o);
    BlockHalves(p, o);
    FreeListed(l, GetBuddy(p, o), o);
    assert Block(GetBuddy(p, o), o) <= FreeSet(l);
  }

  /** The buddy half freed by a splitting alloc is a legal free. */
  lemma SplitCall(zones: seq<Zone>, l: Lists, o: nat)
    requires o < MAX_ORDER && Inv(l) && FreeSet(l) <= ZonePages(zones) && l[o] == []
    requires AllocSpec(l, o + 1).1.Some?
    ensures var (l1, r) := AllocSpec(l, o + 1); var b := GetBuddy(r.value, o);
      && Aligned(b, o) && Taken(l1, b, o) && Block(b, o) <= FreeSet(l) && b != r.value && GetBuddy(b, o) == r.value
      && FreeSet(FreeSpec(l1, b, o)) <= FreeSet(l) && r.value !in FreeSet(FreeSpec(l1, b, o))
  {
    AllocKeepsInv(l, o + 1);
    AllocKeepsInv(l, o);
    var (l1, r) := AllocSpec(l, o + 1);
    var p, b := r.value, GetBuddy(r.value, o);
    AlignedDown(p, o);
    BuddyFacts(p, o);
    BlockHalves(p, o);
    SplitLists(l1, p, o);
    TakenParts(l1, p, b, o);
    FreeKeepsInv(l1, b, o);
    assert InBlock(p, p, o) && p in Block(p, o);
  }

  /** Clearing the flag that outlived the pop leaves no page marked free that is not. */
  lemma ClearStale(zones: seq<Zone>, free: seq<bool>, order: seq<int>, count: seq<int>, l: Lists, stale: int, p: nat)
    requires Describes(zones, free, order, count, l, stale) && (stale == -1 || stale == p)
    requires p < |free| && p !in FreeSet(l)
    ensures Describes(zones, free[p := false], order, count, l, -1)
  {
    forall o | 0 <= o < N_ORDERS ensures p !in l[o] {
      if p in l[o] {
        FreeListed(l, p, o);
        assert InBlock(p, p, o);
      }
    }
  }

  class BuddyAllocator {
    const zones: seq<Zone>
    const links: ListPool
    const free: array<bool>
    const order: array<int>
    const count: array<int>

    ghost function Repr(): set<object> {
      {this, free, order, count, links} + links.Repr()
    }

    ghost function Lists(): Lists
      reads links
      requires |links.lists| == N_ORDERS
    {
      links.lists
    }

    /** Everything but the flag of the page just popped. */
    ghost predicate ValidExcept(stale: int)
      reads Repr()
    {
      && count !in {order, links.heads, links.next, links.prev}
      && order !in {links.heads, links.next, links.prev}
      && links.Valid() && |links.lists| == N_ORDERS && links.next.Length == free.Length
      && Describes(zones, free[..], order[..], count[..], Lists(), stale)
    }

    ghost predicate Valid()
      reads Repr()
    {
      ValidExcept(-1)
    }

    constructor (zones: seq<Zone>, nPages: nat)
      requires nPages <= 0x1_0000_0000 && forall q: nat :: InZones(zones, q) ==> q < nPages
      ensures Valid() && fresh(Repr()) && this.zones == zones && free.Length == nPages
      ensures Lists() == EmptyPool.lists
    {
      this.zones := zones;
      links := new ListPool(nPages, N_ORDERS);
      free := new bool[nPages](_ => false);
      order := new int[nPages](_ => 0);
      count := new int[N_ORDERS](_ => 0);
      new;
      EmptyIsFree();
    }

    method ValidBuddyPfn(pfn: nat) returns (ok: bool)
      ensures ok == InZones(zones, pfn)
    {
      for i := 0 to |zones|
        invariant forall j :: 0 <= j < i ==> !(zones[j].pfnBase <= pfn < zones[j].pfnBase + zones[j].size)
      {
        if zones[i].pfnBase <= pfn && zones[i].pfnBase + zones[i].size > pfn {
          return true;
        }
      }
      return false;
    }

    /** The link words, outside `S`, are as they were: the union with an owner's data is sound. */
    twostate predicate LinksKept(S: iset<nat>)
      reads Repr()
    {
      forall x: nat :: x < links.next.Length <= links.prev.Length && x !in S ==>
        links.next[x] == old(links.next[x]) && links.prev[x] == old(links.prev[x])
    }

    lemma ListedIsFree(x: nat)
      requires links.Valid() && |links.lists| == N_ORDERS && ListsAligned(Lists()) && links.Listed(x)
      ensures x in FreeSet(Lists())
    {
      var o: nat :| o < N_ORDERS && x in Lists()[o];
      FreeListed(Lists(), x, o);
      assert InBlock(x, x, o);
    }

    method RemoveFromFreelist(page: nat, ghost stale: int)
      requires ValidExcept(stale) && page < free.Length && page != stale
      requires 0 <= order[page] < N_ORDERS && page in Lists()[order[page]]
      modifies Repr()
      ensures ValidExcept(stale)
      ensures Lists() == old(Lists()[order[page] := Remove(Lists()[order[page]], page)])
      ensures order[..] == old(order[..])
      ensures LinksKept(old(FreeSet(Lists())))
    {
      hide FreePage, WellLinked;
      ghost var l, o := Lists(), order[page];
      RemoveFacts(l[o], page);
      TakeOut(zones, free[..], order[..], count[..], l, stale, page, o, Remove(l[o], page));
      forall x: nat | links.Listed(x) ensures x in FreeSet(l) {
        ListedIsFree(x);
      }
      links.ListRemoveNode(order[page], page);
      count[order[page]] := count[order[page]] - 1;
      free[page] := false;
      assert free[..] == old(free[..])[page := false];
      assert count[..] == old(count[..])[o := old(count[o]) - 1];
    }
  
    /** The `direct_free` tail of `free_pages_nolock`. */
    method DirectFree(page: nat, ord: nat, ghost stale: int)
      requires ValidExcept(stale) && ord <= MAX_ORDER && page != stale
      requires Aligned(page, ord) && Taken(Lists(), page, ord) && Block(page, ord) <= ZonePages(zones)
      requires ord < MAX_ORDER ==> GetBuddy(page, ord) !in Lists()[ord]
      modifies Repr()
      ensures ValidExcept(stale)
      ensures Lists() == old(Lists()[ord := [page] + Lists()[ord]])
      ensures order[..] == old(order[..])[page := ord]
      ensures LinksKept(FreeSet(Lists()))
    {
      ghost var l := Lists();
      PutIn(zones, free[..], order[..], count[..], l, stale, page, ord);
      AddBlock(l, page, ord);
      assert InBlock(page, page, ord) && page in Block(page, ord);
      forall x: nat | links.Listed(x) ensures x in FreeSet(l) {
        ListedIsFree(x);
      }
      order[page] := ord;
      free[page] := true;
      links.ListPushFront(ord, page);
      count[ord] := count[ord] + 1;
      assert free[..] == old(free[..])[page := true];
      assert count[..] == old(count[..])[ord := old(count[ord]) + 1];
    }

    /** The four guards of `free_pages_nolock`. */
    method Mergeable(page: nat, ord: nat, ghost stale: int) returns (merge: bool, buddyPfn: nat)
      requires ValidExcept(stale) && ord <= MAX_ORDER && Aligned(page, ord) && page < free.Length
      requires 0 <= stale ==> stale == GetBuddy(page, ord) && stale < order.Length && order[stale] != ord
      ensures buddyPfn == GetBuddy(page, ord)
      ensures merge <==> ord < MAX_ORDER && buddyPfn in Lists()[ord]
      ensures merge ==> buddyPfn < free.Length && order[buddyPfn] == ord && buddyPfn != stale
    {
      hide FreePage, GetBuddy;
      MergeGuard(zones, free[..], order[..], count[..], Lists(), stale, page, ord);
      BuddyBelow32(page, ord);
      buddyPfn := GetBuddy(page, ord) % 0x1_0000_0000;  // unsigned int in the source
      var valid := ValidBuddyPfn(buddyPfn);
      merge := valid && free[buddyPfn] && order[buddyPfn] == ord && order[buddyPfn] != MAX_ORDER;
    }

    /** `stale` is a page whose FREE flag outlived its pop; only its buddy may be freed then, at another order. */
    method FreePagesNolock(page: nat, ord: nat, ghost stale: int)
      requires ValidExcept(stale) && ord <= MAX_ORDER && page != stale
      requires Aligned(page, ord) && Taken(Lists(), page, ord) && Block(page, ord) <= ZonePages(zones)
      requires 0 <= stale ==> stale == GetBuddy(page, ord) && stale < order.Length && order[stale] != ord
      modifies Repr()
      ensures ValidExcept(stale)
      ensures Lists() == FreeSpec(old(Lists()), page, ord)
      ensures FreeSet(Lists()) == old(FreeSet(Lists())) + Block(page, ord)
      ensures LinksKept(FreeSet(Lists()))
      decreases MAX_ORDER - ord
    {
      hide FlagsMatch, ListPool.Valid, FreePage, GetBuddy;
      ghost var l := Lists();
      assert InBlock(page, page, ord) && page in Block(page, ord);
      var merge, buddyPfn := Mergeable(page, ord, stale);
      if !merge {
        AddBlock(l, page, ord);
        DirectFree(page, ord, stale);
        return;
      }
      MergeCall(zones, l, page, ord);
      RemoveFromFreelist(buddyPfn, stale);
      if buddyPfn > page {
        FreePagesNolock(page, ord + 1, stale);
      } else {
        FreePagesNolock(buddyPfn, ord + 1, stale);
      }
    }

    /** `free_pages`. */
    method FreePages(page: nat, ord: nat)
      requires Valid() && ord <= MAX_ORDER
      requires Aligned(page, ord) && Taken(Lists(), page, ord) && Block(page, ord) <= ZonePages(zones)
      modifies Repr()
      ensures Valid() && Lists() == FreeSpec(old(Lists()), page, ord)
      ensures FreeSet(Lists()) == old(FreeSet(Lists())) + Block(page, ord)
      ensures LinksKept(FreeSet(Lists()))
    {
      FreePagesNolock(page, ord, -1);
    }

    /** The pop from a list of the requested order; the FREE flag stays. */
    method PopBlock(ord: nat) returns (page: nat)
      requires Valid() && ord <= MAX_ORDER && Lists()[ord] != []
      modifies Repr()
      ensures ValidExcept(page) && page == old(Lists())[ord][0] && Lists() == old(Lists()[ord := Lists()[ord][1..]])
      ensures page < free.Length && free[page] && order[page] == ord
      ensures LinksKept(old(FreeSet(Lists())))
    {
      ghost var l := Lists();
      ghost var p, s := l[ord][0], l[ord][1..];
      assert l[ord] == [p] + s;
      TakeOut(zones, free[..], order[..], count[..], l, -1, p, ord, s);
      forall x: nat | links.Listed(x) ensures x in FreeSet(l) {
        ListedIsFree(x);
      }
      page := links.ListPopFront(ord);
      count[ord] := count[ord] - 1;
      assert count[..] == old(count[..])[ord := old(count[ord]) - 1];
    }

    /** What a splitting alloc does once the larger block `pfn` is in hand. */
    method SplitTail(pfn: nat, ord: nat, ghost stale: int)
      requires ValidExcept(stale) && ord < MAX_ORDER && pfn < free.Length
      requires stale == -1 || (stale == pfn && order[stale] != ord)
      requires var b := GetBuddy(pfn, ord);
        && Aligned(b, ord) && Taken(Lists(), b, ord) && Block(b, ord) <= ZonePages(zones) && b != pfn
        && GetBuddy(b, ord) == pfn && pfn !in FreeSet(FreeSpec(Lists(), b, ord))
      modifies Repr()
      ensures Valid() && Lists() == FreeSpec(old(Lists()), GetBuddy(pfn, ord), ord)
      ensures !free[pfn]
      ensures LinksKept(FreeSet(Lists()))
    {
      FreePagesNolock(GetBuddy(pfn, ord), ord, stale);
      ClearStale(zones, free[..], order[..], count[..], Lists(), stale, pfn);
      free[pfn] := false;
    }

    /** As the source has it: the page keeps its FREE flag exactly when it was popped from its own order's list. */
    method AllocPagesNolock(ord: nat) returns (ret: Option<nat>, ghost stale: int)
      requires Valid() && ord <= MAX_ORDER
      modifies Repr()
      ensures ValidExcept(stale) && (Lists(), ret) == AllocSpec(old(Lists()), ord)
      ensures ret.Some? ==> ret.value < free.Length && free[ret.value] == (old(Lists())[ord] != [])
      ensures stale == if ret.Some? && old(Lists())[ord] != [] then ret.value else -1
      ensures 0 <= stale < order.Length ==> order[stale] == ord
      ensures LinksKept(old(FreeSet(Lists())))
      decreases MAX_ORDER - ord
    {
      ghost var l := Lists();
      if count[ord] > 0 {
        var page := PopBlock(ord);
        return Some(page), page;
      }
      if ord == MAX_ORDER {
        return None, -1;
      }
      ret, stale := AllocPagesNolock(ord + 1);
      if ret == None {
        return None, -1;
      }
      SplitCall(zones, l, ord);
      SplitTail(ret.value, ord, stale);
      return ret, -1;
    }

    /** `alloc_pages`: unknown flags are refused; the repair clears the FREE flag that a direct pop leaves behind. */
    method AllocPages(ord: nat, flags: nat) returns (ret: Option<nat>)
      requires Valid() && ord <= MAX_ORDER
      modifies Repr()
      ensures Valid()
      ensures if flags <= BUDDY_ZERO then (Lists(), ret) == AllocSpec(old(Lists()), ord)
              else ret == None && Lists() == old(Lists())
      ensures LinksKept(old(FreeSet(Lists())))
    {
      if flags / 2 != 0 {
        return None;
      }
      ghost var l, stale := Lists(), -1;
      AllocKeepsInv(l, ord);
      ret, stale := AllocPagesNolock(ord);
      if ret.Some? {
        assert InBlock(ret.value, ret.value, ord);
        ClearStale(zones, free[..], order[..], count[..], Lists(), stale, ret.value);
        free[ret.value] := false;  // repair
      }
    }
  }
}
