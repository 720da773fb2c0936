/**
 kmalloc and kfree on the fields the kernel keeps: three intrusive lists and
 counters per cache, a descriptor per slab, a slab pointer per page.

 A descriptor is indexed by its slab's first page; a fresh one is always at
 hand, as the descriptor pool is not part of this model.
 */
module SlabHeap {
  import opened Collections
  import opened Bits
  import opened BuddySpec
  import opened BuddyTheorems
  import opened Buddy
  import opened IntrusiveList
  import opened SlabSpec
  import opened SlabTheorems
  import opened SlabRuns

  const N_LISTS: nat := 36

  /** The descriptor fields hold `slabs`, the page pointers `marks`, the counters the list lengths. */
  ghost predicate Holds(cacheOf: seq<nat>, freeObjects: seq<int>, freelist: seq<seq<nat>>, pageSlab: seq<nat>, counts: seq<int>,
                        slabs: map<nat, Slab>, marks: map<nat, nat>, queues: seq<seq<nat>>)
  {
    && |freeObjects| == |freelist| == |pageSlab| == |cacheOf| && |counts| == |queues| == N_LISTS
    && (forall id :: id in slabs ==> DescribedAt(cacheOf, freeObjects, freelist, id, slabs[id]))
    && (forall q :: q in marks ==> q < |pageSlab| && pageSlab[q] == marks[q])
    && (forall i :: 0 <= i < N_LISTS ==> counts[i] == |queues[i]|)
  }

  ghost predicate DescribedAt(cacheOf: seq<nat>, freeObjects: seq<int>, freelist: seq<seq<nat>>, id: nat, s: Slab) {
    && id < |cacheOf| && id < |freeObjects| && id < |freelist|
    && cacheOf[id] == s.cache && freeObjects[id] == s.freeObjects && freelist[id] == s.freelist
  }

  ghost predicate Off(lists: seq<seq<nat>>, n: nat) {
    forall g :: 0 <= g < |lists| ==> n !in lists[g]
  }

  /** A node taken off its list is on none. */
  lemma OffEveryList(next: seq<int>, prev: seq<int>, heads: seq<int>, lists: seq<seq<nat>>, h: nat, n: nat, rest: seq<nat>)
    requires WellLinked(next, prev, heads, lists) && h < |lists| && n in lists[h] && n !in rest
    ensures Off(lists[h := rest], n)
  {
  }

  class SlabLists {
    const links: ListPool
    const cacheOf: array<nat>
    const freeObjects: array<int>
    const freelist: array<seq<nat>>
    const pageSlab: array<nat>
    const counts: array<int>     // n_full, n_partial and n_empty of every cache
    ghost var slabs: map<nat, Slab>
    ghost var marks: map<nat, nat>

    ghost function Repr(): set<object> {
      {this, cacheOf, freeObjects, freelist, pageSlab, counts, links} + links.Repr()
    }

    ghost predicate Valid()
      reads Repr()
    {
      && this !in links.Repr() && counts !in {freeObjects, links.heads, links.next, links.prev}
      && freeObjects !in {links.heads, links.next, links.prev}
      && cacheOf != pageSlab
      && links.Valid() && links.next.Length == cacheOf.Length
      && Holds(cacheOf[..], freeObjects[..], freelist[..], pageSlab[..], counts[..], slabs, marks, links.lists)
    }

    /** The heap made of these lists over the buddy's lists `l`. */
    ghost function On(l: Lists): Heap
      reads this, links
    {
      Heap(l, slabs, links.lists, marks)
    }

    constructor (n: nat)
      ensures Valid() && fresh(Repr()) && cacheOf.Length == n
      ensures forall l: Lists :: On(l) == EmptyHeap(l)
    {
      links := new ListPool(n, N_LISTS);
      cacheOf := new nat[n](_ => 0);
      freeObjects := new int[n](_ => 0);
      freelist := new seq<nat>[n](_ => []);
      pageSlab := new nat[n](_ => 0);
      counts := new int[N_LISTS](_ => 0);
      slabs, marks := map[], map[];
    }

    /** `kmem_insert_slab`: the slab goes to the front of the list that matches its free count. */
    method InsertSlab(id: nat)
      requires Valid() && id in slabs && slabs[id].cache < SLAB_COUNT && Off(links.lists, id)
      modifies Repr()
      ensures Valid() && slabs == old(slabs) && marks == old(marks)
      ensures forall l: Lists :: On(l) == PutSlab(old(On(l)), id, old(slabs[id]))
    {
      var c := cacheOf[id];
      var q: nat;
      if Objects(c) == freeObjects[id] {
        q := Queue(c, EMPTY);
      } else if freeObjects[id] == 0 {
        q := Queue(c, FULL);
      } else {
        q := Queue(c, PARTIAL);
      }
      counts[q] := counts[q] + 1;
      links.ListPushFront(q, id);
      assert slabs == slabs[id := slabs[id]];
      assert counts[..] == old(counts[..])[q := old(counts[q]) + 1];
    }

    /** `kmem_get_chunk_from_slab`. */
    method GetChunk(id: nat) returns (chunk: nat)
      requires Valid() && id in slabs && slabs[id].freelist != [] && slabs[id].freeObjects > 0
      modifies Repr()
      ensures Valid() && links.lists == old(links.lists) && marks == old(marks)
      ensures var s := old(slabs[id]);
        && chunk == s.freelist[0]
        && slabs == old(slabs)[id := s.(freeObjects := s.freeObjects - 1, freelist := s.freelist[1..])]
    {
      ghost var s := slabs[id];
      freeObjects[id] := freeObjects[id] - 1;
      chunk := freelist[id][0];
      freelist[id] := freelist[id][1..];
      slabs := slabs[id := s.(freeObjects := s.freeObjects - 1, freelist := s.freelist[1..])];
      assert freeObjects[..] == old(freeObjects[..])[id := old(freeObjects[id]) - 1];
      assert freelist[..] == old(freelist[..])[id := old(freelist[id])[1..]];
    }

    /** A slab off the front of its list. */
    method PopSlab(q: nat) returns (id: nat)
      requires Valid() && q < N_LISTS && links.lists[q] != []
      modifies Repr()
      ensures Valid() && id == old(links.lists[q][0]) && Off(links.lists, id)
      ensures links.lists == old(links.lists[q := links.lists[q][1..]]) && slabs == old(slabs) && marks == old(marks)
    {
      ghost var l := links.lists[q];
      assert l[0] in l && l[0] !in l[1..];
      OffEveryList(links.next[..], links.prev[..], links.heads[..], links.lists, q, l[0], l[1..]);
      id := links.ListPopFront(q);
      counts[q] := counts[q] - 1;
      assert counts[..] == old(counts[..])[q := old(counts[q]) - 1];
    }

    /** A slab out of the middle of its list. */
    method UnlinkSlab(q: nat, id: nat)
      requires Valid() && q < N_LISTS && id in links.lists[q]
      modifies Repr()
      ensures Valid() && Off(links.lists, id)
      ensures links.lists == old(links.lists[q := Remove(links.lists[q], id)]) && slabs == old(slabs) && marks == old(marks)
    {
      RemoveFacts(links.lists[q], id);
      OffEveryList(links.next[..], links.prev[..], links.heads[..], links.lists, q, id, Remove(links.lists[q], id));
      links.ListRemoveNode(q, id);
      counts[q] := counts[q] - 1;
      assert counts[..] == old(counts[..])[q := old(counts[q]) - 1];
    }

    /** `kmem_cache_alloc_partial` and `kmem_cache_alloc_empty`, which differ only in the list. */
    method AllocFrom(c: nat, kind: nat) returns (chunk: nat)
      requires Valid()
      requires c < SLAB_COUNT && kind <= EMPTY && links.lists[Queue(c, kind)] != []
      requires var id := links.lists[Queue(c, kind)][0];
        id in slabs && slabs[id].cache < SLAB_COUNT && slabs[id].freelist != [] && slabs[id].freeObjects > 0
      modifies Repr()
      ensures Valid()
      ensures forall l: Lists :: (On(l), chunk) == TakeChunk(old(On(l)), c, kind)
    {
      hide SlabLists.Valid, Off, Kind, ClassSize;
      var id := PopSlab(Queue(c, kind));
      chunk := GetChunk(id);
      InsertSlab(id);
    }

    /** `slist_push_front` of a freed chunk and the count. */
    method PutChunk(id: nat, chunk: nat)
      requires Valid() && id in slabs
      modifies Repr()
      ensures Valid() && links.lists == old(links.lists) && marks == old(marks)
      ensures var s := old(slabs[id]);
        slabs == old(slabs)[id := s.(freeObjects := s.freeObjects + 1, freelist := [chunk] + s.freelist)]
    {
      ghost var s := slabs[id];
      freelist[id] := [chunk] + freelist[id];
      freeObjects[id] := freeObjects[id] + 1;
      slabs := slabs[id := s.(freeObjects := s.freeObjects + 1, freelist := [chunk] + s.freelist)];
      assert freeObjects[..] == old(freeObjects[..])[id := old(freeObjects[id]) + 1];
      assert freelist[..] == old(freelist[..])[id := [chunk] + old(freelist[id])];
    }

    lemma Reads(id: nat)
      requires Valid() && id in slabs
      ensures id < cacheOf.Length == freeObjects.Length && cacheOf[id] == slabs[id].cache && freeObjects[id] == slabs[id].freeObjects
    {
    }

    /** `kmem_cache_free_nolock` for the slab found through the chunk's page. */
    method FreeInto(id: nat, chunk: nat)
      requires Valid()
      requires id in slabs && slabs[id].cache < SLAB_COUNT
      requires id in links.lists[Queue(slabs[id].cache, if slabs[id].freeObjects == 0 then FULL else PARTIAL)]
      modifies Repr()
      ensures Valid()
      ensures forall l: Lists :: On(l) == CacheFree(old(On(l)), id, chunk)
    {
      hide SlabLists.Valid, Off, Kind, ClassSize;
      Reads(id);
      UnlinkSlab(Queue(cacheOf[id], if freeObjects[id] == 0 then FULL else PARTIAL), id);
      PutChunk(id, chunk);
      InsertSlab(id);
    }

    /** The page loop of `kmem_cache_new_empty`. */
    method AssociatePages(base: nat, n: nat)
      requires Valid() && base + n <= pageSlab.Length
      modifies Repr()
      ensures Valid() && marks == MarkPages(old(marks), base, n) && slabs == old(slabs) && links.lists == old(links.lists)
    {
      for i := 0 to n
        invariant Valid() && marks == MarkPages(old(marks), base, i) && slabs == old(slabs) && links.lists == old(links.lists)
      {
        ghost var was := pageSlab[..];
        pageSlab[base + i] := base;
        marks := marks[base + i := base];
        assert pageSlab[..] == was[base + i := base];
      }
    }

    /** The freelist loop of `kmem_cache_new_empty`. */
    method BuildFreelist(c: nat, base: nat) returns (s: seq<nat>)
      requires c < SLAB_COUNT
      ensures s == NewFreelist(c, base, Objects(c))
    {
      s := [];
      var virtPage := base * PAGE;
      for i := 0 to Objects(c)
        invariant s == NewFreelist(c, base, i)
      {
        s := [virtPage + ClassSize(c) * i] + s;
      }
    }

    /** `kmem_cache_new_empty` once it has the block that starts at `base`. */
    method AddSlab(c: nat, base: nat)
      requires Valid() && c < SLAB_COUNT && base !in slabs && Off(links.lists, base)
      requires base + Pow2(ClassOrder(c)) <= cacheOf.Length
      modifies Repr()
      ensures Valid()
      ensures forall l: Lists :: var h := old(On(l));
        On(l) == PutSlab(h.(pageSlab := MarkPages(h.pageSlab, base, Pow2(ClassOrder(c)))), base,
                         Slab(c, Objects(c), NewFreelist(c, base, Objects(c))))
    {
      hide SlabLists.Valid, Off, Kind, ClassSize, MarkPages, NewFreelist;
      SameLengths();
      AssociatePages(base, Pow2(ClassOrder(c)));
      var s := BuildFreelist(c, base);
      Describe(base, c, Objects(c), s);
      InsertSlab(base);
    }

    lemma SameLengths()
      requires Valid()
      ensures pageSlab.Length == cacheOf.Length
    {
    }

    /** The descriptor of a new slab. */
    method Describe(id: nat, c: nat, n: nat, s: seq<nat>)
      requires Valid() && id < cacheOf.Length
      modifies Repr()
      ensures Valid() && slabs == old(slabs)[id := Slab(c, n, s)] && links.lists == old(links.lists) && marks == old(marks)
    {
      cacheOf[id] := c;
      freelist[id] := s;
      freeObjects[id] := n;
      slabs := slabs[id := Slab(c, n, s)];
      assert cacheOf[..] == old(cacheOf[..])[id := c];
      assert freelist[..] == old(freelist[..])[id := s];
      assert freeObjects[..] == old(freeObjects[..])[id := n];
    }
  }

  class KmallocHeap {
    const buddy: BuddyAllocator
    const book: SlabLists

    ghost function Repr(): set<object> {
      {this} + buddy.Repr() + book.Repr()
    }

    ghost predicate Apart()
      reads Repr()
    {
      && buddy.Repr() !! book.Repr() && this !in buddy.Repr() && this !in book.Repr()
      && buddy.Valid() && book.Valid() && book.cacheOf.Length == buddy.free.Length
    }

    ghost function View(): Heap
      reads this, buddy.links, book, book.links
      requires |buddy.links.lists| == N_ORDERS
    {
      book.On(buddy.Lists())
    }

    ghost predicate Valid()
      reads Repr()
    {
      Apart() && SlabInv(View())
    }

    constructor (buddy: BuddyAllocator)
      requires buddy.Valid()
      ensures Valid() && this.buddy == buddy && fresh(Repr() - buddy.Repr())
      ensures View() == EmptyHeap(old(buddy.Lists()))
    {
      this.buddy := buddy;
      book := new SlabLists(buddy.free.Length);
      new;
      EmptyHeapOk(buddy.Lists());
    }

    lemma Counters(c: nat, kind: nat)
      requires book.Valid() && c < SLAB_COUNT && kind <= EMPTY
      ensures Queue(c, kind) < book.counts.Length && |book.links.lists| == N_LISTS
      ensures book.counts[Queue(c, kind)] == |book.links.lists[Queue(c, kind)]|
    {
    }

    /** A block from the buddy lies inside the page array. */
    lemma BlockInside(ord: nat)
      requires buddy.Valid() && ord <= MAX_ORDER && AllocSpec(buddy.Lists(), ord).1.Some?
      ensures AllocSpec(buddy.Lists(), ord).1.value + Pow2(ord) <= buddy.free.Length
    {
      AllocKeepsInv(buddy.Lists(), ord);
      var p := AllocSpec(buddy.Lists(), ord).1.value;
      assert InBlock(p + Pow2(ord) - 1, p, ord) && p + Pow2(ord) - 1 in Block(p, ord);
    }

    lemma Fresh(c: nat)
      requires |buddy.links.lists| == N_ORDERS && SlabInv(View()) && c < SLAB_COUNT && AllocSpec(buddy.Lists(), ClassOrder(c)).1.Some?
      ensures var base := AllocSpec(buddy.Lists(), ClassOrder(c)).1.value;
        base !in book.slabs && Off(book.links.lists, base)
    {
      NewSlabIsNew(View(), AllocSpec(buddy.Lists(), ClassOrder(c)).1.value, ClassOrder(c));
    }

    /** `kmem_cache_new_empty`. */
    method NewEmpty(c: nat) returns (ok: bool)
      requires Valid() && c < SLAB_COUNT
      modifies Repr()
      ensures Valid()
      ensures var r := NewSlab(old(View()), c);
        ok == r.Some? && View() == if ok then r.value else old(View())
    {
      hide BuddyAllocator.Valid, SlabLists.Valid, SlabInv, AllocSpec, MarkPages, NewFreelist, PutSlab, Off;
      ghost var h := View();
      if AllocSpec(buddy.Lists(), ClassOrder(c)).1.Some? {
        BlockInside(ClassOrder(c));
        Fresh(c);
        NewSlabEffect(h, c);
      } else {
        FailedAllocKeepsLists(buddy.Lists(), ClassOrder(c));
      }
      var page := buddy.AllocPages(ClassOrder(c), 0);
      if page == None {
        return false;
      }
      book.AddSlab(c, page.value);
      return true;
    }

    /** `kmem_cache_alloc_nolock`. */
    method CacheAllocNolock(c: nat) returns (chunk: Option<nat>)
      requires Valid() && c < SLAB_COUNT
      modifies Repr()
      ensures Valid()
      ensures match CacheAlloc(old(View()), c)
        case None => chunk == None && View() == old(View())
        case Some(r) => chunk == Some(r.1) && View() == r.0
    {
      hide BuddyAllocator.Valid, SlabLists.Valid, AllocSpec, NewSlab, TakeChunk, Kind, SlabOk, Classified;
      ghost var h := View();
      Counters(c, PARTIAL);
      Counters(c, EMPTY);
      if book.counts[Queue(c, PARTIAL)] != 0 {
        var a := Take(c, PARTIAL);
        return Some(a);
      }
      if book.counts[Queue(c, EMPTY)] != 0 {
        var a := Take(c, EMPTY);
        return Some(a);
      }
      var ok := NewEmpty(c);
      if !ok {
        return None;
      }
      NewSlabReady(h, c);
      var a := Take(c, EMPTY);
      return Some(a);
    }

    method Take(c: nat, kind: nat) returns (chunk: nat)
      requires Valid() && c < SLAB_COUNT && (kind == PARTIAL || kind == EMPTY)
      requires book.links.lists[Queue(c, kind)] != []
      modifies Repr()
      ensures Valid()
      ensures var h := old(View()); var id := h.queues[Queue(c, kind)][0];
        && id in h.slabs && h.slabs[id].cache < SLAB_COUNT && h.slabs[id].freelist != [] && h.slabs[id].freeObjects > 0
        && (View(), chunk) == TakeChunk(h, c, kind)
    {
      hide BuddyAllocator.Valid, SlabLists.Valid, SlabInv, TakeChunk, Kind, SlabOk;
      ghost var h := View();
      HeadReady(h, c, kind);
      TakeChunkEffect(h, c, kind);
      chunk := book.AllocFrom(c, kind);
    }

    /** `kmalloc`. */
    method Kmalloc(size: nat) returns (chunk: Option<nat>)
      requires Valid()
      modifies Repr()
      ensures Valid()
      ensures match SlabSpec.Kmalloc(old(View()), size)
        case None => chunk == None && View() == old(View())
        case Some(r) => chunk == Some(r.1) && View() == r.0
    {
      hide KmallocHeap.Apart, SlabInv, CacheAlloc, Repr;
      if size > ClassSize(SLAB_COUNT - 1) {
        return None;
      }
      SizeClassIsTight(size);
      chunk := CacheAllocNolock(SizeClass(size));
    }

    /** `kfree` of a live chunk; the slab is the one its page points to. */
    method Kfree(chunk: nat)
      requires Valid() && chunk in LiveSet(View())
      modifies Repr()
      ensures Valid()
      ensures var h := old(View());
        && chunk / PAGE in h.pageSlab && h.pageSlab[chunk / PAGE] in h.slabs
        && h.slabs[h.pageSlab[chunk / PAGE]].cache < SLAB_COUNT && View() == SlabSpec.Kfree(h, chunk)
    {
      hide BuddyAllocator.Valid, SlabLists.Valid, SlabInv, Live, CacheFree;
      ghost var h := View();
      ghost var owner := LiveHasSlab(h, chunk);
      KfreeFindsSlab(h, owner, chunk);
      CacheFreeEffect(h, owner, chunk);
      OnItsList(owner, chunk);
      var id := book.pageSlab[chunk / PAGE];
      book.FreeInto(id, chunk);
    }

    lemma OnItsList(id: nat, chunk: nat)
      requires Valid() && Live(View(), id, chunk) && chunk / PAGE in book.marks && book.marks[chunk / PAGE] == id
      ensures chunk / PAGE < book.pageSlab.Length && book.pageSlab[chunk / PAGE] == id
      ensures |book.links.lists| == N_LISTS && id in book.slabs && book.slabs[id].cache < SLAB_COUNT
      ensures id in book.links.lists[Queue(book.slabs[id].cache, if book.slabs[id].freeObjects == 0 then FULL else PARTIAL)]
    {
      hide BuddyAllocator.Valid, SlabOk;
      SomeTaken(View(), id, chunk);
    }
  }
}
