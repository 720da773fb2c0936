/**
 kmalloc and kfree over all caches: what one call does to the set of live
 chunks, round trips, how many slabs a run needs.
 */
module SlabRuns {
  import opened Collections
  import opened Bits
  import opened BuddySpec
  import opened BuddyTheorems
  import opened SlabSpec
  import opened SlabTheorems
  import BuddyRuns

  /** `kmalloc_idx` picks the smallest class that is large enough. */
  lemma SizeClassIsTight(size: nat)
    requires size <= ClassSize(SLAB_COUNT - 1)
    ensures var c := SizeClass(size);
      c < SLAB_COUNT && size <= ClassSize(c) && (c > 0 ==> ClassSize(c - 1) < size)
  {
  }

  /** From `h` to `h'` the chunk of slab `id`, of cache `c`, and no other, became live. */
  ghost predicate Gained(h: Heap, h': Heap, c: nat, id: nat, chunk: nat) {
    && id in h'.slabs && h'.slabs[id].cache == c
    && Live(h', id, chunk) && !Live(h, id, chunk)
    && (forall x: nat, a: nat :: Live(h', x, a) <==> Live(h, x, a) || (x == id && a == chunk))
  }

  lemma SameLiveGained(h: Heap, h1: Heap, h': Heap, c: nat, id: nat, chunk: nat)
    requires Gained(h1, h', c, id, chunk) && forall x: nat, a: nat :: Live(h1, x, a) <==> Live(h, x, a)
    ensures Gained(h, h', c, id, chunk)
  {
    hide Live;
  }

  lemma CacheAllocEffect(h: Heap, c: nat)
    requires SlabInv(h) && c < SLAB_COUNT && CacheAlloc(h, c).Some?
    ensures var (h', chunk) := CacheAlloc(h, c).value;
      && SlabInv(h')
      && exists id: nat :: Gained(h, h', c, id, chunk)
  {
    hide Inv, IsChunk, TakeChunk, NewSlab, Live, SlabOk, Kind, Gained;
    if h.queues[Queue(c, PARTIAL)] != [] {
      TakeChunkLive(h, c, PARTIAL);
      assert Gained(h, CacheAlloc(h, c).value.0, c, h.queues[Queue(c, PARTIAL)][0], CacheAlloc(h, c).value.1);
    } else if h.queues[Queue(c, EMPTY)] != [] {
      TakeChunkLive(h, c, EMPTY);
      assert Gained(h, CacheAlloc(h, c).value.0, c, h.queues[Queue(c, EMPTY)][0], CacheAlloc(h, c).value.1);
    } else {
      NewSlabEffect(h, c);
      var h1 := NewSlab(h, c).value;
      assert h1.queues[Queue(c, EMPTY)] != [];
      TakeChunkLive(h1, c, EMPTY);
      SameLiveGained(h, h1, CacheAlloc(h, c).value.0, c, h1.queues[Queue(c, EMPTY)][0], CacheAlloc(h, c).value.1);
    }
  }

  /** Chunk `chunk` is the next free one of slab `id`, which keeps the rest; no other slab changes. */
  ghost predicate NextFree(h: Heap, h': Heap, id: nat, chunk: nat) {
    && id in h.slabs && h.slabs[id].freelist != [] && chunk == h.slabs[id].freelist[0]
    && id in h'.slabs && h'.slabs[id].freelist == h.slabs[id].freelist[1..]
    && h'.slabs.Keys == h.slabs.Keys && forall x :: x in h.slabs && x != id ==> h'.slabs[x] == h.slabs[x]
  }

  /**
   Which chunk an allocation hands out: the next free one of a partly free slab
   if the cache has any, else of a wholly free slab if it has any, else the last
   chunk of a new slab.
   */
  lemma ChunkChosen(h: Heap, c: nat) returns (id: nat)
    requires SlabInv(h) && c < SLAB_COUNT && CacheAlloc(h, c).Some?
    ensures var (h', chunk) := CacheAlloc(h, c).value;
      if exists x: nat :: PartlyFree(h, c, x) then PartlyFree(h, c, id) && NextFree(h, h', id, chunk)
      else if exists x: nat :: WhollyFree(h, c, x) then WhollyFree(h, c, id) && NextFree(h, h', id, chunk)
      else id !in h.slabs && id in h'.slabs && h'.slabs.Keys == h.slabs.Keys + {id} && chunk == ChunkAt(c, id, Objects(c) - 1)
  {
    hide Inv, IsChunk, SlabOk, Kind, PartlyFree, WhollyFree, NewFreelist, ChunkAt;
    forall x: nat
      ensures x in h.queues[Queue(c, PARTIAL)] <==> PartlyFree(h, c, x)
      ensures x in h.queues[Queue(c, EMPTY)] <==> WhollyFree(h, c, x)
    {
      ListsByFreeChunks(h, c, x);
    }
    if h.queues[Queue(c, PARTIAL)] != [] {
      HeadReady(h, c, PARTIAL);
      id := h.queues[Queue(c, PARTIAL)][0];
    } else if h.queues[Queue(c, EMPTY)] != [] {
      HeadReady(h, c, EMPTY);
      id := h.queues[Queue(c, EMPTY)][0];
    } else {
      id := AllocSpec(h.lists, ClassOrder(c)).1.value;
      NewSlabEffect(h, c);
      NewSlabReady(h, c);
      ManyObjects(c);
      NewFreelistAt(c, id, Objects(c), 0);
    }
  }

  lemma TakeChunkLive(h: Heap, c: nat, kind: nat)
    requires SlabInv(h) && c < SLAB_COUNT && (kind == PARTIAL || kind == EMPTY) && h.queues[Queue(c, kind)] != []
    ensures var id := h.queues[Queue(c, kind)][0];
      id in h.slabs && h.slabs[id].cache == c && h.slabs[id].freelist != [] && h.slabs[id].freeObjects > 0
    ensures var (h', chunk) := TakeChunk(h, c, kind); var id := h.queues[Queue(c, kind)][0];
      SlabInv(h') && Gained(h, h', c, id, chunk)
  {
    hide SlabInv;
    TakeChunkEffect(h, c, kind);
  }

  /** A live chunk has one slab. */
  lemma OneSlab(h: Heap, id: nat, id': nat, a: nat)
    requires SlabInv(h) && Live(h, id, a) && Live(h, id', a)
    ensures id == id'
  {
    LiveChunksDisjoint(h, id, a, id', a, a);
  }

  /** kmalloc: one chunk that nobody holds, of a class at least as large as the request, becomes live. */
  lemma KmallocEffect(h: Heap, size: nat)
    requires SlabInv(h)
    ensures size > ClassSize(SLAB_COUNT - 1) ==> Kmalloc(h, size) == None
    ensures Kmalloc(h, size).Some? ==>
      var (h', chunk) := Kmalloc(h, size).value;
      && SlabInv(h')
      && chunk !in LiveSet(h) && LiveSet(h') == LiveSet(h) + iset{chunk}
      && SizeClass(size) < SLAB_COUNT && size <= ClassSize(SizeClass(size))
      && exists id: nat :: Gained(h, h', SizeClass(size), id, chunk)
  {
    hide SlabInv, CacheAlloc, Live;
    if size <= ClassSize(SLAB_COUNT - 1) && Kmalloc(h, size).Some? {
      SizeClassIsTight(size);
      CacheAllocEffect(h, SizeClass(size));
      var (h', chunk) := Kmalloc(h, size).value;
      var id: nat :| Gained(h, h', SizeClass(size), id, chunk);
      forall a: nat ensures LiveChunk(h', a) <==> LiveChunk(h, a) || a == chunk {
        if LiveChunk(h, a) {
          var x :| Live(h, x, a);
          assert Live(h', x, a);
        }
      }
      if LiveChunk(h, chunk) {
        var x :| Live(h, x, chunk);
        OneSlab(h', x, id, chunk);
      }
    }
  }

  /** kmalloc of a valid size fails only when its cache has no free chunk and no aligned block of its order is free. */
  lemma KmallocFailsOnlyWhenItMust(h: Heap, size: nat)
    requires SlabInv(h) && size <= ClassSize(SLAB_COUNT - 1)
    ensures var c := SizeClass(size);
      c < SLAB_COUNT && (Kmalloc(h, size) == None <==>
        && (forall id :: id in h.slabs && h.slabs[id].cache == c ==> h.slabs[id].freeObjects == 0)
        && !exists p: nat :: Aligned(p, ClassOrder(c)) && RunFree(FreeSet(h.lists), p, ClassOrder(c)))
  {
    hide Inv, AllocSpec, SlabOk;
    SizeClassIsTight(size);
    var c := SizeClass(size);
    ManyObjects(c);
    AllocFailsOnlyWhenItMust(h.lists, ClassOrder(c));
    forall id | id in h.slabs && h.slabs[id].cache == c
      ensures id in h.queues[Queue(c, Kind(h.slabs[id]))]
    {
    }
    if h.queues[Queue(c, PARTIAL)] != [] {
      HeadReady(h, c, PARTIAL);
    }
    if h.queues[Queue(c, EMPTY)] != [] {
      HeadReady(h, c, EMPTY);
    }
  }

  /** The page of a live chunk names its slab, so kfree knows the chunk's cache. */
  lemma KfreeFindsSlab(h: Heap, id: nat, chunk: nat)
    requires SlabInv(h) && Live(h, id, chunk)
    ensures chunk / PAGE in h.pageSlab && h.pageSlab[chunk / PAGE] == id && h.slabs[id].cache < SLAB_COUNT
  {
    PageFindsSlab(h, id, chunk, chunk);
  }

  lemma LiveHasSlab(h: Heap, chunk: nat) returns (id: nat)
    requires SlabInv(h) && chunk in LiveSet(h)
    ensures Live(h, id, chunk)
    ensures chunk / PAGE in h.pageSlab && h.pageSlab[chunk / PAGE] == id && h.slabs[id].cache < SLAB_COUNT
    ensures |h.queues| == 3 * SLAB_COUNT
  {
    id :| Live(h, id, chunk);
    KfreeFindsSlab(h, id, chunk);
  }

  /** kfree: exactly the freed chunk stops being live. */
  lemma KfreeEffect(h: Heap, chunk: nat)
    requires SlabInv(h) && chunk in LiveSet(h)
    ensures |h.queues| == 3 * SLAB_COUNT && chunk / PAGE in h.pageSlab
    ensures var id := h.pageSlab[chunk / PAGE]; id in h.slabs && h.slabs[id].cache < SLAB_COUNT
    ensures SlabInv(Kfree(h, chunk)) && LiveSet(Kfree(h, chunk)) == LiveSet(h) - iset{chunk}
  {
    var id := LiveHasSlab(h, chunk);
    hide SlabInv, CacheFree;
    CacheFreeEffect(h, id, chunk);
    var h' := Kfree(h, chunk);
    forall a: nat ensures LiveChunk(h', a) <==> LiveChunk(h, a) && a != chunk {
      if LiveChunk(h, a) && a != chunk {
        var x :| Live(h, x, a);
        assert Live(h', x, a);
      }
      if LiveChunk(h', a) {
        var x :| Live(h', x, a);
        assert Live(h, x, a);
        if a == chunk {
          OneSlab(h, x, id, a);
        }
      }
    }
  }

  /** Exact round trip: an allocation that made no new slab, freed at once, restores every list and free list. */
  lemma KmallocThenKfree(h: Heap, size: nat)
    requires SlabInv(h) && size <= ClassSize(SLAB_COUNT - 1) && Kmalloc(h, size).Some?
    requires Kmalloc(h, size).value.0.slabs.Keys == h.slabs.Keys
    ensures var (h1, chunk) := Kmalloc(h, size).value;
      && |h1.queues| == 3 * SLAB_COUNT && chunk / PAGE in h1.pageSlab
      && (var id := h1.pageSlab[chunk / PAGE]; id in h1.slabs && h1.slabs[id].cache < SLAB_COUNT)
      && Kfree(h1, chunk) == h
  {
    hide Inv, IsChunk;
    SizeClassIsTight(size);
    var c := SizeClass(size);
    if h.queues[Queue(c, PARTIAL)] != [] {
      TakeThenFree(h, c, PARTIAL);
    } else if h.queues[Queue(c, EMPTY)] != [] {
      TakeThenFree(h, c, EMPTY);
    } else {
      NewSlabEffect(h, c);
      TakeChunkEffect(NewSlab(h, c).value, c, EMPTY);
      assert false;
    }
  }

  lemma RemoveHead(id: nat, l: seq<nat>)
    ensures Remove([id] + l, id) == l
  {
  }

  lemma TakeThenFree(h: Heap, c: nat, kind: nat)
    requires SlabInv(h) && c < SLAB_COUNT && (kind == PARTIAL || kind == EMPTY) && h.queues[Queue(c, kind)] != []
    requires kind == EMPTY ==> h.queues[Queue(c, PARTIAL)] == []
    ensures var id := h.queues[Queue(c, kind)][0];
      id in h.slabs && h.slabs[id].cache == c && h.slabs[id].freelist != [] && h.slabs[id].freeObjects > 0
    ensures var (h1, chunk) := TakeChunk(h, c, kind);
      && |h1.queues| == 3 * SLAB_COUNT && chunk / PAGE in h1.pageSlab
      && (var id := h1.pageSlab[chunk / PAGE]; id in h1.slabs && h1.slabs[id].cache < SLAB_COUNT)
      && Kfree(h1, chunk) == h
  {
    hide Inv, IsChunk, SlabOk;
    HeadReady(h, c, kind);
    TakeChunkLive(h, c, kind);
    var (h1, chunk) := TakeChunk(h, c, kind);
    var id := h.queues[Queue(c, kind)][0];
    KfreeFindsSlab(h1, id, chunk);
    var s, s1 := h.slabs[id], h1.slabs[id];
    ManyObjects(c);
    assert [chunk] + s1.freelist == s.freelist;
    var q, q1 := Queue(c, kind), Queue(c, Kind(s1));
    var rest := h.queues[q][1..];
    assert h.queues[q] == [id] + rest;
    var before := if q1 == q then rest else h.queues[q1];
    assert h1.queues[q1] == [id] + before;
    assert Remove(h1.queues[q1], id) == before by {
      hide *;
      RemoveHead(id, before);
    }
    assert h1.queues[q1 := before] == h.queues[q := rest];
    assert h.queues[q := rest][q := [id] + rest] == h.queues;
  }

  /* ---- counting ---- */

  /** Chunks handed out from the slabs of `l`, each of `n` chunks. */
  function SumTaken(slabs: map<nat, Slab>, l: seq<nat>, n: nat): int {
    if l == [] then 0
    else (if l[0] in slabs then n - slabs[l[0]].freeObjects else 0) + SumTaken(slabs, l[1..], n)
  }

  /** Live chunks of cache `c`: all of every full slab and the taken ones of every partial slab. */
  function LiveCount(h: Heap, c: nat): int
    requires |h.queues| == 3 * SLAB_COUNT && c < SLAB_COUNT
  {
    Objects(c) * |h.queues[Queue(c, FULL)]| + SumTaken(h.slabs, h.queues[Queue(c, PARTIAL)], Objects(c))
  }

  function SlabsOf(h: Heap, c: nat): nat
    requires |h.queues| == 3 * SLAB_COUNT && c < SLAB_COUNT
  {
    |h.queues[Queue(c, FULL)]| + |h.queues[Queue(c, PARTIAL)]| + |h.queues[Queue(c, EMPTY)]|
  }

  lemma {:induction false} SumSame(slabs: map<nat, Slab>, slabs': map<nat, Slab>, l: seq<nat>, n: nat)
    requires forall x :: x in l ==> x in slabs && x in slabs' && slabs'[x] == slabs[x]
    ensures SumTaken(slabs', l, n) == SumTaken(slabs, l, n)
  {
    if l == [] {
    } else {
      assert forall x :: x in l[1..] ==> x in l;
      SumSame(slabs, slabs', l[1..], n);
    }
  }

  lemma {:induction false} SumRemove(slabs: map<nat, Slab>, l: seq<nat>, id: nat, n: nat)
    requires id in l && id in slabs
    ensures SumTaken(slabs, l, n) == SumTaken(slabs, Remove(l, id), n) + n - slabs[id].freeObjects
  {
    if l[0] != id {
      SumRemove(slabs, l[1..], id, n);
      assert ([l[0]] + Remove(l[1..], id))[1..] == Remove(l[1..], id);
    }
  }

  lemma {:induction false} SumBound(slabs: map<nat, Slab>, l: seq<nat>, n: nat)
    ensures SumTaken(slabs, l, n) <= n * |l|
  {
    if l == [] {
    } else {
      SumBound(slabs, l[1..], n);
      assert n * |l| == n * |l[1..]| + n;
    }
  }

  lemma LiveBound(h: Heap, c: nat)
    requires |h.queues| == 3 * SLAB_COUNT && c < SLAB_COUNT
    ensures LiveCount(h, c) <= Objects(c) * SlabsOf(h, c)
  {
    var n := Objects(c);
    var f, p, e := |h.queues[Queue(c, FULL)]|, |h.queues[Queue(c, PARTIAL)]|, |h.queues[Queue(c, EMPTY)]|;
    SumBound(h.slabs, h.queues[Queue(c, PARTIAL)], n);
    Distribute(n, f, p, e);
  }

  lemma Distribute(n: nat, f: nat, p: nat, e: nat)
    ensures n * f + n * p + n * e == n * (f + p + e) && n * e >= 0
  {
  }

  /** What a slab contributes to its cache's live chunks and slabs. */
  function Share(s: Slab): int
    requires s.cache < SLAB_COUNT
  {
    Objects(s.cache) - s.freeObjects
  }

  lemma MoveLengths(h: Heap, id: nat, s: Slab, rest: seq<nat>, c: nat, kind: nat)
    requires Classified(h) && id in h.slabs && h.slabs[id].cache < SLAB_COUNT && s.cache == h.slabs[id].cache
    requires c < SLAB_COUNT && kind <= EMPTY
    requires rest == Remove(h.queues[Queue(s.cache, Kind(h.slabs[id]))], id)
    ensures var h' := PutSlab(h.(queues := h.queues[Queue(s.cache, Kind(h.slabs[id])) := rest]), id, s);
      |h'.queues[Queue(c, kind)]| == |h.queues[Queue(c, kind)]|
        - (if c == s.cache && kind == Kind(h.slabs[id]) then 1 else 0) + (if c == s.cache && kind == Kind(s) then 1 else 0)
  {
    var q0 := Queue(s.cache, Kind(h.slabs[id]));
    assert id in h.queues[q0];
    RemoveFacts(h.queues[q0], id);
  }

  lemma MoveSum(h: Heap, id: nat, s: Slab, rest: seq<nat>, c: nat)
    requires Classified(h) && id in h.slabs && h.slabs[id].cache < SLAB_COUNT && s.cache == h.slabs[id].cache && c < SLAB_COUNT
    requires rest == Remove(h.queues[Queue(s.cache, Kind(h.slabs[id]))], id)
    ensures var h' := PutSlab(h.(queues := h.queues[Queue(s.cache, Kind(h.slabs[id])) := rest]), id, s);
      var n, qp := Objects(c), Queue(c, PARTIAL);
      SumTaken(h'.slabs, h'.queues[qp], n) == SumTaken(h.slabs, h.queues[qp], n)
        - (if c == s.cache && Kind(h.slabs[id]) == PARTIAL then Share(h.slabs[id]) else 0)
        + (if c == s.cache && Kind(s) == PARTIAL then Share(s) else 0)
  {
    var q0, q1, n := Queue(s.cache, Kind(h.slabs[id])), Queue(s.cache, Kind(s)), Objects(c);
    var h' := PutSlab(h.(queues := h.queues[q0 := rest]), id, s);
    RemoveFacts(h.queues[q0], id);
    assert id in h.queues[q0];
    var qp := Queue(c, PARTIAL);
    var p0 := if q0 == qp then rest else h.queues[qp];
    forall x | x in p0 ensures x in h.slabs && x != id {
      assert x in h.queues[qp];
    }
    SumSame(h.slabs, h'.slabs, p0, n);
    if q0 == qp {
      SumRemove(h.slabs, h.queues[qp], id, n);
    }
    if q1 == qp {
      assert h'.queues[qp] == [id] + p0 && h'.queues[qp][1..] == p0;
    }
  }

  /** Moving one slab changes its cache's live count by the change of its share, and no slab count. */
  lemma MoveCounts(h: Heap, id: nat, s: Slab, rest: seq<nat>, c: nat)
    requires Classified(h) && id in h.slabs && h.slabs[id].cache < SLAB_COUNT && s.cache == h.slabs[id].cache && c < SLAB_COUNT
    requires rest == Remove(h.queues[Queue(s.cache, Kind(h.slabs[id]))], id)
    ensures var h' := PutSlab(h.(queues := h.queues[Queue(s.cache, Kind(h.slabs[id])) := rest]), id, s);
      && LiveCount(h', c) == LiveCount(h, c) + (if c == s.cache then Share(s) - Share(h.slabs[id]) else 0)
      && SlabsOf(h', c) == SlabsOf(h, c)
  {
    hide Classified, PutSlab, Objects, SumTaken;
    ClassifiedShape(h);
    MoveSum(h, id, s, rest, c);
    MoveLengths(h, id, s, rest, c, FULL);
    MoveLengths(h, id, s, rest, c, PARTIAL);
    MoveLengths(h, id, s, rest, c, EMPTY);
    MulOne(Objects(c), |h.queues[Queue(c, FULL)]|);
  }

  lemma ClassifiedShape(h: Heap)
    requires Classified(h)
    ensures |h.queues| == 3 * SLAB_COUNT
  {
  }

  lemma MulOne(n: nat, k: nat)
    ensures n * (k + 1) == n * k + n && (k > 0 ==> n * (k - 1) == n * k - n)
  {
  }

  lemma TakeCounts(h: Heap, c0: nat, kind: nat, c: nat)
    requires SlabInv(h) && c0 < SLAB_COUNT && c < SLAB_COUNT && (kind == PARTIAL || kind == EMPTY) && h.queues[Queue(c0, kind)] != []
    ensures var id := h.queues[Queue(c0, kind)][0];
      id in h.slabs && h.slabs[id].cache == c0 && h.slabs[id].freelist != [] && h.slabs[id].freeObjects > 0
    ensures var h' := TakeChunk(h, c0, kind).0;
      && |h'.queues| == 3 * SLAB_COUNT
      && LiveCount(h', c) == LiveCount(h, c) + (if c == c0 then 1 else 0) && SlabsOf(h', c) == SlabsOf(h, c)
  {
    hide Inv, SlabOk, Kind, Objects;
    HeadReady(h, c0, kind);
    var q := Queue(c0, kind);
    var id := h.queues[q][0];
    var s := h.slabs[id];
    QueueHead(h, q);
    MoveCounts(h, id, s.(freeObjects := s.freeObjects - 1, freelist := s.freelist[1..]), h.queues[q][1..], c);
  }

  lemma NewSlabCounts(h: Heap, c0: nat, c: nat)
    requires SlabInv(h) && c0 < SLAB_COUNT && c < SLAB_COUNT && NewSlab(h, c0).Some?
    ensures var h1 := NewSlab(h, c0).value;
      && |h1.queues| == 3 * SLAB_COUNT
      && LiveCount(h1, c) == LiveCount(h, c) && SlabsOf(h1, c) == SlabsOf(h, c) + (if c == c0 then 1 else 0)
  {
    hide Inv, SlabOk, Objects, AllocSpec, NewSlab;
    NewSlabEffect(h, c0);
    var h1 := NewSlab(h, c0).value;
    forall x | x in h.queues[Queue(c, PARTIAL)] ensures x in h.slabs {
    }
    SumSame(h.slabs, h1.slabs, h.queues[Queue(c, PARTIAL)], Objects(c));
  }

  lemma FreeCounts(h: Heap, id: nat, chunk: nat, c: nat)
    requires SlabInv(h) && Live(h, id, chunk) && c < SLAB_COUNT
    ensures var h' := CacheFree(h, id, chunk);
      && |h'.queues| == 3 * SLAB_COUNT
      && LiveCount(h', c) == LiveCount(h, c) - (if c == h.slabs[id].cache then 1 else 0) && SlabsOf(h', c) == SlabsOf(h, c)
  {
    hide Inv, SlabOk, Kind, Objects, IsChunk;
    SomeTaken(h, id, chunk);
    var s := h.slabs[id];
    MoveCounts(h, id, s.(freeObjects := s.freeObjects + 1, freelist := [chunk] + s.freelist),
               Remove(h.queues[Queue(s.cache, Kind(s))], id), c);
  }

  /** The live count of a cache counts: one up for each of its allocations, however it was served. */
  lemma CacheAllocCounts(h: Heap, c0: nat, c: nat)
    requires SlabInv(h) && c0 < SLAB_COUNT && c < SLAB_COUNT && CacheAlloc(h, c0).Some?
    ensures var h' := CacheAlloc(h, c0).value.0;
      && |h'.queues| == 3 * SLAB_COUNT
      && LiveCount(h', c) == LiveCount(h, c) + (if c == c0 then 1 else 0)
      && (SlabsOf(h', c) == SlabsOf(h, c)
          || (c == c0 && SlabsOf(h', c) == SlabsOf(h, c) + 1 && LiveCount(h, c) == Objects(c) * SlabsOf(h, c)))
  {
    hide Inv, SlabOk, Kind, Objects, TakeChunk, NewSlab;
    if h.queues[Queue(c0, PARTIAL)] != [] {
      TakeCounts(h, c0, PARTIAL, c);
    } else if h.queues[Queue(c0, EMPTY)] != [] {
      TakeCounts(h, c0, EMPTY, c);
    } else {
      NewSlabCounts(h, c0, c);
      NewSlabEffect(h, c0);
      TakeCounts(NewSlab(h, c0).value, c0, EMPTY, c);
    }
  }

  /* ---- runs ---- */

  datatype Op =
    | DoKmalloc(size: nat)
    | DoKfree(chunk: nat)
    | OtherAlloc(order: nat)             // by another user of the buddy
    | OtherFree(page: nat, order: nat)

  /** Only live chunks are freed; other users free aligned blocks that are not free and share no page with a slab. */
  ghost predicate Legal(h: Heap, op: Op) {
    match op
    case DoKmalloc(_) => true
    case DoKfree(chunk) => chunk in LiveSet(h)
    case OtherAlloc(o) => o <= MAX_ORDER
    case OtherFree(p, o) =>
      && o <= MAX_ORDER && Aligned(p, o) && Taken(h.lists, p, o)
      && (forall id :: id in h.slabs && h.slabs[id].cache < SLAB_COUNT ==> Block(p, o) !! Block(id, ClassOrder(h.slabs[id].cache)))
  }

  ghost function Step(h: Heap, op: Op): Heap
    requires SlabInv(h) && Legal(h, op)
  {
    match op
    case DoKmalloc(size) => if Kmalloc(h, size).Some? then Kmalloc(h, size).value.0 else h
    case DoKfree(chunk) =>
      KfreeEffect(h, chunk);
      Kfree(h, chunk)
    case OtherAlloc(o) => h.(lists := AllocSpec(h.lists, o).0)
    case OtherFree(p, o) => h.(lists := FreeSpec(h.lists, p, o))
  }

  /** Slabs survive any change of the free lists that leaves their pages alone. */
  lemma OtherListsKeepSlabs(h: Heap, l: Lists)
    requires SlabInv(h) && Inv(l)
    requires forall id :: id in h.slabs && h.slabs[id].cache < SLAB_COUNT ==> Taken(l, id, ClassOrder(h.slabs[id].cache))
    ensures SlabInv(h.(lists := l))
  {
    hide Inv, Taken, IsChunk;
    forall id | id in h.slabs ensures SlabOk(h.(lists := l), id) {
      assert SlabOk(h, id);
    }
  }

  lemma OtherAllocKeepsSlabs(h: Heap, o: nat)
    requires SlabInv(h) && o <= MAX_ORDER
    ensures SlabInv(h.(lists := AllocSpec(h.lists, o).0))
  {
    hide Inv, AllocSpec, IsChunk, FreePage;
    AllocKeepsInv(h.lists, o);
    var l := AllocSpec(h.lists, o).0;
    forall id | id in h.slabs && h.slabs[id].cache < SLAB_COUNT ensures Taken(l, id, ClassOrder(h.slabs[id].cache)) {
      assert SlabOk(h, id);
      BuddyRuns.TakenDisjoint(h.lists, id, ClassOrder(h.slabs[id].cache));
      BuddyRuns.TakenDisjoint(l, id, ClassOrder(h.slabs[id].cache));
    }
    OtherListsKeepSlabs(h, l);
  }

  lemma OtherFreeKeepsSlabs(h: Heap, p: nat, o: nat)
    requires SlabInv(h) && Legal(h, OtherFree(p, o))
    ensures SlabInv(h.(lists := FreeSpec(h.lists, p, o)))
  {
    hide Inv, FreeSpec, IsChunk, FreePage;
    FreeKeepsInv(h.lists, p, o);
    var l := FreeSpec(h.lists, p, o);
    forall id | id in h.slabs && h.slabs[id].cache < SLAB_COUNT ensures Taken(l, id, ClassOrder(h.slabs[id].cache)) {
      assert SlabOk(h, id);
      BuddyRuns.TakenDisjoint(h.lists, id, ClassOrder(h.slabs[id].cache));
      BuddyRuns.TakenDisjoint(l, id, ClassOrder(h.slabs[id].cache));
    }
    OtherListsKeepSlabs(h, l);
  }

  lemma StepKeepsInv(h: Heap, op: Op)
    requires SlabInv(h) && Legal(h, op)
    ensures SlabInv(Step(h, op))
  {
    hide SlabInv, LiveSet;
    match op
    case DoKmalloc(size) => KmallocEffect(h, size);
    case DoKfree(chunk) => KfreeEffect(h, chunk);
    case OtherAlloc(o) => OtherAllocKeepsSlabs(h, o);
    case OtherFree(p, o) => OtherFreeKeepsSlabs(h, p, o);
  }

  ghost predicate LegalRun(h: Heap, ops: seq<Op>)
    requires SlabInv(h)
    decreases |ops|
  {
    ops == [] || (Legal(h, ops[0]) && (StepKeepsInv(h, ops[0]); LegalRun(Step(h, ops[0]), ops[1..])))
  }

  ghost function Run(h: Heap, ops: seq<Op>): Heap
    requires SlabInv(h) && LegalRun(h, ops)
    decreases |ops|
  {
    if ops == [] then h
    else
      StepKeepsInv(h, ops[0]);
      Run(Step(h, ops[0]), ops[1..])
  }

  /** The heap `slab_init` starts from: no slabs over any buddy state. */
  function EmptyHeap(l: Lists): Heap {
    Heap(l, map[], seq(3 * SLAB_COUNT, _ => []), map[])
  }

  lemma EmptyHeapOk(l: Lists)
    requires Inv(l)
    ensures SlabInv(EmptyHeap(l)) && LiveSet(EmptyHeap(l)) == iset{}
  {
    hide Inv;
    assert forall id, a :: !Live(EmptyHeap(l), id, a);
  }

  lemma {:induction false} RunKeepsInv(h: Heap, ops: seq<Op>)
    requires SlabInv(h) && LegalRun(h, ops)
    ensures SlabInv(Run(h, ops))
    decreases |ops|
  {
    hide SlabInv, Legal, Step;
    if ops == [] {
    } else {
      StepKeepsInv(h, ops[0]);
      RunKeepsInv(Step(h, ops[0]), ops[1..]);
    }
  }

  /** Byte `b` belongs to the live chunk `a` of slab `id`. */
  ghost predicate HoldsByte(h: Heap, id: nat, a: nat, b: nat) {
    Live(h, id, a) && a <= b < a + ClassSize(h.slabs[id].cache)
  }

  /**
   Whole-heap safety of runs: in every reachable state slabs are classified, and
   two live chunks that share a byte are the same chunk of the same slab.
   */
  lemma RunsAreSafe(l: Lists, ops: seq<Op>, id: nat, a: nat, id': nat, a': nat, b: nat)
    requires Inv(l) && SlabInv(EmptyHeap(l)) && LegalRun(EmptyHeap(l), ops)
    ensures var h := Run(EmptyHeap(l), ops);
      && SlabInv(h)
      && (HoldsByte(h, id, a, b) ==> b / PAGE in h.pageSlab && h.pageSlab[b / PAGE] == id)
      && (HoldsByte(h, id, a, b) && HoldsByte(h, id', a', b) ==> id == id' && a == a')
  {
    hide Inv, Run, LegalRun, SlabInv, IsChunk;
    RunKeepsInv(EmptyHeap(l), ops);
    var h := Run(EmptyHeap(l), ops);
    if HoldsByte(h, id, a, b) {
      PageFindsSlab(h, id, a, b);
      if HoldsByte(h, id', a', b) {
        LiveChunksDisjoint(h, id, a, id', a', b);
      }
    }
  }

  /* ---- growth ---- */

  /** `s` slabs of `n` chunks are the fewest that hold `p` chunks. */
  predicate IsCeiling(s: nat, p: int, n: nat) {
    p <= n * s && (s > 0 ==> n * (s - 1) < p)
  }

  /** That is, `s` is `p / n` rounded up. */
  lemma CeilingIsDivision(s: nat, p: nat, n: nat)
    requires n > 0 && IsCeiling(s, p, n)
    ensures s == (p + n - 1) / n
  {
    if s == 0 {
      assert p == 0 && (n - 1) / n == 0;
    } else {
      var r := p - n * (s - 1) - 1;
      MulOne(n, s);
      assert p + n - 1 == n * s + r && 0 <= r < n;
      QuotientIs(p + n - 1, n, s, r);
    }
  }

  lemma QuotientIs(x: nat, n: nat, q: nat, r: nat)
    requires n > 0 && x == n * q + r && r < n
    ensures x / n == q
  {
    var q' := x / n;
    assert n * q' <= x < n * q' + n;
    if q' < q {
      MulMono(n, q' + 1, q);
      MulOne(n, q');
    } else if q < q' {
      MulMono(n, q + 1, q');
      MulOne(n, q);
    }
  }

  function Max(a: int, b: int): int {
    if a < b then b else a
  }

  ghost predicate Tight(h: Heap, c: nat, peak: int)
    requires |h.queues| == 3 * SLAB_COUNT && c < SLAB_COUNT
  {
    LiveCount(h, c) <= peak && IsCeiling(SlabsOf(h, c), peak, Objects(c))
  }

  /** The highest live count of cache `c` seen along the run. */
  ghost function Peak(h: Heap, ops: seq<Op>, c: nat, peak: int): int
    requires SlabInv(h) && LegalRun(h, ops) && c < SLAB_COUNT
    decreases |ops|
  {
    if ops == [] then peak
    else
      StepKeepsInv(h, ops[0]);
      var h' := Step(h, ops[0]);
      Peak(h', ops[1..], c, Max(peak, LiveCount(h', c)))
  }

  lemma StepKeepsTight(h: Heap, op: Op, c: nat, peak: int)
    requires SlabInv(h) && Legal(h, op) && c < SLAB_COUNT && Tight(h, c, peak)
    ensures SlabInv(Step(h, op))
    ensures Tight(Step(h, op), c, Max(peak, LiveCount(Step(h, op), c)))
  {
    hide Inv, SlabOk, Kind, Objects, LiveCount, SlabsOf, CacheAlloc, CacheFree, LiveSet;
    StepKeepsInv(h, op);
    ManyObjects(c);
    var h', n, s := Step(h, op), Objects(c), SlabsOf(h, c);
    LiveBound(h', c);
    match op
    case DoKmalloc(size) =>
      if Kmalloc(h, size).Some? {
        SizeClassIsTight(size);
        CacheAllocCounts(h, SizeClass(size), c);
        MulOne(n, s);
      }
    case DoKfree(chunk) =>
      var id := LiveHasSlab(h, chunk);
      FreeCounts(h, id, chunk, c);
    case _ => SameCounts(h, h', c);
  }

  /** Counts do not depend on the free lists. */
  lemma SameCounts(h: Heap, h': Heap, c: nat)
    requires |h.queues| == 3 * SLAB_COUNT && c < SLAB_COUNT && h'.slabs == h.slabs && h'.queues == h.queues
    ensures LiveCount(h', c) == LiveCount(h, c) && SlabsOf(h', c) == SlabsOf(h, c)
  {
  }

  /** Growth bound: after any run a cache has exactly as many slabs as its peak of live chunks needs. */
  lemma {:induction false} SlabsMatchPeak(h: Heap, ops: seq<Op>, c: nat, peak: int)
    requires SlabInv(h) && LegalRun(h, ops) && c < SLAB_COUNT && Tight(h, c, peak)
    ensures SlabInv(Run(h, ops)) && Tight(Run(h, ops), c, Peak(h, ops, c, peak))
    decreases |ops|
  {
    hide Inv, SlabOk, Tight, Legal, Step;
    if ops == [] {
    } else {
      StepKeepsTight(h, ops[0], c, peak);
      SlabsMatchPeak(Step(h, ops[0]), ops[1..], c, Max(peak, LiveCount(Step(h, ops[0]), c)));
    }
  }

  lemma SlabsAreCeilingOfPeak(l: Lists, ops: seq<Op>, c: nat)
    requires Inv(l) && SlabInv(EmptyHeap(l)) && LegalRun(EmptyHeap(l), ops) && c < SLAB_COUNT
    ensures var peak := Peak(EmptyHeap(l), ops, c, 0);
      && SlabInv(Run(EmptyHeap(l), ops)) && peak >= 0
      && SlabsOf(Run(EmptyHeap(l), ops), c) == (peak + Objects(c) - 1) / Objects(c)
  {
    hide Inv, Run, Peak, LegalRun;
    ManyObjects(c);
    SlabsMatchPeak(EmptyHeap(l), ops, c, 0);
    PeakGrows(EmptyHeap(l), ops, c, 0);
    CeilingIsDivision(SlabsOf(Run(EmptyHeap(l), ops), c), Peak(EmptyHeap(l), ops, c, 0), Objects(c));
  }

  lemma {:induction false} PeakGrows(h: Heap, ops: seq<Op>, c: nat, peak: int)
    requires SlabInv(h) && LegalRun(h, ops) && c < SLAB_COUNT
    ensures Peak(h, ops, c, peak) >= peak
    decreases |ops|
  {
    hide Inv, SlabOk, Step;
    if ops == [] {
    } else {
      StepKeepsInv(h, ops[0]);
      PeakGrows(Step(h, ops[0]), ops[1..], c, Max(peak, LiveCount(Step(h, ops[0]), c)));
    }
  }
}
